/** Parsed JSON documents, the paths that address their nodes, and Python's
    value equality and ASCII lower-casing as the search functions use them. */
module JsonTree {
  import opened Wrappers

  /** A parsed JSON value. An object keeps its keys in stored (insertion) order. */
  datatype Node =
    | Obj(fields: seq<(string, Node)>)
    | Arr(items: seq<Node>)
    | Str(s: string)
    | Int(i: int)
    | Bool(b: bool)
    | Null

  /** One step of a path: a key of an object or an index of an array. */
  datatype Step = Field(name: string) | Index(i: nat)

  /** The empty path denotes the document root. */
  type Path = seq<Step>

  predicate IsContainer(n: Node) {
    n.Obj? || n.Arr?
  }

  predicate DistinctKeys(fields: seq<(string, Node)>) {
    forall i, j :: 0 <= i < j < |fields| ==> fields[i].0 != fields[j].0
  }

  /** A Python dict never holds the same key twice; every parsed document satisfies this. */
  predicate WellFormed(n: Node) {
    match n
    case Obj(fields) =>
      && DistinctKeys(fields)
      && forall i :: 0 <= i < |fields| ==> WellFormed(fields[i].1)
    case Arr(items) => forall i :: 0 <= i < |items| ==> WellFormed(items[i])
    case _ => true
  }

  /** Position of the first entry stored under key `k` at or after `from`. */
  function KeyIndexFrom(fields: seq<(string, Node)>, k: string, from: nat): (r: Option<nat>)
    requires from <= |fields|
    ensures r.Some? ==> from <= r.value < |fields| && fields[r.value].0 == k
    ensures r.Some? ==> forall j :: from <= j < r.value ==> fields[j].0 != k
    ensures r.None? ==> forall j :: from <= j < |fields| ==> fields[j].0 != k
    decreases |fields| - from
  {
    if from == |fields| then None
    else if fields[from].0 == k then Some(from)
    else KeyIndexFrom(fields, k, from + 1)
  }

  /** Position of the entry that `obj[k]` reads, if `k` is a key of the object. */
  function KeyIndex(fields: seq<(string, Node)>, k: string): (r: Option<nat>)
    ensures r.Some? ==> r.value < |fields| && fields[r.value].0 == k
    ensures r.Some? ==> forall j :: 0 <= j < r.value ==> fields[j].0 != k
    ensures r.None? ==> forall j :: 0 <= j < |fields| ==> fields[j].0 != k
  {
    KeyIndexFrom(fields, k, 0)
  }

  /** The children of a node in iteration order (`dict.items()`, `enumerate(list)`),
      each with the step that reaches it. Scalars have no children. */
  function Children(n: Node): (cs: seq<(Step, Node)>)
    ensures forall i :: 0 <= i < |cs| ==> cs[i].1 < n
    ensures n.Obj? ==> |cs| == |n.fields|
    ensures n.Obj? ==> forall i :: 0 <= i < |cs| ==> cs[i] == (Field(n.fields[i].0), n.fields[i].1)
    ensures n.Arr? ==> |cs| == |n.items|
    ensures n.Arr? ==> forall i :: 0 <= i < |cs| ==> cs[i] == (Index(i), n.items[i])
    ensures !IsContainer(n) ==> cs == []
  {
    match n
    case Obj(fields) => seq(|fields|, i requires 0 <= i < |fields| => (Field(fields[i].0), fields[i].1))
    case Arr(items) => seq(|items|, i requires 0 <= i < |items| => (Index(i), items[i]))
    case _ => []
  }

  /** One strict step: `obj[k]` for a present key, `arr[i]` for an in-range index. */
  function StepInto(n: Node, s: Step): Option<Node> {
    match (n, s)
    case (Obj(fields), Field(k)) =>
      (match KeyIndex(fields, k)
       case Some(j) => Some(fields[j].1)
       case None => None)
    case (Arr(items), Index(i)) => if i < |items| then Some(items[i]) else None
    case _ => None
  }

  /** The node a path addresses, if every step is a present key or an in-range index. */
  function Resolve(n: Node, p: Path): Option<Node>
    decreases |p|
  {
    if |p| == 0 then Some(n)
    else
      match StepInto(n, p[0])
      case Some(c) => Resolve(c, p[1..])
      case None => None
  }

  /** Python's `==` on parsed JSON values: dicts compare as key/value sets (order
      ignored), lists element-wise, scalars by type and value. */
  predicate PyEq(a: Node, b: Node)
    decreases a
  {
    match (a, b)
    case (Obj(f), Obj(g)) =>
      && |f| == |g|
      && forall i :: 0 <= i < |f| ==>
           exists j :: 0 <= j < |g| && g[j].0 == f[i].0 && PyEq(f[i].1, g[j].1)
    case (Arr(x), Arr(y)) =>
      |x| == |y| && forall i :: 0 <= i < |x| ==> PyEq(x[i], y[i])
    case (Str(s), Str(t)) => s == t
    case (Int(i), Int(j)) => i == j
    case (Bool(p), Bool(q)) => p == q
    case (Null, Null) => true
    case _ => false
  }

  /** `str.lower()` restricted to ASCII letters. */
  function LowerChar(c: char): char {
    if 'A' <= c <= 'Z' then (c as int - 'A' as int + 'a' as int) as char else c
  }

  function Lower(s: string): (r: string)
    ensures |r| == |s|
    ensures forall i :: 0 <= i < |s| ==> r[i] == LowerChar(s[i])
  {
    seq(|s|, i requires 0 <= i < |s| => LowerChar(s[i]))
  }

  /** What the case-folding finder compares: a string lower-cased, anything else unchanged
      (strings nested inside a container are not lower-cased). */
  function Fold(n: Node): Node {
    if n.Str? then Str(Lower(n.s)) else n
  }

  // ---------------------------------------------------------------------------
  // Facts about paths

  /** Lower-casing twice is lower-casing once. */
  lemma LowerIdempotent(s: string)
    ensures Lower(Lower(s)) == Lower(s)
  {
  }

  /** In a well-formed node, each child's own step leads back to exactly that child. */
  lemma ChildStep(n: Node, i: nat)
    requires WellFormed(n)
    requires i < |Children(n)|
    ensures StepInto(n, Children(n)[i].0) == Some(Children(n)[i].1)
    ensures WellFormed(Children(n)[i].1)
  {
  }

  /** A step that succeeds always reaches one of the node's children. */
  lemma StepIntoIsChild(n: Node, s: Step) returns (i: nat)
    requires StepInto(n, s).Some?
    ensures i < |Children(n)|
    ensures Children(n)[i] == (s, StepInto(n, s).value)
  {
    match n
    case Obj(fields) =>
      i := KeyIndex(fields, s.name).value;
    case Arr(items) =>
      i := s.i;
  }

  /** Resolving `p + q` is resolving `p`, then `q` from where `p` led. */
  lemma {:induction false} ResolveConcat(n: Node, p: Path, q: Path)
    ensures Resolve(n, p + q) ==
      (match Resolve(n, p) case Some(m) => Resolve(m, q) case None => None)
    decreases |p|
  {
    if |p| == 0 {
      assert p + q == q;
    } else {
      assert (p + q)[0] == p[0];
      assert (p + q)[1..] == p[1..] + q;
      match StepInto(n, p[0])
      case Some(c) => ResolveConcat(c, p[1..], q);
      case None =>
    }
  }

  /** Resolving one more step. */
  lemma ResolveSnoc(n: Node, p: Path, s: Step)
    ensures Resolve(n, p + [s]) ==
      (match Resolve(n, p) case Some(m) => StepInto(m, s) case None => None)
  {
    ResolveConcat(n, p, [s]);
    match Resolve(n, p)
    case Some(m) =>
      assert Resolve(m, [s]) == StepInto(m, s) by {
        assert [s][1..] == [];
      }
    case None =>
  }

  /** Every prefix of a resolving path resolves. */
  lemma ResolvePrefix(n: Node, p: Path, j: nat)
    requires Resolve(n, p).Some?
    requires j <= |p|
    ensures Resolve(n, p[..j]).Some?
  {
    ResolveConcat(n, p[..j], p[j..]);
    assert p[..j] + p[j..] == p;
  }

  /** Resolving a child step first: `Resolve(n, [s] + q)` is `Resolve(child, q)`. */
  lemma ResolveCons(n: Node, s: Step, q: Path)
    ensures Resolve(n, [s] + q) ==
      (match StepInto(n, s) case Some(c) => Resolve(c, q) case None => None)
  {
  }

  /** Sub-documents of a well-formed document are well-formed. */
  lemma {:induction false} WellFormedResolve(n: Node, p: Path)
    requires WellFormed(n)
    requires Resolve(n, p).Some?
    ensures WellFormed(Resolve(n, p).value)
    decreases |p|
  {
    if |p| > 0 {
      var i := StepIntoIsChild(n, p[0]);
      ChildStep(n, i);
      WellFormedResolve(Children(n)[i].1, p[1..]);
    }
  }

  /** A non-empty path resolves only from a container. */
  lemma ResolveFromScalar(n: Node, p: Path)
    requires |p| > 0
    requires Resolve(n, p).Some?
    ensures IsContainer(n)
  {
  }
}
