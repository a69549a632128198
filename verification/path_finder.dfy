/** The two recursive finders of json_lib.py and import_requests.py:
    `find_all_paths_of_value` (exact in import_requests.py, case-folding in
    json_lib.py) and `find_all_paths_of_key`. Both are one pruned depth-first
    search that tests every child of every container and does not descend into a
    child that already matched; they differ only in the test. */
module PathFinder {
  import opened Wrappers
  import opened JsonTree

  /** How `find_all_paths_of_value` compares: import_requests.py uses plain `==`,
      json_lib.py lower-cases strings on both sides first. */
  datatype Mode = Exact | CaseFold

  /** What a search looks for. */
  datatype Probe = ValueProbe(mode: Mode, target: Node) | KeyProbe(key: string)

  predicate Matches(mode: Mode, v: Node, target: Node) {
    match mode
    case Exact => PyEq(v, target)
    case CaseFold => PyEq(Fold(v), Fold(target))
  }

  /** The test applied to the child `v` reached by step `s`. The key finder tests
      only the key, so an array element (reached by an index) never matches it. */
  predicate StepHits(probe: Probe, s: Step, v: Node) {
    match probe
    case ValueProbe(mode, target) => Matches(mode, v, target)
    case KeyProbe(key) => s == Field(key)
  }

  // ---------------------------------------------------------------------------
  // The search

  /** All paths below `n` (each prefixed by `prefix`, the path of `n`) that the
      generator yields, in yield order. `n` itself is never compared. */
  function Search(probe: Probe, n: Node, prefix: Path): seq<Path>
    decreases n, 1, 0
  {
    SearchFrom(probe, n, prefix, 0)
  }

  /** The yields of the children of `n` from the `i`-th one on. */
  function SearchFrom(probe: Probe, n: Node, prefix: Path, i: nat): seq<Path>
    requires i <= |Children(n)|
    decreases n, 0, |Children(n)| - i + 1
  {
    if i == |Children(n)| then []
    else Part(probe, n, prefix, i) + SearchFrom(probe, n, prefix, i + 1)
  }

  /** The yields contributed by the `i`-th child: its own path when it matches,
      otherwise everything below it when it is a container. (The key finder's
      list branch recurses into every element unconditionally; recursing into a
      scalar yields nothing, so this is the same.) */
  function Part(probe: Probe, n: Node, prefix: Path, i: nat): seq<Path>
    requires i < |Children(n)|
    decreases n, 0, 0
  {
    var s := Children(n)[i].0;
    var v := Children(n)[i].1;
    if StepHits(probe, s, v) then [prefix + [s]]
    else if IsContainer(v) then Search(probe, v, prefix + [s])
    else []
  }

  // ---------------------------------------------------------------------------
  // What a yielded path is: the characterisation

  /** The path `q` (relative to `n`) is non-empty, resolves, and its last step and
      the node it reaches pass the test. */
  predicate HitsAt(probe: Probe, n: Node, q: Path) {
    && |q| > 0
    && match Resolve(n, q)
       case Some(v) => StepHits(probe, q[|q| - 1], v)
       case None => false
  }

  /** `q` passes the test and no shorter non-empty prefix of it does: the search
      stops at the first match along a path. */
  predicate Hit(probe: Probe, n: Node, q: Path) {
    && HitsAt(probe, n, q)
    && forall j :: 0 < j < |q| ==> !HitsAt(probe, n, q[..j])
  }

  /** `p` lies below `prefix` and its remainder is a hit relative to `n`. */
  predicate InSearch(probe: Probe, n: Node, prefix: Path, p: Path) {
    && |prefix| < |p|
    && p[..|prefix|] == prefix
    && Hit(probe, n, p[|prefix|..])
  }

  lemma HitsAtCons(probe: Probe, n: Node, i: nat, q: Path)
    requires WellFormed(n)
    requires i < |Children(n)|
    ensures HitsAt(probe, n, [Children(n)[i].0] + q) ==
      if q == [] then StepHits(probe, Children(n)[i].0, Children(n)[i].1)
      else HitsAt(probe, Children(n)[i].1, q)
  {
    var s := Children(n)[i].0;
    ChildStep(n, i);
    ResolveCons(n, s, q);
    var q1 := [s] + q;
    if q != [] {
      assert q1[|q1| - 1] == q[|q| - 1];
    } else {
      assert q1 == [s];
    }
  }

  /** A hit through the `i`-th child is either that child itself (when it matches)
      or a hit inside it (when it does not). */
  lemma HitCons(probe: Probe, n: Node, i: nat, q: Path)
    requires WellFormed(n)
    requires i < |Children(n)|
    ensures Hit(probe, n, [Children(n)[i].0] + q) <==>
      || (q == [] && StepHits(probe, Children(n)[i].0, Children(n)[i].1))
      || (q != [] && !StepHits(probe, Children(n)[i].0, Children(n)[i].1)
          && Hit(probe, Children(n)[i].1, q))
  {
    var s := Children(n)[i].0;
    var c := Children(n)[i].1;
    var q1 := [s] + q;
    HitsAtCons(probe, n, i, q);
    forall j | 0 < j < |q1|
      ensures HitsAt(probe, n, q1[..j]) ==
        if j == 1 then StepHits(probe, s, c) else HitsAt(probe, c, q[..j - 1])
    {
      assert q1[..j] == [s] + q[..j - 1];
      HitsAtCons(probe, n, i, q[..j - 1]);
    }
    if q != [] {
      assert HitsAt(probe, n, q1[..1]) == StepHits(probe, s, c);
      if Hit(probe, c, q) && !StepHits(probe, s, c) {
        forall j | 0 < j < |q1| ensures !HitsAt(probe, n, q1[..j]) {
          if j > 1 {
            assert !HitsAt(probe, c, q[..j - 1]);
          }
        }
      }
      if Hit(probe, n, q1) {
        forall j | 0 < j < |q| ensures !HitsAt(probe, c, q[..j]) {
          assert !HitsAt(probe, n, q1[..j + 1]);
        }
      }
    }
  }

  /** A hit starts with the step of one of the node's children. */
  lemma HitHead(probe: Probe, n: Node, q: Path) returns (i: nat)
    requires Hit(probe, n, q)
    ensures i < |Children(n)| && Children(n)[i].0 == q[0]
  {
    assert StepInto(n, q[0]).Some?;
    i := StepIntoIsChild(n, q[0]);
  }

  /** Splits a path below `prefix` into its first step and the rest. */
  lemma SplitBelow(prefix: Path, p: Path)
    requires |prefix| < |p|
    ensures p[|prefix|..] == [p[|prefix|]] + p[|prefix| + 1..]
    ensures (p[..|prefix|] == prefix && p[|prefix|] == p[|prefix|]) ==>
      p[..|prefix| + 1] == prefix + [p[|prefix|]]
  {
  }

  lemma {:induction false} PartExact(probe: Probe, n: Node, prefix: Path, i: nat, p: Path)
    requires WellFormed(n)
    requires i < |Children(n)|
    ensures p in Part(probe, n, prefix, i) <==>
      InSearch(probe, n, prefix, p) && p[|prefix|] == Children(n)[i].0
    decreases n, 0, 0
  {
    var s := Children(n)[i].0;
    var c := Children(n)[i].1;
    var pre := prefix + [s];
    ChildStep(n, i);
    if |prefix| < |p| {
      SplitBelow(prefix, p);
      HitCons(probe, n, i, p[|prefix| + 1..]);
    }
    if StepHits(probe, s, c) {
      if p == pre {
        assert p[..|prefix|] == prefix;
        assert p[|prefix|..] == [s] + [];
        HitCons(probe, n, i, []);
      }
      if InSearch(probe, n, prefix, p) && p[|prefix|] == s {
        assert p[|prefix| + 1..] == [];
        assert p == p[..|prefix| + 1];
      }
    } else if IsContainer(c) {
      SearchExact(probe, c, pre, p);
      if |pre| < |p| {
        assert p[|pre|..] == p[|prefix| + 1..];
        if p[..|pre|] == pre {
          assert p[..|prefix|] == pre[..|prefix|];
          assert p[|prefix|] == pre[|prefix|];
        }
      }
    } else {
      if InSearch(probe, n, prefix, p) && p[|prefix|] == s {
        var q := p[|prefix| + 1..];
        if q != [] {
          ResolveFromScalar(c, q);
        }
      }
    }
  }

  lemma {:induction false} SearchFromSound(probe: Probe, n: Node, prefix: Path, i: nat, p: Path)
    requires WellFormed(n)
    requires i <= |Children(n)|
    requires p in SearchFrom(probe, n, prefix, i)
    ensures InSearch(probe, n, prefix, p)
    decreases n, 0, |Children(n)| - i + 1
  {
    if i < |Children(n)| {
      if p in Part(probe, n, prefix, i) {
        PartExact(probe, n, prefix, i, p);
      } else {
        SearchFromSound(probe, n, prefix, i + 1, p);
      }
    }
  }

  lemma {:induction false} SearchFromComplete(probe: Probe, n: Node, prefix: Path, i: nat, j: nat, p: Path)
    requires WellFormed(n)
    requires i <= j < |Children(n)|
    requires InSearch(probe, n, prefix, p)
    requires p[|prefix|] == Children(n)[j].0
    ensures p in SearchFrom(probe, n, prefix, i)
    decreases n, 0, |Children(n)| - i + 1
  {
    if i == j {
      PartExact(probe, n, prefix, i, p);
    } else {
      SearchFromComplete(probe, n, prefix, i + 1, j, p);
    }
  }

  /** The search yields exactly the pruned hits below `prefix`. */
  lemma {:induction false} SearchExact(probe: Probe, n: Node, prefix: Path, p: Path)
    requires WellFormed(n)
    ensures p in Search(probe, n, prefix) <==> InSearch(probe, n, prefix, p)
    decreases n, 1, 0
  {
    if p in Search(probe, n, prefix) {
      SearchFromSound(probe, n, prefix, 0, p);
    }
    if InSearch(probe, n, prefix, p) {
      var j := HitHead(probe, n, p[|prefix|..]);
      SearchFromComplete(probe, n, prefix, 0, j, p);
    }
  }

  /** `p` is yielded from the root iff it is a hit relative to the document. */
  lemma SearchRootExact(probe: Probe, doc: Node, p: Path)
    requires WellFormed(doc)
    ensures p in Search(probe, doc, []) <==> Hit(probe, doc, p)
  {
    SearchExact(probe, doc, [], p);
    assert p[0..] == p;
  }

  // ---------------------------------------------------------------------------
  // Document order of the yields

  /** Which child (by stored key position or by index) a step selects. */
  function ChildPos(n: Node, s: Step): nat {
    match (n, s)
    case (Obj(fields), Field(k)) =>
      (match KeyIndex(fields, k) case Some(j) => j case None => 0)
    case (Arr(_), Index(i)) => i
    case _ => 0
  }

  /** The child positions a path selects, as far as it resolves. */
  function Positions(n: Node, q: Path): seq<nat>
    decreases |q|
  {
    if |q| == 0 then []
    else
      match StepInto(n, q[0])
      case Some(c) => [ChildPos(n, q[0])] + Positions(c, q[1..])
      case None => []
  }

  /** Depth-first pre-order on position sequences: an ancestor comes before its
      descendants, and otherwise the first differing position decides. */
  predicate PreOrderBefore(a: seq<nat>, b: seq<nat>)
    decreases |a|
  {
    if |a| == 0 then |b| > 0
    else if |b| == 0 then false
    else a[0] < b[0] || (a[0] == b[0] && PreOrderBefore(a[1..], b[1..]))
  }

  lemma {:induction false} PreOrderIrreflexive(a: seq<nat>)
    ensures !PreOrderBefore(a, a)
    decreases |a|
  {
    if |a| > 0 {
      PreOrderIrreflexive(a[1..]);
    }
  }

  /** Positions of `p` relative to the node at `prefix`. */
  function RelPositions(n: Node, prefix: Path, p: Path): seq<nat> {
    if |prefix| <= |p| then Positions(n, p[|prefix|..]) else []
  }

  predicate Ordered(n: Node, prefix: Path, r: seq<Path>) {
    forall a, b :: 0 <= a < b < |r| ==>
      PreOrderBefore(RelPositions(n, prefix, r[a]), RelPositions(n, prefix, r[b]))
  }

  lemma ChildPosOf(n: Node, i: nat)
    requires WellFormed(n)
    requires i < |Children(n)|
    ensures ChildPos(n, Children(n)[i].0) == i
  {
  }

  /** Relative positions of a path through the `i`-th child start with `i`. */
  lemma RelPositionsCons(n: Node, prefix: Path, i: nat, p: Path)
    requires WellFormed(n)
    requires i < |Children(n)|
    requires |prefix| < |p|
    requires p[|prefix|] == Children(n)[i].0
    ensures RelPositions(n, prefix, p) ==
      [i] + RelPositions(Children(n)[i].1, prefix + [Children(n)[i].0], p)
  {
    var s := Children(n)[i].0;
    var c := Children(n)[i].1;
    ChildStep(n, i);
    ChildPosOf(n, i);
    var q := p[|prefix|..];
    assert q[0] == s;
    assert q[1..] == p[|prefix| + 1..];
    assert Positions(n, q) == [i] + Positions(c, q[1..]);
    assert |prefix + [s]| == |prefix| + 1;
    assert RelPositions(c, prefix + [s], p) == Positions(c, p[|prefix| + 1..]);
  }

  lemma {:induction false} SearchFromFirstPos(probe: Probe, n: Node, prefix: Path, i: nat, p: Path)
    requires WellFormed(n)
    requires i <= |Children(n)|
    requires p in SearchFrom(probe, n, prefix, i)
    ensures |prefix| < |p|
    ensures exists j :: i <= j < |Children(n)| && p[|prefix|] == Children(n)[j].0
    decreases |Children(n)| - i
  {
    if p in Part(probe, n, prefix, i) {
      PartExact(probe, n, prefix, i, p);
    } else {
      SearchFromFirstPos(probe, n, prefix, i + 1, p);
    }
  }

  lemma {:induction false} PartOrdered(probe: Probe, n: Node, prefix: Path, i: nat)
    requires WellFormed(n)
    requires i < |Children(n)|
    ensures Ordered(n, prefix, Part(probe, n, prefix, i))
    decreases n, 0, 0
  {
    var s := Children(n)[i].0;
    var c := Children(n)[i].1;
    var r := Part(probe, n, prefix, i);
    if !StepHits(probe, s, c) && IsContainer(c) {
      ChildStep(n, i);
      SearchOrdered(probe, c, prefix + [s]);
      forall a, b | 0 <= a < b < |r|
        ensures PreOrderBefore(RelPositions(n, prefix, r[a]), RelPositions(n, prefix, r[b]))
      {
        PartExact(probe, n, prefix, i, r[a]);
        PartExact(probe, n, prefix, i, r[b]);
        RelPositionsCons(n, prefix, i, r[a]);
        RelPositionsCons(n, prefix, i, r[b]);
      }
    }
  }

  lemma {:induction false} SearchFromOrdered(probe: Probe, n: Node, prefix: Path, i: nat)
    requires WellFormed(n)
    requires i <= |Children(n)|
    ensures Ordered(n, prefix, SearchFrom(probe, n, prefix, i))
    decreases n, 0, |Children(n)| - i + 1
  {
    if i < |Children(n)| {
      var front := Part(probe, n, prefix, i);
      var back := SearchFrom(probe, n, prefix, i + 1);
      PartOrdered(probe, n, prefix, i);
      SearchFromOrdered(probe, n, prefix, i + 1);
      var r := front + back;
      forall a, b | 0 <= a < b < |r|
        ensures PreOrderBefore(RelPositions(n, prefix, r[a]), RelPositions(n, prefix, r[b]))
      {
        if b < |front| {
          assert r[a] == front[a] && r[b] == front[b];
        } else if a >= |front| {
          assert r[a] == back[a - |front|] && r[b] == back[b - |front|];
        } else {
          assert r[a] in front && r[b] in back;
          PartExact(probe, n, prefix, i, r[a]);
          RelPositionsCons(n, prefix, i, r[a]);
          SearchFromFirstPos(probe, n, prefix, i + 1, r[b]);
          var j :| i + 1 <= j < |Children(n)| && r[b][|prefix|] == Children(n)[j].0;
          PartExact(probe, n, prefix, j, r[b]);
          RelPositionsCons(n, prefix, j, r[b]);
        }
      }
    }
  }

  lemma {:induction false} SearchOrdered(probe: Probe, n: Node, prefix: Path)
    requires WellFormed(n)
    ensures Ordered(n, prefix, Search(probe, n, prefix))
    decreases n, 1, 0
  {
    SearchFromOrdered(probe, n, prefix, 0);
  }

  // ---------------------------------------------------------------------------
  // The finders as the source defines them

  /** The node at `q` exists and compares equal to `target` under `mode`. */
  predicate MatchAt(mode: Mode, target: Node, doc: Node, q: Path) {
    match Resolve(doc, q)
    case Some(v) => Matches(mode, v, target)
    case None => false
  }

  /** Every yield from the root is a hit, in document pre-order. */
  lemma RootYields(probe: Probe, doc: Node)
    ensures WellFormed(doc) ==> forall p :: p in Search(probe, doc, []) ==> Hit(probe, doc, p)
    ensures WellFormed(doc) ==> forall a, b :: 0 <= a < |Search(probe, doc, [])| && a < b < |Search(probe, doc, [])| ==>
      PreOrderBefore(Positions(doc, Search(probe, doc, [])[a]), Positions(doc, Search(probe, doc, [])[b]))
  {
    if WellFormed(doc) {
      var r := Search(probe, doc, []);
      forall p | p in r ensures Hit(probe, doc, p) {
        SearchRootExact(probe, doc, p);
      }
      SearchOrdered(probe, doc, []);
      forall a, b | 0 <= a < b < |r|
        ensures PreOrderBefore(Positions(doc, r[a]), Positions(doc, r[b]))
      {
        assert r[a][0..] == r[a] && r[b][0..] == r[b];
        assert RelPositions(doc, [], r[a]) == Positions(doc, r[a]);
        assert RelPositions(doc, [], r[b]) == Positions(doc, r[b]);
      }
    }
  }

  /** `find_all_paths_of_value` of import_requests.py: plain `==` comparison. */
  function FindAllPathsOfValue(value: Node, doc: Node): (r: seq<Path>)
    ensures WellFormed(doc) ==> forall p :: p in r ==> |p| > 0 && MatchAt(Exact, value, doc, p)
    ensures WellFormed(doc) ==> forall a, b :: 0 <= a < b < |r| ==>
      PreOrderBefore(Positions(doc, r[a]), Positions(doc, r[b]))
  {
    RootYields(ValueProbe(Exact, value), doc);
    Search(ValueProbe(Exact, value), doc, [])
  }

  /** `find_all_paths_of_value` of json_lib.py: strings lower-cased on both sides. */
  function FindAllPathsOfValueFolded(value: Node, doc: Node): (r: seq<Path>)
    ensures WellFormed(doc) ==> forall p :: p in r ==> |p| > 0 && MatchAt(CaseFold, value, doc, p)
    ensures WellFormed(doc) ==> forall a, b :: 0 <= a < b < |r| ==>
      PreOrderBefore(Positions(doc, r[a]), Positions(doc, r[b]))
  {
    RootYields(ValueProbe(CaseFold, value), doc);
    Search(ValueProbe(CaseFold, value), doc, [])
  }

  /** `find_all_paths_of_key`, identical in json_lib.py and import_requests.py. */
  function FindAllPathsOfKey(key: string, doc: Node): (r: seq<Path>)
    ensures WellFormed(doc) ==> forall p :: p in r ==>
      |p| > 0 && Resolve(doc, p).Some? && p[|p| - 1] == Field(key)
    ensures WellFormed(doc) ==> forall a, b :: 0 <= a < b < |r| ==>
      PreOrderBefore(Positions(doc, r[a]), Positions(doc, r[b]))
  {
    RootYields(KeyProbe(key), doc);
    Search(KeyProbe(key), doc, [])
  }

  /** A non-empty path to a node equal to the target, with no shorter non-empty
      prefix leading to one (the search does not look inside a match). */
  predicate OutermostMatch(mode: Mode, value: Node, doc: Node, p: Path) {
    && |p| > 0
    && MatchAt(mode, value, doc, p)
    && forall j :: 0 < j < |p| ==> !MatchAt(mode, value, doc, p[..j])
  }

  /** Value finder, both modes: a path is yielded iff it is an outermost match. */
  lemma ValuePathsExact(mode: Mode, value: Node, doc: Node, p: Path)
    requires WellFormed(doc)
    ensures p in Search(ValueProbe(mode, value), doc, []) <==> OutermostMatch(mode, value, doc, p)
  {
    SearchRootExact(ValueProbe(mode, value), doc, p);
  }

  /** Key finder: a path is yielded iff it resolves, ends in the key, and no
      earlier step is that key (there is no recursion below a matching key). */
  lemma KeyPathsExact(key: string, doc: Node, p: Path)
    requires WellFormed(doc)
    ensures p in FindAllPathsOfKey(key, doc) <==>
      && |p| > 0
      && Resolve(doc, p).Some?
      && p[|p| - 1] == Field(key)
      && forall j :: 0 <= j < |p| - 1 ==> p[j] != Field(key)
  {
    var probe := KeyProbe(key);
    SearchRootExact(probe, doc, p);
    if Hit(probe, doc, p) {
      forall j | 0 <= j < |p| - 1 ensures p[j] != Field(key) {
        ResolvePrefix(doc, p, j + 1);
        assert !HitsAt(probe, doc, p[..j + 1]);
        assert p[..j + 1][j] == p[j];
      }
    }
    if && |p| > 0 && Resolve(doc, p).Some? && p[|p| - 1] == Field(key)
       && forall j :: 0 <= j < |p| - 1 ==> p[j] != Field(key)
    {
      forall j | 0 < j < |p| ensures !HitsAt(probe, doc, p[..j]) {
        assert p[..j][j - 1] == p[j - 1];
      }
    }
  }

  lemma {:induction false} SameTestPart(p1: Probe, p2: Probe, n: Node, prefix: Path, i: nat)
    requires forall s, v :: StepHits(p1, s, v) == StepHits(p2, s, v)
    requires i < |Children(n)|
    ensures Part(p1, n, prefix, i) == Part(p2, n, prefix, i)
    decreases n, 0, 0
  {
    var s := Children(n)[i].0;
    var v := Children(n)[i].1;
    if !StepHits(p1, s, v) && IsContainer(v) {
      SameTestSearch(p1, p2, v, prefix + [s]);
    }
  }

  lemma {:induction false} SameTestSearchFrom(p1: Probe, p2: Probe, n: Node, prefix: Path, i: nat)
    requires forall s, v :: StepHits(p1, s, v) == StepHits(p2, s, v)
    requires i <= |Children(n)|
    ensures SearchFrom(p1, n, prefix, i) == SearchFrom(p2, n, prefix, i)
    decreases n, 0, |Children(n)| - i + 1
  {
    if i < |Children(n)| {
      SameTestPart(p1, p2, n, prefix, i);
      SameTestSearchFrom(p1, p2, n, prefix, i + 1);
    }
  }

  /** Two probes that agree on every test yield the same paths in the same order. */
  lemma {:induction false} SameTestSearch(p1: Probe, p2: Probe, n: Node, prefix: Path)
    requires forall s, v :: StepHits(p1, s, v) == StepHits(p2, s, v)
    ensures Search(p1, n, prefix) == Search(p2, n, prefix)
    decreases n, 1, 0
  {
    SameTestSearchFrom(p1, p2, n, prefix, 0);
  }

  /** Case folding: targets that lower-case alike ("ABC" and "abc") yield the identical
      path sequence on every document. */
  lemma FoldedTargetsAgree(t1: Node, t2: Node, doc: Node)
    requires Fold(t1) == Fold(t2)
    ensures FindAllPathsOfValueFolded(t1, doc) == FindAllPathsOfValueFolded(t2, doc)
  {
    SameTestSearch(ValueProbe(CaseFold, t1), ValueProbe(CaseFold, t2), doc, []);
  }

  lemma UpperAndLowerTargetsAgree(doc: Node)
    ensures FindAllPathsOfValueFolded(Str("ABC"), doc) == FindAllPathsOfValueFolded(Str("abc"), doc)
  {
    assert Lower("ABC") == "abc";
    FoldedTargetsAgree(Str("ABC"), Str("abc"), doc);
  }

  /** The exact finder is case-sensitive; the case-folding one is not. */
  lemma ExactFinderIsCaseSensitive()
    ensures FindAllPathsOfValue(Str("ABC"), Obj([("k", Str("abc"))])) == []
    ensures FindAllPathsOfValueFolded(Str("ABC"), Obj([("k", Str("abc"))])) == [[Field("k")]]
  {
    var doc := Obj([("k", Str("abc"))]);
    assert Children(doc) == [(Field("k"), Str("abc"))];
    assert Lower("ABC") == "abc" && Lower("abc") == "abc";
    assert Part(ValueProbe(Exact, Str("ABC")), doc, [], 0) == [];
    assert Fold(Str("abc")) == Fold(Str("ABC"));
    assert StepHits(ValueProbe(CaseFold, Str("ABC")), Field("k"), Str("abc"));
    assert [] + [Field("k")] == [Field("k")];
    assert Part(ValueProbe(CaseFold, Str("ABC")), doc, [], 0) == [[Field("k")]];
  }
}
