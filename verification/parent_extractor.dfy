/** `extract_parent_object`: validate the call, pick the stopping index, then walk
    the path from the document root and return the node reached at that index. */
module ParentExtractor {
  import opened Wrappers
  import opened JsonTree

  /** A Python argument as the extractor inspects it. A Python `bool` is an `int`
      here (`True` behaves as 1 and `False` as 0 in every test below), so it is
      an `AInt`. `AOther` is any other value: its `str()` text and whether it
      compares equal to 0 (as `0.0` does) are all the extractor looks at. */
  datatype Arg = Absent | AInt(i: int) | AStr(s: string) | AOther(text: string, isZero: bool)

  /** An element of the `path` argument. */
  datatype Elem = EInt(i: int) | EStr(s: string) | EOther

  /** The `path` argument: a Python list, or some other value. */
  datatype PathArg = PathList(elems: seq<Elem>) | NotAList

  /** The arguments of one call: `extract_parent_object(doc, path, keyOrLevel, level=…, key=…)`. */
  datatype Call = Call(doc: Node, path: PathArg, keyOrLevel: Arg, level: Arg, key: Arg)

  /** What a call returns: the node found, one of the error strings, or a raised `TypeError`. */
  datatype Outcome = Value(node: Node) | Message(text: string) | TypeError

  const ThirdArgumentMsg := "The third argument must be either a string (key) or an integer (level)."
  const NotContainerMsg := "'json_obj' must be a dictionary or list."
  const LevelOrKeyMsg := "Specify either 'level' or 'key', not both or neither."
  const EmptyPathMsg := "'path' must be a non-empty list."
  const ElementTypeMsg := "Elements in 'path' must be either integers or strings."
  const LeadingZerosMsg := "'level' should not have leading zeros."
  const NotPositiveMsg := "'level' must be a positive integer."
  const LevelExceedsMsg := "'level' exceeds the length of the path."
  const KeyNotStringMsg := "'key' must be a string."
  const KeyNotFoundMsg := "Key not found in path."
  const InvalidKeyMsg := "Invalid key in path."
  const InvalidIndexMsg := "Invalid index in path."
  const ExtractionFailedMsg := "Extraction failed."

  /** The ten messages the validation can return, one per check. */
  const ValidationMessages: set<string> := {
    ThirdArgumentMsg, NotContainerMsg, LevelOrKeyMsg, EmptyPathMsg, ElementTypeMsg,
    LeadingZerosMsg, NotPositiveMsg, LevelExceedsMsg, KeyNotStringMsg, KeyNotFoundMsg
  }

  // ---------------------------------------------------------------------------
  // `str(level)` and the leading-zero guard

  function DigitChar(d: nat): char
    requires d < 10
  {
    "0123456789"[d]
  }

  /** The decimal digits of `n`, most significant first. */
  function Decimal(n: nat): (r: string)
    ensures |r| > 0
  {
    if n < 10 then [DigitChar(n)] else Decimal(n / 10) + [DigitChar(n % 10)]
  }

  /** `str(i)` for an integer. */
  function IntText(i: int): string {
    if i < 0 then "-" + Decimal(-i) else Decimal(i)
  }

  /** `str(a)` for the values the level argument can hold. */
  function Text(a: Arg): string {
    match a
    case Absent => "None"
    case AInt(i) => IntText(i)
    case AStr(s) => s
    case AOther(t, _) => t
  }

  /** `level != 0`: only an integer 0 or a value equal to it (such as `0.0`) compares equal. */
  predicate DiffersFromZero(a: Arg) {
    match a
    case AInt(i) => i != 0
    case AOther(_, z) => !z
    case _ => true
  }

  predicate StartsWithZero(t: string) {
    |t| > 0 && t[0] == '0'
  }

  /** The decimal text of a number starts with '0' only for zero itself. */
  lemma {:induction false} DecimalLeadingZero(n: nat)
    ensures StartsWithZero(Decimal(n)) ==> n == 0
    decreases n
  {
    if n >= 10 {
      DecimalLeadingZero(n / 10);
      assert Decimal(n)[0] == Decimal(n / 10)[0];
    }
  }

  /** Hence the leading-zero guard never fires for an integer level. */
  lemma IntegerLevelHasNoLeadingZero(i: int)
    ensures !(StartsWithZero(Text(AInt(i))) && DiffersFromZero(AInt(i)))
  {
    if i >= 0 {
      DecimalLeadingZero(i);
    }
  }

  // ---------------------------------------------------------------------------
  // Validation

  predicate IsKey(e: Elem) {
    e.EInt? || e.EStr?
  }

  predicate AllKeys(elems: seq<Elem>) {
    forall j :: 0 <= j < |elems| ==> IsKey(elems[j])
  }

  /** `path.index(key)`: the first element equal to the string `k`. */
  function IndexOfKey(elems: seq<Elem>, k: string): (r: Option<nat>)
    ensures r.Some? ==> r.value < |elems| && elems[r.value] == EStr(k)
    ensures r.Some? ==> forall j :: 0 <= j < r.value ==> elems[j] != EStr(k)
    ensures r.None? ==> forall j :: 0 <= j < |elems| ==> elems[j] != EStr(k)
  {
    if |elems| == 0 then None
    else if elems[0] == EStr(k) then Some(0)
    else match IndexOfKey(elems[1..], k)
      case Some(j) => Some(j + 1)
      case None => None
  }

  /** The level in force once a positional integer has overridden `level=`. */
  function EffectiveLevel(c: Call): Arg {
    if c.keyOrLevel.AInt? then c.keyOrLevel else c.level
  }

  /** The key in force once a positional string has overridden `key=`. */
  function EffectiveKey(c: Call): Arg {
    if c.keyOrLevel.AStr? then c.keyOrLevel else c.key
  }

  /** The checks in the order the function makes them; `Success(stop)` is the
      index of the path element at which the walk returns. */
  function Validate(c: Call): (r: Result<nat, string>)
    ensures r.Success? ==> c.path.PathList? && r.value < |c.path.elems| && AllKeys(c.path.elems)
    ensures r == Failure(LevelExceedsMsg) ==>
      EffectiveLevel(c).AInt? && c.path.PathList? && EffectiveLevel(c).i > |c.path.elems|
    ensures r == Failure(KeyNotFoundMsg) ==>
      EffectiveKey(c).AStr? && c.path.PathList? && EStr(EffectiveKey(c).s) !in c.path.elems
    ensures r.Failure? ==> r.error in ValidationMessages
  {
    var level := EffectiveLevel(c);
    var key := EffectiveKey(c);
    if c.keyOrLevel.AOther? then Failure(ThirdArgumentMsg)
    else if !IsContainer(c.doc) then Failure(NotContainerMsg)
    else if level.Absent? == key.Absent? then Failure(LevelOrKeyMsg)
    else if c.path.NotAList? || |c.path.elems| == 0 then Failure(EmptyPathMsg)
    else if !AllKeys(c.path.elems) then Failure(ElementTypeMsg)
    else if !level.Absent? then
      if StartsWithZero(Text(level)) && DiffersFromZero(level) then Failure(LeadingZerosMsg)
      else if !level.AInt? || level.i <= 0 then Failure(NotPositiveMsg)
      else if level.i - 1 >= |c.path.elems| then Failure(LevelExceedsMsg)
      else Success(level.i - 1)
    else if !key.AStr? then Failure(KeyNotStringMsg)
    else match IndexOfKey(c.path.elems, key.s)
      case None => Failure(KeyNotFoundMsg)
      case Some(j) => Success(j)
  }

  // The checks that have passed, cumulatively, in the order they are made.

  predicate PassesArgument(c: Call) {
    !c.keyOrLevel.AOther?
  }

  predicate PassesDocument(c: Call) {
    PassesArgument(c) && IsContainer(c.doc)
  }

  predicate PassesChoice(c: Call) {
    PassesDocument(c) && EffectiveLevel(c).Absent? != EffectiveKey(c).Absent?
  }

  predicate PassesPath(c: Call) {
    PassesChoice(c) && c.path.PathList? && |c.path.elems| > 0
  }

  predicate PassesElements(c: Call) {
    PassesPath(c) && AllKeys(c.path.elems)
  }

  /** Each message is returned exactly when every earlier check passes and its own
      check fails, so the messages also fix the order of the checks. A level that
      is an integer never reaches the leading-zero message, so the "exceeds" message
      needs no condition about zeros. */
  lemma ValidateMessages(c: Call)
    ensures Validate(c) == Failure(ThirdArgumentMsg) <==> !PassesArgument(c)
    ensures Validate(c) == Failure(NotContainerMsg) <==> PassesArgument(c) && !IsContainer(c.doc)
    ensures Validate(c) == Failure(LevelOrKeyMsg) <==>
      PassesDocument(c) && EffectiveLevel(c).Absent? == EffectiveKey(c).Absent?
    ensures Validate(c) == Failure(EmptyPathMsg) <==>
      PassesChoice(c) && (c.path.NotAList? || |c.path.elems| == 0)
    ensures Validate(c) == Failure(ElementTypeMsg) <==> PassesPath(c) && !AllKeys(c.path.elems)
    ensures Validate(c) == Failure(LeadingZerosMsg) <==>
      PassesElements(c) && !EffectiveLevel(c).Absent? &&
      StartsWithZero(Text(EffectiveLevel(c))) && DiffersFromZero(EffectiveLevel(c))
    ensures Validate(c) == Failure(NotPositiveMsg) <==>
      PassesElements(c) && !EffectiveLevel(c).Absent? &&
      !(StartsWithZero(Text(EffectiveLevel(c))) && DiffersFromZero(EffectiveLevel(c))) &&
      (!EffectiveLevel(c).AInt? || EffectiveLevel(c).i <= 0)
    ensures Validate(c) == Failure(LevelExceedsMsg) <==>
      PassesElements(c) && EffectiveLevel(c).AInt? && 0 < EffectiveLevel(c).i && |c.path.elems| < EffectiveLevel(c).i
    ensures Validate(c) == Failure(KeyNotStringMsg) <==>
      PassesElements(c) && EffectiveLevel(c).Absent? && !EffectiveKey(c).AStr?
    ensures Validate(c) == Failure(KeyNotFoundMsg) <==>
      PassesElements(c) && EffectiveLevel(c).Absent? && EffectiveKey(c).AStr? &&
      EStr(EffectiveKey(c).s) !in c.path.elems
    ensures Validate(c).Failure? ==>
      Validate(c).error != InvalidKeyMsg && Validate(c).error != InvalidIndexMsg &&
      Validate(c).error != ExtractionFailedMsg
  {
    if EffectiveLevel(c).AInt? {
      IntegerLevelHasNoLeadingZero(EffectiveLevel(c).i);
    }
  }

  /** An integer level is never refused for leading zeros. */
  lemma IntegerLevelNotRefusedForZeros(c: Call)
    requires EffectiveLevel(c).AInt?
    ensures Validate(c) != Failure(LeadingZerosMsg)
  {
    IntegerLevelHasNoLeadingZero(EffectiveLevel(c).i);
  }

  // ---------------------------------------------------------------------------
  // The walk

  /** `k` occurs in `s` starting at position `i`. */
  predicate OccursAt(k: string, s: string, i: int) {
    0 <= i && i + |k| <= |s| && s[i..i + |k|] == k
  }

  /** Python's `k in s` on two strings. */
  predicate IsSubstring(k: string, s: string) {
    exists i :: 0 <= i <= |s| && OccursAt(k, s, i)
  }

  /** One loop iteration below the stopping index: the membership and index
      checks, then `current_obj[current_key]`. On a string, `in` is a substring
      test and indexing by a string raises; on any other scalar `in` raises. */
  function Advance(cur: Node, e: Elem): Result<Node, Outcome>
    requires IsKey(e)
  {
    match cur
    case Obj(fields) =>
      if e.EStr? && KeyIndex(fields, e.s).Some? then Success(fields[KeyIndex(fields, e.s).value].1)
      else Failure(Message(InvalidKeyMsg))
    case Arr(items) =>
      if e.EInt? && 0 <= e.i < |items| then Success(items[e.i])
      else Failure(Message(InvalidIndexMsg))
    case Str(s) =>
      if e.EStr? && !IsSubstring(e.s, s) then Failure(Message(InvalidKeyMsg)) else Failure(TypeError)
    case _ => Failure(TypeError)
  }

  /** The loop from element `i` on, holding `cur`. */
  function WalkFrom(cur: Node, path: seq<Elem>, i: nat, stop: nat): Outcome
    requires AllKeys(path)
    requires i <= |path|
    decreases |path| - i
  {
    if i == |path| then Message(ExtractionFailedMsg)
    else if i == stop then Value(cur)
    else match Advance(cur, path[i])
      case Success(next) => WalkFrom(next, path, i + 1, stop)
      case Failure(o) => o
  }

  /** `extract_parent_object` itself. */
  function Extract(c: Call): (r: Outcome)
    ensures r != Message(ExtractionFailedMsg)
  {
    match Validate(c)
    case Failure(m) => Message(m)
    case Success(stop) =>
      WalkTerminates(c.doc, c.path.elems, 0, stop);
      WalkFrom(c.doc, c.path.elems, 0, stop)
  }

  // ---------------------------------------------------------------------------
  // Paths in the sense of the tree model

  /** The tree step a path element denotes; a negative integer denotes none. */
  function AsStep(e: Elem): Option<Step> {
    match e
    case EStr(k) => Some(Field(k))
    case EInt(j) => if j >= 0 then Some(Index(j)) else None
    case EOther => None
  }

  /** The elements as a tree path: defined exactly when every element denotes a step. */
  function AsPath(elems: seq<Elem>): (r: Option<Path>)
    ensures r.Some? <==> forall j :: 0 <= j < |elems| ==> AsStep(elems[j]).Some?
    ensures r.Some? ==> |r.value| == |elems|
    ensures r.Some? ==> forall j :: 0 <= j < |elems| ==> r.value[j] == AsStep(elems[j]).value
  {
    if |elems| == 0 then Some([])
    else match (AsStep(elems[0]), AsPath(elems[1..]))
      case (Some(s), Some(p)) => Some([s] + p)
      case _ => None
  }

  /** The node the elements lead to from `n`, if every step is present. */
  function ResolveElems(n: Node, elems: seq<Elem>): Option<Node> {
    match AsPath(elems)
    case Some(p) => Resolve(n, p)
    case None => None
  }

  /** One `Advance` succeeds exactly when the element is a present key or in-range index. */
  lemma AdvanceIsStep(cur: Node, e: Elem)
    requires IsKey(e)
    ensures Advance(cur, e).Success? <==> AsStep(e).Some? && StepInto(cur, AsStep(e).value).Some?
    ensures Advance(cur, e).Success? ==> Advance(cur, e).value == StepInto(cur, AsStep(e).value).value
  {
  }

  /** Resolving one element in front of others. */
  lemma ResolveElemsCons(n: Node, elems: seq<Elem>)
    requires |elems| > 0
    ensures ResolveElems(n, elems) ==
      (match AsStep(elems[0])
       case None => None
       case Some(s) =>
         (match StepInto(n, s) case Some(m) => ResolveElems(m, elems[1..]) case None => None))
  {
  }

  /** The walk never falls off the end of the path. */
  lemma {:induction false} WalkTerminates(cur: Node, path: seq<Elem>, i: nat, stop: nat)
    requires AllKeys(path)
    requires i <= stop < |path|
    ensures WalkFrom(cur, path, i, stop) != Message(ExtractionFailedMsg)
    decreases stop - i
  {
    if i < stop {
      match Advance(cur, path[i])
      case Success(next) => WalkTerminates(next, path, i + 1, stop);
      case Failure(o) =>
    }
  }

  /** The walk returns a value exactly when the elements before the stopping index
      resolve, and the value is the node they lead to. */
  lemma {:induction false} WalkResolves(cur: Node, path: seq<Elem>, i: nat, stop: nat)
    requires AllKeys(path)
    requires i <= stop < |path|
    ensures WalkFrom(cur, path, i, stop).Value? <==> ResolveElems(cur, path[i..stop]).Some?
    ensures WalkFrom(cur, path, i, stop).Value? ==>
      WalkFrom(cur, path, i, stop).node == ResolveElems(cur, path[i..stop]).value
    decreases stop - i
  {
    if i < stop {
      var xs := path[i..stop];
      assert xs[0] == path[i];
      assert xs[1..] == path[i + 1..stop];
      ResolveElemsCons(cur, xs);
      AdvanceIsStep(cur, path[i]);
      match Advance(cur, path[i])
      case Success(next) => WalkResolves(next, path, i + 1, stop);
      case Failure(o) =>
    }
  }

  /** Once the walk has reached element `j` holding `m`, it continues from there. */
  lemma {:induction false} WalkSkip(cur: Node, path: seq<Elem>, i: nat, j: nat, stop: nat, m: Node)
    requires AllKeys(path)
    requires i <= j <= stop < |path|
    requires ResolveElems(cur, path[i..j]) == Some(m)
    ensures WalkFrom(cur, path, i, stop) == WalkFrom(m, path, j, stop)
    decreases j - i
  {
    if i < j {
      var xs := path[i..j];
      assert xs[0] == path[i];
      assert xs[1..] == path[i + 1..j];
      ResolveElemsCons(cur, xs);
      AdvanceIsStep(cur, path[i]);
      WalkSkip(Advance(cur, path[i]).value, path, i + 1, j, stop, m);
    } else {
      assert AsPath(path[i..j]) == Some([]);
    }
  }

  /** Elements at and after the stopping index are never looked at. */
  lemma {:induction false} WalkIgnoresTail(cur: Node, path: seq<Elem>, rest: seq<Elem>, i: nat, stop: nat)
    requires AllKeys(path) && AllKeys(rest)
    requires i <= stop < |path|
    requires |rest| > 0
    ensures AllKeys(path[..stop] + rest)
    ensures WalkFrom(cur, path, i, stop) == WalkFrom(cur, path[..stop] + rest, i, stop)
    decreases stop - i
  {
    var other := path[..stop] + rest;
    assert forall j :: 0 <= j < |other| ==> IsKey(other[j]) by {
      forall j | 0 <= j < |other|
        ensures IsKey(other[j])
      {
        if j < stop {
          assert other[j] == path[j];
        } else {
          assert other[j] == rest[j - stop];
        }
      }
    }
    if i < stop {
      assert other[i] == path[i];
      match Advance(cur, path[i])
      case Success(next) => WalkIgnoresTail(next, path, rest, i + 1, stop);
      case Failure(o) =>
    }
  }

  // ---------------------------------------------------------------------------
  // Properties of the whole call

  /** The conditions under which validation passes, stated without its order of checks. */
  predicate ValidCall(c: Call) {
    && !c.keyOrLevel.AOther?
    && IsContainer(c.doc)
    && (EffectiveLevel(c).Absent? != EffectiveKey(c).Absent?)
    && c.path.PathList? && |c.path.elems| > 0
    && AllKeys(c.path.elems)
    && (if !EffectiveLevel(c).Absent? then
          EffectiveLevel(c).AInt? && 1 <= EffectiveLevel(c).i <= |c.path.elems|
        else
          EffectiveKey(c).AStr? && EStr(EffectiveKey(c).s) in c.path.elems)
  }

  /** The stopping index of a valid call: `level - 1`, or the first occurrence of the key. */
  ghost function StopIndex(c: Call): nat
    requires ValidCall(c)
  {
    if !EffectiveLevel(c).Absent? then EffectiveLevel(c).i - 1
    else
      var k := EffectiveKey(c).s;
      FirstOccurrenceExists(c.path.elems, k);
      var j :| 0 <= j < |c.path.elems| && c.path.elems[j] == EStr(k) && forall j' :: 0 <= j' < j ==> c.path.elems[j'] != EStr(k);
      j
  }

  lemma FirstOccurrenceExists(elems: seq<Elem>, k: string)
    requires EStr(k) in elems
    ensures exists j :: 0 <= j < |elems| && elems[j] == EStr(k) && forall j' :: 0 <= j' < j ==> elems[j'] != EStr(k)
  {
    var r := IndexOfKey(elems, k);
    assert r.Some?;
  }

  /** Validation passes exactly on valid calls and then yields their stopping index. */
  lemma ValidateCharacterised(c: Call)
    ensures Validate(c).Success? <==> ValidCall(c)
    ensures Validate(c).Success? ==> Validate(c).value == StopIndex(c)
  {
    var level := EffectiveLevel(c);
    if level.AInt? {
      IntegerLevelHasNoLeadingZero(level.i);
    }
    if ValidCall(c) && level.Absent? {
      var k := EffectiveKey(c).s;
      FirstOccurrenceExists(c.path.elems, k);
      var r := IndexOfKey(c.path.elems, k);
      assert r.Some?;
    }
  }

  /** The call returns a node exactly when validation passes and the elements before
      the stopping index resolve; the node is the one they lead to. */
  lemma ExtractValue(c: Call)
    ensures Extract(c).Value? <==>
      ValidCall(c) && ResolveElems(c.doc, c.path.elems[..StopIndex(c)]).Some?
    ensures Extract(c).Value? ==>
      Extract(c).node == ResolveElems(c.doc, c.path.elems[..StopIndex(c)]).value
  {
    ValidateCharacterised(c);
    if ValidCall(c) {
      var stop := StopIndex(c);
      WalkResolves(c.doc, c.path.elems, 0, stop);
      assert c.path.elems[0..stop] == c.path.elems[..stop];
    }
  }

  /** With `level=1` a valid call returns the document itself, whatever the path holds. */
  lemma LevelOneIsDocument(doc: Node, elems: seq<Elem>)
    requires IsContainer(doc)
    requires |elems| > 0 && AllKeys(elems)
    ensures Extract(Call(doc, PathList(elems), Absent, AInt(1), Absent)) == Value(doc)
  {
  }

  /** Before the stopping index is reached, a node without the requested key gives
      "Invalid key in path." and an array without the requested index gives
      "Invalid index in path.". */
  lemma WalkErrorMessages(c: Call, j: nat, m: Node)
    requires Validate(c).Success? && j < Validate(c).value
    requires ResolveElems(c.doc, c.path.elems[..j]) == Some(m)
    ensures m.Obj? && !(c.path.elems[j].EStr? && KeyIndex(m.fields, c.path.elems[j].s).Some?) ==>
      Extract(c) == Message(InvalidKeyMsg)
    ensures m.Arr? && !(c.path.elems[j].EInt? && 0 <= c.path.elems[j].i < |m.items|) ==>
      Extract(c) == Message(InvalidIndexMsg)
  {
    var stop := Validate(c).value;
    assert c.path.elems[0..j] == c.path.elems[..j];
    WalkSkip(c.doc, c.path.elems, 0, j, stop, m);
  }

  /** With a level, replacing the elements from the stopping index on by any other
      integers or strings does not change the outcome. */
  lemma LevelIgnoresLaterSteps(doc: Node, elems: seq<Elem>, rest: seq<Elem>, level: int)
    requires AllKeys(elems) && AllKeys(rest) && |rest| > 0
    requires 1 <= level <= |elems|
    ensures Extract(Call(doc, PathList(elems), Absent, AInt(level), Absent)) ==
            Extract(Call(doc, PathList(elems[..level - 1] + rest), Absent, AInt(level), Absent))
  {
    IntegerLevelHasNoLeadingZero(level);
    WalkIgnoresTail(doc, elems, rest, 0, level - 1);
  }
}
