/** `search_key_in_all_levels`: for every prefix of every anchor path, from the
    root down, walk to the node there, fan out over the objects of an array, and
    report the first key of each object not searched before that matches the
    search key. An object is identified by its position in the document, which
    for a parsed document is the same as Python's `id`. */
module LevelResolver {
  import opened Wrappers
  import opened JsonTree

  /** The result record: the value found and the anchor prefix extended by the key. */
  datatype SearchResult = SearchResult(value: Node, path: Path)

  /** A result together with the position of the object it was found in. */
  datatype Report = Report(origin: Path, result: SearchResult)

  /** What the loops carry: the positions of the objects searched so far (the
      `searched_objects` set) and the results so far. */
  datatype Scan = Scan(searched: set<Path>, reports: seq<Report>)

  const Start := Scan({}, [])

  // ---------------------------------------------------------------------------
  // The walk and the key test

  /** The inner walk of one level: `obj[p]` on an object and `arr[int(p)]` on an
      array, which raise when the key or index is missing; on a scalar the
      remaining steps are skipped and the scalar is kept. */
  function Walk(n: Node, p: Path): Option<Node>
    decreases |p|
  {
    if |p| == 0 || !IsContainer(n) then Some(n)
    else match StepInto(n, p[0])
      case Some(c) => Walk(c, p[1..])
      case None => None
  }

  /** A key as compared: lower-cased when the search is case-insensitive. */
  function KeyFold(ci: bool, k: string): string {
    if ci then Lower(k) else k
  }

  /** The first key from position `from` on that matches the search key. */
  function FirstMatchFrom(fields: seq<(string, Node)>, key: string, ci: bool, from: nat): (r: Option<nat>)
    requires from <= |fields|
    ensures r.Some? ==> from <= r.value < |fields| && KeyFold(ci, fields[r.value].0) == KeyFold(ci, key)
    ensures r.Some? ==> forall j :: from <= j < r.value ==> KeyFold(ci, fields[j].0) != KeyFold(ci, key)
    ensures r.None? ==> forall j :: from <= j < |fields| ==> KeyFold(ci, fields[j].0) != KeyFold(ci, key)
    decreases |fields| - from
  {
    if from == |fields| then None
    else if KeyFold(ci, fields[from].0) == KeyFold(ci, key) then Some(from)
    else FirstMatchFrom(fields, key, ci, from + 1)
  }

  /** What an object contributes: its first matching key and that key's value,
      unless the key is the empty string, which the truthiness test drops. */
  function ObjectHit(n: Node, key: string, ci: bool): (r: Option<(string, Node)>)
    ensures r.Some? ==> n.Obj? && r.value.0 != "" && KeyFold(ci, r.value.0) == KeyFold(ci, key)
  {
    if !n.Obj? then None
    else match FirstMatchFrom(n.fields, key, ci, 0)
      case None => None
      case Some(j) => if n.fields[j].0 == "" then None else Some(n.fields[j])
  }

  // ---------------------------------------------------------------------------
  // The loops

  /** The body for one object at position `pos`, reached under the anchor prefix `shown`. */
  function SearchObject(n: Node, pos: Path, shown: Path, key: string, ci: bool, st: Scan): (r: Scan)
    ensures st.reports <= r.reports && st.searched <= r.searched
    ensures Distinct(st) ==> Distinct(r)
  {
    if !n.Obj? || pos in st.searched then st
    else
      var searched := st.searched + {pos};
      match ObjectHit(n, key, ci)
      case Some(hit) => Scan(searched, st.reports + [Report(pos, SearchResult(hit.1, shown + [Field(hit.0)]))])
      case None => Scan(searched, st.reports)
  }

  /** The fan-out over the elements, from the `i`-th on, of the array at position `at`. */
  function FanOut(items: seq<Node>, at: Path, shown: Path, key: string, ci: bool, st: Scan, i: nat): (r: Scan)
    requires i <= |items|
    ensures st.reports <= r.reports && st.searched <= r.searched
    ensures Distinct(st) ==> Distinct(r)
    decreases |items| - i
  {
    if i == |items| then st
    else FanOut(items, at, shown, key, ci, SearchObject(items[i], at + [Index(i)], shown, key, ci, st), i + 1)
  }

  /** One level: the node at the first `level` steps of the anchor, searched
      directly or, for an array, through its elements. `None` is a raised lookup. */
  function ScanLevel(doc: Node, anchor: Path, level: nat, key: string, ci: bool, st: Scan): (r: Option<Scan>)
    requires level <= |anchor|
    ensures r.Some? <==> Walk(doc, anchor[..level]).Some?
    ensures r.Some? ==> st.reports <= r.value.reports && st.searched <= r.value.searched
    ensures r.Some? && Distinct(st) ==> Distinct(r.value)
  {
    var shown := anchor[..level];
    match Walk(doc, shown)
    case None => None
    case Some(m) =>
      if m.Arr? then Some(FanOut(m.items, shown, shown, key, ci, st, 0))
      else Some(SearchObject(m, shown, shown, key, ci, st))
  }

  /** The levels `level .. |anchor|` of one anchor, root first. */
  function ScanLevels(doc: Node, anchor: Path, level: nat, key: string, ci: bool, st: Scan): (r: Option<Scan>)
    requires level <= |anchor| + 1
    ensures r.Some? <==> forall l :: level <= l <= |anchor| ==> Walk(doc, anchor[..l]).Some?
    ensures r.Some? ==> st.reports <= r.value.reports && st.searched <= r.value.searched
    ensures r.Some? && Distinct(st) ==> Distinct(r.value)
    decreases |anchor| + 1 - level
  {
    if level > |anchor| then Some(st)
    else match ScanLevel(doc, anchor, level, key, ci, st)
      case None => None
      case Some(next) => ScanLevels(doc, anchor, level + 1, key, ci, next)
  }

  /** The anchors in order, sharing one searched set. */
  function ScanAnchors(doc: Node, anchors: seq<Path>, key: string, ci: bool, st: Scan): (r: Option<Scan>)
    ensures r.Some? <==> AllWalk(doc, anchors)
    ensures r.Some? ==> st.reports <= r.value.reports && st.searched <= r.value.searched
    ensures r.Some? && Distinct(st) ==> Distinct(r.value)
    decreases |anchors|
  {
    if |anchors| == 0 then Some(st)
    else match ScanLevels(doc, anchors[0], 0, key, ci, st)
      case None => None
      case Some(next) =>
        assert forall i :: 1 <= i < |anchors| ==> anchors[i] == anchors[1..][i - 1];
        ScanAnchors(doc, anchors[1..], key, ci, next)
  }

  /** Every prefix of every anchor can be walked without a lookup error. */
  predicate AllWalk(doc: Node, anchors: seq<Path>) {
    forall i, l :: 0 <= i < |anchors| && 0 <= l <= |anchors[i]| ==> Walk(doc, anchors[i][..l]).Some?
  }

  /** The results with the positions they came from; `None` when the call raises. */
  function Reports(doc: Node, anchors: seq<Path>, key: string, ci: bool): (r: Option<seq<Report>>)
    ensures r.Some? <==> AllWalk(doc, anchors)
    ensures r.Some? ==> DistinctOrigins(r.value)
  {
    match ScanAnchors(doc, anchors, key, ci, Start)
    case Some(s) => Some(s.reports)
    case None => None
  }

  function Results(reps: seq<Report>): (rs: seq<SearchResult>)
    ensures |rs| == |reps|
    ensures forall i :: 0 <= i < |reps| ==> rs[i] == reps[i].result
  {
    seq(|reps|, i requires 0 <= i < |reps| => reps[i].result)
  }

  /** `search_key_in_all_levels(doc, anchors, key, ci)`; `None` when it raises. */
  function SearchKeyInAllLevels(doc: Node, anchors: seq<Path>, key: string, ci: bool): (r: Option<seq<SearchResult>>)
    ensures r.Some? <==> AllWalk(doc, anchors)
  {
    match Reports(doc, anchors, key, ci)
    case Some(reps) => Some(Results(reps))
    case None => None
  }

  // ---------------------------------------------------------------------------
  // One search per object

  predicate DistinctOrigins(reps: seq<Report>) {
    forall i, j :: 0 <= i < j < |reps| ==> reps[i].origin != reps[j].origin
  }

  /** No two results come from the same object, and every result's object has been searched. */
  predicate Distinct(st: Scan) {
    && DistinctOrigins(st.reports)
    && forall i :: 0 <= i < |st.reports| ==> st.reports[i].origin in st.searched
  }

  // ---------------------------------------------------------------------------
  // The walk against strict resolution

  /** Where strict resolution succeeds the walk agrees with it, and a walk that ends
      on a container consumed every step strictly, so the container sits at the
      position the steps name. */
  lemma {:induction false} WalkExtendsResolve(n: Node, p: Path)
    ensures Resolve(n, p).Some? ==> Walk(n, p) == Resolve(n, p)
    ensures Walk(n, p).Some? && IsContainer(Walk(n, p).value) ==> Resolve(n, p) == Walk(n, p)
    decreases |p|
  {
    if |p| > 0 && IsContainer(n) {
      match StepInto(n, p[0])
      case Some(c) => WalkExtendsResolve(c, p[1..]);
      case None =>
    }
  }

  /** What an object contributes is `obj[found_key]` for the first key in stored order
      that matches; an object whose first matching key is the empty string, or that
      has no matching key, contributes nothing. */
  lemma ObjectHitIsFirstMatch(n: Node, key: string, ci: bool)
    requires n.Obj?
    ensures ObjectHit(n, key, ci).Some? ==>
      StepInto(n, Field(ObjectHit(n, key, ci).value.0)) == Some(ObjectHit(n, key, ci).value.1)
    ensures ObjectHit(n, key, ci).Some? ==>
      exists j :: 0 <= j < |n.fields| && n.fields[j] == ObjectHit(n, key, ci).value &&
        forall i :: 0 <= i < j ==> KeyFold(ci, n.fields[i].0) != KeyFold(ci, key)
    ensures ObjectHit(n, key, ci).None? ==>
      forall j :: 0 <= j < |n.fields| && KeyFold(ci, n.fields[j].0) == KeyFold(ci, key) ==>
        n.fields[j].0 == "" || exists i :: 0 <= i < j && n.fields[i].0 == "" && KeyFold(ci, n.fields[i].0) == KeyFold(ci, key)
  {
  }

  /** If every anchor resolves strictly, the call does not raise. */
  lemma ResolvingAnchorsDoNotRaise(doc: Node, anchors: seq<Path>, key: string, ci: bool)
    requires forall i :: 0 <= i < |anchors| ==> Resolve(doc, anchors[i]).Some?
    ensures SearchKeyInAllLevels(doc, anchors, key, ci).Some?
  {
    forall i, l | 0 <= i < |anchors| && 0 <= l <= |anchors[i]|
      ensures Walk(doc, anchors[i][..l]).Some?
    {
      ResolvePrefix(doc, anchors[i], l);
      WalkExtendsResolve(doc, anchors[i][..l]);
    }
  }

  // ---------------------------------------------------------------------------
  // What each result is

  /** The object at position `pos` was reached under the anchor prefix `shown`:
      `pos` is `shown` itself, or one element of the array at `shown`. */
  predicate ReachedUnder(pos: Path, shown: Path) {
    pos == shown || (|pos| == |shown| + 1 && pos[..|shown|] == shown && pos[|shown|].Index?)
  }

  /** A report found under `shown`: its object sits at its origin, contributes a key
      and value, and the result is that value with the path `shown + [key]`. */
  predicate FoundUnder(doc: Node, shown: Path, key: string, ci: bool, r: Report) {
    && ReachedUnder(r.origin, shown)
    && Resolve(doc, r.origin).Some?
    && ObjectHit(Resolve(doc, r.origin).value, key, ci).Some?
    && r.result == SearchResult(ObjectHit(Resolve(doc, r.origin).value, key, ci).value.1,
                                shown + [Field(ObjectHit(Resolve(doc, r.origin).value, key, ci).value.0)])
  }

  /** A report found under some prefix of some anchor. */
  predicate FoundUnderAnchor(doc: Node, anchors: seq<Path>, key: string, ci: bool, r: Report) {
    exists a, l :: a in anchors && 0 <= l <= |a| && FoundUnder(doc, a[..l], key, ci, r)
  }

  lemma SearchObjectSound(doc: Node, n: Node, pos: Path, shown: Path, key: string, ci: bool, st: Scan)
    requires Resolve(doc, pos) == Some(n)
    requires ReachedUnder(pos, shown)
    ensures forall k :: |st.reports| <= k < |SearchObject(n, pos, shown, key, ci, st).reports| ==>
      FoundUnder(doc, shown, key, ci, SearchObject(n, pos, shown, key, ci, st).reports[k])
  {
  }

  lemma {:induction false} FanOutSound(doc: Node, items: seq<Node>, at: Path, key: string, ci: bool, st: Scan, i: nat)
    requires i <= |items|
    requires Resolve(doc, at) == Some(Arr(items))
    ensures forall k :: |st.reports| <= k < |FanOut(items, at, at, key, ci, st, i).reports| ==>
      FoundUnder(doc, at, key, ci, FanOut(items, at, at, key, ci, st, i).reports[k])
    decreases |items| - i
  {
    if i < |items| {
      var pos := at + [Index(i)];
      ResolveSnoc(doc, at, Index(i));
      assert pos[..|at|] == at;
      var mid := SearchObject(items[i], pos, at, key, ci, st);
      SearchObjectSound(doc, items[i], pos, at, key, ci, st);
      FanOutSound(doc, items, at, key, ci, mid, i + 1);
      var out := FanOut(items, at, at, key, ci, st, i);
      forall k | |st.reports| <= k < |out.reports|
        ensures FoundUnder(doc, at, key, ci, out.reports[k])
      {
        if k < |mid.reports| {
          assert out.reports[k] == mid.reports[k];
        }
      }
    }
  }

  lemma ScanLevelSound(doc: Node, anchor: Path, level: nat, key: string, ci: bool, st: Scan)
    requires level <= |anchor|
    requires ScanLevel(doc, anchor, level, key, ci, st).Some?
    ensures forall k :: |st.reports| <= k < |ScanLevel(doc, anchor, level, key, ci, st).value.reports| ==>
      FoundUnder(doc, anchor[..level], key, ci, ScanLevel(doc, anchor, level, key, ci, st).value.reports[k])
  {
    var shown := anchor[..level];
    var m := Walk(doc, shown).value;
    WalkExtendsResolve(doc, shown);
    if m.Arr? {
      FanOutSound(doc, m.items, shown, key, ci, st, 0);
    } else if m.Obj? {
      SearchObjectSound(doc, m, shown, shown, key, ci, st);
    }
  }

  lemma {:induction false} ScanLevelsSound(doc: Node, anchors: seq<Path>, anchor: Path, level: nat, key: string, ci: bool, st: Scan)
    requires anchor in anchors
    requires level <= |anchor| + 1
    requires ScanLevels(doc, anchor, level, key, ci, st).Some?
    ensures forall k :: |st.reports| <= k < |ScanLevels(doc, anchor, level, key, ci, st).value.reports| ==>
      FoundUnderAnchor(doc, anchors, key, ci, ScanLevels(doc, anchor, level, key, ci, st).value.reports[k])
    decreases |anchor| + 1 - level
  {
    if level <= |anchor| {
      var mid := ScanLevel(doc, anchor, level, key, ci, st).value;
      ScanLevelSound(doc, anchor, level, key, ci, st);
      ScanLevelsSound(doc, anchors, anchor, level + 1, key, ci, mid);
      var out := ScanLevels(doc, anchor, level, key, ci, st).value;
      forall k | |st.reports| <= k < |out.reports|
        ensures FoundUnderAnchor(doc, anchors, key, ci, out.reports[k])
      {
        if k < |mid.reports| {
          assert out.reports[k] == mid.reports[k];
          assert FoundUnder(doc, anchor[..level], key, ci, out.reports[k]);
        }
      }
    }
  }

  lemma {:induction false} ScanAnchorsSound(doc: Node, all: seq<Path>, anchors: seq<Path>, key: string, ci: bool, st: Scan)
    requires forall a :: a in anchors ==> a in all
    requires ScanAnchors(doc, anchors, key, ci, st).Some?
    ensures forall k :: |st.reports| <= k < |ScanAnchors(doc, anchors, key, ci, st).value.reports| ==>
      FoundUnderAnchor(doc, all, key, ci, ScanAnchors(doc, anchors, key, ci, st).value.reports[k])
    decreases |anchors|
  {
    if |anchors| > 0 {
      var mid := ScanLevels(doc, anchors[0], 0, key, ci, st).value;
      ScanLevelsSound(doc, all, anchors[0], 0, key, ci, st);
      assert forall a :: a in anchors[1..] ==> a in anchors;
      ScanAnchorsSound(doc, all, anchors[1..], key, ci, mid);
      var out := ScanAnchors(doc, anchors, key, ci, st).value;
      forall k | |st.reports| <= k < |out.reports|
        ensures FoundUnderAnchor(doc, all, key, ci, out.reports[k])
      {
        if k < |mid.reports| {
          assert out.reports[k] == mid.reports[k];
        }
      }
    }
  }

  /** Each result of a call comes from its own object (no object yields two results),
      that object is reached under a prefix of one of the anchors, and the result is
      the value of the object's first matching key with the path prefix plus that key. */
  lemma ResultsSound(doc: Node, anchors: seq<Path>, key: string, ci: bool)
    requires SearchKeyInAllLevels(doc, anchors, key, ci).Some?
    ensures Reports(doc, anchors, key, ci).Some?
    ensures Results(Reports(doc, anchors, key, ci).value) == SearchKeyInAllLevels(doc, anchors, key, ci).value
    ensures DistinctOrigins(Reports(doc, anchors, key, ci).value)
    ensures forall k :: 0 <= k < |Reports(doc, anchors, key, ci).value| ==>
      FoundUnderAnchor(doc, anchors, key, ci, Reports(doc, anchors, key, ci).value[k])
  {
    ScanAnchorsSound(doc, anchors, anchors, key, ci, Start);
  }

  // ---------------------------------------------------------------------------
  // Order: by anchor, then level, then element index

  /** The level a report was found at: the length of the anchor prefix it extends. */
  function Level(r: Report): int {
    |r.result.path| - 1
  }

  /** The element index a report came from when found by fanning out, otherwise -1. */
  function Slot(r: Report): int {
    var l := Level(r);
    if 0 <= l && |r.origin| == l + 1 && r.origin[l].Index? then r.origin[l].i else -1
  }

  /** `r` comes before the element `slot` of level `level` (slot -1: the level's own object). */
  predicate Below(r: Report, level: int, slot: int) {
    Level(r) < level || (Level(r) == level && Slot(r) < slot)
  }

  /** The reports from index `from` on all come before the element `slot` of level `level`. */
  predicate Bounded(reps: seq<Report>, from: nat, level: int, slot: int) {
    forall k :: from <= k < |reps| ==> Below(reps[k], level, slot)
  }

  /** Levels ascend, and within a level element indices ascend. */
  predicate Increasing(reps: seq<Report>) {
    forall i, j :: 0 <= i < j < |reps| ==> Below(reps[i], Level(reps[j]), Slot(reps[j]))
  }

  /** `Increasing` for the reports from index `from` on. */
  predicate IncreasingFrom(reps: seq<Report>, from: nat) {
    forall i, j :: from <= i < j < |reps| ==> Below(reps[i], Level(reps[j]), Slot(reps[j]))
  }

  lemma IncreasingBlock(reps: seq<Report>, from: nat)
    requires from <= |reps|
    requires IncreasingFrom(reps, from)
    ensures Increasing(reps[from..])
  {
  }

  lemma SearchObjectOrdered(n: Node, pos: Path, shown: Path, key: string, ci: bool, st: Scan, from: nat, slot: int)
    requires ReachedUnder(pos, shown)
    requires slot == (if pos == shown then -1 else pos[|shown|].i)
    requires from <= |st.reports|
    requires IncreasingFrom(st.reports, from) && Bounded(st.reports, from, |shown|, slot)
    ensures IncreasingFrom(SearchObject(n, pos, shown, key, ci, st).reports, from)
    ensures Bounded(SearchObject(n, pos, shown, key, ci, st).reports, from, |shown|, slot + 1)
  {
  }

  lemma {:induction false} FanOutOrdered(items: seq<Node>, at: Path, key: string, ci: bool, st: Scan, from: nat, i: nat)
    requires i <= |items|
    requires from <= |st.reports|
    requires IncreasingFrom(st.reports, from) && Bounded(st.reports, from, |at|, i)
    ensures IncreasingFrom(FanOut(items, at, at, key, ci, st, i).reports, from)
    ensures Bounded(FanOut(items, at, at, key, ci, st, i).reports, from, |at|, |items|)
    decreases |items| - i
  {
    if i < |items| {
      var pos := at + [Index(i)];
      assert pos[..|at|] == at;
      SearchObjectOrdered(items[i], pos, at, key, ci, st, from, i);
      FanOutOrdered(items, at, key, ci, SearchObject(items[i], pos, at, key, ci, st), from, i + 1);
    }
  }

  lemma ScanLevelOrdered(doc: Node, anchor: Path, level: nat, key: string, ci: bool, st: Scan, from: nat)
    requires level <= |anchor|
    requires ScanLevel(doc, anchor, level, key, ci, st).Some?
    requires from <= |st.reports|
    requires IncreasingFrom(st.reports, from) && Bounded(st.reports, from, level, -1)
    ensures IncreasingFrom(ScanLevel(doc, anchor, level, key, ci, st).value.reports, from)
    ensures Bounded(ScanLevel(doc, anchor, level, key, ci, st).value.reports, from, level + 1, -1)
  {
    var shown := anchor[..level];
    var m := Walk(doc, shown).value;
    if m.Arr? {
      FanOutOrdered(m.items, shown, key, ci, st, from, 0);
    } else {
      SearchObjectOrdered(m, shown, shown, key, ci, st, from, -1);
    }
  }

  /** The reports one anchor appends after index `from` are in order. */
  lemma {:induction false} ScanLevelsOrdered(doc: Node, anchor: Path, level: nat, key: string, ci: bool, st: Scan, from: nat)
    requires level <= |anchor| + 1
    requires ScanLevels(doc, anchor, level, key, ci, st).Some?
    requires from <= |st.reports|
    requires IncreasingFrom(st.reports, from) && Bounded(st.reports, from, level, -1)
    ensures IncreasingFrom(ScanLevels(doc, anchor, level, key, ci, st).value.reports, from)
    decreases |anchor| + 1 - level
  {
    if level <= |anchor| {
      ScanLevelOrdered(doc, anchor, level, key, ci, st, from);
      ScanLevelsOrdered(doc, anchor, level + 1, key, ci, ScanLevel(doc, anchor, level, key, ci, st).value, from);
    }
  }

  /** Scanning a one-anchor list from any state is scanning that anchor's levels. */
  lemma ScanOneAnchor(doc: Node, anchor: Path, key: string, ci: bool, st: Scan)
    ensures ScanAnchors(doc, [anchor], key, ci, st) == ScanLevels(doc, anchor, 0, key, ci, st)
  {
  }

  /** The call with one anchor scans that anchor's levels from the root. */
  lemma SingleAnchor(doc: Node, anchor: Path, key: string, ci: bool)
    ensures Reports(doc, [anchor], key, ci) ==
      (match ScanLevels(doc, anchor, 0, key, ci, Start) case Some(s) => Some(s.reports) case None => None)
  {
    assert [anchor][0] == anchor;
    assert [anchor][1..] == [];
    match ScanLevels(doc, anchor, 0, key, ci, Start)
    case Some(next) =>
      assert ScanAnchors(doc, [anchor], key, ci, Start) == ScanAnchors(doc, [], key, ci, next);
    case None =>
  }

  /** With one anchor, results come root level first, and within an array level in
      element order. */
  lemma SingleAnchorOrdered(doc: Node, anchor: Path, key: string, ci: bool)
    requires Reports(doc, [anchor], key, ci).Some?
    ensures Increasing(Reports(doc, [anchor], key, ci).value)
  {
    SingleAnchor(doc, anchor, key, ci);
    ScanLevelsOrdered(doc, anchor, 0, key, ci, Start, 0);
  }

  /** Scanning `A + B` is scanning `A`, then `B` with the searched set `A` left behind. */
  lemma {:induction false} ScanAnchorsConcat(doc: Node, a: seq<Path>, b: seq<Path>, key: string, ci: bool, st: Scan)
    ensures ScanAnchors(doc, a + b, key, ci, st) ==
      (match ScanAnchors(doc, a, key, ci, st) case Some(m) => ScanAnchors(doc, b, key, ci, m) case None => None)
    decreases |a|
  {
    if |a| == 0 {
      assert a + b == b;
    } else {
      assert (a + b)[0] == a[0];
      assert (a + b)[1..] == a[1..] + b;
      match ScanLevels(doc, a[0], 0, key, ci, st)
      case Some(m) => ScanAnchorsConcat(doc, a[1..], b, key, ci, m);
      case None =>
    }
  }

  /** The results for the anchors `A` are the first results for `A + B`: results
      come anchor by anchor, and later anchors only add. */
  lemma ResultsByAnchor(doc: Node, a: seq<Path>, b: seq<Path>, key: string, ci: bool)
    requires SearchKeyInAllLevels(doc, a + b, key, ci).Some?
    ensures SearchKeyInAllLevels(doc, a, key, ci).Some?
    ensures SearchKeyInAllLevels(doc, a, key, ci).value <= SearchKeyInAllLevels(doc, a + b, key, ci).value
  {
    ScanAnchorsConcat(doc, a, b, key, ci, Start);
    var x := Reports(doc, a, key, ci).value;
    var y := Reports(doc, a + b, key, ci).value;
    assert x <= y;
    assert forall k :: 0 <= k < |x| ==> Results(x)[k] == Results(y)[k];
  }

  /** Each anchor's results, the block it appends after the results of the anchors
      before it, come root level first and, within an array level, in element order. */
  lemma AnchorBlockOrdered(doc: Node, anchors: seq<Path>, i: nat, key: string, ci: bool)
    requires i < |anchors|
    requires Reports(doc, anchors, key, ci).Some?
    ensures Reports(doc, anchors[..i], key, ci).Some? && Reports(doc, anchors[..i + 1], key, ci).Some?
    ensures Reports(doc, anchors[..i], key, ci).value <= Reports(doc, anchors[..i + 1], key, ci).value
    ensures Reports(doc, anchors[..i + 1], key, ci).value <= Reports(doc, anchors, key, ci).value
    ensures Increasing(Reports(doc, anchors[..i + 1], key, ci).value[|Reports(doc, anchors[..i], key, ci).value|..])
  {
    var before := anchors[..i];
    var upto := anchors[..i + 1];
    assert upto == before + [anchors[i]];
    assert anchors == upto + anchors[i + 1..];
    ScanAnchorsConcat(doc, upto, anchors[i + 1..], key, ci, Start);
    ScanAnchorsConcat(doc, before, [anchors[i]], key, ci, Start);
    var m := ScanAnchors(doc, before, key, ci, Start).value;
    ScanOneAnchor(doc, anchors[i], key, ci, m);
    ScanLevelsOrdered(doc, anchors[i], 0, key, ci, m, |m.reports|);
    IncreasingBlock(ScanAnchors(doc, upto, key, ci, Start).value.reports, |m.reports|);
  }

  // ---------------------------------------------------------------------------
  // Completeness: every object reached that offers a key is reported

  /** The positions the reports came from. */
  function Origins(reps: seq<Report>): set<Path> {
    set k | 0 <= k < |reps| :: reps[k].origin
  }

  lemma OriginsSnoc(reps: seq<Report>, r: Report)
    ensures Origins(reps + [r]) == Origins(reps) + {r.origin}
  {
    var s := reps + [r];
    assert forall k :: 0 <= k < |reps| ==> s[k] == reps[k];
    assert s[|reps|] == r;
  }

  /** An object sits at position `pos`. */
  predicate ObjectAt(doc: Node, pos: Path) {
    Resolve(doc, pos).Some? && Resolve(doc, pos).value.Obj?
  }

  /** The object at position `pos` contributes a key and value. */
  predicate Offers(doc: Node, pos: Path, key: string, ci: bool) {
    Resolve(doc, pos).Some? && ObjectHit(Resolve(doc, pos).value, key, ci).Some?
  }

  /** Every searched object that contributes has a report. */
  predicate Covered(doc: Node, key: string, ci: bool, st: Scan) {
    forall pos :: pos in st.searched && Offers(doc, pos, key, ci) ==> pos in Origins(st.reports)
  }

  lemma SearchObjectCovers(doc: Node, n: Node, pos: Path, shown: Path, key: string, ci: bool, st: Scan)
    requires Resolve(doc, pos) == Some(n)
    requires Covered(doc, key, ci, st)
    ensures Covered(doc, key, ci, SearchObject(n, pos, shown, key, ci, st))
    ensures n.Obj? ==> pos in SearchObject(n, pos, shown, key, ci, st).searched
  {
    if n.Obj? && pos !in st.searched {
      match ObjectHit(n, key, ci)
      case Some(hit) => OriginsSnoc(st.reports, Report(pos, SearchResult(hit.1, shown + [Field(hit.0)])));
      case None =>
    }
  }

  lemma {:induction false} FanOutCovers(doc: Node, items: seq<Node>, at: Path, key: string, ci: bool, st: Scan, i: nat)
    requires i <= |items|
    requires Resolve(doc, at) == Some(Arr(items))
    requires Covered(doc, key, ci, st)
    ensures Covered(doc, key, ci, FanOut(items, at, at, key, ci, st, i))
    ensures forall j :: i <= j < |items| && items[j].Obj? ==>
      at + [Index(j)] in FanOut(items, at, at, key, ci, st, i).searched
    decreases |items| - i
  {
    if i < |items| {
      var pos := at + [Index(i)];
      ResolveSnoc(doc, at, Index(i));
      SearchObjectCovers(doc, items[i], pos, at, key, ci, st);
      FanOutCovers(doc, items, at, key, ci, SearchObject(items[i], pos, at, key, ci, st), i + 1);
    }
  }

  lemma ScanLevelCovers(doc: Node, anchor: Path, level: nat, key: string, ci: bool, st: Scan)
    requires level <= |anchor|
    requires Covered(doc, key, ci, st)
    requires ScanLevel(doc, anchor, level, key, ci, st).Some?
    ensures Covered(doc, key, ci, ScanLevel(doc, anchor, level, key, ci, st).value)
    ensures forall pos :: ReachedUnder(pos, anchor[..level]) && ObjectAt(doc, pos) ==>
      pos in ScanLevel(doc, anchor, level, key, ci, st).value.searched
  {
    var shown := anchor[..level];
    var m := Walk(doc, shown).value;
    WalkExtendsResolve(doc, shown);
    if m.Arr? {
      FanOutCovers(doc, m.items, shown, key, ci, st, 0);
    } else if m.Obj? {
      SearchObjectCovers(doc, m, shown, shown, key, ci, st);
    }
    forall pos: Path | ReachedUnder(pos, shown) && ObjectAt(doc, pos)
      ensures pos in ScanLevel(doc, anchor, level, key, ci, st).value.searched
    {
      if pos != shown {
        assert pos == shown + [Index(pos[|shown|].i)];
        ResolveSnoc(doc, shown, Index(pos[|shown|].i));
      }
    }
  }

  lemma {:induction false} ScanLevelsCovers(doc: Node, anchor: Path, level: nat, key: string, ci: bool, st: Scan)
    requires level <= |anchor| + 1
    requires Covered(doc, key, ci, st)
    requires ScanLevels(doc, anchor, level, key, ci, st).Some?
    ensures Covered(doc, key, ci, ScanLevels(doc, anchor, level, key, ci, st).value)
    ensures forall l, pos :: level <= l <= |anchor| && ReachedUnder(pos, anchor[..l]) && ObjectAt(doc, pos) ==>
      pos in ScanLevels(doc, anchor, level, key, ci, st).value.searched
    decreases |anchor| + 1 - level
  {
    if level <= |anchor| {
      ScanLevelCovers(doc, anchor, level, key, ci, st);
      ScanLevelsCovers(doc, anchor, level + 1, key, ci, ScanLevel(doc, anchor, level, key, ci, st).value);
    }
  }

  lemma {:induction false} ScanAnchorsCovers(doc: Node, anchors: seq<Path>, key: string, ci: bool, st: Scan)
    requires Covered(doc, key, ci, st)
    requires ScanAnchors(doc, anchors, key, ci, st).Some?
    ensures Covered(doc, key, ci, ScanAnchors(doc, anchors, key, ci, st).value)
    ensures forall i, l, pos ::
      0 <= i < |anchors| && 0 <= l <= |anchors[i]| && ReachedUnder(pos, anchors[i][..l]) && ObjectAt(doc, pos) ==>
      pos in ScanAnchors(doc, anchors, key, ci, st).value.searched
    decreases |anchors|
  {
    if |anchors| > 0 {
      var mid := ScanLevels(doc, anchors[0], 0, key, ci, st).value;
      ScanLevelsCovers(doc, anchors[0], 0, key, ci, st);
      ScanAnchorsCovers(doc, anchors[1..], key, ci, mid);
      forall i, l, pos | 0 <= i < |anchors| && 0 <= l <= |anchors[i]| &&
        ReachedUnder(pos, anchors[i][..l]) && ObjectAt(doc, pos)
        ensures pos in ScanAnchors(doc, anchors, key, ci, st).value.searched
      {
        if i > 0 {
          assert anchors[i] == anchors[1..][i - 1];
        }
      }
    }
  }

  /** Every object reached under a prefix of an anchor (the node at the prefix, or an
      element of the array there) that contributes a key and value has a result of
      its own, and that result carries the value. With `ResultsSound`, the results are
      exactly one per contributing object reached. */
  lemma ResultsComplete(doc: Node, anchors: seq<Path>, key: string, ci: bool, i: nat, l: nat, pos: Path)
    requires SearchKeyInAllLevels(doc, anchors, key, ci).Some?
    requires i < |anchors| && l <= |anchors[i]|
    requires ReachedUnder(pos, anchors[i][..l])
    requires Offers(doc, pos, key, ci)
    ensures Reports(doc, anchors, key, ci).Some?
    ensures exists k ::
      && 0 <= k < |Reports(doc, anchors, key, ci).value|
      && Reports(doc, anchors, key, ci).value[k].origin == pos
      && Reports(doc, anchors, key, ci).value[k].result.value == ObjectHit(Resolve(doc, pos).value, key, ci).value.1
  {
    ScanAnchorsCovers(doc, anchors, key, ci, Start);
    ScanAnchorsSound(doc, anchors, anchors, key, ci, Start);
    var reps := Reports(doc, anchors, key, ci).value;
    assert pos in Origins(reps);
    var k :| 0 <= k < |reps| && reps[k].origin == pos;
    assert FoundUnderAnchor(doc, anchors, key, ci, reps[k]);
  }

  // ---------------------------------------------------------------------------
  // The first result of a one-anchor call, without the searched set

  /** The first element, from the `i`-th on, that contributes a key and value. */
  function FirstElementHit(items: seq<Node>, key: string, ci: bool, i: nat): (r: Option<(string, Node)>)
    requires i <= |items|
    decreases |items| - i
  {
    if i == |items| then None
    else if ObjectHit(items[i], key, ci).Some? then ObjectHit(items[i], key, ci)
    else FirstElementHit(items, key, ci, i + 1)
  }

  /** What level `level` of the anchor offers: the object there, or the first
      contributing element of the array there. */
  function LevelHit(doc: Node, anchor: Path, level: nat, key: string, ci: bool): Option<SearchResult>
    requires level <= |anchor|
  {
    var shown := anchor[..level];
    match Walk(doc, shown)
    case None => None
    case Some(m) =>
      var hit := if m.Arr? then FirstElementHit(m.items, key, ci, 0) else ObjectHit(m, key, ci);
      match hit
      case Some(h) => Some(SearchResult(h.1, shown + [Field(h.0)]))
      case None => None
  }

  /** The root-most level from `level` on that offers a result. */
  function FirstHit(doc: Node, anchor: Path, level: nat, key: string, ci: bool): Option<SearchResult>
    requires level <= |anchor| + 1
    decreases |anchor| + 1 - level
  {
    if level > |anchor| then None
    else match LevelHit(doc, anchor, level, key, ci)
      case Some(h) => Some(h)
      case None => FirstHit(doc, anchor, level + 1, key, ci)
  }

  /** Nothing reported yet, and every object searched so far offers nothing. */
  predicate Quiet(doc: Node, key: string, ci: bool, st: Scan) {
    && |st.reports| == 0
    && forall pos :: pos in st.searched ==>
         Resolve(doc, pos).Some? && ObjectHit(Resolve(doc, pos).value, key, ci).None?
  }

  lemma SearchObjectQuiet(doc: Node, n: Node, pos: Path, shown: Path, key: string, ci: bool, st: Scan)
    requires Quiet(doc, key, ci, st)
    requires Resolve(doc, pos) == Some(n)
    ensures ObjectHit(n, key, ci).Some? ==>
      SearchObject(n, pos, shown, key, ci, st).reports ==
        [Report(pos, SearchResult(ObjectHit(n, key, ci).value.1, shown + [Field(ObjectHit(n, key, ci).value.0)]))]
    ensures ObjectHit(n, key, ci).None? ==> Quiet(doc, key, ci, SearchObject(n, pos, shown, key, ci, st))
  {
  }

  lemma {:induction false} FanOutQuiet(doc: Node, items: seq<Node>, at: Path, key: string, ci: bool, st: Scan, i: nat)
    requires i <= |items|
    requires Quiet(doc, key, ci, st)
    requires Resolve(doc, at) == Some(Arr(items))
    ensures FirstElementHit(items, key, ci, i).Some? ==>
      |FanOut(items, at, at, key, ci, st, i).reports| > 0 &&
      FanOut(items, at, at, key, ci, st, i).reports[0].result ==
        SearchResult(FirstElementHit(items, key, ci, i).value.1, at + [Field(FirstElementHit(items, key, ci, i).value.0)])
    ensures FirstElementHit(items, key, ci, i).None? ==> Quiet(doc, key, ci, FanOut(items, at, at, key, ci, st, i))
    decreases |items| - i
  {
    if i < |items| {
      var pos := at + [Index(i)];
      ResolveSnoc(doc, at, Index(i));
      SearchObjectQuiet(doc, items[i], pos, at, key, ci, st);
      var mid := SearchObject(items[i], pos, at, key, ci, st);
      if ObjectHit(items[i], key, ci).None? {
        FanOutQuiet(doc, items, at, key, ci, mid, i + 1);
      }
    }
  }

  lemma ScanLevelQuiet(doc: Node, anchor: Path, level: nat, key: string, ci: bool, st: Scan)
    requires level <= |anchor|
    requires Quiet(doc, key, ci, st)
    requires ScanLevel(doc, anchor, level, key, ci, st).Some?
    ensures LevelHit(doc, anchor, level, key, ci).Some? ==>
      |ScanLevel(doc, anchor, level, key, ci, st).value.reports| > 0 &&
      ScanLevel(doc, anchor, level, key, ci, st).value.reports[0].result == LevelHit(doc, anchor, level, key, ci).value
    ensures LevelHit(doc, anchor, level, key, ci).None? ==>
      Quiet(doc, key, ci, ScanLevel(doc, anchor, level, key, ci, st).value)
  {
    var shown := anchor[..level];
    var m := Walk(doc, shown).value;
    WalkExtendsResolve(doc, shown);
    if m.Arr? {
      FanOutQuiet(doc, m.items, shown, key, ci, st, 0);
    } else if m.Obj? {
      SearchObjectQuiet(doc, m, shown, shown, key, ci, st);
    }
  }

  lemma {:induction false} ScanLevelsQuiet(doc: Node, anchor: Path, level: nat, key: string, ci: bool, st: Scan)
    requires level <= |anchor| + 1
    requires Quiet(doc, key, ci, st)
    requires ScanLevels(doc, anchor, level, key, ci, st).Some?
    ensures |ScanLevels(doc, anchor, level, key, ci, st).value.reports| > 0 <==>
      FirstHit(doc, anchor, level, key, ci).Some?
    ensures |ScanLevels(doc, anchor, level, key, ci, st).value.reports| > 0 ==>
      ScanLevels(doc, anchor, level, key, ci, st).value.reports[0].result == FirstHit(doc, anchor, level, key, ci).value
    decreases |anchor| + 1 - level
  {
    if level <= |anchor| {
      ScanLevelQuiet(doc, anchor, level, key, ci, st);
      var mid := ScanLevel(doc, anchor, level, key, ci, st).value;
      if LevelHit(doc, anchor, level, key, ci).None? {
        ScanLevelsQuiet(doc, anchor, level + 1, key, ci, mid);
      }
    }
  }

  /** With one anchor, the call finds something exactly when some level offers a
      result, and its first result is the one the root-most such level offers:
      the searched set never hides a first result. */
  lemma FirstResultIsFirstHit(doc: Node, anchor: Path, key: string, ci: bool)
    requires SearchKeyInAllLevels(doc, [anchor], key, ci).Some?
    ensures |SearchKeyInAllLevels(doc, [anchor], key, ci).value| > 0 <==> FirstHit(doc, anchor, 0, key, ci).Some?
    ensures |SearchKeyInAllLevels(doc, [anchor], key, ci).value| > 0 ==>
      SearchKeyInAllLevels(doc, [anchor], key, ci).value[0] == FirstHit(doc, anchor, 0, key, ci).value
  {
    SingleAnchor(doc, anchor, key, ci);
    ScanLevelsQuiet(doc, anchor, 0, key, ci, Start);
  }
}
