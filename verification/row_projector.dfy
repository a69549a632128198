/** The row projector shared by `construct_table_with_keys` and `extract_data`:
    for each path to the searched value, look up every key with the path as the
    only anchor, keep the row `[orcid, value, v1..vn]` when every key was found,
    and drop rows already kept. */
module RowProjector {
  import opened Wrappers
  import opened JsonTree
  import opened LevelResolver

  /** One table row: the id, the searched value, then one value per key. */
  type Row = seq<Node>

  /** A data frame: its column names and its rows. */
  datatype Table = Table(columns: seq<string>, rows: seq<Row>)

  /** What the Python code raises instead of returning a table. */
  datatype ProjectError =
    | LookupError           // search_key_in_all_levels raised on a path
    | UnhashableRow         // a kept row holds a dict or list, so `tuple(row) in set` raises
    | NothingToConcatenate  // pd.concat of an empty list

  /** The first two entries of every row. */
  function Lead(orcid: string, value: string): Row {
    [Str(orcid), Str(value)]
  }

  /** The column names: 'orcid', 'values', then the keys. */
  function Columns(keys: seq<string>): seq<string> {
    ["orcid", "values"] + keys
  }

  // ---------------------------------------------------------------------------
  // One row

  /** `key_results[0].value` for one key, `None` when the key has no result. */
  function FirstValue(doc: Node, path: Path, key: string): (r: Result<Option<Node>, ProjectError>)
    ensures r.Failure? <==> !AllWalk(doc, [path])
    ensures r.Failure? ==> r.error == LookupError
  {
    match SearchKeyInAllLevels(doc, [path], key, false)
    case None => Failure(LookupError)
    case Some(rs) => Success(if |rs| == 0 then None else Some(rs[0].value))
  }

  /** The key loop for one path: the values of all keys, or `None` once a key has
      no result (the loop breaks and later keys are not searched). */
  function FillRow(doc: Node, path: Path, keys: seq<string>): (r: Result<Option<seq<Node>>, ProjectError>)
    ensures r.Success? && r.value.Some? ==> |r.value.value| == |keys|
    ensures r.Failure? ==> r.error == LookupError
  {
    if |keys| == 0 then Success(Some([]))
    else match FirstValue(doc, path, keys[0])
      case Failure(e) => Failure(e)
      case Success(None) => Success(None)
      case Success(Some(v)) =>
        match FillRow(doc, path, keys[1..])
        case Failure(e) => Failure(e)
        case Success(None) => Success(None)
        case Success(Some(vs)) => Success(Some([v] + vs))
  }

  /** A row Python can put in a set: no entry is a dict or a list. */
  predicate Hashable(row: Row) {
    forall j :: 0 <= j < |row| ==> !IsContainer(row[j])
  }

  // ---------------------------------------------------------------------------
  // The table

  /** The path loop from the `i`-th path on: `seen` is `unique_rows`, `acc` the rows kept. */
  function CollectFrom(doc: Node, paths: seq<Path>, keys: seq<string>, orcid: string, value: string,
                       i: nat, seen: set<Row>, acc: seq<Row>): (r: Result<seq<Row>, ProjectError>)
    requires i <= |paths|
    ensures r.Failure? ==> r.error != NothingToConcatenate
    ensures r.Success? ==> acc <= r.value
    decreases |paths| - i
  {
    if i == |paths| then Success(acc)
    else match FillRow(doc, paths[i], keys)
      case Failure(e) => Failure(e)
      case Success(None) => CollectFrom(doc, paths, keys, orcid, value, i + 1, seen, acc)
      case Success(Some(vs)) =>
        var row := Lead(orcid, value) + vs;
        if !Hashable(row) then Failure(UnhashableRow)
        else if row in seen then CollectFrom(doc, paths, keys, orcid, value, i + 1, seen, acc)
        else CollectFrom(doc, paths, keys, orcid, value, i + 1, seen + {row}, acc + [row])
  }

  /** The table built from the rows of `paths`. */
  function BuildTable(doc: Node, paths: seq<Path>, keys: seq<string>, orcid: string, value: string): (r: Result<Table, ProjectError>)
    ensures r.Success? ==> r.value.columns == Columns(keys)
    ensures r.Failure? ==> r.error != NothingToConcatenate
  {
    match CollectFrom(doc, paths, keys, orcid, value, 0, {}, [])
    case Success(rows) => Success(Table(Columns(keys), rows))
    case Failure(e) => Failure(e)
  }

  // ---------------------------------------------------------------------------
  // Reference: candidate rows, then first occurrences

  /** The row a path yields before de-duplication, when every key has a result. */
  function CandidateRow(doc: Node, path: Path, keys: seq<string>, orcid: string, value: string): Option<Row> {
    match FillRow(doc, path, keys)
    case Success(Some(vs)) => Some(Lead(orcid, value) + vs)
    case _ => None
  }

  /** The candidate rows of all paths, in path order. */
  function Candidates(doc: Node, paths: seq<Path>, keys: seq<string>, orcid: string, value: string): (r: seq<Row>)
    ensures |r| <= |paths|
    decreases |paths|
  {
    if |paths| == 0 then []
    else
      var before := Candidates(doc, paths[..|paths| - 1], keys, orcid, value);
      match CandidateRow(doc, paths[|paths| - 1], keys, orcid, value)
      case Some(row) => before + [row]
      case None => before
  }

  /** Every candidate row is the row of one of the paths. */
  lemma {:induction false} CandidateFrom(doc: Node, paths: seq<Path>, keys: seq<string>, orcid: string, value: string, x: Row)
    returns (j: nat)
    requires x in Candidates(doc, paths, keys, orcid, value)
    ensures j < |paths| && CandidateRow(doc, paths[j], keys, orcid, value) == Some(x)
    decreases |paths|
  {
    var init := paths[..|paths| - 1];
    if x in Candidates(doc, init, keys, orcid, value) {
      j := CandidateFrom(doc, init, keys, orcid, value, x);
      assert init[j] == paths[j];
    } else {
      j := |paths| - 1;
    }
  }

  /** Every path's row is a candidate. */
  lemma {:induction false} CandidateOf(doc: Node, paths: seq<Path>, keys: seq<string>, orcid: string, value: string, j: nat)
    requires j < |paths| && CandidateRow(doc, paths[j], keys, orcid, value).Some?
    ensures CandidateRow(doc, paths[j], keys, orcid, value).value in Candidates(doc, paths, keys, orcid, value)
    decreases |paths|
  {
    var init := paths[..|paths| - 1];
    if j < |paths| - 1 {
      assert init[j] == paths[j];
      CandidateOf(doc, init, keys, orcid, value, j);
    }
  }

  /** Every candidate row is the row of one of the paths, and every path's row is a candidate. */
  lemma CandidateMembers(doc: Node, paths: seq<Path>, keys: seq<string>, orcid: string, value: string)
    ensures forall x :: x in Candidates(doc, paths, keys, orcid, value) <==>
      exists j :: 0 <= j < |paths| && CandidateRow(doc, paths[j], keys, orcid, value) == Some(x)
  {
    forall x
      ensures x in Candidates(doc, paths, keys, orcid, value) <==>
        exists j :: 0 <= j < |paths| && CandidateRow(doc, paths[j], keys, orcid, value) == Some(x)
    {
      if x in Candidates(doc, paths, keys, orcid, value) {
        var j := CandidateFrom(doc, paths, keys, orcid, value, x);
      }
      if exists j :: 0 <= j < |paths| && CandidateRow(doc, paths[j], keys, orcid, value) == Some(x) {
        var j :| 0 <= j < |paths| && CandidateRow(doc, paths[j], keys, orcid, value) == Some(x);
        CandidateOf(doc, paths, keys, orcid, value, j);
      }
    }
  }

  predicate Distinct<T(==)>(xs: seq<T>) {
    forall i, j :: 0 <= i < j < |xs| ==> xs[i] != xs[j]
  }

  /** Position of the first occurrence of `x` in `xs`. */
  function FirstIndex<T(==)>(xs: seq<T>, x: T): (k: nat)
    requires x in xs
    ensures k < |xs| && xs[k] == x
    ensures forall j :: 0 <= j < k ==> xs[j] != x
  {
    if xs[0] == x then 0 else 1 + FirstIndex(xs[1..], x)
  }

  /** The first occurrence of each element, in order of first occurrence. */
  function Dedup<T(==,!new)>(xs: seq<T>): (r: seq<T>)
    ensures forall x :: x in r <==> x in xs
    ensures Distinct(r)
    ensures |r| <= |xs|
    decreases |xs|
  {
    if |xs| == 0 then []
    else
      var init := xs[..|xs| - 1];
      var last := xs[|xs| - 1];
      assert forall x :: x in xs <==> x in init || x == last;
      if last in init then Dedup(init) else Dedup(init) + [last]
  }

  lemma {:induction false} FirstIndexOfPrefix<T>(xs: seq<T>, x: T, n: nat)
    requires n <= |xs|
    requires x in xs[..n]
    ensures FirstIndex(xs, x) == FirstIndex(xs[..n], x)
    decreases |xs|
  {
    if xs[0] != x {
      assert xs[1..][..n - 1] == xs[..n][1..];
      FirstIndexOfPrefix(xs[1..], x, n - 1);
    }
  }

  /** The kept elements appear in the order of their first occurrences. */
  lemma {:induction false} DedupKeepsOrder<T(!new)>(xs: seq<T>)
    ensures forall i, j :: 0 <= i < j < |Dedup(xs)| ==> FirstIndex(xs, Dedup(xs)[i]) < FirstIndex(xs, Dedup(xs)[j])
    decreases |xs|
  {
    if |xs| > 0 {
      var init := xs[..|xs| - 1];
      var last := xs[|xs| - 1];
      DedupKeepsOrder(init);
      var d := Dedup(init);
      forall y | y in d
        ensures FirstIndex(xs, y) == FirstIndex(init, y) < |init|
      {
        FirstIndexOfPrefix(xs, y, |xs| - 1);
      }
      if last !in init {
        assert FirstIndex(xs, last) == |xs| - 1;
        assert Dedup(xs) == d + [last];
      }
    }
  }

  // ---------------------------------------------------------------------------
  // The table is the first occurrences of the candidate rows

  /** One more path adds its candidate row, if it has one, at the end. */
  lemma CandidatesSnoc(doc: Node, paths: seq<Path>, keys: seq<string>, orcid: string, value: string, i: nat)
    requires i < |paths|
    ensures Candidates(doc, paths[..i + 1], keys, orcid, value) ==
      Candidates(doc, paths[..i], keys, orcid, value) +
      (match CandidateRow(doc, paths[i], keys, orcid, value) case Some(row) => [row] case None => [])
  {
    assert paths[..i + 1][..i] == paths[..i];
    assert paths[..i + 1][i] == paths[i];
  }

  /** De-duplicating one more element keeps it exactly when it is new. */
  lemma DedupSnoc<T(!new)>(xs: seq<T>, x: T)
    ensures Dedup(xs + [x]) == if x in Dedup(xs) then Dedup(xs) else Dedup(xs) + [x]
  {
    assert (xs + [x])[..|xs|] == xs;
  }

  /** After `i` paths, the kept rows are the first occurrences of the first `i`
      candidates, and `seen` holds exactly them. */
  lemma {:induction false} CollectIsDedup(doc: Node, paths: seq<Path>, keys: seq<string>, orcid: string, value: string,
                                          i: nat, seen: set<Row>, acc: seq<Row>)
    requires i <= |paths|
    requires acc == Dedup(Candidates(doc, paths[..i], keys, orcid, value))
    requires forall x :: x in seen <==> x in acc
    ensures CollectFrom(doc, paths, keys, orcid, value, i, seen, acc).Success? ==>
      CollectFrom(doc, paths, keys, orcid, value, i, seen, acc).value == Dedup(Candidates(doc, paths, keys, orcid, value))
    decreases |paths| - i
  {
    if i == |paths| {
      assert paths[..i] == paths;
    } else {
      var c := Candidates(doc, paths[..i], keys, orcid, value);
      CandidatesSnoc(doc, paths, keys, orcid, value, i);
      var fill := FillRow(doc, paths[i], keys);
      if fill.Success? && fill.value.None? {
        assert c + [] == c;
        CollectIsDedup(doc, paths, keys, orcid, value, i + 1, seen, acc);
      } else if fill.Success? {
        var row := Lead(orcid, value) + fill.value.value;
        DedupSnoc(c, row);
        if Hashable(row) && row in seen {
          CollectIsDedup(doc, paths, keys, orcid, value, i + 1, seen, acc);
        } else if Hashable(row) {
          CollectIsDedup(doc, paths, keys, orcid, value, i + 1, seen + {row}, acc + [row]);
        }
      }
    }
  }

  /** Every candidate row is `[orcid, value]` followed by one value per key. */
  lemma {:induction false} CandidateShape(doc: Node, paths: seq<Path>, keys: seq<string>, orcid: string, value: string)
    ensures forall row :: row in Candidates(doc, paths, keys, orcid, value) ==>
      |row| == |Columns(keys)| && row[..2] == Lead(orcid, value)
    decreases |paths|
  {
    if |paths| > 0 {
      CandidateShape(doc, paths[..|paths| - 1], keys, orcid, value);
    }
  }

  /** The rows the path loop keeps are the first occurrences of the candidate rows. */
  lemma RowsAreDedup(doc: Node, paths: seq<Path>, keys: seq<string>, orcid: string, value: string)
    requires BuildTable(doc, paths, keys, orcid, value).Success?
    ensures BuildTable(doc, paths, keys, orcid, value).value.rows == Dedup(Candidates(doc, paths, keys, orcid, value))
  {
    assert paths[..0] == [];
    CollectIsDedup(doc, paths, keys, orcid, value, 0, {}, []);
  }

  /** The table's rows are the candidate rows with repeats removed, first occurrence
      kept, in path order; so they are pairwise distinct, at most one per path, and
      each is `[orcid, value]` followed by one value per key. */
  lemma TableIsDedup(doc: Node, paths: seq<Path>, keys: seq<string>, orcid: string, value: string)
    requires BuildTable(doc, paths, keys, orcid, value).Success?
    ensures BuildTable(doc, paths, keys, orcid, value).value.rows == Dedup(Candidates(doc, paths, keys, orcid, value))
    ensures Distinct(BuildTable(doc, paths, keys, orcid, value).value.rows)
    ensures |BuildTable(doc, paths, keys, orcid, value).value.rows| <= |paths|
    ensures forall row :: row in BuildTable(doc, paths, keys, orcid, value).value.rows ==>
      |row| == |Columns(keys)| && row[..2] == Lead(orcid, value) &&
      exists j :: 0 <= j < |paths| && CandidateRow(doc, paths[j], keys, orcid, value) == Some(row)
  {
    RowsAreDedup(doc, paths, keys, orcid, value);
    CandidateShape(doc, paths, keys, orcid, value);
    CandidateMembers(doc, paths, keys, orcid, value);
  }

  /** Rows appear in the order in which paths first produced them. */
  lemma TableKeepsPathOrder(doc: Node, paths: seq<Path>, keys: seq<string>, orcid: string, value: string)
    requires BuildTable(doc, paths, keys, orcid, value).Success?
    ensures forall row :: row in BuildTable(doc, paths, keys, orcid, value).value.rows ==>
      row in Candidates(doc, paths, keys, orcid, value)
    ensures forall a, b :: 0 <= a < b < |BuildTable(doc, paths, keys, orcid, value).value.rows| ==>
      FirstIndex(Candidates(doc, paths, keys, orcid, value), BuildTable(doc, paths, keys, orcid, value).value.rows[a]) <
      FirstIndex(Candidates(doc, paths, keys, orcid, value), BuildTable(doc, paths, keys, orcid, value).value.rows[b])
  {
    RowsAreDedup(doc, paths, keys, orcid, value);
    DedupKeepsOrder(Candidates(doc, paths, keys, orcid, value));
  }

  // ---------------------------------------------------------------------------
  // Rows against the resolver's first results

  /** A row is complete exactly when every key has a first result for the path, and
      its values are those results' values in key order. */
  lemma {:induction false} FillRowIsFirstHits(doc: Node, path: Path, keys: seq<string>)
    requires FillRow(doc, path, keys).Success?
    ensures FillRow(doc, path, keys).value.Some? <==>
      forall j :: 0 <= j < |keys| ==> FirstHit(doc, path, 0, keys[j], false).Some?
    ensures FillRow(doc, path, keys).value.Some? ==>
      forall j :: 0 <= j < |keys| ==> FillRow(doc, path, keys).value.value[j] == FirstHit(doc, path, 0, keys[j], false).value.value
    decreases |keys|
  {
    if |keys| > 0 {
      FirstResultIsFirstHit(doc, path, keys[0], false);
      match FirstValue(doc, path, keys[0])
      case Success(None) =>
      case Success(Some(v)) =>
        FillRowIsFirstHits(doc, path, keys[1..]);
        assert forall j :: 1 <= j < |keys| ==> keys[j] == keys[1..][j - 1];
    }
  }

  /** On a path that resolves, the key loop never raises. */
  lemma FillRowOnResolvingPath(doc: Node, path: Path, keys: seq<string>)
    requires Resolve(doc, path).Some?
    ensures FillRow(doc, path, keys).Success?
  {
    if |keys| > 0 {
      ResolvingAnchorsDoNotRaise(doc, [path], keys[0], false);
      FillRowOnResolvingPath(doc, path, keys[1..]);
    }
  }

  /** Candidate rows are hashable on every path from `i` on. */
  predicate HashableFrom(doc: Node, paths: seq<Path>, keys: seq<string>, orcid: string, value: string, i: nat) {
    forall j :: i <= j < |paths| && CandidateRow(doc, paths[j], keys, orcid, value).Some? ==>
      Hashable(CandidateRow(doc, paths[j], keys, orcid, value).value)
  }

  lemma {:induction false} CollectSucceeds(doc: Node, paths: seq<Path>, keys: seq<string>, orcid: string, value: string,
                                           i: nat, seen: set<Row>, acc: seq<Row>)
    requires i <= |paths|
    requires forall j :: i <= j < |paths| ==> FillRow(doc, paths[j], keys).Success?
    ensures CollectFrom(doc, paths, keys, orcid, value, i, seen, acc).Success? <==>
      HashableFrom(doc, paths, keys, orcid, value, i)
    decreases |paths| - i
  {
    if i < |paths| {
      match FillRow(doc, paths[i], keys)
      case Success(None) =>
        CollectSucceeds(doc, paths, keys, orcid, value, i + 1, seen, acc);
      case Success(Some(vs)) =>
        var row := Lead(orcid, value) + vs;
        if Hashable(row) {
          if row in seen {
            CollectSucceeds(doc, paths, keys, orcid, value, i + 1, seen, acc);
          } else {
            CollectSucceeds(doc, paths, keys, orcid, value, i + 1, seen + {row}, acc + [row]);
          }
        }
    }
  }

  /** When every path resolves, building the table never raises a lookup error, and
      it fails exactly when some complete row holds a dict or a list. */
  lemma BuildOnResolvingPaths(doc: Node, paths: seq<Path>, keys: seq<string>, orcid: string, value: string)
    requires forall j :: 0 <= j < |paths| ==> Resolve(doc, paths[j]).Some?
    ensures BuildTable(doc, paths, keys, orcid, value) != Failure(LookupError)
    ensures BuildTable(doc, paths, keys, orcid, value).Success? <==>
      forall row :: row in Candidates(doc, paths, keys, orcid, value) ==> Hashable(row)
  {
    forall j | 0 <= j < |paths|
      ensures FillRow(doc, paths[j], keys).Success?
    {
      FillRowOnResolvingPath(doc, paths[j], keys);
    }
    CollectSucceeds(doc, paths, keys, orcid, value, 0, {}, []);
    NoLookupFrom(doc, paths, keys, orcid, value, 0, {}, []);
    HashableCandidates(doc, paths, keys, orcid, value);
  }

  /** Every path's candidate row is hashable exactly when every candidate row is. */
  lemma HashableCandidates(doc: Node, paths: seq<Path>, keys: seq<string>, orcid: string, value: string)
    ensures HashableFrom(doc, paths, keys, orcid, value, 0) <==>
      forall row :: row in Candidates(doc, paths, keys, orcid, value) ==> Hashable(row)
  {
    CandidateMembers(doc, paths, keys, orcid, value);
    var c := Candidates(doc, paths, keys, orcid, value);
    if HashableFrom(doc, paths, keys, orcid, value, 0) {
      forall row | row in c
        ensures Hashable(row)
      {
        var j :| 0 <= j < |paths| && CandidateRow(doc, paths[j], keys, orcid, value) == Some(row);
      }
    } else {
      var j :| 0 <= j < |paths| && CandidateRow(doc, paths[j], keys, orcid, value).Some? &&
        !Hashable(CandidateRow(doc, paths[j], keys, orcid, value).value);
      assert CandidateRow(doc, paths[j], keys, orcid, value).value in c;
    }
  }

  lemma {:induction false} NoLookupFrom(doc: Node, paths: seq<Path>, keys: seq<string>, orcid: string, value: string,
                                        i: nat, seen: set<Row>, acc: seq<Row>)
    requires i <= |paths|
    requires forall j :: i <= j < |paths| ==> FillRow(doc, paths[j], keys).Success?
    ensures CollectFrom(doc, paths, keys, orcid, value, i, seen, acc) != Failure(LookupError)
    decreases |paths| - i
  {
    if i < |paths| {
      match FillRow(doc, paths[i], keys)
      case Success(None) =>
        NoLookupFrom(doc, paths, keys, orcid, value, i + 1, seen, acc);
      case Success(Some(vs)) =>
        var row := Lead(orcid, value) + vs;
        if Hashable(row) {
          if row in seen {
            NoLookupFrom(doc, paths, keys, orcid, value, i + 1, seen, acc);
          } else {
            NoLookupFrom(doc, paths, keys, orcid, value, i + 1, seen + {row}, acc + [row]);
          }
        }
    }
  }

  /** De-duplicating a sequence of one repeated element leaves at most that element. */
  lemma {:induction false} DedupConstant<T(!new)>(xs: seq<T>, x: T)
    requires forall i :: 0 <= i < |xs| ==> xs[i] == x
    ensures Dedup(xs) == if |xs| == 0 then [] else [x]
    decreases |xs|
  {
    if |xs| > 0 {
      var init := xs[..|xs| - 1];
      DedupConstant(init, x);
      if |init| > 0 {
        assert init[0] == x;
      }
    }
  }

  /** With no keys every candidate row is `[orcid, value]`, so the table is that
      one row or empty. */
  lemma NoKeysAtMostOneRow(doc: Node, paths: seq<Path>, orcid: string, value: string)
    requires BuildTable(doc, paths, [], orcid, value).Success?
    ensures BuildTable(doc, paths, [], orcid, value).value.rows in {[], [Lead(orcid, value)]}
  {
    RowsAreDedup(doc, paths, [], orcid, value);
    CandidateShape(doc, paths, [], orcid, value);
    var c := Candidates(doc, paths, [], orcid, value);
    forall i | 0 <= i < |c|
      ensures c[i] == Lead(orcid, value)
    {
      assert c[i] in c;
      assert c[i] == c[i][..2];
    }
    DedupConstant(c, Lead(orcid, value));
  }

  /** A key that has no result on any path empties the table. */
  lemma MissingKeyNoRows(doc: Node, paths: seq<Path>, keys: seq<string>, orcid: string, value: string, k: nat)
    requires k < |keys|
    requires forall j :: 0 <= j < |paths| ==> FirstHit(doc, paths[j], 0, keys[k], false).None?
    requires BuildTable(doc, paths, keys, orcid, value).Success?
    ensures BuildTable(doc, paths, keys, orcid, value).value.rows == []
  {
    RowsAreDedup(doc, paths, keys, orcid, value);
    CandidateMembers(doc, paths, keys, orcid, value);
    var c := Candidates(doc, paths, keys, orcid, value);
    if |c| > 0 {
      assert c[0] in c;
      var j :| 0 <= j < |paths| && CandidateRow(doc, paths[j], keys, orcid, value) == Some(c[0]);
      FillRowIsFirstHits(doc, paths[j], keys);
    }
  }

  // ---------------------------------------------------------------------------
  // Rows described without the key loop

  /** The row a path should give, read off the resolver's first results: present
      exactly when every key has one. */
  function ExpectedRow(doc: Node, path: Path, keys: seq<string>, orcid: string, value: string): Option<Row> {
    if forall k :: 0 <= k < |keys| ==> FirstHit(doc, path, 0, keys[k], false).Some?
    then Some(Lead(orcid, value) + seq(|keys|, k requires 0 <= k < |keys| => FirstHit(doc, path, 0, keys[k], false).value.value))
    else None
  }

  /** Whenever the key loop does not raise, its row is the expected row. */
  lemma CandidateIsExpected(doc: Node, path: Path, keys: seq<string>, orcid: string, value: string)
    requires FillRow(doc, path, keys).Success?
    ensures CandidateRow(doc, path, keys, orcid, value) == ExpectedRow(doc, path, keys, orcid, value)
  {
    FillRowIsFirstHits(doc, path, keys);
    var fill := FillRow(doc, path, keys);
    if fill.value.Some? {
      var vs := fill.value.value;
      var hits := seq(|keys|, k requires 0 <= k < |keys| => FirstHit(doc, path, 0, keys[k], false).value.value);
      assert vs == hits;
    }
  }

  /** A path loop that finishes ran the key loop without a raise on every path. */
  lemma {:induction false} CollectFillsAll(doc: Node, paths: seq<Path>, keys: seq<string>, orcid: string, value: string,
                                           i: nat, seen: set<Row>, acc: seq<Row>)
    requires i <= |paths|
    requires CollectFrom(doc, paths, keys, orcid, value, i, seen, acc).Success?
    ensures forall j :: i <= j < |paths| ==> FillRow(doc, paths[j], keys).Success?
    decreases |paths| - i
  {
    if i < |paths| {
      var fill := FillRow(doc, paths[i], keys);
      if fill.value.None? {
        CollectFillsAll(doc, paths, keys, orcid, value, i + 1, seen, acc);
      } else {
        var row := Lead(orcid, value) + fill.value.value;
        if row in seen {
          CollectFillsAll(doc, paths, keys, orcid, value, i + 1, seen, acc);
        } else {
          CollectFillsAll(doc, paths, keys, orcid, value, i + 1, seen + {row}, acc + [row]);
        }
      }
    }
  }

  /** A row is in the table exactly when some path's expected row is that row. */
  lemma TableRowsAreExpected(doc: Node, paths: seq<Path>, keys: seq<string>, orcid: string, value: string)
    requires BuildTable(doc, paths, keys, orcid, value).Success?
    ensures forall row :: row in BuildTable(doc, paths, keys, orcid, value).value.rows <==>
      exists j :: 0 <= j < |paths| && ExpectedRow(doc, paths[j], keys, orcid, value) == Some(row)
  {
    RowsAreDedup(doc, paths, keys, orcid, value);
    CandidateMembers(doc, paths, keys, orcid, value);
    CollectFillsAll(doc, paths, keys, orcid, value, 0, {}, []);
    forall j | 0 <= j < |paths|
      ensures CandidateRow(doc, paths[j], keys, orcid, value) == ExpectedRow(doc, paths[j], keys, orcid, value)
    {
      CandidateIsExpected(doc, paths[j], keys, orcid, value);
    }
  }

  /** When every path resolves, the table fails exactly when some path's expected
      row holds a dict or a list. */
  lemma ExpectedRowsHashable(doc: Node, paths: seq<Path>, keys: seq<string>, orcid: string, value: string)
    requires forall j :: 0 <= j < |paths| ==> Resolve(doc, paths[j]).Some?
    ensures BuildTable(doc, paths, keys, orcid, value).Success? <==>
      forall j :: 0 <= j < |paths| && ExpectedRow(doc, paths[j], keys, orcid, value).Some? ==>
        Hashable(ExpectedRow(doc, paths[j], keys, orcid, value).value)
  {
    forall j | 0 <= j < |paths|
      ensures CandidateRow(doc, paths[j], keys, orcid, value) == ExpectedRow(doc, paths[j], keys, orcid, value)
    {
      FillRowOnResolvingPath(doc, paths[j], keys);
      CandidateIsExpected(doc, paths[j], keys, orcid, value);
    }
    BuildOnResolvingPaths(doc, paths, keys, orcid, value);
    HashableCandidates(doc, paths, keys, orcid, value);
  }
}
