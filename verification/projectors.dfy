/** The table of one searched value, as the three row projectors build it: the
    paths of the value, then one row per path. The finder is the exact one in
    import_requests.py and the case-folding one of json_lib.py in the examples. */
module ValueTables {
  import opened Wrappers
  import opened JsonTree
  import opened PathFinder
  import opened RowProjector

  /** The value finder the caller uses. */
  function ValuePaths(mode: Mode, target: Node, doc: Node): seq<Path> {
    match mode
    case Exact => FindAllPathsOfValue(target, doc)
    case CaseFold => FindAllPathsOfValueFolded(target, doc)
  }

  function ValueTable(mode: Mode, doc: Node, searchValue: string, keys: seq<string>, orcid: string): Result<Table, ProjectError> {
    BuildTable(doc, ValuePaths(mode, Str(searchValue), doc), keys, orcid, searchValue)
  }

  /** The value finder yields exactly the outermost matches, and each resolves. */
  lemma PathsAreOutermostMatches(mode: Mode, target: Node, doc: Node)
    requires WellFormed(doc)
    ensures forall p :: p in ValuePaths(mode, target, doc) <==> OutermostMatch(mode, target, doc, p)
    ensures forall j :: 0 <= j < |ValuePaths(mode, target, doc)| ==> Resolve(doc, ValuePaths(mode, target, doc)[j]).Some?
  {
    var paths := ValuePaths(mode, target, doc);
    assert paths == Search(ValueProbe(mode, target), doc, []);
    forall p
      ensures p in paths <==> OutermostMatch(mode, target, doc, p)
    {
      ValuePathsExact(mode, target, doc, p);
    }
    assert forall j :: 0 <= j < |paths| ==> paths[j] in paths;
  }

  /** Every row comes from an outermost match and every outermost match's row is there. */
  lemma RowsOfMatches(mode: Mode, doc: Node, searchValue: string, keys: seq<string>, orcid: string)
    requires WellFormed(doc)
    requires ValueTable(mode, doc, searchValue, keys, orcid).Success?
    ensures forall row :: row in ValueTable(mode, doc, searchValue, keys, orcid).value.rows <==>
      exists p :: OutermostMatch(mode, Str(searchValue), doc, p) && ExpectedRow(doc, p, keys, orcid, searchValue) == Some(row)
  {
    var target := Str(searchValue);
    var paths := ValuePaths(mode, target, doc);
    PathsAreOutermostMatches(mode, target, doc);
    TableRowsAreExpected(doc, paths, keys, orcid, searchValue);
    forall row | exists p :: OutermostMatch(mode, target, doc, p) && ExpectedRow(doc, p, keys, orcid, searchValue) == Some(row)
      ensures exists j :: 0 <= j < |paths| && ExpectedRow(doc, paths[j], keys, orcid, searchValue) == Some(row)
    {
      var p :| OutermostMatch(mode, target, doc, p) && ExpectedRow(doc, p, keys, orcid, searchValue) == Some(row);
      var j :| 0 <= j < |paths| && paths[j] == p;
    }
  }

  /** The table fails exactly when an outermost match's row holds a dict or a list. */
  lemma HashableMatches(mode: Mode, doc: Node, searchValue: string, keys: seq<string>, orcid: string)
    requires WellFormed(doc)
    ensures ValueTable(mode, doc, searchValue, keys, orcid).Success? <==>
      forall p :: OutermostMatch(mode, Str(searchValue), doc, p) && ExpectedRow(doc, p, keys, orcid, searchValue).Some? ==>
        Hashable(ExpectedRow(doc, p, keys, orcid, searchValue).value)
  {
    var target := Str(searchValue);
    var paths := ValuePaths(mode, target, doc);
    PathsAreOutermostMatches(mode, target, doc);
    ExpectedRowsHashable(doc, paths, keys, orcid, searchValue);
    if !ValueTable(mode, doc, searchValue, keys, orcid).Success? {
      var j :| 0 <= j < |paths| && ExpectedRow(doc, paths[j], keys, orcid, searchValue).Some? &&
        !Hashable(ExpectedRow(doc, paths[j], keys, orcid, searchValue).value);
      assert paths[j] in paths;
    }
  }

  /** On a parsed document the table never hits a lookup error; it fails exactly
      when an outermost match's row holds a dict or a list; otherwise its rows are
      distinct and are exactly the rows of the outermost matches. */
  lemma ValueTableRows(mode: Mode, doc: Node, searchValue: string, keys: seq<string>, orcid: string)
    requires WellFormed(doc)
    ensures ValueTable(mode, doc, searchValue, keys, orcid) != Failure(LookupError)
    ensures ValueTable(mode, doc, searchValue, keys, orcid).Success? <==>
      forall p :: OutermostMatch(mode, Str(searchValue), doc, p) && ExpectedRow(doc, p, keys, orcid, searchValue).Some? ==>
        Hashable(ExpectedRow(doc, p, keys, orcid, searchValue).value)
    ensures ValueTable(mode, doc, searchValue, keys, orcid).Success? ==>
      && Distinct(ValueTable(mode, doc, searchValue, keys, orcid).value.rows)
      && forall row :: row in ValueTable(mode, doc, searchValue, keys, orcid).value.rows <==>
           exists p :: OutermostMatch(mode, Str(searchValue), doc, p) && ExpectedRow(doc, p, keys, orcid, searchValue) == Some(row)
  {
    var paths := ValuePaths(mode, Str(searchValue), doc);
    PathsAreOutermostMatches(mode, Str(searchValue), doc);
    BuildOnResolvingPaths(doc, paths, keys, orcid, searchValue);
    HashableMatches(mode, doc, searchValue, keys, orcid);
    if ValueTable(mode, doc, searchValue, keys, orcid).Success? {
      TableIsDedup(doc, paths, keys, orcid, searchValue);
      RowsOfMatches(mode, doc, searchValue, keys, orcid);
    }
  }
}

/** `construct_table_with_keys` of import_requests.py: the exact value finder. */
module ImportRequests {
  import opened Wrappers
  import opened JsonTree
  import opened PathFinder
  import opened RowProjector
  import opened ValueTables

  function ConstructTableWithKeys(orcid: string, doc: Node, searchValue: string, keys: seq<string>): (r: Result<Table, ProjectError>)
    ensures r.Success? ==> r.value.columns == Columns(keys)
    ensures r.Failure? ==> r.error != NothingToConcatenate
  {
    BuildTable(doc, FindAllPathsOfValue(Str(searchValue), doc), keys, orcid, searchValue)
  }

  /** The rows are those of the outermost exact matches of the searched value. */
  lemma TableRows(orcid: string, doc: Node, searchValue: string, keys: seq<string>)
    requires WellFormed(doc)
    ensures ConstructTableWithKeys(orcid, doc, searchValue, keys) != Failure(LookupError)
    ensures ConstructTableWithKeys(orcid, doc, searchValue, keys).Success? <==>
      forall p :: OutermostMatch(Exact, Str(searchValue), doc, p) && ExpectedRow(doc, p, keys, orcid, searchValue).Some? ==>
        Hashable(ExpectedRow(doc, p, keys, orcid, searchValue).value)
    ensures ConstructTableWithKeys(orcid, doc, searchValue, keys).Success? ==>
      && Distinct(ConstructTableWithKeys(orcid, doc, searchValue, keys).value.rows)
      && forall row :: row in ConstructTableWithKeys(orcid, doc, searchValue, keys).value.rows <==>
           exists p :: OutermostMatch(Exact, Str(searchValue), doc, p) && ExpectedRow(doc, p, keys, orcid, searchValue) == Some(row)
  {
    assert ConstructTableWithKeys(orcid, doc, searchValue, keys) == ValueTable(Exact, doc, searchValue, keys, orcid);
    ValueTableRows(Exact, doc, searchValue, keys, orcid);
  }
}

/** `extract_data` of example1.py: the case-folding value finder of json_lib.py. */
module Example1 {
  import opened Wrappers
  import opened JsonTree
  import opened PathFinder
  import opened RowProjector
  import opened ValueTables

  function ExtractData(doc: Node, targetValue: string, keys: seq<string>, orcidId: string): (r: Result<Table, ProjectError>)
    ensures r.Success? ==> r.value.columns == Columns(keys)
    ensures r.Failure? ==> r.error != NothingToConcatenate
  {
    BuildTable(doc, FindAllPathsOfValueFolded(Str(targetValue), doc), keys, orcidId, targetValue)
  }

  /** The rows are those of the outermost case-insensitive matches of the target. */
  lemma TableRows(doc: Node, targetValue: string, keys: seq<string>, orcidId: string)
    requires WellFormed(doc)
    ensures ExtractData(doc, targetValue, keys, orcidId) != Failure(LookupError)
    ensures ExtractData(doc, targetValue, keys, orcidId).Success? <==>
      forall p :: OutermostMatch(CaseFold, Str(targetValue), doc, p) && ExpectedRow(doc, p, keys, orcidId, targetValue).Some? ==>
        Hashable(ExpectedRow(doc, p, keys, orcidId, targetValue).value)
    ensures ExtractData(doc, targetValue, keys, orcidId).Success? ==>
      && Distinct(ExtractData(doc, targetValue, keys, orcidId).value.rows)
      && forall row :: row in ExtractData(doc, targetValue, keys, orcidId).value.rows <==>
           exists p :: OutermostMatch(CaseFold, Str(targetValue), doc, p) && ExpectedRow(doc, p, keys, orcidId, targetValue) == Some(row)
  {
    assert ExtractData(doc, targetValue, keys, orcidId) == ValueTable(CaseFold, doc, targetValue, keys, orcidId);
    ValueTableRows(CaseFold, doc, targetValue, keys, orcidId);
  }
}

/** `construct_table_with_keys` of example2.py: the json_lib.py finder, the id last. */
module Example2 {
  import opened Wrappers
  import opened JsonTree
  import opened PathFinder
  import opened RowProjector
  import Example1

  function ConstructTableWithKeys(doc: Node, searchValue: string, keys: seq<string>, orcid: string): (r: Result<Table, ProjectError>)
    ensures r.Success? ==> r.value.columns == Columns(keys)
    ensures r.Failure? ==> r.error != NothingToConcatenate
  {
    BuildTable(doc, FindAllPathsOfValueFolded(Str(searchValue), doc), keys, orcid, searchValue)
  }

  /** The same table as example1.py's `extract_data` with the same arguments. */
  lemma SameAsExample1(doc: Node, searchValue: string, keys: seq<string>, orcid: string)
    ensures ConstructTableWithKeys(doc, searchValue, keys, orcid) == Example1.ExtractData(doc, searchValue, keys, orcid)
  {
  }
}

/** `extract_data` of example3.py: one example1.py table per target value, in
    order, concatenated; each table is de-duplicated on its own. */
module Example3 {
  import opened Wrappers
  import opened JsonTree
  import opened RowProjector
  import PathFinder
  import Example1

  /** The rows of the tables of `targets`, in order; the first failing target's error. */
  function Blocks(doc: Node, targets: seq<string>, keys: seq<string>, orcidId: string): (r: Result<seq<Row>, ProjectError>)
    ensures r.Failure? ==> r.error != NothingToConcatenate
    decreases |targets|
  {
    if |targets| == 0 then Success([])
    else match Example1.ExtractData(doc, targets[0], keys, orcidId)
      case Failure(e) => Failure(e)
      case Success(t) =>
        match Blocks(doc, targets[1..], keys, orcidId)
        case Failure(e) => Failure(e)
        case Success(rest) => Success(t.rows + rest)
  }

  /** `pd.concat` of no tables raises; otherwise the tables' rows one after another. */
  function ExtractData(doc: Node, targets: seq<string>, keys: seq<string>, orcidId: string): (r: Result<Table, ProjectError>)
    ensures r == Failure(NothingToConcatenate) <==> |targets| == 0
    ensures r.Success? ==> r.value.columns == Columns(keys)
  {
    if |targets| == 0 then Failure(NothingToConcatenate)
    else match Blocks(doc, targets, keys, orcidId)
      case Success(rows) => Success(Table(Columns(keys), rows))
      case Failure(e) => Failure(e)
  }

  /** One target gives example1.py's table. */
  lemma SingleTarget(doc: Node, target: string, keys: seq<string>, orcidId: string)
    ensures ExtractData(doc, [target], keys, orcidId) == Example1.ExtractData(doc, target, keys, orcidId)
  {
    assert [target][1..] == [];
    assert Blocks(doc, [target][1..], keys, orcidId) == Success([]);
    var one := Example1.ExtractData(doc, target, keys, orcidId);
    if one.Success? {
      assert one.value.rows + [] == one.value.rows;
      assert one.value == Table(Columns(keys), one.value.rows);
    }
  }

  /** The rows of two runs one after the other; the first run's error first. */
  function Join(x: Result<seq<Row>, ProjectError>, y: Result<seq<Row>, ProjectError>): Result<seq<Row>, ProjectError> {
    match x
    case Failure(e) => Failure(e)
    case Success(xs) =>
      match y
      case Failure(e) => Failure(e)
      case Success(ys) => Success(xs + ys)
  }

  lemma JoinAssociative(x: Result<seq<Row>, ProjectError>, y: Result<seq<Row>, ProjectError>, z: Result<seq<Row>, ProjectError>)
    ensures Join(x, Join(y, z)) == Join(Join(x, y), z)
  {
    if x.Success? && y.Success? && z.Success? {
      assert x.value + (y.value + z.value) == (x.value + y.value) + z.value;
    }
  }

  /** The first target's table, then the rest. */
  lemma BlocksCons(doc: Node, targets: seq<string>, keys: seq<string>, orcidId: string)
    requires |targets| > 0
    ensures Blocks(doc, targets, keys, orcidId) ==
      Join(Blocks(doc, [targets[0]], keys, orcidId), Blocks(doc, targets[1..], keys, orcidId))
  {
    assert [targets[0]][1..] == [];
    var head := Example1.ExtractData(doc, targets[0], keys, orcidId);
    if head.Success? {
      assert head.value.rows + [] == head.value.rows;
    }
  }

  lemma {:induction false} BlocksConcat(doc: Node, a: seq<string>, b: seq<string>, keys: seq<string>, orcidId: string)
    ensures Blocks(doc, a + b, keys, orcidId) == Join(Blocks(doc, a, keys, orcidId), Blocks(doc, b, keys, orcidId))
    decreases |a|
  {
    if |a| == 0 {
      assert a + b == b;
      var y := Blocks(doc, b, keys, orcidId);
      if y.Success? {
        assert [] + y.value == y.value;
      }
    } else {
      assert (a + b)[0] == a[0];
      assert (a + b)[1..] == a[1..] + b;
      var one := Blocks(doc, [a[0]], keys, orcidId);
      BlocksCons(doc, a + b, keys, orcidId);
      BlocksCons(doc, a, keys, orcidId);
      BlocksConcat(doc, a[1..], b, keys, orcidId);
      JoinAssociative(one, Blocks(doc, a[1..], keys, orcidId), Blocks(doc, b, keys, orcidId));
    }
  }

  /** Splitting the targets splits the table: the first part's error first, then
      the second's, otherwise the rows of the two parts one after the other. */
  lemma ConcatTargets(doc: Node, a: seq<string>, b: seq<string>, keys: seq<string>, orcidId: string)
    requires |a| > 0 && |b| > 0
    ensures ExtractData(doc, a + b, keys, orcidId) ==
      match ExtractData(doc, a, keys, orcidId)
      case Failure(e) => Failure(e)
      case Success(x) =>
        match ExtractData(doc, b, keys, orcidId)
        case Failure(e) => Failure(e)
        case Success(y) => Success(Table(Columns(keys), x.rows + y.rows))
  {
    BlocksConcat(doc, a, b, keys, orcidId);
    assert |a + b| > 0;
  }

  /** A target listed twice gives its rows twice: the de-duplication is per target. */
  lemma RepeatedTarget(doc: Node, target: string, keys: seq<string>, orcidId: string)
    requires Example1.ExtractData(doc, target, keys, orcidId).Success?
    ensures ExtractData(doc, [target, target], keys, orcidId).Success?
    ensures ExtractData(doc, [target, target], keys, orcidId).value.rows ==
      Example1.ExtractData(doc, target, keys, orcidId).value.rows + Example1.ExtractData(doc, target, keys, orcidId).value.rows
  {
    assert [target, target] == [target] + [target];
    ConcatTargets(doc, [target], [target], keys, orcidId);
    SingleTarget(doc, target, keys, orcidId);
  }

  /** The concatenation succeeds exactly when every target's table does. */
  lemma {:induction false} BlocksSucceed(doc: Node, targets: seq<string>, keys: seq<string>, orcidId: string)
    ensures Blocks(doc, targets, keys, orcidId).Success? <==>
      forall k :: 0 <= k < |targets| ==> Example1.ExtractData(doc, targets[k], keys, orcidId).Success?
    decreases |targets|
  {
    if |targets| > 0 {
      var rest := targets[1..];
      BlocksSucceed(doc, rest, keys, orcidId);
      assert forall k :: 1 <= k < |targets| ==> targets[k] == rest[k - 1];
    }
  }

  /** A successful concatenation holds exactly the rows of the targets' tables. */
  lemma {:induction false} BlocksRows(doc: Node, targets: seq<string>, keys: seq<string>, orcidId: string)
    requires Blocks(doc, targets, keys, orcidId).Success?
    ensures forall k :: 0 <= k < |targets| ==> Example1.ExtractData(doc, targets[k], keys, orcidId).Success?
    ensures forall row :: row in Blocks(doc, targets, keys, orcidId).value <==>
      exists k :: 0 <= k < |targets| && row in Example1.ExtractData(doc, targets[k], keys, orcidId).value.rows
    decreases |targets|
  {
    if |targets| > 0 {
      var rest := targets[1..];
      BlocksSucceed(doc, targets, keys, orcidId);
      BlocksRows(doc, rest, keys, orcidId);
      var r := Blocks(doc, targets, keys, orcidId);
      var head := Example1.ExtractData(doc, targets[0], keys, orcidId).value.rows;
      var tail := Blocks(doc, rest, keys, orcidId).value;
      assert r.value == head + tail;
      forall row | row in r.value
        ensures exists k :: 0 <= k < |targets| && row in Example1.ExtractData(doc, targets[k], keys, orcidId).value.rows
      {
        if row !in head {
          var k :| 0 <= k < |rest| && row in Example1.ExtractData(doc, rest[k], keys, orcidId).value.rows;
          assert targets[k + 1] == rest[k];
        }
      }
      forall row | exists k :: 0 <= k < |targets| && row in Example1.ExtractData(doc, targets[k], keys, orcidId).value.rows
        ensures row in r.value
      {
        var k :| 0 <= k < |targets| && row in Example1.ExtractData(doc, targets[k], keys, orcidId).value.rows;
        if k > 0 {
          assert targets[k] == rest[k - 1];
        }
      }
    }
  }

  /** The table exists when there is a target and every target's table does; each
      row is `[orcid, t, ...]` for a row of the table of some target `t`. */
  lemma RowsByTarget(doc: Node, targets: seq<string>, keys: seq<string>, orcidId: string)
    ensures ExtractData(doc, targets, keys, orcidId).Success? <==>
      |targets| > 0 && forall k :: 0 <= k < |targets| ==> Example1.ExtractData(doc, targets[k], keys, orcidId).Success?
    ensures ExtractData(doc, targets, keys, orcidId).Success? ==>
      forall row :: row in ExtractData(doc, targets, keys, orcidId).value.rows <==>
        exists k :: 0 <= k < |targets| && row in Example1.ExtractData(doc, targets[k], keys, orcidId).value.rows
  {
    BlocksSucceed(doc, targets, keys, orcidId);
    if Blocks(doc, targets, keys, orcidId).Success? {
      BlocksRows(doc, targets, keys, orcidId);
    }
  }

  /** Every row of a target's table starts with that target, so two different
      targets never share a row. */
  lemma TargetsNeverShareRows(doc: Node, t1: string, t2: string, keys: seq<string>, orcidId: string)
    requires t1 != t2
    requires Example1.ExtractData(doc, t1, keys, orcidId).Success?
    requires Example1.ExtractData(doc, t2, keys, orcidId).Success?
    ensures forall row :: row in Example1.ExtractData(doc, t1, keys, orcidId).value.rows ==>
      row !in Example1.ExtractData(doc, t2, keys, orcidId).value.rows
  {
    var paths1 := PathFinder.FindAllPathsOfValueFolded(Str(t1), doc);
    var paths2 := PathFinder.FindAllPathsOfValueFolded(Str(t2), doc);
    TableIsDedup(doc, paths1, keys, orcidId, t1);
    TableIsDedup(doc, paths2, keys, orcidId, t2);
    forall row | row in Example1.ExtractData(doc, t1, keys, orcidId).value.rows
      ensures row !in Example1.ExtractData(doc, t2, keys, orcidId).value.rows
    {
      assert row[..2][1] == Str(t1);
    }
  }

  /** On a parsed document no lookup error is raised. */
  lemma NoLookupError(doc: Node, targets: seq<string>, keys: seq<string>, orcidId: string)
    requires WellFormed(doc)
    ensures ExtractData(doc, targets, keys, orcidId) != Failure(LookupError)
  {
    NoLookupInBlocks(doc, targets, keys, orcidId);
  }

  lemma {:induction false} NoLookupInBlocks(doc: Node, targets: seq<string>, keys: seq<string>, orcidId: string)
    requires WellFormed(doc)
    ensures Blocks(doc, targets, keys, orcidId) != Failure(LookupError)
    decreases |targets|
  {
    if |targets| > 0 {
      Example1.TableRows(doc, targets[0], keys, orcidId);
      NoLookupInBlocks(doc, targets[1..], keys, orcidId);
    }
  }
}
