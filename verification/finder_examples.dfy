/** The docstring examples of the finders and of the key finder's pruning, worked
    out on the model. */
module FinderExamples {
  import opened JsonTree
  import opened PathFinder

  const TestValue: Node := Str("test value")

  const Root: Path := []

  /** The children of a literal object, spelled out for the verifier. */
  lemma ObjChildren(fields: seq<(string, Node)>)
    ensures |Children(Obj(fields))| == |fields|
    ensures forall i :: 0 <= i < |fields| ==> Children(Obj(fields))[i] == (Field(fields[i].0), fields[i].1)
  {
  }

  lemma ArrChildren(items: seq<Node>)
    ensures |Children(Arr(items))| == |items|
    ensures forall i :: 0 <= i < |items| ==> Children(Arr(items))[i] == (Index(i), items[i])
  {
  }

  /** The search of a node with one or two children, unrolled. */
  lemma SearchOne(probe: Probe, n: Node, prefix: Path)
    requires |Children(n)| == 1
    ensures Search(probe, n, prefix) == Part(probe, n, prefix, 0)
  {
    assert SearchFrom(probe, n, prefix, 1) == [];
  }

  lemma SearchTwo(probe: Probe, n: Node, prefix: Path)
    requires |Children(n)| == 2
    ensures Search(probe, n, prefix) == Part(probe, n, prefix, 0) + Part(probe, n, prefix, 1)
  {
    assert SearchFrom(probe, n, prefix, 2) == [];
    assert SearchFrom(probe, n, prefix, 1) == Part(probe, n, prefix, 1);
  }

  /** {'key1': 'test value', 'key2': {'nested_key': 'test value'}} */
  const Nested: Node :=
    Obj([("key1", TestValue), ("key2", Obj([("nested_key", TestValue)]))])

  /** {'key1': 'test value', 'key2': [{'nested_key': 'test value'}, {'nested_key': 'other value'}]} */
  const InList: Node :=
    Obj([("key1", TestValue),
         ("key2", Arr([Obj([("nested_key", TestValue)]), Obj([("nested_key", Str("other value"))])]))])

  /** [{'key1': 'test value'}, {'key2': {'nested_key': 'test value'}}] */
  const TopList: Node :=
    Arr([Obj([("key1", TestValue)]), Obj([("key2", Obj([("nested_key", TestValue)]))])])

  lemma ExactNested()
    ensures FindAllPathsOfValue(TestValue, Nested) == [[Field("key1")], [Field("key2"), Field("nested_key")]]
  {
    var probe := ValueProbe(Exact, TestValue);
    var inner := Obj([("nested_key", TestValue)]);
    var k2: Path := [Field("key2")];
    ObjChildren(inner.fields);
    ObjChildren(Nested.fields);
    assert Root + [Field("key1")] == [Field("key1")];
    assert Root + [Field("key2")] == k2;
    assert k2 + [Field("nested_key")] == [Field("key2"), Field("nested_key")];
    assert Part(probe, inner, k2, 0) == [[Field("key2"), Field("nested_key")]];
    SearchOne(probe, inner, k2);
    assert Search(probe, inner, k2) == [[Field("key2"), Field("nested_key")]];
    assert Part(probe, Nested, Root, 0) == [[Field("key1")]];
    assert Part(probe, Nested, Root, 1) == [[Field("key2"), Field("nested_key")]];
    SearchTwo(probe, Nested, Root);
  }

  lemma ExactInList()
    ensures FindAllPathsOfValue(TestValue, InList) == [[Field("key1")], [Field("key2"), Index(0), Field("nested_key")]]
  {
    var probe := ValueProbe(Exact, TestValue);
    InListSearch(probe);
  }

  /** Shared by the exact and the case-folding run on `InList`: "test value" matches
      and "other value" does not under either comparison. */
  lemma InListSearch(probe: Probe)
    requires probe == ValueProbe(Exact, TestValue) || probe == ValueProbe(CaseFold, TestValue)
    ensures Search(probe, InList, Root) == [[Field("key1")], [Field("key2"), Index(0), Field("nested_key")]]
  {
    var e0 := Obj([("nested_key", TestValue)]);
    var e1 := Obj([("nested_key", Str("other value"))]);
    var arr := Arr([e0, e1]);
    var k2: Path := [Field("key2")];
    var k20: Path := [Field("key2"), Index(0)];
    var k21: Path := [Field("key2"), Index(1)];
    var hit: Path := [Field("key2"), Index(0), Field("nested_key")];
    ObjChildren(e0.fields);
    ObjChildren(e1.fields);
    ArrChildren(arr.items);
    ObjChildren(InList.fields);
    assert Lower("test value") == "test value";
    assert Lower("other value") == "other value";
    assert StepHits(probe, Field("key1"), TestValue);
    assert StepHits(probe, Field("nested_key"), TestValue);
    assert !StepHits(probe, Field("nested_key"), Str("other value"));
    assert Root + [Field("key1")] == [Field("key1")];
    assert Root + [Field("key2")] == k2;
    assert k2 + [Index(0)] == k20;
    assert k2 + [Index(1)] == k21;
    assert k20 + [Field("nested_key")] == hit;
    assert Part(probe, e0, k20, 0) == [hit];
    SearchOne(probe, e0, k20);
    assert Search(probe, e0, k20) == [hit];
    assert Part(probe, e1, k21, 0) == [];
    SearchOne(probe, e1, k21);
    assert Search(probe, e1, k21) == [];
    assert Part(probe, arr, k2, 0) == [hit];
    assert Part(probe, arr, k2, 1) == [];
    SearchTwo(probe, arr, k2);
    assert Search(probe, arr, k2) == [hit];
    assert Part(probe, InList, Root, 0) == [[Field("key1")]];
    assert Part(probe, InList, Root, 1) == [hit];
    SearchTwo(probe, InList, Root);
  }

  lemma ExactTopList()
    ensures FindAllPathsOfValue(TestValue, TopList) ==
      [[Index(0), Field("key1")], [Index(1), Field("key2"), Field("nested_key")]]
  {
    var probe := ValueProbe(Exact, TestValue);
    var e0 := Obj([("key1", TestValue)]);
    var inner := Obj([("nested_key", TestValue)]);
    var e1 := Obj([("key2", inner)]);
    var i0: Path := [Index(0)];
    var i1: Path := [Index(1)];
    var i1k2: Path := [Index(1), Field("key2")];
    var hit0: Path := [Index(0), Field("key1")];
    var hit1: Path := [Index(1), Field("key2"), Field("nested_key")];
    ObjChildren(e0.fields);
    ObjChildren(e1.fields);
    ObjChildren(inner.fields);
    ArrChildren(TopList.items);
    assert Root + [Index(0)] == i0;
    assert Root + [Index(1)] == i1;
    assert i0 + [Field("key1")] == hit0;
    assert i1 + [Field("key2")] == i1k2;
    assert i1k2 + [Field("nested_key")] == hit1;
    assert Part(probe, e0, i0, 0) == [hit0];
    SearchOne(probe, e0, i0);
    assert Search(probe, e0, i0) == [hit0];
    assert Part(probe, inner, i1k2, 0) == [hit1];
    SearchOne(probe, inner, i1k2);
    assert Search(probe, inner, i1k2) == [hit1];
    assert Part(probe, e1, i1, 0) == [hit1];
    SearchOne(probe, e1, i1);
    assert Search(probe, e1, i1) == [hit1];
    assert Part(probe, TopList, Root, 0) == [hit0];
    assert Part(probe, TopList, Root, 1) == [hit1];
    SearchTwo(probe, TopList, Root);
  }

  /** The case-folding finder gives the same answer for an upper-cased target. */
  lemma FoldedInList()
    ensures FindAllPathsOfValueFolded(Str("TEST VALUE"), InList) ==
      [[Field("key1")], [Field("key2"), Index(0), Field("nested_key")]]
  {
    assert Lower("TEST VALUE") == "test value";
    assert Lower("test value") == "test value";
    FoldedTargetsAgree(Str("TEST VALUE"), TestValue, InList);
    InListSearch(ValueProbe(CaseFold, TestValue));
  }

  /** find_all_paths_of_key('nested_key', {'key1': 'value', 'key2': {'nested_key': 'value'}}) */
  lemma KeyNested()
    ensures FindAllPathsOfKey("nested_key", Obj([("key1", Str("value")), ("key2", Obj([("nested_key", Str("value"))]))]))
      == [[Field("key2"), Field("nested_key")]]
  {
    var probe := KeyProbe("nested_key");
    var inner := Obj([("nested_key", Str("value"))]);
    var doc := Obj([("key1", Str("value")), ("key2", inner)]);
    var k2: Path := [Field("key2")];
    var hit: Path := [Field("key2"), Field("nested_key")];
    ObjChildren(inner.fields);
    ObjChildren(doc.fields);
    assert Root + [Field("key2")] == k2;
    assert k2 + [Field("nested_key")] == hit;
    assert Part(probe, inner, k2, 0) == [hit];
    SearchOne(probe, inner, k2);
    assert Search(probe, inner, k2) == [hit];
    assert Part(probe, doc, Root, 0) == [];
    assert Part(probe, doc, Root, 1) == [hit];
    SearchTwo(probe, doc, Root);
  }

  /** find_all_paths_of_key('key', [{'key': 'value'}, {'key': 'value2'}]) */
  lemma KeyInList()
    ensures FindAllPathsOfKey("key", Arr([Obj([("key", Str("value"))]), Obj([("key", Str("value2"))])]))
      == [[Index(0), Field("key")], [Index(1), Field("key")]]
  {
    var probe := KeyProbe("key");
    var e0 := Obj([("key", Str("value"))]);
    var e1 := Obj([("key", Str("value2"))]);
    var doc := Arr([e0, e1]);
    var i0: Path := [Index(0)];
    var i1: Path := [Index(1)];
    ObjChildren(e0.fields);
    ObjChildren(e1.fields);
    ArrChildren(doc.items);
    assert Root + [Index(0)] == i0;
    assert Root + [Index(1)] == i1;
    assert i0 + [Field("key")] == [Index(0), Field("key")];
    assert i1 + [Field("key")] == [Index(1), Field("key")];
    assert Part(probe, e0, i0, 0) == [[Index(0), Field("key")]];
    SearchOne(probe, e0, i0);
    assert Search(probe, e0, i0) == [[Index(0), Field("key")]];
    assert Part(probe, e1, i1, 0) == [[Index(1), Field("key")]];
    SearchOne(probe, e1, i1);
    assert Search(probe, e1, i1) == [[Index(1), Field("key")]];
    assert Part(probe, doc, Root, 0) == [[Index(0), Field("key")]];
    assert Part(probe, doc, Root, 1) == [[Index(1), Field("key")]];
    SearchTwo(probe, doc, Root);
  }

  /** {"a": {"a": 1}}: the key finder stops at the outer "a" and yields only ["a"]. */
  lemma KeyPruned()
    ensures FindAllPathsOfKey("a", Obj([("a", Obj([("a", Int(1))]))])) == [[Field("a")]]
  {
    var doc := Obj([("a", Obj([("a", Int(1))]))]);
    ObjChildren(doc.fields);
    assert Root + [Field("a")] == [Field("a")];
    assert Part(KeyProbe("a"), doc, Root, 0) == [[Field("a")]];
    SearchOne(KeyProbe("a"), doc, Root);
  }
}
