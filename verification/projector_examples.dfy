/** The `construct_table_with_keys` docstring document, worked out on the model.
    Each key is answered by the root-most object that has it, so "name" comes
    from the root and "type" from the first pet, not from the matched pet. */
module ProjectorExamples {
  import opened Wrappers
  import opened JsonTree
  import opened PathFinder
  import opened LevelResolver
  import opened RowProjector
  import FinderExamples
  import ImportRequests

  const Rufus: Node := Obj([("name", Str("Rufus")), ("type", Str("dog"))])
  const Mittens: Node := Obj([("name", Str("Mittens")), ("type", Str("cat"))])
  const PetList: Node := Arr([Rufus, Mittens])

  /** {"name": "John", "age": 30, "city": "New York", "pets": [Rufus, Mittens]} */
  const Owner: Node :=
    Obj([("name", Str("John")), ("age", Int(30)), ("city", Str("New York")), ("pets", PetList)])

  const MittensPath: Path := [Field("pets"), Index(1), Field("name")]

  const Keys: seq<string> := ["name", "type"]

  /** The search of a node with four children, unrolled. */
  lemma SearchFour(probe: Probe, n: Node, prefix: Path)
    requires |Children(n)| == 4
    ensures Search(probe, n, prefix) ==
      Part(probe, n, prefix, 0) + Part(probe, n, prefix, 1) + Part(probe, n, prefix, 2) + Part(probe, n, prefix, 3)
  {
    assert SearchFrom(probe, n, prefix, 4) == [];
    assert SearchFrom(probe, n, prefix, 3) == Part(probe, n, prefix, 3);
    assert SearchFrom(probe, n, prefix, 2) == Part(probe, n, prefix, 2) + Part(probe, n, prefix, 3);
    assert SearchFrom(probe, n, prefix, 1) == Part(probe, n, prefix, 1) + (Part(probe, n, prefix, 2) + Part(probe, n, prefix, 3));
    assert Search(probe, n, prefix) == SearchFrom(probe, n, prefix, 0);
  }

  /** Below the pet list, only the second pet's name matches. */
  lemma MittensInPetList()
    ensures Search(ValueProbe(Exact, Str("Mittens")), PetList, [Field("pets")]) == [MittensPath]
  {
    var probe := ValueProbe(Exact, Str("Mittens"));
    var pets: Path := [Field("pets")];
    var p0: Path := [Field("pets"), Index(0)];
    var p1: Path := [Field("pets"), Index(1)];
    FinderExamples.ObjChildren(Rufus.fields);
    FinderExamples.ObjChildren(Mittens.fields);
    FinderExamples.ArrChildren(PetList.items);
    assert pets + [Index(0)] == p0;
    assert pets + [Index(1)] == p1;
    assert p1 + [Field("name")] == MittensPath;
    assert Part(probe, Rufus, p0, 0) == [] && Part(probe, Rufus, p0, 1) == [];
    FinderExamples.SearchTwo(probe, Rufus, p0);
    assert Part(probe, Mittens, p1, 0) == [MittensPath] && Part(probe, Mittens, p1, 1) == [];
    FinderExamples.SearchTwo(probe, Mittens, p1);
    assert Part(probe, PetList, pets, 0) == [];
    assert Part(probe, PetList, pets, 1) == [MittensPath];
    FinderExamples.SearchTwo(probe, PetList, pets);
  }

  /** The exact finder yields the one path to "Mittens". */
  lemma MittensFound()
    ensures FindAllPathsOfValue(Str("Mittens"), Owner) == [MittensPath]
  {
    var probe := ValueProbe(Exact, Str("Mittens"));
    FinderExamples.ObjChildren(Owner.fields);
    assert [] + [Field("pets")] == [Field("pets")];
    MittensInPetList();
    assert Part(probe, Owner, [], 0) == [] && Part(probe, Owner, [], 1) == [] && Part(probe, Owner, [], 2) == [];
    assert Part(probe, Owner, [], 3) == [MittensPath];
    SearchFour(probe, Owner, []);
  }

  /** `Owner["pets"]` is the pet list. */
  lemma PetsKey()
    ensures KeyIndex(Owner.fields, "pets") == Some(3)
    ensures StepInto(Owner, Field("pets")) == Some(PetList)
  {
    var f := Owner.fields;
    assert KeyIndexFrom(f, "pets", 3) == Some(3);
    assert KeyIndexFrom(f, "pets", 2) == Some(3);
    assert KeyIndexFrom(f, "pets", 1) == Some(3);
  }

  /** "name" is found at the root: John. */
  lemma NameFromRoot()
    ensures FirstHit(Owner, MittensPath, 0, "name", false) == Some(SearchResult(Str("John"), [Field("name")]))
  {
    assert MittensPath[..0] == [];
    assert Walk(Owner, []) == Some(Owner);
    assert FirstMatchFrom(Owner.fields, "name", false, 0) == Some(0);
    assert ObjectHit(Owner, "name", false) == Some(("name", Str("John")));
    assert [] + [Field("name")] == [Field("name")];
    assert LevelHit(Owner, MittensPath, 0, "name", false) == Some(SearchResult(Str("John"), [Field("name")]));
  }

  /** "type" is not at the root; one level down the first pet has it: dog. */
  lemma TypeFromFirstPet()
    ensures FirstHit(Owner, MittensPath, 0, "type", false) == Some(SearchResult(Str("dog"), [Field("pets"), Field("type")]))
  {
    var f := Owner.fields;
    assert MittensPath[..0] == [];
    assert Walk(Owner, []) == Some(Owner);
    assert FirstMatchFrom(f, "type", false, 3) == None;
    assert FirstMatchFrom(f, "type", false, 2) == None;
    assert FirstMatchFrom(f, "type", false, 1) == None;
    assert FirstMatchFrom(f, "type", false, 0) == None;
    assert LevelHit(Owner, MittensPath, 0, "type", false) == None;
    PetsKey();
    assert MittensPath[..1] == [Field("pets")];
    assert Walk(PetList, []) == Some(PetList);
    assert Walk(Owner, [Field("pets")]) == Some(PetList);
    assert FirstMatchFrom(Rufus.fields, "type", false, 1) == Some(1);
    assert FirstMatchFrom(Rufus.fields, "type", false, 0) == Some(1);
    assert ObjectHit(Rufus, "type", false) == Some(("type", Str("dog")));
    assert FirstElementHit(PetList.items, "type", false, 0) == Some(("type", Str("dog")));
    assert [Field("pets")] + [Field("type")] == [Field("pets"), Field("type")];
    assert LevelHit(Owner, MittensPath, 1, "type", false) == Some(SearchResult(Str("dog"), [Field("pets"), Field("type")]));
  }

  /** The one row: [orcid, "Mittens", "John", "dog"]. */
  lemma MittensRow(orcid: string)
    ensures ExpectedRow(Owner, MittensPath, Keys, orcid, "Mittens") ==
      Some([Str(orcid), Str("Mittens"), Str("John"), Str("dog")])
  {
    NameFromRoot();
    TypeFromFirstPet();
    assert Keys[0] == "name" && Keys[1] == "type";
    assert forall k :: 0 <= k < |Keys| ==> FirstHit(Owner, MittensPath, 0, Keys[k], false).Some?;
    var vs := seq(|Keys|, k requires 0 <= k < |Keys| => FirstHit(Owner, MittensPath, 0, Keys[k], false).value.value);
    assert vs == [Str("John"), Str("dog")];
    assert Lead(orcid, "Mittens") + vs == [Str(orcid), Str("Mittens"), Str("John"), Str("dog")];
  }

  /** The matched path resolves: `Owner["pets"][1]["name"]`. */
  lemma MittensPathResolves()
    ensures Resolve(Owner, MittensPath) == Some(Str("Mittens"))
  {
  }

  /** The one candidate row. */
  lemma MittensCandidates(orcid: string)
    ensures Candidates(Owner, [MittensPath], Keys, orcid, "Mittens") == [[Str(orcid), Str("Mittens"), Str("John"), Str("dog")]]
  {
    var paths := [MittensPath];
    MittensPathResolves();
    FillRowOnResolvingPath(Owner, MittensPath, Keys);
    CandidateIsExpected(Owner, MittensPath, Keys, orcid, "Mittens");
    MittensRow(orcid);
    assert paths[..0] == [];
  }

  /** The table of that one path. */
  lemma MittensBuild(orcid: string)
    ensures BuildTable(Owner, [MittensPath], Keys, orcid, "Mittens") ==
      Success(Table(Columns(Keys), [[Str(orcid), Str("Mittens"), Str("John"), Str("dog")]]))
  {
    var row: Row := [Str(orcid), Str("Mittens"), Str("John"), Str("dog")];
    var paths := [MittensPath];
    MittensPathResolves();
    MittensCandidates(orcid);
    assert Hashable(row);
    BuildOnResolvingPaths(Owner, paths, Keys, orcid, "Mittens");
    RowsAreDedup(Owner, paths, Keys, orcid, "Mittens");
    assert Dedup([row]) == [row];
  }

  /** The whole table has that single row. */
  lemma MittensTable(orcid: string)
    ensures ImportRequests.ConstructTableWithKeys(orcid, Owner, "Mittens", Keys) ==
      Success(Table(["orcid", "values", "name", "type"], [[Str(orcid), Str("Mittens"), Str("John"), Str("dog")]]))
  {
    MittensFound();
    MittensBuild(orcid);
    assert Columns(Keys) == ["orcid", "values", "name", "type"];
  }
}
