/** The docstring examples of `extract_parent_object`, worked out on the model. */
module ExtractorExamples {
  import opened Wrappers
  import opened JsonTree
  import opened ParentExtractor

  /** {'display_name': 'test institution'} */
  const Institution: Node := Obj([("display_name", Str("test institution"))])

  /** {'institutions': [{'display_name': 'test institution'}]} */
  const Authorship: Node := Obj([("institutions", Arr([Institution]))])

  /** {'results': [{'authorships': [{'institutions': [...]}]}]} */
  const Data: Node := Obj([("results", Arr([Obj([("authorships", Arr([Authorship]))])]))])

  /** ['results', 0, 'authorships', 0, 'institutions', 0, 'display_name'] */
  const Steps: seq<Elem> :=
    [EStr("results"), EInt(0), EStr("authorships"), EInt(0), EStr("institutions"), EInt(0), EStr("display_name")]

  const StepPath: Path :=
    [Field("results"), Index(0), Field("authorships"), Index(0), Field("institutions"), Index(0)]

  /** The first `n` elements, read as tree steps. */
  lemma AsPathOfPrefix(n: nat)
    requires n <= 6
    ensures AsPath(Steps[..n]) == Some(StepPath[..n])
  {
    assert AsStep(Steps[0]) == Some(StepPath[0]);
    assert AsStep(Steps[1]) == Some(StepPath[1]);
    assert AsStep(Steps[2]) == Some(StepPath[2]);
    assert AsStep(Steps[3]) == Some(StepPath[3]);
    assert AsStep(Steps[4]) == Some(StepPath[4]);
    assert AsStep(Steps[5]) == Some(StepPath[5]);
    var xs := Steps[..n];
    assert forall j :: 0 <= j < n ==> AsStep(xs[j]) == Some(StepPath[j]);
    assert AsPath(xs).Some?;
    var q := AsPath(xs).value;
    assert |q| == n;
    assert forall j :: 0 <= j < n ==> q[j] == StepPath[..n][j];
    assert q == StepPath[..n];
  }

  /** The first four steps reach the authorship. */
  lemma AuthorshipReached()
    ensures Resolve(Data, StepPath[..4]) == Some(Authorship)
  {
    var results := Arr([Obj([("authorships", Arr([Authorship]))])]);
    var authorships := Arr([Authorship]);
    var p := StepPath;
    assert p[..4] == [Field("results")] + [Index(0), Field("authorships"), Index(0)];
    ResolveCons(Data, Field("results"), [Index(0), Field("authorships"), Index(0)]);
    ResolveCons(results, Index(0), [Field("authorships"), Index(0)]);
    assert [Index(0), Field("authorships"), Index(0)] == [Index(0)] + [Field("authorships"), Index(0)];
    ResolveCons(results.items[0], Field("authorships"), [Index(0)]);
    assert [Field("authorships"), Index(0)] == [Field("authorships")] + [Index(0)];
    ResolveCons(authorships, Index(0), []);
    assert [Index(0)] == [Index(0)] + [];
  }

  lemma InstitutionsReached()
    ensures Resolve(Data, StepPath[..5]) == Some(Arr([Institution]))
  {
    AuthorshipReached();
    ResolveSnoc(Data, StepPath[..4], Field("institutions"));
    assert StepPath[..4] + [Field("institutions")] == StepPath[..5];
  }

  lemma InstitutionReached()
    ensures Resolve(Data, StepPath) == Some(Institution)
  {
  }

  /** Following the first six elements, one node at a time. */
  lemma Trail()
    ensures AllKeys(Steps)
    ensures ResolveElems(Data, Steps[..4]) == Some(Authorship)
    ensures ResolveElems(Data, Steps[..5]) == Some(Arr([Institution]))
    ensures ResolveElems(Data, Steps[..6]) == Some(Institution)
  {
    AsPathOfPrefix(6);
    AsPathOfPrefix(5);
    AsPathOfPrefix(4);
    assert StepPath[..6] == StepPath;
    AuthorshipReached();
    InstitutionsReached();
    InstitutionReached();
  }

  /** level=6 returns the list of institutions. */
  lemma LevelSix()
    ensures Extract(Call(Data, PathList(Steps), Absent, Absent, Absent)) == Message(LevelOrKeyMsg)
    ensures Extract(Call(Data, PathList(Steps), Absent, AInt(6), Absent)) == Value(Arr([Institution]))
  {
  }

  /** key='institutions' returns the authorship holding that key. */
  lemma KeyInstitutions()
    ensures Extract(Call(Data, PathList(Steps), Absent, Absent, AStr("institutions"))) == Value(Authorship)
  {
    var c := Call(Data, PathList(Steps), Absent, Absent, AStr("institutions"));
    Trail();
    assert Steps[4] == EStr("institutions");
    ExtractValue(c);
    assert StopIndex(c) == 4;
  }

  /** level=7 returns the institution object; the docstring's "Extraction failed."
      is not what the code returns. */
  lemma LevelSeven()
    ensures Extract(Call(Data, PathList(Steps), AInt(7), Absent, Absent)) == Value(Institution)
  {
  }

  /** key='invalid_key' is refused before any walking. */
  lemma KeyMissing()
    ensures Extract(Call(Data, PathList(Steps), Absent, Absent, AStr("invalid_key"))) == Message(KeyNotFoundMsg)
  {
    assert IndexOfKey(Steps, "invalid_key").None? by {
      assert forall j :: 0 <= j < |Steps| ==> Steps[j] != EStr("invalid_key");
    }
  }

  /** A string level such as "05" trips the leading-zero guard; "5" is not an integer. */
  lemma StringLevels()
    ensures Extract(Call(Data, PathList(Steps), Absent, AStr("05"), Absent)) == Message(LeadingZerosMsg)
    ensures Extract(Call(Data, PathList(Steps), Absent, AStr("5"), Absent)) == Message(NotPositiveMsg)
  {
  }
}
