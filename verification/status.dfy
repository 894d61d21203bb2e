/** The enumerations of the test models: platforms, test types and the
    status of a test run, with the ordered catalog of stages a run goes
    through and the lookup of a status's position in it. */
module Status {

  datatype TestPlatform = Linux | Windows

  datatype TestType = Commit | PullRequest

  /** `canceled` doubles as "error": it is the outcome of a run that stopped
      before completing. */
  datatype TestStatus = Preparation | Building | Testing | Completed | Canceled

  /** Python's `xs.index(x)`, with the ValueError for a missing element
      turned into -1: the first position of `x`, or -1 when `x` is absent. */
  function IndexOf<T(==)>(xs: seq<T>, x: T): (r: int)
    ensures -1 <= r < |xs|
    ensures r == -1 <==> x !in xs
    ensures 0 <= r ==> xs[r] == x && x !in xs[..r]
    decreases |xs|
  {
    if |xs| == 0 then -1
    else if xs[0] == x then 0
    else
      var k := IndexOf(xs[1..], x);
      if k == -1 then -1 else k + 1
  }

  /** The stages a run passes through, in order. `Canceled` is not a stage. */
  function Stages(): (stages: seq<TestStatus>)
    ensures |stages| == 4
    ensures Canceled !in stages
    ensures forall status: TestStatus :: status != Canceled ==> status in stages
  {
    var stages := [Preparation, Building, Testing, Completed];
    assert forall status: TestStatus :: status != Canceled ==> status in stages by {
      forall status: TestStatus | status != Canceled ensures status in stages {
        assert status.Preparation? || status.Building? || status.Testing? || status.Completed?;
      }
    }
    stages
  }

  /** Position of a status in `Stages()`, or -1 for a status that is not a
      stage. */
  function ProgressStep(status: TestStatus): (step: int)
    ensures -1 <= step < |Stages()|
    ensures step == -1 <==> status !in Stages()
    ensures 0 <= step ==> Stages()[step] == status
  {
    IndexOf(Stages(), status)
  }

  /** The catalog holds every status except `Canceled`, each exactly once:
      looking up the status at a position gives that position back. */
  lemma StagesDistinct(i: int)
    requires 0 <= i < |Stages()|
    ensures ProgressStep(Stages()[i]) == i
  {
    var s := Stages();
    var r := ProgressStep(s[i]);
    assert s[i] !in s[..i] by {
      if i == 1 { assert s[..1] == [Preparation]; }
      if i == 2 { assert s[..2] == [Preparation, Building]; }
      if i == 3 { assert s[..3] == [Preparation, Building, Testing]; }
    }
    assert s[r] == s[i] && s[i] !in s[..r];
  }

  /** The step of each status: 0 to 3 along the catalog, -1 for
      `Canceled`. */
  lemma ProgressStepValues()
    ensures ProgressStep(Preparation) == 0
    ensures ProgressStep(Building) == 1
    ensures ProgressStep(Testing) == 2
    ensures ProgressStep(Completed) == 3
    ensures ProgressStep(Canceled) == -1
  {
    StagesDistinct(0);
    StagesDistinct(1);
    StagesDistinct(2);
    StagesDistinct(3);
  }

  /** Only `Canceled` lacks a step; every other status has one. */
  lemma ProgressStepUndefinedOnlyForCanceled(status: TestStatus)
    ensures ProgressStep(status) == -1 <==> status == Canceled
  {
    ProgressStepValues();
  }

  /** Steps follow the order of the stages. */
  lemma ProgressStepMonotonic(i: int, j: int)
    requires 0 <= i < j < |Stages()|
    ensures 0 <= ProgressStep(Stages()[i]) < ProgressStep(Stages()[j])
  {
    StagesDistinct(i);
    StagesDistinct(j);
  }
}
