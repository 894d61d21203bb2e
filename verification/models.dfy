/** The records of one CI test run and what is derived from them: whether
    the run finished or failed, its progress report, the GitHub links of its
    fork and commit or pull request, the equality flag of a result file and
    the random run token. Database columns become datatype fields; the
    `progress` relationship, ordered by `TestProgress.id`, becomes a
    sequence in insertion order. */
module Models {
  import opened Wrappers
  import opened PyStr
  import opened Status

  /** A UTC-normalised instant; the model only copies timestamps around. */
  type Timestamp = int

  newtype byte = x: int | 0 <= x < 256

  datatype Fork = Fork(github: string)

  /** One entry of a run's progress log. */
  datatype TestProgress = TestProgress(status: TestStatus, timestamp: Timestamp, message: string)

  datatype Test = Test(
    platform: TestPlatform,
    testType: TestType,
    fork: Fork,
    branch: string,
    commit: string,
    prNr: int,
    token: string,
    progress: seq<TestProgress>)

  /** Whether the output of a regression test matched: `got` is None when the
      produced output equals the expected one. */
  datatype TestResultFile = TestResultFile(
    testId: int,
    regressionTestId: int,
    regressionTestOutputId: int,
    expected: string,
    got: Option<string>)

  datatype ProgressState = Ok | Error

  /** The `progress` part of a report: its state and an index into
      `Stages()`, -1 when unknown. */
  datatype StepInfo = StepInfo(state: ProgressState, step: int)

  /** The report `progress_data` builds; None stands for the '-' shown for a
      time that is not set. */
  datatype ProgressReport = ProgressReport(
    progress: StepInfo,
    stages: seq<TestStatus>,
    start: Option<Timestamp>,
    end: Option<Timestamp>)

  // ---------------------------------------------------------------------
  // Run state

  /** A run is finished when its last log entry reached the final stage of
      the catalog or canceled the run; a run without entries is not. */
  function Finished(t: Test): (r: bool)
    ensures r <==> (|t.progress| > 0 &&
      (t.progress[|t.progress| - 1].status == Canceled ||
       ProgressStep(t.progress[|t.progress| - 1].status) == |Stages()| - 1))
  {
    ProgressStepValues();
    if |t.progress| > 0 then t.progress[|t.progress| - 1].status in [Completed, Canceled]
    else false
  }

  /** A run failed when its last log entry is not a stage of the catalog,
      that is, when it was canceled; a run without entries has not. */
  function Failed(t: Test): (r: bool)
    ensures r <==> |t.progress| > 0 && ProgressStep(t.progress[|t.progress| - 1].status) == -1
  {
    ProgressStepValues();
    if |t.progress| > 0 then t.progress[|t.progress| - 1].status == Canceled
    else false
  }

  /** A failed run is a finished one. */
  lemma FailedImpliesFinished(t: Test)
    ensures Failed(t) ==> Finished(t)
  {
  }

  /** The progress report of a run. The report starts out as the one for an
      empty log (state error, step -1, no start, no end) and is then
      overwritten field by field from the first and last log entries. A
      canceled run reports the step of the entry before the cancellation. */
  method ProgressData(t: Test) returns (result: ProgressReport)
    ensures result.stages == Stages()
    ensures |t.progress| == 0 ==>
      result == ProgressReport(StepInfo(Error, -1), Stages(), None, None)
    ensures result.start == if |t.progress| == 0 then None else Some(t.progress[0].timestamp)
    ensures result.end == if Finished(t) then Some(t.progress[|t.progress| - 1].timestamp) else None
    ensures result.progress.state == Ok <==> |t.progress| > 0 && !Failed(t)
    ensures Failed(t) ==> (result.progress.step ==
      if |t.progress| > 1 then ProgressStep(t.progress[|t.progress| - 2].status) else -1)
    ensures result.progress.state == Ok ==>
      result.progress.step == ProgressStep(t.progress[|t.progress| - 1].status)
    ensures -1 <= result.progress.step < |Stages()|
    ensures result.progress.state == Ok ==> 0 <= result.progress.step
    ensures result.progress.state == Ok && result.end.Some? ==> result.progress.step == |Stages()| - 1
  {
    result := ProgressReport(StepInfo(Error, -1), Stages(), None, None);
    if |t.progress| > 0 {
      result := result.(start := Some(t.progress[0].timestamp));
      var lastStatus := t.progress[|t.progress| - 1];
      if lastStatus.status in [Completed, Canceled] {
        result := result.(end := Some(lastStatus.timestamp));
      }
      if lastStatus.status == Canceled {
        if |t.progress| > 1 {
          result := result.(progress := result.progress.(step := ProgressStep(t.progress[|t.progress| - 2].status)));
        }
      } else {
        result := result.(progress := result.progress.(state := Ok));
        result := result.(progress := result.progress.(step := ProgressStep(lastStatus.status)));
      }
    }
  }

  /** A run canceled while testing reports the testing step, with the time of
      the cancellation as its end. */
  method CanceledWhileTestingReport(t: Test) returns (result: ProgressReport)
    requires |t.progress| == 4
    requires t.progress[0].status == Preparation && t.progress[1].status == Building
    requires t.progress[2].status == Testing && t.progress[3].status == Canceled
    ensures result.progress == StepInfo(Error, 2)
    ensures result.start == Some(t.progress[0].timestamp)
    ensures result.end == Some(t.progress[3].timestamp)
  {
    ProgressStepValues();
    result := ProgressData(t);
  }

  /** A run that has only entered preparation is in order at step 0 and has
      no end time. */
  method JustPreparedReport(t: Test) returns (result: ProgressReport)
    requires |t.progress| == 1 && t.progress[0].status == Preparation
    ensures result.progress == StepInfo(Ok, 0)
    ensures result.start == Some(t.progress[0].timestamp)
    ensures result.end == None
  {
    ProgressStepValues();
    result := ProgressData(t);
  }

  // ---------------------------------------------------------------------
  // GitHub links

  const GithubHost: string := "https://github.com/"

  /** The fork's URL with every ".git" removed: four characters fewer for
      each one `str.count` finds. */
  function GithubUrl(f: Fork): (url: string)
    ensures |url| == |f.github| - 4 * Count(f.github, ".git")
  {
    Replace(f.github, ".git", "")
  }

  /** The fork's URL without the "https://github.com/" part: "owner/repo". */
  function GithubName(f: Fork): (name: string)
    ensures |name| == |GithubUrl(f)| - |GithubHost| * Count(GithubUrl(f), GithubHost)
  {
    Replace(GithubUrl(f), GithubHost, "")
  }

  /** A URL that does not contain ".git" is its own GitHub URL. */
  lemma GithubUrlWithoutGit(f: Fork)
    requires !Occurs(f.github, ".git")
    ensures GithubUrl(f) == f.github
  {
    ReplaceNoOccurrence(f.github, ".git", "");
  }

  /** ".git" is removed wherever it occurs, not only at the end: the first
      occurrence disappears and the rest of the URL is cleaned the same way. */
  lemma GithubUrlRemovesEveryGit(before: string, after: string)
    requires !Occurs(before, ".git")
    ensures GithubUrl(Fork(before + ".git" + after)) == before + GithubUrl(Fork(after))
  {
    GitPatternBorderFree();
    ReplaceFirstOccurrence(before, after, ".git", "");
  }

  /** For a clone URL "https://github.com/<path>.git" whose path mentions
      neither ".git" nor the host, the URL loses its ".git" and the name is
      the path. */
  lemma GithubNameOfCloneUrl(path: string)
    requires !Occurs(GithubHost + path, ".git")
    requires !Occurs(path, GithubHost)
    ensures GithubUrl(Fork(GithubHost + path + ".git")) == GithubHost + path
    ensures GithubName(Fork(GithubHost + path + ".git")) == path
  {
    var url := GithubHost + path;
    GithubUrlRemovesEveryGit(url, "");
    assert url + ".git" + "" == GithubHost + path + ".git";
    assert GithubUrl(Fork("")) == "";
    assert GithubHost <= url;
    assert url[|GithubHost|..] == path;
    ReplaceNoOccurrence(path, GithubHost, "");
    assert Replace(url, GithubHost, "") == "" + Replace(path, GithubHost, "");
  }

  /** The link to the tested commit or pull request on the fork. */
  function GithubLink(t: Test): (link: string)
    ensures GithubUrl(t.fork) <= link
  {
    var (testType, testId) :=
      if t.testType == Commit then ("commit", t.commit) else ("pull", IntToString(t.prNr));
    GithubUrl(t.fork) + "/" + testType + "/" + testId
  }

  /** The link identifies the test: past the fork's URL it reads "/commit/"
      followed by the commit for a commit test, and otherwise "/pull/"
      followed by `str` of the pull request's number, a text that parses back
      to that number. */
  lemma GithubLinkIdentifiesTest(t: Test)
    ensures var tail := GithubLink(t)[|GithubUrl(t.fork)|..];
      if t.testType == Commit then tail == "/commit/" + t.commit
      else tail == "/pull/" + IntToString(t.prNr) && ParseInt(tail[|"/pull/"|..]) == Some(t.prNr)
  {
    var url := GithubUrl(t.fork);
    var tail := GithubLink(t)[|url|..];
    if t.testType == Commit {
      assert tail == "/commit/" + t.commit;
    } else {
      assert tail == "/pull/" + IntToString(t.prNr);
      assert tail[|"/pull/"|..] == IntToString(t.prNr);
      IntToStringRoundTrip(t.prNr);
    }
  }

  // ---------------------------------------------------------------------
  // Result files

  predicate EndsWith(s: string, suffix: string) {
    |suffix| <= |s| && s[|s| - |suffix|..] == suffix
  }

  /** The equality flag of a result file: "Equal" exactly when `got` is
      None. Only None counts; an empty stored output is "Unequal". */
  function EqualityFlag(f: TestResultFile): (flag: string)
    ensures flag == "Equal" <==> f.got.None?
    ensures flag == "Unequal" <==> f.got.Some?
  {
    if f.got.None? then "Equal" else "Unequal"
  }

  /** A result file whose stored output is the empty string is reported as
      unequal: the flag tests for None, not for emptiness. */
  lemma EmptyOutputIsUnequal(f: TestResultFile)
    requires f.got == Some("")
    ensures EqualityFlag(f) == "Unequal"
    ensures EndsWith(ResultFileRepr(f), ": Unequal>")
    ensures !EndsWith(ResultFileRepr(f), ": Equal>")
  {
  }

  /** Whatever precedes it, a flag written as ": <flag>>" can be read back
      from the end of the text. */
  lemma FlagReadable(head: string, flag: string)
    requires flag == "Equal" || flag == "Unequal"
    ensures EndsWith(head + ": " + flag + ">", ": Equal>") <==> flag == "Equal"
    ensures EndsWith(head + ": " + flag + ">", ": Unequal>") <==> flag == "Unequal"
  {
    var tail := ": " + flag + ">";
    var r := head + tail;
    assert r == head + ": " + flag + ">";
    assert r[|head|..] == tail;
    assert r[|r| - 8] == tail[|tail| - 8];
    assert r[|r| - 8..][0] == r[|r| - 8];
    assert |r| >= 10 ==> r[|r| - 10..][2] == r[|r| - 8];
    if flag == "Equal" {
      assert r[|r| - 8] == ':';
      assert EndsWith(r, ": Equal>");
      assert !EndsWith(r, ": Unequal>");
    } else {
      assert r[|r| - 8] == 'U';
      assert EndsWith(r, ": Unequal>");
      assert !EndsWith(r, ": Equal>");
    }
  }

  /** The representation of a result file ends in ": Equal>" exactly when no
      differing output was stored, and in ": Unequal>" otherwise. */
  function ResultFileRepr(f: TestResultFile): (r: string)
    ensures EndsWith(r, ": Equal>") <==> f.got.None?
    ensures EndsWith(r, ": Unequal>") <==> f.got.Some?
  {
    var head := "<TestResultFile " + IntToString(f.testId) + "," + IntToString(f.regressionTestId) + ","
      + IntToString(f.regressionTestOutputId);
    FlagReadable(head, EqualityFlag(f));
    head + ": " + EqualityFlag(f) + ">"
  }

  // ---------------------------------------------------------------------
  // Run tokens

  predicate IsAsciiAlnum(c: char) {
    'a' <= c <= 'z' || 'A' <= c <= 'Z' || '0' <= c <= '9'
  }

  /** Python's `string.ascii_letters + string.digits`. */
  function TokenChars(): (chars: string)
    ensures |chars| == 62
    ensures forall i | 0 <= i < |chars| :: IsAsciiAlnum(chars[i])
  {
    seq(26, i requires 0 <= i < 26 => ('a' as int + i) as char)
      + seq(26, i requires 0 <= i < 26 => ('A' as int + i) as char)
      + seq(10, i requires 0 <= i < 10 => ('0' as int + i) as char)
  }

  /** A run token of `length` characters, one per random byte drawn: the
      byte, reduced modulo the alphabet's size, picks a letter or digit. */
  function CreateToken(length: nat, randomBytes: seq<byte>): (token: string)
    requires |randomBytes| == length
    ensures |token| == length
    ensures forall i | 0 <= i < |token| :: IsAsciiAlnum(token[i])
  {
    var chars := TokenChars();
    seq(length, i requires 0 <= i < length => chars[randomBytes[i] as int % |chars|])
  }

  /** Every letter and digit can appear in a token. */
  lemma EveryAlnumReachable(c: char)
    requires IsAsciiAlnum(c)
    ensures exists b: byte :: CreateToken(1, [b]) == [c]
  {
    var chars := TokenChars();
    var k: int :=
      if 'a' <= c <= 'z' then c as int - 'a' as int
      else if 'A' <= c <= 'Z' then 26 + c as int - 'A' as int
      else 52 + c as int - '0' as int;
    assert chars[k] == c;
    var b := k as byte;
    assert CreateToken(1, [b]) == [c];
  }
}
