# Test-run status interpreter of sample-platform

This project models, in Dafny, the logic of `mod_test/models.py` of the
sample-platform CI system that interprets one test run. A run (`Test`) has an
ordered progress log of `TestProgress` entries. Each entry holds a status from
the `TestStatus` enumeration, a timestamp and a message. The model derives
from that log:

- whether the run is finished or failed;
- the progress report shown to users, which has a state (`ok`/`error`), a
  step index into the stage catalog, the catalog itself, and a start and an
  end time. An unset time is shown as `'-'` and modelled as `None`;
- the GitHub URL and name of the run's fork, and the link to the tested
  commit or pull request;
- the `Equal`/`Unequal` flag in a result file's representation;
- the run token, built from random bytes.

Modules:

- `Wrappers` (wrappers.dfy): `Option`.
- `PyStr` (pystr.dfy): the Python string semantics the models rely on.
  - `str.replace` scans from the left and replaces every non-overlapping
    occurrence.
  - `str(int)` writes decimal digits, with a leading `-` for negative numbers.
  - `ParseInt` is a reference parser for decimal integer texts. It is used
    to state that the `str(pr_nr)` text in a pull-request link identifies
    the number; the source itself never calls `int()`. It also accepts
    zero-padded texts such as "007" and "-0", so the link lemma pins the
    text itself, not only its parsed value.
- `Status` (status.dfy): the `TestPlatform`, `TestType` and `TestStatus`
  enumerations, the stage catalog `Stages()`, and `ProgressStep`, which gives
  a status's position in the catalog. It is modelled on Python's `list.index`,
  with the `ValueError` turned into -1.
- `Models` (models.dfy): the `Fork`, `Test`, `TestProgress` and
  `TestResultFile` records, and the operations on them.
  - `progress_data` is the method `ProgressData`. Like the source, it starts
    from the empty-log report and overwrites its fields one by one.
  - The other operations are functions.

The equality flag follows the code, not the column comment. The comment on
`got` (mod_test/models.py:386) says an empty or null value means the output
equals the expected one. `__repr__` (mod_test/models.py:420) tests only for
None, so a stored empty output is reported "Unequal". `EmptyOutputIsUnequal`
states this case.

Timestamps are integers that are only copied, never compared. They stand for
instants that the persistence layer has already normalised to UTC. The
`progress` relationship, ordered by `TestProgress.id`, is a sequence in
insertion order.

## Model

| member | source | states |
|---|---|---|
| `Status.IndexOf` | mod_test/models.py:63-66 | `list.index` with `ValueError` mapped to -1: the result is -1 exactly when the element is absent; otherwise it is the first position holding the element |
| `Status.Stages` | mod_test/models.py:68-77 | the catalog has four entries: every status except `canceled`, and never `canceled`. `StagesDistinct` and `ProgressStepValues` give the order |
| `Status.ProgressStep` | mod_test/models.py:53-66 | the step is -1 exactly when the status is not in `Stages()`; otherwise it lies in 0..3 and the catalog holds that status at that step |
| `Status.StagesDistinct` | mod_test/models.py:68-77 | the catalog has no repeats: looking up the status at position i gives back i |
| `Status.ProgressStepValues` | mod_test/models.py:44-77 | preparation, building, testing and completed have steps 0, 1, 2 and 3; canceled has -1 |
| `Status.ProgressStepUndefinedOnlyForCanceled` | mod_test/models.py:44-77 | a status has no step (-1) if and only if it is `canceled` |
| `Status.ProgressStepMonotonic` | mod_test/models.py:68-77 | steps increase strictly along the catalog |
| `Models.Finished` | mod_test/models.py:164-174 | finished if and only if the log is non-empty and its last status is canceled or the catalog's final stage (completed); an empty log is not finished |
| `Models.Failed` | mod_test/models.py:176-186 | failed if and only if the log is non-empty and its last status has no step (it is canceled); an empty log has not failed |
| `Models.FailedImpliesFinished` | mod_test/models.py:164-186 | every failed run is finished |
| `Models.ProgressData` | mod_test/models.py:205-237 | the stage list is the catalog, and an empty log gives error, step -1 and no start or end. Start is the first entry's time. End is the last entry's time exactly when the run is finished. The state is ok exactly when the log is non-empty and the run has not failed. A failed run reports the step of the second-to-last entry, or -1 when the log has only one entry. An ok run reports the last entry's step, which lies in 0..3, and a finished ok run reports step 3 |
| `Models.CanceledWhileTestingReport` | mod_test/models.py:222-235 | the log preparation, building, testing, canceled gives error at step 2, starting at the first entry and ending at the cancellation |
| `Models.JustPreparedReport` | mod_test/models.py:222-235 | the log with only preparation gives ok at step 0, with a start time and no end time |
| `Models.GithubUrl` | mod_test/models.py:96-99 | the URL is four characters shorter for each ".git" that `str.count` finds. `GithubUrlWithoutGit`, `GithubUrlRemovesEveryGit` and `GithubNameOfCloneUrl` give its value |
| `Models.GithubName` | mod_test/models.py:101-104 | the name is the GitHub URL shortened by the host's length for each "https://github.com/" that `str.count` finds in it. `GithubNameOfCloneUrl` gives its value for a clone URL |
| `Models.GithubUrlWithoutGit` | mod_test/models.py:96-99 | a fork URL that does not contain ".git" is its own GitHub URL |
| `Models.GithubUrlRemovesEveryGit` | mod_test/models.py:96-99 | ".git" is removed wherever it occurs, not only as a suffix: the first occurrence disappears and the rest of the URL is cleaned the same way |
| `Models.GithubNameOfCloneUrl` | mod_test/models.py:96-104 | for "https://github.com/<path>.git", when the path mentions neither ".git" nor the host, the URL is "https://github.com/<path>" and the name is the path |
| `Models.GithubLink` | mod_test/models.py:188-203 | the link begins with the fork's GitHub URL |
| `Models.GithubLinkIdentifiesTest` | mod_test/models.py:196-203 | after the fork URL, a commit test's link reads "/commit/" followed by the commit. Any other test's link reads "/pull/" followed by `str(pr_nr)`, a text that parses back to the pull request number |
| `Models.EqualityFlag` | mod_test/models.py:420 | the flag is "Equal" exactly when `got` is None, and "Unequal" exactly when `got` is present |
| `Models.EmptyOutputIsUnequal` | mod_test/models.py:386-420 | a stored empty output is reported "Unequal": the flag tests for None, not for the emptiness the column comment mentions |
| `Models.FlagReadable` | mod_test/models.py:420-421 | whatever precedes it, the ": Equal>" or ": Unequal>" ending identifies the flag |
| `Models.ResultFileRepr` | mod_test/models.py:409-421 | the representation ends in ": Equal>" exactly when `got` is absent, and in ": Unequal>" exactly when it is present |
| `Models.TokenChars` | mod_test/models.py:249 | the token alphabet has 62 characters, all ASCII letters or digits |
| `Models.CreateToken` | mod_test/models.py:239-251 | the token has the requested length, and every character is an ASCII letter or digit |
| `Models.EveryAlnumReachable` | mod_test/models.py:249-251 | every ASCII letter and digit is the token character of some random byte |
| `PyStr.Replace` | mod_test/models.py:99 | `str.replace`: the length changes by `len(repl) - len(pat)` for each occurrence that `str.count` counts. `ReplaceNoOccurrence`, `ReplaceConcat` and `ReplaceFirstOccurrence` give its value |
| `PyStr.ReplaceNoOccurrence` | mod_test/models.py:99 | `str.replace` leaves a string without the pattern unchanged |
| `PyStr.ReplaceConcat` | mod_test/models.py:99 | when no occurrence straddles the seam, replacing in a concatenation is the same as replacing in each part |
| `PyStr.ReplaceFirstOccurrence` | mod_test/models.py:99 | take a pattern that cannot overlap itself and a prefix free of it: in prefix + pattern + rest, the pattern is replaced and the rest is processed independently |
| `PyStr.GitPatternBorderFree` | mod_test/models.py:99 | ".git" cannot overlap itself |
| `PyStr.NatToString` | mod_test/models.py:203 | the decimal form of a natural number is a non-empty digit string with no leading zero |
| `PyStr.IntToString` | mod_test/models.py:203 | `str(n)` is non-empty and starts with '-' exactly for negative n |
| `PyStr.ParseInt` | mod_test/models.py:203 | every text `str` can produce for an integer (canonical digits, optionally after a "-") parses to the integer whose `str` it is |
| `PyStr.DigitsRoundTrip` | mod_test/models.py:203 | digits without a leading zero are the decimal form of their own value |
| `PyStr.NatToStringRoundTrip` | mod_test/models.py:203 | the value of the digits of n is n |
| `PyStr.IntToStringRoundTrip` | mod_test/models.py:203 | parsing `str(n)` gives back n, for every integer n |

## Left out

- The SQLAlchemy table, column and relationship declarations, and the
  constructors that only assign fields. They are persistence, not logic. This
  includes `Test.__init__`, which calls `create_token(64)` when no token is
  given.
- `Test.get_customized_regressiontests`: when no customised tests exist, it
  reads every regression test from the database.
- `TestProgress.__init__` timestamp defaulting and `may_the_timezone_be_with_it`
  read the wall clock and the local time zone. Timestamps are taken as
  already-normalised values.
- `TestResultFile.generate_html_diff`: it delegates to
  `mod_test.nicediff.diff.get_html_diff`, which is not part of this model.
- `TestResultFile.read_lines`: file I/O with a UTF-8 then cp1252 decoding
  fallback.
- Models.CreateToken: the bytes from `os.urandom` are a parameter, so the
  model does not capture that they are random.
- The `__repr__` strings of `Fork`, `Test`, `TestProgress` and `TestResult`
  are not modelled. They format ids, plus the status for `TestProgress`, and
  the exit code, expected code and runtime for `TestResult`. Of
  `TestResultFile.__repr__` the model keeps the full text, but states only
  its ending.
- Aggregating a run into pass/fail from `exit_code` and `expected_rc` is not
  implemented in this file. Nor is any validation of the event order. A
  malformed log (canceled not last, repeated stages) is interpreted only by
  its first, last and second-to-last entries, as in the code.
- `TestStatus` is a closed enumeration, so the only status whose step is -1
  is `canceled`, the one status missing from `stages()`
  (mod_test/models.py:63-66, 76-77). The report always carries `Stages()`,
  even for an empty log (mod_test/models.py:217).
- PyStr.Replace: only non-empty patterns are modelled, since every call in
  the file passes a non-empty literal. Python's behaviour for an empty
  pattern, which inserts the replacement before every character and at the
  end (`"ab".replace("", "-")` is `"-a-b-"`), is not modelled.
