/**
 * The batch runner of `App.run_convert`: refuse an empty selection or a
 * quality outside 1..100, then convert every selected path in order, tally
 * the outcomes, and build the summary with its bounded failure preview.
 *
 * `convert_one` is not modelled: its `(ok, msg)` answer for the i-th path is
 * the i-th element of `outcomes`. The quality entry arrives already parsed,
 * `None` standing for text that did not parse as an integer, and the answer
 * to the overwrite confirmation arrives as `confirmed`.
 */
module Batch {
  import opened Wrappers
  import opened Seqs
  import opened Paths
  import opened Decimal
  import opened Lines

  /** Smallest and largest quality the runner accepts. */
  const QualityMin: int := 1
  const QualityMax: int := 100

  /** How many failures the summary lists one by one. */
  const PreviewLimit: nat := 8

  /** What `convert_one` answers for one path: success flag and message. */
  datatype Outcome = Outcome(ok: bool, msg: string)

  /** One entry of the `failed` list. */
  datatype Failure = Failure(path: Path, msg: string)

  /** One call of `convert_one`, with the options it is given. */
  datatype Call = Call(path: Path, quality: int, progressive: bool)

  /** One status update shown before a conversion: 1-based index, total and the path being converted. */
  datatype Progress = Progress(index: nat, total: nat, path: Path)

  /** The counters and failure list the loop builds. */
  datatype Tally = Tally(okCount: nat, failCount: nat, failed: seq<Failure>)

  /** Why a run ends before converting anything. */
  datatype Abort = NothingSelected | InvalidQuality | Cancelled

  /** The closing message: the all-success report, or the partial-failure report with its preview text. */
  datatype Summary =
    | AllSucceeded(okCount: nat, failCount: nat)
    | SomeFailed(okCount: nat, failCount: nat, preview: string)

  /** The effect of one press of the convert button. */
  datatype RunResult =
    | Aborted(reason: Abort)
    | Finished(calls: seq<Call>, progress: seq<Progress>, tally: Tally, summary: Summary)

  /** The quality check of `run_convert`: an integer in 1..100, passed on unchanged. */
  function ValidateQuality(q: Option<int>): (r: Option<int>)
    ensures r.Some? <==> q.Some? && QualityMin <= q.value <= QualityMax
    ensures r.Some? ==> r == q
  {
    match q
    case Some(v) => if QualityMin <= v <= QualityMax then Some(v) else None
    case None => None
  }

  /** The boundaries: 0 and 101 are refused, 1 and 100 accepted, unparsable text refused. */
  lemma QualityBoundaries()
    ensures ValidateQuality(Some(0)).None? && ValidateQuality(Some(101)).None?
    ensures ValidateQuality(Some(1)) == Some(1) && ValidateQuality(Some(100)) == Some(100)
    ensures ValidateQuality(None).None?
  {
  }

  /** The number of successful outcomes. */
  function CountOk(outcomes: seq<Outcome>): (n: nat)
    ensures n <= |outcomes|
  {
    if |outcomes| == 0 then 0
    else (if outcomes[0].ok then 1 else 0) + CountOk(outcomes[1..])
  }

  /** The count reaches the number of outcomes exactly when all succeeded, and is zero exactly when all failed. */
  lemma {:induction false} CountOkExtremes(outcomes: seq<Outcome>)
    ensures CountOk(outcomes) == |outcomes| <==> forall i :: 0 <= i < |outcomes| ==> outcomes[i].ok
    ensures CountOk(outcomes) == 0 <==> forall i :: 0 <= i < |outcomes| ==> !outcomes[i].ok
  {
    if |outcomes| > 0 {
      CountOkExtremes(outcomes[1..]);
      assert forall i :: 1 <= i < |outcomes| ==> outcomes[i] == outcomes[1..][i - 1];
    }
  }

  /** The failure reported by attempt `i`, whether or not it failed. */
  function Attempts(paths: seq<Path>, outcomes: seq<Outcome>): (r: seq<Failure>)
    requires |paths| == |outcomes|
    ensures |r| == |paths|
  {
    seq(|paths|, i requires 0 <= i < |paths| => Failure(paths[i], outcomes[i].msg))
  }

  /** The `(path, msg)` pairs of the failing outcomes, in input order. */
  function FailuresOf(paths: seq<Path>, outcomes: seq<Outcome>): (r: seq<Failure>)
    requires |paths| == |outcomes|
    ensures |r| == |outcomes| - CountOk(outcomes)
  {
    if |paths| == 0 then []
    else
      (if outcomes[0].ok then [] else [Failure(paths[0], outcomes[0].msg)])
      + FailuresOf(paths[1..], outcomes[1..])
  }

  /** Counting one more outcome adds one exactly when it succeeded. */
  lemma {:induction false} CountOkSnoc(outcomes: seq<Outcome>, o: Outcome)
    ensures CountOk(outcomes + [o]) == CountOk(outcomes) + (if o.ok then 1 else 0)
  {
    if |outcomes| == 0 {
      assert outcomes + [o] == [o];
    } else {
      assert (outcomes + [o])[1..] == outcomes[1..] + [o];
      CountOkSnoc(outcomes[1..], o);
    }
  }

  /** One more attempt appends its failure exactly when it failed. */
  lemma {:induction false} FailuresOfSnoc(paths: seq<Path>, outcomes: seq<Outcome>, p: Path, o: Outcome)
    requires |paths| == |outcomes|
    ensures FailuresOf(paths + [p], outcomes + [o])
      == FailuresOf(paths, outcomes) + (if o.ok then [] else [Failure(p, o.msg)])
  {
    if |paths| == 0 {
      assert paths + [p] == [p] && outcomes + [o] == [o];
    } else {
      assert (paths + [p])[1..] == paths[1..] + [p];
      assert (outcomes + [o])[1..] == outcomes[1..] + [o];
      FailuresOfSnoc(paths[1..], outcomes[1..], p, o);
    }
  }

  /** One attempt of the loop: the path and what `convert_one` answered for it. */
  datatype Step = Step(path: Path, outcome: Outcome)

  /** The attempts of a run, in input order. */
  function Steps(paths: seq<Path>, outcomes: seq<Outcome>): (steps: seq<Step>)
    requires |paths| == |outcomes|
    ensures |steps| == |paths|
  {
    seq(|paths|, i requires 0 <= i < |paths| => Step(paths[i], outcomes[i]))
  }

  /** The attempt failed. */
  predicate StepFailed(step: Step)
  {
    !step.outcome.ok
  }

  /** The `(path, msg)` entries the attempts would put in the failure list. */
  function FailuresOfSteps(steps: seq<Step>): seq<Failure>
  {
    seq(|steps|, i requires 0 <= i < |steps| => Failure(steps[i].path, steps[i].outcome.msg))
  }

  /** Converting attempts to entries distributes over concatenation. */
  lemma FailuresOfStepsAppend(a: seq<Step>, b: seq<Step>)
    ensures FailuresOfSteps(a + b) == FailuresOfSteps(a) + FailuresOfSteps(b)
  {
  }

  /**
   * The failure list is exactly the failing attempts, filtered out of all
   * attempts in input order and recorded as `(path, msg)`.
   */
  lemma {:induction false} FailuresAreFailedSteps(paths: seq<Path>, outcomes: seq<Outcome>)
    requires |paths| == |outcomes|
    ensures FailuresOf(paths, outcomes) == FailuresOfSteps(Filter(StepFailed, Steps(paths, outcomes)))
  {
    if |paths| > 0 {
      var steps := Steps(paths, outcomes);
      assert steps[1..] == Steps(paths[1..], outcomes[1..]);
      FailuresAreFailedSteps(paths[1..], outcomes[1..]);
      var head := if StepFailed(steps[0]) then [steps[0]] else [];
      assert Filter(StepFailed, steps) == head + Filter(StepFailed, steps[1..]);
      FailuresOfStepsAppend(head, Filter(StepFailed, steps[1..]));
    }
  }

  /** The failure list is the attempts with their successes left out, in input order. */
  lemma {:induction false} FailuresInInputOrder(paths: seq<Path>, outcomes: seq<Outcome>)
    requires |paths| == |outcomes|
    ensures IsSubsequence(FailuresOf(paths, outcomes), Attempts(paths, outcomes))
  {
    if |paths| > 0 {
      var rest := FailuresOf(paths[1..], outcomes[1..]);
      var attempts := Attempts(paths, outcomes);
      FailuresInInputOrder(paths[1..], outcomes[1..]);
      assert attempts[1..] == Attempts(paths[1..], outcomes[1..]);
      if outcomes[0].ok {
        assert FailuresOf(paths, outcomes) == rest;
        SubsequenceOfTail(rest, attempts);
      } else {
        assert attempts[0] == Failure(paths[0], outcomes[0].msg);
        assert FailuresOf(paths, outcomes) == [attempts[0]] + rest;
        assert ([attempts[0]] + rest)[1..] == rest;
      }
    }
  }

  /** Every failing attempt is in the failure list, with its path and message. */
  lemma {:induction false} FailingAttemptListed(paths: seq<Path>, outcomes: seq<Outcome>, i: int)
    requires |paths| == |outcomes| && 0 <= i < |paths|
    requires !outcomes[i].ok
    ensures Failure(paths[i], outcomes[i].msg) in FailuresOf(paths, outcomes)
  {
    if i > 0 {
      FailingAttemptListed(paths[1..], outcomes[1..], i - 1);
    }
  }

  /** Every entry of the failure list comes from a failing attempt. */
  lemma {:induction false} ListedFailureFailed(paths: seq<Path>, outcomes: seq<Outcome>, f: Failure)
    requires |paths| == |outcomes|
    requires f in FailuresOf(paths, outcomes)
    ensures exists i :: 0 <= i < |paths| && !outcomes[i].ok && f == Failure(paths[i], outcomes[i].msg)
  {
    if !outcomes[0].ok && f == Failure(paths[0], outcomes[0].msg) {
      assert !outcomes[0].ok;
    } else {
      ListedFailureFailed(paths[1..], outcomes[1..], f);
      var i :| 0 <= i < |paths[1..]| && !outcomes[1..][i].ok && f == Failure(paths[1..][i], outcomes[1..][i].msg);
      assert paths[i + 1] == paths[1..][i] && outcomes[i + 1] == outcomes[1..][i];
    }
  }

  /** The failure list is empty exactly when every outcome succeeded. */
  lemma NoFailuresIffAllOk(paths: seq<Path>, outcomes: seq<Outcome>)
    requires |paths| == |outcomes|
    ensures FailuresOf(paths, outcomes) == [] <==> forall i :: 0 <= i < |outcomes| ==> outcomes[i].ok
  {
    if exists i :: 0 <= i < |outcomes| && !outcomes[i].ok {
      var i :| 0 <= i < |outcomes| && !outcomes[i].ok;
      FailingAttemptListed(paths, outcomes, i);
    } else if FailuresOf(paths, outcomes) != [] {
      ListedFailureFailed(paths, outcomes, FailuresOf(paths, outcomes)[0]);
    }
  }

  /** The counters and failure list after one more attempt. */
  lemma TallyStep(paths: seq<Path>, outcomes: seq<Outcome>, i: int)
    requires |paths| == |outcomes| && 0 <= i < |paths|
    ensures CountOk(outcomes[..i + 1]) == CountOk(outcomes[..i]) + (if outcomes[i].ok then 1 else 0)
    ensures FailuresOf(paths[..i + 1], outcomes[..i + 1])
      == FailuresOf(paths[..i], outcomes[..i]) + (if outcomes[i].ok then [] else [Failure(paths[i], outcomes[i].msg)])
  {
    assert paths[..i + 1] == paths[..i] + [paths[i]] && outcomes[..i + 1] == outcomes[..i] + [outcomes[i]];
    CountOkSnoc(outcomes[..i], outcomes[i]);
    FailuresOfSnoc(paths[..i], outcomes[..i], paths[i], outcomes[i]);
  }

  /**
   * The loop of `run_convert`: every path, in order, gets a progress update
   * and a `convert_one` call; a failure is counted and recorded and the loop
   * goes on with the next path.
   */
  method ConvertAll(paths: seq<Path>, outcomes: seq<Outcome>, quality: int, progressive: bool)
    returns (calls: seq<Call>, progress: seq<Progress>, tally: Tally)
    requires |outcomes| == |paths|
    ensures |calls| == |paths| && forall i :: 0 <= i < |paths| ==> calls[i] == Call(paths[i], quality, progressive)
    ensures |progress| == |paths|
    ensures forall i :: 0 <= i < |paths| ==> progress[i] == Progress(i + 1, |paths|, paths[i])
    ensures tally.okCount + tally.failCount == |paths|
    ensures |tally.failed| == tally.failCount
    ensures tally.okCount == CountOk(outcomes)
    ensures tally.failed == FailuresOf(paths, outcomes)
  {
    var okCount: nat := 0;
    var failCount: nat := 0;
    var failed: seq<Failure> := [];
    calls := [];
    progress := [];
    var total := |paths|;
    for i := 0 to total
      invariant |calls| == i && forall k :: 0 <= k < i ==> calls[k] == Call(paths[k], quality, progressive)
      invariant |progress| == i && forall k :: 0 <= k < i ==> progress[k] == Progress(k + 1, total, paths[k])
      invariant okCount == CountOk(outcomes[..i])
      invariant okCount + failCount == i
      invariant failed == FailuresOf(paths[..i], outcomes[..i])
    {
      var idx := i + 1;
      var path := paths[i];
      progress := progress + [Progress(idx, total, path)];
      calls := calls + [Call(path, quality, progressive)];
      var ok, msg := outcomes[i].ok, outcomes[i].msg;
      TallyStep(paths, outcomes, i);
      if ok {
        okCount := okCount + 1;
      } else {
        failCount := failCount + 1;
        failed := failed + [Failure(path, msg)];
      }
    }
    assert paths[..total] == paths && outcomes[..total] == outcomes;
    tally := Tally(okCount, failCount, failed);
  }

  const StatusPrefix: string := "변환 중... ("

  /** The status text for a progress update: `변환 중... (<index>/<total>) <file name>`. */
  function StatusLine(p: Progress): (line: string)
    ensures |line| == |StatusPrefix| + |NatToString(p.index)| + 1 + |NatToString(p.total)| + 2 + |Basename(p.path)|
    ensures line[..|StatusPrefix|] == StatusPrefix
    ensures line[|line| - |Basename(p.path)|..] == Basename(p.path)
  {
    StatusPrefix + NatToString(p.index) + "/" + NatToString(p.total) + ") " + Basename(p.path)
  }

  /** Reads a count followed by `sep` off the front of `s`, returning the count and what follows. */
  function ParseCount(s: string, sep: string): Option<(nat, string)>
  {
    var i := DigitSpan(s);
    var after := s[i..];
    if i == 0 || |after| < |sep| || after[..|sep|] != sep then None
    else Some((DigitsValue(s[..i]), after[|sep|..]))
  }

  /** A rendered count followed by a separator that does not start with a digit reads back. */
  lemma ParseCountRoundTrip(n: nat, sep: string, rest: string)
    requires |sep| > 0 && !('0' <= sep[0] <= '9')
    ensures ParseCount(NatToString(n) + (sep + rest), sep) == Some((n, rest))
  {
    var digits := NatToString(n);
    DigitSpanOfDigits(digits, sep + rest);
    StripPrefix(digits, sep + rest);
    StripPrefix(sep, rest);
    NatToStringRoundTrip(n);
  }

  /** Reads `<index>/<total>) <name>` back into its three parts. */
  function ParseProgress(s: string): Option<(nat, nat, string)>
  {
    match ParseCount(s, "/")
    case None => None
    case Some((index, afterIndex)) =>
      match ParseCount(afterIndex, ") ")
      case None => None
      case Some((total, name)) => Some((index, total, name))
  }

  /** Reads a status text back into its index, total and file name; any other text reads as `None`. */
  function ParseStatus(line: string): Option<(nat, nat, string)>
  {
    var n := |StatusPrefix|;
    if |line| < n || line[..n] != StatusPrefix then None else ParseProgress(line[n..])
  }

  /** The rendered index, total and name read back. */
  lemma ProgressRoundTrip(index: nat, total: nat, name: string)
    ensures ParseProgress(NatToString(index) + ("/" + (NatToString(total) + (") " + name)))) == Some((index, total, name))
  {
    ParseCountRoundTrip(index, "/", NatToString(total) + (") " + name));
    ParseCountRoundTrip(total, ") ", name);
  }

  /** A status text reads back as the index, total and file name it was built from. */
  lemma StatusLineRoundTrip(p: Progress)
    ensures ParseStatus(StatusLine(p)) == Some((p.index, p.total, Basename(p.path)))
  {
    var afterPrefix := NatToString(p.index) + ("/" + (NatToString(p.total) + (") " + Basename(p.path))));
    StripPrefix(StatusPrefix, afterPrefix);
    assert StatusLine(p) == StatusPrefix + afterPrefix;
    ProgressRoundTrip(p.index, p.total, Basename(p.path));
  }

  /** A prefix followed by more text: the first part is the prefix and the rest is the text. */
  lemma StripPrefix(prefix: string, rest: string)
    ensures (prefix + rest)[..|prefix|] == prefix && (prefix + rest)[|prefix|..] == rest
  {
  }

  /** The preview line for one failure: `- <file name>: <message>`. */
  function FailureLine(f: Failure): (line: string)
    ensures |line| == 4 + |Basename(f.path)| + |f.msg| && line[..2] == "- "
    ensures line[2..2 + |Basename(f.path)|] == Basename(f.path)
    ensures line[2 + |Basename(f.path)|..4 + |Basename(f.path)|] == ": "
    ensures line[|line| - |f.msg|..] == f.msg
  {
    "- " + Basename(f.path) + ": " + f.msg
  }

  const OverflowPrefix: string := "... 외 "
  const OverflowSuffix: string := "개"

  /** The line that stands for the failures not listed: `... 외 <k>개`. */
  function OverflowLine(hidden: nat): (line: string)
    ensures |line| > |OverflowPrefix| + |OverflowSuffix| && line[..|OverflowPrefix|] == OverflowPrefix
    ensures line[|line| - |OverflowSuffix|..] == OverflowSuffix
  {
    OverflowPrefix + NatToString(hidden) + OverflowSuffix
  }

  /**
   * The failure preview: the first eight failures, one line each in order,
   * then an overflow line with the number left out when there are more.
   */
  function PreviewLines(failed: seq<Failure>): (lines: seq<string>)
    ensures |failed| <= PreviewLimit ==> |lines| == |failed|
    ensures |failed| > PreviewLimit ==> |lines| == PreviewLimit + 1
    ensures forall i :: 0 <= i < |lines| && i < |failed| && i < PreviewLimit ==> lines[i] == FailureLine(failed[i])
    ensures |failed| > PreviewLimit ==> lines[PreviewLimit] == OverflowLine(|failed| - PreviewLimit)
  {
    var shown := if |failed| <= PreviewLimit then |failed| else PreviewLimit;
    var listed := seq(shown, i requires 0 <= i < shown => FailureLine(failed[i]));
    if |failed| > PreviewLimit then listed + [OverflowLine(|failed| - PreviewLimit)] else listed
  }

  /** Reads an overflow line back into the number it reports; any other line reads as `None`. */
  function ParseOverflow(line: string): Option<nat>
  {
    var lo := |OverflowPrefix|;
    var hi := |line| - |OverflowSuffix|;
    if lo < hi && line[..lo] == OverflowPrefix && line[hi..] == OverflowSuffix && AllDigits(line[lo..hi])
    then Some(DigitsValue(line[lo..hi]))
    else None
  }

  /** An overflow line reads back as the count it was built from. */
  lemma OverflowLineRoundTrip(hidden: nat)
    ensures ParseOverflow(OverflowLine(hidden)) == Some(hidden)
  {
    var line := OverflowLine(hidden);
    var digits := NatToString(hidden);
    assert line[..|OverflowPrefix|] == OverflowPrefix;
    assert line[|line| - |OverflowSuffix|..] == OverflowSuffix;
    assert line[|OverflowPrefix|..|line| - |OverflowSuffix|] == digits;
    NatToStringRoundTrip(hidden);
  }

  /** A failure line never reads as an overflow line, whatever the path and message. */
  lemma FailureLineIsNotOverflow(f: Failure)
    ensures ParseOverflow(FailureLine(f)).None?
  {
    var line := FailureLine(f);
    assert line[0] == '-';
    if |OverflowPrefix| < |line| {
      assert line[..|OverflowPrefix|][0] == '-';
    }
  }

  /** The number of failures a reader of the preview counts: one per listed line plus what an overflow line adds. */
  function ReportedFailures(lines: seq<string>): nat
  {
    if |lines| == 0 then 0
    else
      match ParseOverflow(lines[|lines| - 1])
      case Some(hidden) => |lines| - 1 + hidden
      case None => |lines|
  }

  /** The preview accounts for every failure: the listed lines plus the overflow count give the full number. */
  lemma PreviewReportsEveryFailure(failed: seq<Failure>)
    ensures ReportedFailures(PreviewLines(failed)) == |failed|
  {
    var lines := PreviewLines(failed);
    if |failed| > PreviewLimit {
      OverflowLineRoundTrip(|failed| - PreviewLimit);
    } else if |failed| > 0 {
      FailureLineIsNotOverflow(failed[|failed| - 1]);
    }
  }

  /** A failure whose file name and message hold no newline. */
  predicate IsSingleLineFailure(f: Failure)
  {
    IsSingleLine(Basename(f.path)) && IsSingleLine(f.msg)
  }

  /** A failure line shows as one line when its file name and message do. */
  lemma FailureLineIsSingleLine(f: Failure)
    requires IsSingleLineFailure(f)
    ensures IsSingleLine(FailureLine(f))
  {
    var line := FailureLine(f);
    var name := Basename(f.path);
    forall k | 0 <= k < |line| ensures line[k] != Newline {
      if k >= 2 + |name| + 2 {
        assert line[k] == f.msg[k - (4 + |name|)];
      } else if k >= 2 && k < 2 + |name| {
        assert line[k] == name[k - 2];
      }
    }
  }

  /** The overflow line is always one line. */
  lemma OverflowLineIsSingleLine(hidden: nat)
    ensures IsSingleLine(OverflowLine(hidden))
  {
    var digits := NatToString(hidden);
    var line := OverflowLine(hidden);
    forall k | 0 <= k < |line| ensures line[k] != Newline {
      if |OverflowPrefix| <= k < |OverflowPrefix| + |digits| {
        assert line[k] == digits[k - |OverflowPrefix|];
      }
    }
  }

  /** The preview text of the message box: the preview lines joined with newlines. */
  function PreviewText(failed: seq<Failure>): (text: string)
    ensures |failed| == 0 <==> text == ""
    ensures |failed| > 0 ==> |text| >= 2 && text[..2] == "- "
  {
    JoinLines(PreviewLines(failed))
  }

  /**
   * When no file name or message holds a newline, the preview text shows
   * exactly the preview lines, and a reader of the screen counts every failure.
   */
  lemma PreviewTextShowsLines(failed: seq<Failure>)
    requires |failed| > 0
    requires forall i :: 0 <= i < |failed| ==> IsSingleLineFailure(failed[i])
    ensures SplitLines(PreviewText(failed)) == PreviewLines(failed)
    ensures ReportedFailures(SplitLines(PreviewText(failed))) == |failed|
  {
    var lines := PreviewLines(failed);
    forall i | 0 <= i < |lines| ensures IsSingleLine(lines[i]) {
      if i < |failed| && i < PreviewLimit {
        FailureLineIsSingleLine(failed[i]);
      } else {
        OverflowLineIsSingleLine(|failed| - PreviewLimit);
      }
    }
    SplitJoinLines(lines);
    PreviewReportsEveryFailure(failed);
  }

  /** The closing report: the all-success message when nothing failed, otherwise the partial-failure message. */
  function Summarize(tally: Tally): (s: Summary)
    ensures s.okCount == tally.okCount && s.failCount == tally.failCount
    ensures s.AllSucceeded? <==> tally.failCount == 0
    ensures s.SomeFailed? ==> s.preview == PreviewText(tally.failed)
  {
    if tally.failCount == 0 then AllSucceeded(tally.okCount, tally.failCount)
    else SomeFailed(tally.okCount, tally.failCount, PreviewText(tally.failed))
  }

  /**
   * `run_convert`: refuses an empty selection, then an invalid quality, then
   * stops if the overwrite is not confirmed; otherwise converts every path
   * and summarises. Nothing is converted on any refusal.
   */
  method RunConvert(selection: seq<Path>, quality: Option<int>, progressive: bool, confirmed: bool,
                    outcomes: seq<Outcome>) returns (r: RunResult)
    requires |outcomes| == |selection|
    ensures |selection| == 0 ==> r == Aborted(NothingSelected)
    ensures |selection| > 0 && !(quality.Some? && QualityMin <= quality.value <= QualityMax)
      ==> r == Aborted(InvalidQuality)
    ensures r.Finished? <==> |selection| > 0 && quality.Some? && QualityMin <= quality.value <= QualityMax && confirmed
    ensures r.Aborted? && r.reason == Cancelled <==> |selection| > 0 && ValidateQuality(quality).Some? && !confirmed
    ensures r.Finished? ==> |r.calls| == |selection|
    ensures r.Finished? ==> forall i :: 0 <= i < |selection| ==> r.calls[i] == Call(selection[i], quality.value, progressive)
    ensures r.Finished? ==> |r.progress| == |selection|
    ensures r.Finished? ==> forall i :: 0 <= i < |selection| ==> r.progress[i] == Progress(i + 1, |selection|, selection[i])
    ensures r.Finished? ==> r.tally.okCount + r.tally.failCount == |selection| && |r.tally.failed| == r.tally.failCount
    ensures r.Finished? ==> r.tally.okCount == CountOk(outcomes)
    ensures r.Finished? ==> r.tally.failed == FailuresOf(selection, outcomes)
    ensures r.Finished? ==> r.summary == Summarize(r.tally)
    ensures r.Finished? ==> (r.summary.AllSucceeded? <==> forall i :: 0 <= i < |outcomes| ==> outcomes[i].ok)
  {
    if |selection| == 0 {
      return Aborted(NothingSelected);
    }
    var q := ValidateQuality(quality);
    if q.None? {
      return Aborted(InvalidQuality);
    }
    if !confirmed {
      return Aborted(Cancelled);
    }
    var calls, progress, tally := ConvertAll(selection, outcomes, q.value, progressive);
    NoFailuresIffAllOk(selection, outcomes);
    r := Finished(calls, progress, tally, Summarize(tally));
  }
}
