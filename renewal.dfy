/**
 * The renewal run: a straight sequence of browser steps inside one `try`,
 * tracked by two variables. `renewalStatus` starts as "Failed" and becomes
 * "Success" only after the last step; `oldExpiryTime` starts as "Unknown"
 * and is set by the expiry-date extractor, whose own errors are swallowed by
 * a local `catch`. The `finally` block builds the report from both.
 *
 * Each browser step is an opaque action that either completes or throws; a
 * run is described by the outcome of every step.
 */
module Renewal {
  import opened DateExtractor
  import opened RunReport

  /** The awaited actions of the main `try` block, in program order. */
  datatype Step =
    | ProxyLogin          // page.authenticate with the proxy's credentials, when it has them
    | OpenLoginPage
    | FillMemberId
    | FillPassword
    | SubmitLogin
    | AwaitLogin
    | CaptureExpiry       // the guarded block that waits for the label and runs the extractor
    | OpenServerDetail
    | ClickRenew
    | ClickContinueFree
    | AwaitChallengePage
    | ReadChallengeImage
    | SolveChallenge      // the request to the external captcha solver
    | FillChallengeCode
    | ConfirmRenewal
    | SettleDelay

  datatype Outcome = Completed | Threw

  const Steps: seq<Step> := [
    ProxyLogin, OpenLoginPage, FillMemberId, FillPassword, SubmitLogin, AwaitLogin,
    CaptureExpiry,
    OpenServerDetail, ClickRenew, ClickContinueFree, AwaitChallengePage,
    ReadChallengeImage, SolveChallenge, FillChallengeCode, ConfirmRenewal, SettleDelay]

  /** Where the extraction sits among the steps. */
  const CaptureIndex: nat := 6

  const UnknownExpiry: string := "Unknown"

  /** The extraction is the seventh step and occurs nowhere else. */
  lemma CaptureOnlyAtIndex()
    ensures forall j :: 0 <= j < |Steps| ==> (Steps[j] == CaptureExpiry <==> j == CaptureIndex)
  {
  }

  /** Step `i` throws out of the main block: it threw and it is not the guarded extraction. */
  predicate AbortsAt(outcomes: seq<Outcome>, i: int) {
    0 <= i < |outcomes| && i < |Steps| && Steps[i] != CaptureExpiry && outcomes[i] == Threw
  }

  /** The first step at or after `from` that aborts the main block, or `|outcomes|`. */
  function FirstAbort(outcomes: seq<Outcome>, from: nat): (k: nat)
    requires from <= |outcomes|
    ensures from <= k <= |outcomes|
    ensures k < |outcomes| ==> AbortsAt(outcomes, k)
    ensures forall i :: from <= i < k ==> !AbortsAt(outcomes, i)
    decreases |outcomes| - from
  {
    if from == |outcomes| then |outcomes|
    else if AbortsAt(outcomes, from) then from
    else FirstAbort(outcomes, from + 1)
  }

  /** `renewalStatus` when the `finally` block runs. */
  function FinalStatus(outcomes: seq<Outcome>): (status: string)
    ensures status == SuccessStatus || status == FailedStatus
  {
    if FirstAbort(outcomes, 0) == |outcomes| then SuccessStatus else FailedStatus
  }

  /** `oldExpiryTime` when the `finally` block runs. */
  function FinalExpiry(outcomes: seq<Outcome>, bodyText: string, today: string): (expiry: string)
    ensures expiry == UnknownExpiry || expiry == Extract(bodyText, today)
  {
    if CaptureIndex < FirstAbort(outcomes, 0) && outcomes[CaptureIndex] == Completed
    then Extract(bodyText, today)
    else UnknownExpiry
  }

  /** The state of one run of the script. */
  class RenewalRun {
    var renewalStatus: string
    var oldExpiryTime: string

    constructor ()
      ensures renewalStatus == FailedStatus && oldExpiryTime == UnknownExpiry
    {
      renewalStatus := FailedStatus;
      oldExpiryTime := UnknownExpiry;
    }

    /**
     * The `try`/`catch` of the script: the steps run in order until one
     * throws; a throw from the extraction is swallowed where it happens.
     * `bodyText` and `today` are the page text and the UTC date that the
     * extracting callback sees.
     */
    method Execute(outcomes: seq<Outcome>, bodyText: string, today: string)
      requires |outcomes| == |Steps|
      requires renewalStatus == FailedStatus && oldExpiryTime == UnknownExpiry
      modifies this
      ensures renewalStatus == FinalStatus(outcomes)
      ensures oldExpiryTime == FinalExpiry(outcomes, bodyText, today)
    {
      var i := 0;
      var threw := false;
      CaptureOnlyAtIndex();
      while i < |Steps| && !threw
        invariant 0 <= i <= |Steps|
        invariant threw ==> 0 < i && FirstAbort(outcomes, 0) == i - 1
        invariant !threw ==> i <= FirstAbort(outcomes, 0)
        invariant renewalStatus == FailedStatus
        invariant oldExpiryTime ==
          if CaptureIndex < i && outcomes[CaptureIndex] == Completed then Extract(bodyText, today) else UnknownExpiry
      {
        if Steps[i] == CaptureExpiry {
          if outcomes[i] == Completed {
            oldExpiryTime := Extract(bodyText, today);
          }
        } else if outcomes[i] == Threw {
          assert AbortsAt(outcomes, i);
          threw := true;
        }
        i := i + 1;
      }
      if threw {
        renewalStatus := FailedStatus;
      } else {
        renewalStatus := SuccessStatus;
      }
    }
  }

  /**
   * One whole run: the state starts fresh, the steps run, and the `finally`
   * block builds the report from the final state. `iso` is the ISO string of
   * the clock shifted by 8 * 60 * 60 * 1000 = 28800000 ms.
   */
  method RunOnce(outcomes: seq<Outcome>, bodyText: string, today: string, iso: string)
    returns (report: string)
    requires |outcomes| == |Steps|
    ensures report == ReadmeContent(FinalStatus(outcomes), FinalExpiry(outcomes, bodyText, today), iso)
  {
    var run := new RenewalRun();
    run.Execute(outcomes, bodyText, today);
    report := ReadmeContent(run.renewalStatus, run.oldExpiryTime, iso);
  }

  // ---------------------------------------------------------------------------
  // Properties of a run.

  /** Every step before `k` completed: the steps that precede the first abort. */
  predicate CompletedBefore(outcomes: seq<Outcome>, k: int) {
    forall i :: 0 <= i < k && i < |outcomes| ==> outcomes[i] == Completed
  }

  /** No step before `k` aborts exactly when every step before `k`, except the extraction, completed. */
  lemma NoAbortBefore(outcomes: seq<Outcome>, k: nat)
    requires |outcomes| == |Steps| && k <= |outcomes|
    ensures k <= FirstAbort(outcomes, 0) <==>
      forall i :: 0 <= i < k && i != CaptureIndex ==> outcomes[i] == Completed
  {
    CaptureOnlyAtIndex();
    var f := FirstAbort(outcomes, 0);
    if f < k {
      assert AbortsAt(outcomes, f);
    }
    if k <= f {
      forall i | 0 <= i < k && i != CaptureIndex ensures outcomes[i] == Completed {
        assert !AbortsAt(outcomes, i);
      }
    }
  }

  /** The status is "Success" exactly when every step but the guarded extraction completed. */
  lemma SuccessIffStepsCompleted(outcomes: seq<Outcome>)
    requires |outcomes| == |Steps|
    ensures FinalStatus(outcomes) == SuccessStatus <==>
      forall i :: 0 <= i < |outcomes| && i != CaptureIndex ==> outcomes[i] == Completed
  {
    NoAbortBefore(outcomes, |outcomes|);
  }

  /** Whether the extraction throws or not never changes the status. */
  lemma CaptureErrorKeepsStatus(outcomes: seq<Outcome>)
    requires |outcomes| == |Steps|
    ensures FinalStatus(outcomes[CaptureIndex := Threw]) == FinalStatus(outcomes)
  {
    var thrown := outcomes[CaptureIndex := Threw];
    SuccessIffStepsCompleted(outcomes);
    SuccessIffStepsCompleted(thrown);
    assert forall i :: 0 <= i < |outcomes| && i != CaptureIndex ==> thrown[i] == outcomes[i];
  }

  /**
   * The captured date is the extractor's result exactly when every step up
   * to and including the extraction completed; otherwise it stays "Unknown".
   */
  lemma ExpiryCaptured(outcomes: seq<Outcome>, bodyText: string, today: string)
    requires |outcomes| == |Steps|
    ensures FinalExpiry(outcomes, bodyText, today) ==
      if CompletedBefore(outcomes, CaptureIndex + 1) then Extract(bodyText, today) else UnknownExpiry
  {
    NoAbortBefore(outcomes, CaptureIndex + 1);
    CaptureOnlyAtIndex();
    var f := FirstAbort(outcomes, 0);
    assert f != CaptureIndex;
  }

  /** What happens after the extraction never changes the captured date. */
  lemma LaterStepKeepsExpiry(outcomes: seq<Outcome>, i: nat, outcome: Outcome, bodyText: string, today: string)
    requires |outcomes| == |Steps| && CaptureIndex < i < |outcomes|
    ensures FinalExpiry(outcomes[i := outcome], bodyText, today) == FinalExpiry(outcomes, bodyText, today)
  {
    var changed := outcomes[i := outcome];
    ExpiryCaptured(outcomes, bodyText, today);
    ExpiryCaptured(changed, bodyText, today);
    assert forall j :: 0 <= j <= CaptureIndex ==> changed[j] == outcomes[j];
  }

  /**
   * A failure after the extraction, such as an unreachable captcha solver,
   * leaves the status "Failed" and keeps the date that the extractor produced.
   */
  lemma FailureAfterCapture(outcomes: seq<Outcome>, i: nat, bodyText: string, today: string)
    requires |outcomes| == |Steps| && CaptureIndex < i < |outcomes| && outcomes[i] == Threw
    requires CompletedBefore(outcomes, CaptureIndex + 1)
    ensures FinalStatus(outcomes) == FailedStatus
    ensures FinalExpiry(outcomes, bodyText, today) == Extract(bodyText, today)
  {
    SuccessIffStepsCompleted(outcomes);
    ExpiryCaptured(outcomes, bodyText, today);
  }

  /** The captured date is one line: "Unknown", "Not Found" or a date. */
  lemma FinalExpiryOneLine(outcomes: seq<Outcome>, bodyText: string, today: string)
    ensures '\n' !in FinalExpiry(outcomes, bodyText, today)
  {
    var r := Extract(bodyText, today);
    if r != NotFound {
      assert IsDateShaped(r);
      assert forall k :: 0 <= k < |r| ==> r[k] != '\n';
    }
  }

  /**
   * The report of a run: the glyph line says "Success" and the "renewed" line
   * is present exactly when every step but the extraction completed, and the
   * old-expiry line shows the captured date.
   */
  lemma RunReportShowsOutcome(outcomes: seq<Outcome>, bodyText: string, today: string, iso: string)
    requires |outcomes| == |Steps| && '\n' !in iso
    ensures var expiry := FinalExpiry(outcomes, bodyText, today);
      var ls := Lines(ReadmeContent(FinalStatus(outcomes), expiry, iso));
      var succeeded := forall i :: 0 <= i < |outcomes| && i != CaptureIndex ==> outcomes[i] == Completed;
      |ls| == 7 &&
      ls[4] == GlyphLine(if succeeded then SuccessGlyph else FailedGlyph) &&
      ls[5] == OldExpiryLine(expiry) &&
      (NewExpiryLine in ls <==> succeeded)
  {
    var expiry := FinalExpiry(outcomes, bodyText, today);
    FinalExpiryOneLine(outcomes, bodyText, today);
    SuccessIffStepsCompleted(outcomes);
    ReportRoundTrip(FinalStatus(outcomes), expiry, iso);
    NewExpiryLineIffSuccess(FinalStatus(outcomes), expiry, iso);
  }
}
