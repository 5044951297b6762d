/** The two driving loops of the clicker: waiting on a progress bar, and
    stepping an installer forward. Time, sleeps and the screen are replaced
    by the finite sequence of observations the loop makes: a loop that runs
    out of observations is a loop whose clock ran out. */
module ControlLoop {
  import opened StateEngine

  // ---------------------------------------------------------------------
  // Waiting for a progress bar

  /** One poll of `wait_for_progress_completion`: the bar reading, and the
      state `detect_installation_state` reports if the loop asks for it. */
  datatype Reading = Reading(found: bool, progress: real, state: InstallState)

  datatype WaitOutcome = Completed | Stuck | TimedOut

  /** More than this many polls without a movement of the bar by at least one
      point mean the bar is stuck; a poll that finds no bar does not count. */
  const StuckLimit: nat := 10

  function Abs(x: real): real {
    if x < 0.0 then -x else x
  }

  /** A poll that ends the wait successfully. */
  predicate Finishes(r: Reading) {
    if r.found then r.progress >= 99.0 && (r.state == Finished || r.state == Waiting)
    else r.state == Finished || r.state == Waiting || r.state == ReadyToInstall
  }

  /** The loop from poll `i` on, with the last progress that moved and the
      count of polls since it moved. */
  function WaitFrom(rs: seq<Reading>, i: nat, last: real, stuck: nat): (r: WaitOutcome)
    requires i <= |rs|
    decreases |rs| - i
  {
    if i == |rs| then TimedOut
    else
      var x := rs[i];
      if Finishes(x) then Completed
      else if !x.found then WaitFrom(rs, i + 1, last, stuck)
      else if Abs(x.progress - last) < 1.0 then
        (if stuck + 1 > StuckLimit then Stuck else WaitFrom(rs, i + 1, last, stuck + 1))
      else WaitFrom(rs, i + 1, x.progress, 0)
  }

  /** Over the first `n` polls: the last reading that moved by a point or
      more from the one before it that moved (0 until one does). */
  ghost function LastMoved(rs: seq<Reading>, n: nat): real
    requires n <= |rs|
  {
    if n == 0 then 0.0
    else
      var v := LastMoved(rs, n - 1);
      var x := rs[n - 1];
      if x.found && Abs(x.progress - v) >= 1.0 then x.progress else v
  }

  /** Over the first `n` polls: how many polls since the last move saw the
      bar within a point of the last moved value. A move resets it; a poll
      that finds no bar leaves it alone. */
  ghost function StillCount(rs: seq<Reading>, n: nat): nat
    requires n <= |rs|
  {
    if n == 0 then 0
    else
      var v := LastMoved(rs, n - 1);
      var x := rs[n - 1];
      if !x.found then StillCount(rs, n - 1)
      else if Abs(x.progress - v) < 1.0 then StillCount(rs, n - 1) + 1
      else 0
  }

  ghost predicate NoFinishBefore(rs: seq<Reading>, n: nat)
    requires n <= |rs|
  {
    forall j :: 0 <= j < n ==> !Finishes(rs[j])
  }

  /** The count stayed within the limit over every prefix up to `n`. */
  ghost predicate CountOkUpTo(rs: seq<Reading>, n: nat)
    requires n <= |rs|
  {
    forall j :: 0 <= j <= n ==> StillCount(rs, j) <= StuckLimit
  }

  /** `wait_for_progress_completion`: true exactly when the wait completes,
      starting with no progress seen and a zero stuck count. It completes
      at the first finishing poll if the count has not passed the limit by
      then, and is stuck as soon as the count passes the limit before any
      poll finished. */
  function WaitForProgress(rs: seq<Reading>): (r: WaitOutcome)
    ensures r == Completed ==> exists k :: 0 <= k < |rs| && Finishes(rs[k])
    ensures r == Stuck ==> |rs| > StuckLimit
    ensures r == Completed <==>
              exists n :: 0 <= n < |rs| && Finishes(rs[n]) && NoFinishBefore(rs, n) && CountOkUpTo(rs, n)
    ensures r == Stuck <==>
              exists m :: 0 < m <= |rs| && NoFinishBefore(rs, m) && StillCount(rs, m) > StuckLimit
  {
    WaitScan(rs, 0);
    var r := WaitFrom(rs, 0, 0.0, 0);
    if r == Completed then CompletedSawFinish(rs, 0, 0.0, 0); r
    else if r == Stuck then StuckNeedsPolls(rs, 0, 0.0, 0); r
    else r
  }

  /** The same loop, written as the source writes it. */
  method WaitForProgressLoop(rs: seq<Reading>) returns (ok: bool, outcome: WaitOutcome)
    ensures outcome == WaitForProgress(rs)
    ensures ok <==> outcome == Completed
  {
    var i := 0;
    var last := 0.0;
    var stuck := 0;
    while i < |rs|
      invariant i <= |rs|
      invariant WaitFrom(rs, i, last, stuck) == WaitForProgress(rs)
      decreases |rs| - i
    {
      var x := rs[i];
      if Finishes(x) {
        return true, Completed;
      }
      if x.found {
        if Abs(x.progress - last) < 1.0 {
          stuck := stuck + 1;
          if stuck > StuckLimit {
            return false, Stuck;
          }
        } else {
          stuck := 0;
          last := x.progress;
        }
      }
      i := i + 1;
    }
    return false, TimedOut;
  }

  /** The loop state at poll `i` is the reference reading of the first `i`
      polls, as long as none finished and the count stayed in bounds. */
  lemma {:induction false} WaitScan(rs: seq<Reading>, i: nat)
    requires i <= |rs|
    requires NoFinishBefore(rs, i) && CountOkUpTo(rs, i)
    ensures var w := WaitFrom(rs, i, LastMoved(rs, i), StillCount(rs, i));
      && (w == Completed <==>
            exists n :: i <= n < |rs| && Finishes(rs[n]) && NoFinishBefore(rs, n) && CountOkUpTo(rs, n))
      && (w == Stuck <==>
            exists m :: i < m <= |rs| && NoFinishBefore(rs, m) && StillCount(rs, m) > StuckLimit)
    decreases |rs| - i
  {
    if i < |rs| {
      var x := rs[i];
      if Finishes(x) {
        assert Finishes(rs[i]) && NoFinishBefore(rs, i) && CountOkUpTo(rs, i);
        assert forall m :: i < m <= |rs| ==> !NoFinishBefore(rs, m);
      } else if StillCount(rs, i + 1) > StuckLimit {
        assert NoFinishBefore(rs, i + 1);
        assert forall n :: i < n < |rs| ==> !CountOkUpTo(rs, n);
      } else {
        assert NoFinishBefore(rs, i + 1) && CountOkUpTo(rs, i + 1);
        WaitScan(rs, i + 1);
        assert WaitFrom(rs, i, LastMoved(rs, i), StillCount(rs, i))
            == WaitFrom(rs, i + 1, LastMoved(rs, i + 1), StillCount(rs, i + 1));
      }
    }
  }

  /** A completed wait saw a finishing poll. */
  lemma {:induction false} CompletedSawFinish(rs: seq<Reading>, i: nat, last: real, stuck: nat)
    requires i <= |rs|
    requires WaitFrom(rs, i, last, stuck) == Completed
    ensures exists k :: i <= k < |rs| && Finishes(rs[k])
    decreases |rs| - i
  {
    if !Finishes(rs[i]) {
      var x := rs[i];
      if !x.found {
        CompletedSawFinish(rs, i + 1, last, stuck);
      } else if Abs(x.progress - last) < 1.0 {
        CompletedSawFinish(rs, i + 1, last, stuck + 1);
      } else {
        CompletedSawFinish(rs, i + 1, x.progress, 0);
      }
    }
  }

  /** Declaring the bar stuck takes more than `StuckLimit` polls beyond the
      ones already counted: from a fresh start, at least eleven. */
  lemma {:induction false} StuckNeedsPolls(rs: seq<Reading>, i: nat, last: real, stuck: nat)
    requires i <= |rs|
    requires WaitFrom(rs, i, last, stuck) == Stuck
    ensures (|rs| - i) + stuck > StuckLimit
    decreases |rs| - i
  {
    var x := rs[i];
    if !x.found {
      StuckNeedsPolls(rs, i + 1, last, stuck);
    } else if Abs(x.progress - last) < 1.0 {
      if stuck + 1 <= StuckLimit {
        StuckNeedsPolls(rs, i + 1, last, stuck + 1);
      }
    } else {
      StuckNeedsPolls(rs, i + 1, x.progress, 0);
    }
  }

  /** A bar frozen below 99% within a point of `last`. */
  predicate Frozen(x: Reading, last: real) {
    x.found && x.progress < 99.0 && Abs(x.progress - last) < 1.0
  }

  /** Frozen polls raise the count by one each: they end the wait as stuck
      once the count passes the limit, and otherwise the wait runs out of
      time. The loop never holds a count above the limit. */
  lemma {:induction false} FrozenPolls(rs: seq<Reading>, i: nat, last: real, stuck: nat)
    requires i <= |rs|
    requires stuck <= StuckLimit
    requires forall k :: i <= k < |rs| ==> Frozen(rs[k], last)
    ensures WaitFrom(rs, i, last, stuck) == (if stuck + (|rs| - i) > StuckLimit then Stuck else TimedOut)
    decreases |rs| - i
  {
    if i < |rs| {
      var x := rs[i];
      assert Frozen(x, last);
      assert !Finishes(x) && x.found && Abs(x.progress - last) < 1.0;
      if stuck + 1 <= StuckLimit {
        FrozenPolls(rs, i + 1, last, stuck + 1);
        assert WaitFrom(rs, i, last, stuck) == WaitFrom(rs, i + 1, last, stuck + 1);
      }
    }
  }

  /** From a fresh start, a bar that stays at 0% is declared stuck on the
      eleventh poll and not before. */
  lemma StuckAtZero(rs: seq<Reading>)
    requires forall k :: 0 <= k < |rs| ==> Frozen(rs[k], 0.0)
    ensures WaitForProgress(rs) == Stuck <==> |rs| >= 11
    ensures |rs| < 11 ==> WaitForProgress(rs) == TimedOut
  {
    FrozenPolls(rs, 0, 0.0, 0);
  }

  // ---------------------------------------------------------------------
  // The install loop

  /** What one step of `auto_install` observes: the detected state, the
      polls of the progress wait it may run, whether each click it may try
      finds its button, and the state it detects after the last resort. */
  datatype Tick = Tick(
    state: InstallState, wait: seq<Reading>,
    finishClick: bool, closeClick: bool, installButtonClick: bool,
    accept: bool, next: bool, install: bool, cont: bool,
    stateAfter: InstallState)

  datatype StepOutcome = Continue | Succeed | Halt

  /** The fall-through part of a step: the four text clicks in priority
      order, then one more look at the state. */
  function TryActions(t: Tick): (r: StepOutcome)
    ensures r != Succeed
    ensures r == Halt <==> !t.accept && !t.next && !t.install && !t.cont && t.stateAfter == t.state
  {
    if t.accept || t.next || t.install || t.cont then Continue
    else if t.stateAfter != t.state then Continue
    else Halt
  }

  /** One pass of the `for step` body. */
  function Step(t: Tick): (r: StepOutcome)
    ensures r == Succeed <==> t.state == Finished && (t.finishClick || t.closeClick)
    ensures t.state == Installing ==> r == Continue
    ensures t.state == Error ==> r == Halt
    ensures t.state == Finished ==> r != Continue
    ensures t.state == ReadyToInstall && t.installButtonClick ==> r == Continue
    ensures t.state == Waiting || t.state == Unknown || (t.state == ReadyToInstall && !t.installButtonClick) ==>
              r != Succeed && (r == Halt <==> !t.accept && !t.next && !t.install && !t.cont && t.stateAfter == t.state)
  {
    match t.state
    case Installing =>
      var _ := WaitForProgress(t.wait);
      Continue
    case Finished =>
      if t.finishClick then Succeed
      else if t.closeClick then Succeed
      else Halt
    case Error => Halt
    case ReadyToInstall =>
      if t.installButtonClick then Continue else TryActions(t)
    case _ => TryActions(t)
  }

  datatype RunResult = RunResult(success: bool, steps: nat)

  /** `auto_install` with a step budget of `|ticks|`, where `ticks[k]` is
      what step `k` observes; the default budget of 20 steps is a list of
      20 ticks. */
  function AutoInstall(ticks: seq<Tick>): (r: RunResult)
    ensures r.steps <= |ticks|
    ensures r.success ==> r.steps > 0
    decreases |ticks|
  {
    if |ticks| == 0 then RunResult(false, 0)
    else
      match Step(ticks[0])
      case Succeed => RunResult(true, 1)
      case Halt => RunResult(false, 1)
      case Continue =>
        var rest := AutoInstall(ticks[1..]);
        RunResult(rest.success, rest.steps + 1)
  }

  /** Every step before `k` continued. */
  predicate ContinuesUpTo(ticks: seq<Tick>, k: int)
    requires k <= |ticks|
  {
    forall j :: 0 <= j < k ==> Step(ticks[j]) == Continue
  }

  /** The run ends at the first step that does not continue, or after the
      last step: it succeeds exactly when that step clicked a finish or close
      button of a finished installer. */
  lemma {:induction false} AutoInstallStops(ticks: seq<Tick>)
    ensures var r := AutoInstall(ticks);
      ContinuesUpTo(ticks, r.steps - 1)
      && (r.steps < |ticks| ==> Step(ticks[r.steps - 1]) != Continue)
      && (r.success <==> r.steps > 0 && Step(ticks[r.steps - 1]) == Succeed)
    decreases |ticks|
  {
    var r := AutoInstall(ticks);
    if |ticks| > 0 && Step(ticks[0]) == Continue {
      var rest := ticks[1..];
      AutoInstallStops(rest);
      var rr := AutoInstall(rest);
      assert r.steps == rr.steps + 1;
      forall j | 0 <= j < r.steps - 1
        ensures Step(ticks[j]) == Continue
      {
        if j > 0 {
          assert ticks[j] == rest[j - 1];
        }
      }
      if rr.steps > 0 {
        assert ticks[r.steps - 1] == rest[rr.steps - 1];
      }
    }
  }

  /** Success means the installer was seen finished and a finish or close
      click went through, after only continuing steps. */
  lemma AutoInstallSuccess(ticks: seq<Tick>)
    ensures AutoInstall(ticks).success <==>
      exists k :: 0 <= k < |ticks| && ContinuesUpTo(ticks, k)
        && ticks[k].state == Finished && (ticks[k].finishClick || ticks[k].closeClick)
  {
    var r := AutoInstall(ticks);
    AutoInstallStops(ticks);
    if r.success {
      assert ContinuesUpTo(ticks, r.steps - 1) && Step(ticks[r.steps - 1]) == Succeed;
    }
    if exists k :: 0 <= k < |ticks| && ContinuesUpTo(ticks, k)
        && ticks[k].state == Finished && (ticks[k].finishClick || ticks[k].closeClick) {
      var k :| 0 <= k < |ticks| && ContinuesUpTo(ticks, k)
        && ticks[k].state == Finished && (ticks[k].finishClick || ticks[k].closeClick);
      assert Step(ticks[k]) == Succeed;
      if r.steps - 1 < k {
        assert Step(ticks[r.steps - 1]) != Continue;
      }
    }
  }

  /** An error seen on the first step ends the run at once, unsuccessfully. */
  lemma ErrorStops(ticks: seq<Tick>)
    requires |ticks| > 0 && ticks[0].state == Error
    ensures AutoInstall(ticks) == RunResult(false, 1)
  {
  }

  /** The loop as the source writes it. */
  method AutoInstallLoop(ticks: seq<Tick>) returns (success: bool, steps: nat)
    ensures RunResult(success, steps) == AutoInstall(ticks)
  {
    var k := 0;
    while k < |ticks|
      invariant k <= |ticks|
      invariant AutoInstall(ticks) == (var rest := AutoInstall(ticks[k..]); RunResult(rest.success, rest.steps + k))
      decreases |ticks| - k
    {
      assert ticks[k..][0] == ticks[k] && ticks[k..][1..] == ticks[k + 1..];
      var outcome := Step(ticks[k]);
      if outcome == Succeed {
        return true, k + 1;
      } else if outcome == Halt {
        return false, k + 1;
      }
      k := k + 1;
    }
    return false, k;
  }
}
