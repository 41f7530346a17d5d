/** When the hold loops renew the lease: on every tick while the pause is held, and
    never again once they have ended. */
module LeaseRenewal {
  import opened Wrappers
  import opened PauseProtocol
  import opened PauseLog

  ghost predicate NoShutdown(acts: seq<Action>) {
    forall i :: 0 <= i < |acts| ==> !acts[i].LockStop?
  }

  lemma StepHolds(s: State, a: Action)
    requires !a.LockStop? && (s.g.paused ==> s.g.holdStop.Some?)
    ensures Step(s, a).g.paused ==> Step(s, a).g.holdStop.Some?
  {
    if a.Advance? {
      hide AdvanceStep;
      AdvanceKeepsFields(s, a.t, a.room);
    }
  }

  lemma AdvanceKeepsFields(s: State, t: int, room: bool)
    ensures AdvanceStep(s, t, room).g == s.g
  {
  }

  /** Without a shutdown a paused daemon holds a stop channel. */
  lemma {:induction false} PausedIsHeld(hasFile: bool, acts: seq<Action>)
    requires NoShutdown(acts)
    ensures Run(hasFile, acts).g.paused ==> Run(hasFile, acts).g.holdStop.Some?
  {
    hide Step;
    if acts != [] {
      PausedIsHeld(hasFile, acts[..|acts| - 1]);
      StepHolds(Run(hasFile, acts[..|acts| - 1]), acts[|acts| - 1]);
    }
  }

  /** The loop of the channel in the field is running once no thread has still to
      start it. */
  lemma HeldLoopRuns(s: State, h: HoldLoop)
    requires Inv(s) && h in s.accepted && s.g.holdStop == Some(h.stop)
    requires forall t :: PcOf(s, t) != Accepted(h) && PcOf(s, t) != Written(h)
    ensures h in s.running
  {
    assert Owned(s, h);
    assert OwnsStop(s, Field, h.stop);
    assert !OwnsStop(s, Nobody, h.stop);
    var o :| OwnsDone(s, o, h);
  }

  lemma OnlyReaderStarts(s: State, h: HoldLoop)
    requires ReaderInv(s) && PcOf(s, 0) == Idle
    ensures forall t :: PcOf(s, t) != Accepted(h) && PcOf(s, t) != Written(h)
  {
    hide Announced, Accepts, Open, Subsequence, IdsOf, Handled, ExpectedFile, Pending;
  }

  /** A pause in force is renewed: with the reader idle, the last control message a
      pause and no shutdown so far, a tick of the loop that holds the pause renews the
      lease, once, with the ids of the pause that opened the stretch. */
  lemma TickRenews(hasFile: bool, acts: seq<Action>) returns (h: HoldLoop)
    requires SingleReader(acts) && NoShutdown(acts) && PcOf(Run(hasFile, acts), 0) == Idle
    requires LastControlIsPause(Run(hasFile, acts).log)
    ensures h in Run(hasFile, acts).accepted
    ensures exists i: nat :: IsStretchStart(Run(hasFile, acts).log, i) && h.ids == Run(hasFile, acts).log[i].ids
    ensures Run(hasFile, acts + [Tick(h)]).renewals == Run(hasFile, acts).renewals + [h]
  {
    hide Run, Inv, ReaderInv, LastControlIsPause, Open, IsStretchStart, Subsequence;
    var s := Run(hasFile, acts);
    RunKeepsInv(hasFile, acts);
    RunKeepsReader(hasFile, acts);
    PausedIsHeld(hasFile, acts);
    LogDecidesState(hasFile, acts);
    OpenIsStretchStart(s.log);
    h := LatestHolds(s);
    OnlyReaderStarts(s, h);
    HeldLoopRuns(s, h);
    RunSnoc(hasFile, acts, Tick(h));
    TicksRenewRunning(s, Tick(h));
    var i: nat := Open(s.log).value;
    assert IsStretchStart(s.log, i);
  }

  lemma LatestHolds(s: State) returns (h: HoldLoop)
    requires Inv(s) && s.g.paused && s.g.holdStop.Some?
    ensures h in s.accepted && s.g.holdStop == Some(h.stop) && h.ids == s.g.ids
  {
    hide Owned;
    h := s.accepted[|s.accepted| - 1];
  }

  lemma RunSnoc(hasFile: bool, acts: seq<Action>, a: Action)
    ensures Run(hasFile, acts + [a]) == Step(Run(hasFile, acts), a)
  {
    hide Step;
    assert (acts + [a])[..|acts|] == acts;
  }

  // -------------------------------------------------------------- the end of a loop

  lemma GoneIsNotRunning(s: State, h: HoldLoop)
    requires Inv(s) && h in s.accepted && h.done in s.closed
    ensures h !in s.running
  {
    assert Owned(s, h) && OwnsDone(s, Gone, h);
    assert h in s.running ==> OwnsDone(s, Loop, h);
  }

  lemma ClosedAndAcceptedStay(s: State, a: Action)
    ensures s.closed <= Step(s, a).closed && s.accepted <= Step(s, a).accepted
  {
    match a
    case Receive(_, _) =>
    case LockPause(_) =>
    case LockStop(_) =>
    case Advance(t, room) => AdvanceOnlyCloses(s, t, room);
    case Tick(_) =>
    case Exit(_) =>
  }

  lemma AdvanceOnlyCloses(s: State, t: int, room: bool)
    ensures s.closed <= AdvanceStep(s, t, room).closed && s.accepted == AdvanceStep(s, t, room).accepted
    ensures AdvanceStep(s, t, room).renewals == s.renewals
  {
    hide FileBody;
    match PcOf(s, t)
    case Idle =>
    case PauseSeen(_) =>
    case Accepted(_) =>
    case Written(_) =>
    case Spawned(_) =>
    case StopTaken(_, _) =>
    case StopClosed(_) =>
    case FileRemoved(_) =>
    case Draining(_) =>
  }

  lemma TicksRenewRunning(s: State, a: Action)
    ensures Step(s, a).renewals == if a.Tick? && a.h in s.running then s.renewals + [a.h] else s.renewals
  {
  }

  /** Once a done channel is closed, no action renews for its loop again. */
  lemma {:induction false} GoneForGood(hasFile: bool, acts: seq<Action>, more: seq<Action>, h: HoldLoop)
    requires h in Run(hasFile, acts).accepted && h.done in Run(hasFile, acts).closed
    ensures h in Run(hasFile, acts + more).accepted && h.done in Run(hasFile, acts + more).closed
    ensures multiset(Run(hasFile, acts + more).renewals)[h] == multiset(Run(hasFile, acts).renewals)[h]
    decreases |more|
  {
    hide Step, Run;
    if more == [] {
      assert acts + more == acts;
    } else {
      var init, a := more[..|more| - 1], more[|more| - 1];
      assert acts + more == acts + init + [a];
      RunSnoc(hasFile, acts + init, a);
      GoneForGood(hasFile, acts, init, h);
      var s := Run(hasFile, acts + init);
      RunKeepsInv(hasFile, acts + init);
      GoneIsNotRunning(s, h);
      ClosedAndAcceptedStay(s, a);
      TicksRenewRunning(s, a);
      hide Inv;
    }
  }

  /** A running loop whose stop channel is closed may exit: that closes its done
      channel and ends it, and whatever happens next it renews no more. */
  lemma ExitEndsLoop(hasFile: bool, acts: seq<Action>, h: HoldLoop, more: seq<Action>)
    requires h in Run(hasFile, acts).running && h.stop in Run(hasFile, acts).closed
    ensures var r := Run(hasFile, acts + [Exit(h)]);
            && h.done !in Run(hasFile, acts).closed && h.done in r.closed && h !in r.running
            && r.renewals == Run(hasFile, acts).renewals
            && multiset(Run(hasFile, acts + [Exit(h)] + more).renewals)[h] == multiset(r.renewals)[h]
  {
    hide Run;
    var s := Run(hasFile, acts);
    RunSnoc(hasFile, acts, Exit(h));
    RunKeepsInv(hasFile, acts);
    ExitKeepsOwner(s, h, h);
    GoneForGood(hasFile, acts + [Exit(h)], more, h);
  }
}
