/** LoopTaskHolder: the work loop's task, its pause gate and its drain signal,
    shared by any number of threads.

    Every method is one critical section, except that the two waiting calls have
    more steps: the section that reads a channel, then the return, either because
    the channel was closed or because the caller's context ended. */
module LoopHolder {
  import opened Wrappers

  datatype Task = Task(id: string, session: string, issue: string)

  datatype Call = Completion | Resumption

  /** Where a thread is in `WaitForCompletion` or `WaitWhilePaused`; `since` is the
      number of actions that had happened when the call began. */
  datatype Waiter =
    | Blocked(call: Call, ch: nat, since: nat)
    | ReturnedNil(call: Call, since: nat)
    | ReturnedErr(call: Call, since: nat)

  const DRAIN_CH: nat := 0

  datatype State = State(
    current: Option<Task>,
    done: Option<nat>,
    renewFn: Option<int>,
    pausedCh: Option<nat>,
    nextChan: nat,
    closed: set<nat>,
    panicked: bool,            // a closed channel was closed again
    waiters: map<int, Waiter>,
    clock: nat,                // history: actions so far
    taskOf: map<nat, Task>)    // history: the task each done channel was made for

  datatype Action =
    | Set(task: Task, renewFn: Option<int>)   // the closure may be nil
    | Clear
    | SetPaused(paused: bool)
    | SignalDrain
    | Begin(t: int, call: Call)
    | Wake(t: int)
    | Cancel(t: int)

  function Init(): State {
    State(None, None, None, None, DRAIN_CH + 1, {}, false, map[], 0, map[])
  }

  function Close(s: State, c: nat): State {
    if c in s.closed then s.(panicked := true) else s.(closed := s.closed + {c})
  }

  function IsBlocked(s: State, t: int): bool {
    t in s.waiters && s.waiters[t].Blocked?
  }

  function BeginStep(s: State, t: int, call: Call): State {
    var ch := if call == Completion then s.done else s.pausedCh;
    s.(waiters := s.waiters[t := if ch.None? then ReturnedNil(call, s.clock) else Blocked(call, ch.value, s.clock)])
  }

  function Effect(s: State, a: Action): State {
    match a
    case Set(task, fn) =>
      s.(current := Some(task), renewFn := fn, done := Some(s.nextChan), nextChan := s.nextChan + 1,
         taskOf := s.taskOf[s.nextChan := task])
    case Clear =>
      var r := if s.done.Some? then Close(s, s.done.value) else s;
      r.(current := None, renewFn := None, done := None)
    case SetPaused(paused) =>
      if paused then
        if s.pausedCh.None? then s.(pausedCh := Some(s.nextChan), nextChan := s.nextChan + 1) else s
      else
        if s.pausedCh.Some? then Close(s, s.pausedCh.value).(pausedCh := None) else s
    case SignalDrain => if DRAIN_CH in s.closed then s else Close(s, DRAIN_CH)
    case Begin(t, call) => if IsBlocked(s, t) then s else BeginStep(s, t, call)
    case Wake(t) =>
      if IsBlocked(s, t) && s.waiters[t].ch in s.closed
      then s.(waiters := s.waiters[t := ReturnedNil(s.waiters[t].call, s.waiters[t].since)]) else s
    case Cancel(t) =>
      if IsBlocked(s, t)
      then s.(waiters := s.waiters[t := ReturnedErr(s.waiters[t].call, s.waiters[t].since)]) else s
  }

  function Step(s: State, a: Action): State {
    Effect(s, a).(clock := s.clock + 1)
  }

  function Run(acts: seq<Action>): State {
    if acts == [] then Init() else Step(Run(acts[..|acts| - 1]), acts[|acts| - 1])
  }

  // ------------------------------------------------------------ channel safety

  ghost predicate Inv(s: State) {
    && !s.panicked
    && DRAIN_CH < s.nextChan
    && (forall c :: c in s.closed ==> c < s.nextChan)
    && (forall c :: c in s.taskOf ==> DRAIN_CH < c < s.nextChan)
    && (s.done.Some? <==> s.current.Some?) && (s.renewFn.Some? ==> s.current.Some?)
    && (s.done.Some? ==> s.done.value in s.taskOf && s.done.value !in s.closed
                         && s.current == Some(s.taskOf[s.done.value]))
    && (s.pausedCh.Some? ==> DRAIN_CH < s.pausedCh.value < s.nextChan && s.pausedCh.value !in s.closed
                             && s.pausedCh.value !in s.taskOf)
    && (forall t :: t in s.waiters && s.waiters[t].Blocked? ==> WaiterOk(s, s.waiters[t]))
  }

  ghost predicate WaiterOk(s: State, w: Waiter)
    requires w.Blocked?
  {
    && DRAIN_CH < w.ch < s.nextChan
    && (w.call == Completion <==> w.ch in s.taskOf)
  }

  lemma TaskKeepsInv(s: State, a: Action)
    requires Inv(s) && (a.Set? || a.Clear?)
    ensures Inv(Step(s, a))
  {
  }

  lemma GateKeepsInv(s: State, a: Action)
    requires Inv(s) && (a.SetPaused? || a.SignalDrain?)
    ensures Inv(Step(s, a))
  {
    hide IsBlocked;
  }

  lemma WaitKeepsInv(s: State, a: Action)
    requires Inv(s) && (a.Begin? || a.Wake? || a.Cancel?)
    ensures Inv(Step(s, a))
  {
  }

  lemma {:induction false} RunKeepsInv(acts: seq<Action>)
    ensures Inv(Run(acts)) && Run(acts).clock == |acts|
  {
    if acts != [] {
      RunKeepsInv(acts[..|acts| - 1]);
      var s, a := Run(acts[..|acts| - 1]), acts[|acts| - 1];
      if a.Set? || a.Clear? {
        TaskKeepsInv(s, a);
      } else if a.SetPaused? || a.SignalDrain? {
        GateKeepsInv(s, a);
      } else {
        WaitKeepsInv(s, a);
      }
    }
  }

  /** What is a panic: a Clear that closes a done channel, or a resumption that closes a
      pause channel, when that channel is closed already. Nothing takes it back. */
  lemma PanicsIffClosedAgain(s: State, a: Action)
    ensures Step(s, a).panicked
            <==> || s.panicked
                 || (a == Clear && s.done.Some? && s.done.value in s.closed)
                 || (a == SetPaused(false) && s.pausedCh.Some? && s.pausedCh.value in s.closed)
  {
    hide IsBlocked;
  }

  /** No channel is closed twice, whatever the interleaving. */
  lemma NoChannelClosedTwice(acts: seq<Action>)
    ensures !Run(acts).panicked
  {
    RunKeepsInv(acts);
  }

  /** A done channel is closed only by a Clear that ends the very task it was made
      for. */
  lemma DoneClosedByOwnClear(acts: seq<Action>, a: Action, c: nat)
    requires c in Run(acts).taskOf && c !in Run(acts).closed && c in Step(Run(acts), a).closed
    ensures a == Clear && Run(acts).done == Some(c) && Run(acts).current == Some(Run(acts).taskOf[c])
    ensures Step(Run(acts), a).current == None
  {
    RunKeepsInv(acts);
  }

  // ---------------------------------------------------------- waiting is honest

  /** The condition a waiting call promises on returning nil. */
  ghost predicate Released(s: State, call: Call) {
    match call
    case Completion => s.current.None?
    case Resumption => s.pausedCh.None?
  }

  /** The condition held at some instant between action `since` and now. */
  ghost predicate ReleasedSince(acts: seq<Action>, since: nat, call: Call) {
    exists m :: since <= m <= |acts| && Released(Run(acts[..m]), call)
  }

  lemma ReleasedStays(acts: seq<Action>, a: Action, since: nat, call: Call)
    requires ReleasedSince(acts, since, call)
    ensures ReleasedSince(acts + [a], since, call)
  {
    var m :| since <= m <= |acts| && Released(Run(acts[..m]), call);
    assert (acts + [a])[..m] == acts[..m];
  }

  lemma ReleasedNow(acts: seq<Action>, since: nat, call: Call)
    requires since <= |acts| && Released(Run(acts), call)
    ensures ReleasedSince(acts, since, call)
  {
    assert acts[..|acts|] == acts;
  }

  ghost predicate Honest(acts: seq<Action>, s: State, w: Waiter) {
    && w.since <= |acts|
    && (w.Blocked? && w.ch in s.closed ==> ReleasedSince(acts, w.since, w.call))
    && (w.ReturnedNil? ==> ReleasedSince(acts, w.since, w.call))
  }

  /** The step that closes a waiter's channel makes true what its call promises. */
  lemma ClosingReleases(s: State, a: Action, w: Waiter)
    requires Inv(s) && w.Blocked? && WaiterOk(s, w)
    requires w.ch !in s.closed && w.ch in Step(s, a).closed
    ensures Released(Step(s, a), w.call)
  {
  }

  lemma StepIsHonest(acts: seq<Action>, a: Action, t: int)
    requires t in Run(acts + [a]).waiters
    requires t in Run(acts).waiters ==> Honest(acts, Run(acts), Run(acts).waiters[t])
    ensures Honest(acts + [a], Run(acts + [a]), Run(acts + [a]).waiters[t])
  {
    hide Released, ReleasedSince;
    var s, r := Run(acts), Run(acts + [a]);
    RunKeepsInv(acts);
    assert (acts + [a])[..|acts|] == acts && r == Step(s, a);
    var w := r.waiters[t];
    if a == Begin(t, w.call) && !IsBlocked(s, t) {
      if w.ReturnedNil? {
        ReleasedNow(acts + [a], w.since, w.call);
      }
    } else {
      assert t in s.waiters && s.waiters[t].since == w.since && s.waiters[t].call == w.call;
      if ReleasedSince(acts, w.since, w.call) {
        ReleasedStays(acts, a, w.since, w.call);
      } else if w.Blocked? && w.ch in r.closed {
        assert WaiterOk(s, s.waiters[t]);
        ClosingReleases(s, a, s.waiters[t]);
        ReleasedNow(acts + [a], w.since, w.call);
      }
    }
  }

  lemma {:induction false} AllHonest(acts: seq<Action>)
    ensures forall t :: t in Run(acts).waiters ==> Honest(acts, Run(acts), Run(acts).waiters[t])
  {
    if acts != [] {
      var init, a := acts[..|acts| - 1], acts[|acts| - 1];
      AllHonest(init);
      assert acts == init + [a];
      forall t | t in Run(acts).waiters ensures Honest(acts, Run(acts), Run(acts).waiters[t]) {
        StepIsHonest(init, a, t);
      }
    }
  }

  /** A waiting call that returned nil saw, at some instant of the call, no current
      task (`WaitForCompletion`) or no pause (`WaitWhilePaused`). With the history
      that ends at the return, the instant lies between the call and the return. */
  lemma NilMeansReleased(acts: seq<Action>, t: int)
    requires t in Run(acts).waiters && Run(acts).waiters[t].ReturnedNil?
    ensures var w := Run(acts).waiters[t];
            exists m :: w.since <= m <= |acts| && Released(Run(acts[..m]), w.call)
  {
    AllHonest(acts);
    assert Honest(acts, Run(acts), Run(acts).waiters[t]);
  }

  // ------------------------------------------------------------ how a wait ends

  /** A blocked wait whose context ends returns an error, and one whose channel is
      closed returns nil; both at that very action. */
  lemma WaitsReturn(s: State, t: int)
    requires IsBlocked(s, t)
    ensures var w := s.waiters[t];
            && Step(s, Cancel(t)).waiters == s.waiters[t := ReturnedErr(w.call, w.since)]
            && Step(s, Wake(t)).waiters
               == if w.ch in s.closed then s.waiters[t := ReturnedNil(w.call, w.since)] else s.waiters
  {
  }

  /** Thread `t` had its context ended after its call began. */
  ghost predicate CancelledSince(acts: seq<Action>, t: int, since: nat) {
    exists i :: since < i < |acts| && acts[i] == Cancel(t)
  }

  lemma CancelledStep(init: seq<Action>, a: Action, t: int, since: nat)
    ensures CancelledSince(init + [a], t, since) <==> CancelledSince(init, t, since) || (a == Cancel(t) && since < |init|)
  {
    var acts := init + [a];
    assert acts[|init|] == a && forall i :: 0 <= i < |init| ==> acts[i] == init[i];
  }

  /** An action changes the wait of thread `t` only as its own Begin, Wake or Cancel. */
  lemma WaiterStep(s: State, a: Action, t: int)
    requires t in Step(s, a).waiters
    ensures var w := Step(s, a).waiters[t];
            || (t in s.waiters && w == s.waiters[t])
            || (a.Begin? && a.t == t && w.since == s.clock && !w.ReturnedErr?)
            || (a == Wake(t) && t in s.waiters && w.ReturnedNil? && s.waiters[t].since == w.since)
            || (a == Cancel(t) && IsBlocked(s, t) && w.ReturnedErr? && s.waiters[t].since == w.since)
  {
  }

  /** A wait returns an error only because its context ended during the call. */
  lemma {:induction false} ErrorMeansCancelled(acts: seq<Action>, t: int)
    requires t in Run(acts).waiters
    ensures Run(acts).waiters[t].since < |acts|
    ensures Run(acts).waiters[t].ReturnedErr? ==> CancelledSince(acts, t, Run(acts).waiters[t].since)
  {
    hide Step, CancelledSince;
    if acts != [] {
      var init, a := acts[..|acts| - 1], acts[|acts| - 1];
      assert acts == init + [a];
      var s := Run(init);
      RunKeepsInv(init);
      WaiterStep(s, a, t);
      CancelledStep(init, a, t, Run(acts).waiters[t].since);
      if t in s.waiters {
        ErrorMeansCancelled(init, t);
      }
    }
  }

  // --------------------------------------------------------------- stranding

  /** The channel can no longer be closed: it is open and not in the field. */
  predicate Orphaned(s: State, c: nat) {
    c in s.taskOf && c !in s.closed && s.done != Some(c)
  }

  /** Some Set ran while `c` was the live done channel. */
  ghost predicate Replaced(acts: seq<Action>, c: nat) {
    exists m :: 0 <= m < |acts| && acts[m].Set? && Run(acts[..m]).done == Some(c)
  }

  lemma ReplacedStep(acts: seq<Action>, a: Action, c: nat)
    ensures Replaced(acts + [a], c) <==> Replaced(acts, c) || (a.Set? && Run(acts).done == Some(c))
  {
    var longer := acts + [a];
    assert forall m :: 0 <= m <= |acts| ==> longer[..m] == acts[..m];
    assert longer[..|acts|] == acts && acts[..|acts|] == acts;
    if Replaced(acts, c) {
      var m :| 0 <= m < |acts| && acts[m].Set? && Run(acts[..m]).done == Some(c);
      assert longer[m].Set?;
    }
    if a.Set? && Run(acts).done == Some(c) {
      assert longer[|acts|].Set?;
    }
  }

  lemma OrphanedStep(s: State, a: Action, c: nat)
    requires Inv(s)
    ensures Orphaned(Step(s, a), c) <==> Orphaned(s, c) || (a.Set? && s.done == Some(c))
  {
  }

  /** Exactly when a done channel is lost to its waiters: some Set replaced the
      task it was made for before a Clear. */
  lemma {:induction false} OrphanedIffReplaced(acts: seq<Action>, c: nat)
    ensures Orphaned(Run(acts), c) <==> Replaced(acts, c)
  {
    hide Replaced, Step, Inv;
    if acts == [] {
      NothingReplaced(c);
    } else {
      var init, a := acts[..|acts| - 1], acts[|acts| - 1];
      OrphanedIffReplaced(init, c);
      ReplacedStep(init, a, c);
      RunKeepsInv(init);
      OrphanedStep(Run(init), a, c);
      assert acts == init + [a];
    }
  }

  lemma NothingReplaced(c: nat)
    ensures !Replaced([], c)
  {
  }

  /** The documented discipline: Set only when no task is current. */
  ghost predicate Disciplined(acts: seq<Action>) {
    forall m :: 0 <= m < |acts| && acts[m].Set? ==> Run(acts[..m]).current.None?
  }

  /** Under the discipline no waiter is stranded: a blocked completion wait is on
      the channel of the current task, or may return at once. */
  lemma NoWaiterStranded(acts: seq<Action>, t: int)
    requires Disciplined(acts) && IsBlocked(Run(acts), t) && Run(acts).waiters[t].call == Completion
    ensures var s := Run(acts); var ch := s.waiters[t].ch;
            && ch in s.taskOf
            && (ch in s.closed || (s.done == Some(ch) && s.current == Some(s.taskOf[ch])))
            && (s.current != Some(s.taskOf[ch]) ==> Step(s, Wake(t)).waiters[t].ReturnedNil?)
  {
    RunKeepsInv(acts);
    var s := Run(acts);
    var ch := s.waiters[t].ch;
    assert WaiterOk(s, s.waiters[t]);
    OrphanedIffReplaced(acts, ch);
    if m :| 0 <= m < |acts| && acts[m].Set? && Run(acts[..m]).done == Some(ch) {
      RunKeepsInv(acts[..m]);
    }
  }

  /** A waiter on an orphaned channel is left behind for good: whatever happens
      next, it stays blocked there until its own context ends. */
  lemma {:induction false} OrphanBlocksForGood(acts: seq<Action>, more: seq<Action>, t: int)
    requires IsBlocked(Run(acts), t) && Orphaned(Run(acts), Run(acts).waiters[t].ch)
    requires Cancel(t) !in more
    ensures IsBlocked(Run(acts + more), t) && Run(acts + more).waiters[t] == Run(acts).waiters[t]
    ensures Orphaned(Run(acts + more), Run(acts).waiters[t].ch)
    decreases |more|
  {
    if more == [] {
      assert acts + more == acts;
    } else {
      var init, a := more[..|more| - 1], more[|more| - 1];
      assert acts + more == acts + init + [a] && a in more;
      OrphanBlocksForGood(acts, init, t);
      RunAppend(acts + init, a);
      RunKeepsInv(acts + init);
      OrphanBlocksOnce(Run(acts + init), a, t);
    }
  }

  lemma OrphanBlocksOnce(s: State, a: Action, t: int)
    requires Inv(s) && IsBlocked(s, t) && Orphaned(s, s.waiters[t].ch) && a != Cancel(t)
    ensures IsBlocked(Step(s, a), t) && Step(s, a).waiters[t] == s.waiters[t]
    ensures Orphaned(Step(s, a), s.waiters[t].ch)
  {
    OrphanedStep(s, a, s.waiters[t].ch);
    hide Inv;
  }

  /** Without the discipline a waiter is left behind by the very Clear that should
      wake it, and for good. */
  lemma SetOverTaskStrands(a: Task, b: Task, t: int, more: seq<Action>)
    requires Cancel(t) !in more
    ensures var acts := [Set(a, None), Begin(t, Completion), Set(b, None), Clear];
            Run(acts).current.None? && IsBlocked(Run(acts), t) && IsBlocked(Run(acts + more), t)
  {
    var one, two := [Set(a, None)], [Set(a, None), Begin(t, Completion)];
    var three, four := two + [Set(b, None)], two + [Set(b, None)] + [Clear];
    assert one == [] + [Set(a, None)] && two == one + [Begin(t, Completion)];
    RunAppend([], Set(a, None));
    RunAppend(one, Begin(t, Completion));
    RunAppend(two, Set(b, None));
    RunAppend(three, Clear);
    assert Run(two).waiters == map[t := Blocked(Completion, 1, 1)] && Run(two).closed == {};
    assert four == [Set(a, None), Begin(t, Completion), Set(b, None), Clear];
    OrphanBlocksForGood(four, more, t);
  }

  /** The wait can return nil in some continuation without its context ending. */
  ghost predicate CanComplete(acts: seq<Action>, t: int) {
    exists more :: Cancel(t) !in more && t in Run(acts + more).waiters && Run(acts + more).waiters[t].ReturnedNil?
  }

  /** Exactly when a blocked completion wait is left behind: some Set replaced the
      task it waits for before a Clear. */
  lemma CompletesIffNotReplaced(acts: seq<Action>, t: int)
    requires IsBlocked(Run(acts), t) && Run(acts).waiters[t].call == Completion
    ensures CanComplete(acts, t) <==> !Replaced(acts, Run(acts).waiters[t].ch)
  {
    var s := Run(acts);
    var ch := s.waiters[t].ch;
    RunKeepsInv(acts);
    assert WaiterOk(s, s.waiters[t]);
    OrphanedIffReplaced(acts, ch);
    if Orphaned(s, ch) {
      forall more | Cancel(t) !in more ensures IsBlocked(Run(acts + more), t) {
        OrphanBlocksForGood(acts, more, t);
      }
    } else {
      ClearThenWake(acts, t);
    }
  }

  lemma ClearThenWake(acts: seq<Action>, t: int)
    requires IsBlocked(Run(acts), t) && Inv(Run(acts))
    requires Run(acts).waiters[t].ch in Run(acts).closed || Run(acts).done == Some(Run(acts).waiters[t].ch)
    ensures CanComplete(acts, t)
  {
    var more := [Clear, Wake(t)];
    RunAppend(acts, Clear);
    RunAppend(acts + [Clear], Wake(t));
    assert acts + more == acts + [Clear] + [Wake(t)];
    assert Cancel(t) !in more;
  }

  // ------------------------------------------------- the pause gate never strands

  /** Every blocked resumption wait is on the live pause channel, or may return. */
  ghost predicate GateLive(s: State) {
    forall t :: IsBlocked(s, t) && s.waiters[t].call == Resumption ==>
      s.waiters[t].ch in s.closed || s.pausedCh == Some(s.waiters[t].ch)
  }

  lemma GateStaysLive(s: State, a: Action)
    requires Inv(s) && GateLive(s)
    ensures GateLive(Step(s, a))
  {
  }

  lemma {:induction false} GateIsLive(acts: seq<Action>)
    ensures GateLive(Run(acts))
  {
    hide GateLive, Step;
    if acts == [] {
      NoWaiters();
    } else {
      GateIsLive(acts[..|acts| - 1]);
      RunKeepsInv(acts[..|acts| - 1]);
      GateStaysLive(Run(acts[..|acts| - 1]), acts[|acts| - 1]);
    }
  }

  lemma NoWaiters()
    ensures GateLive(Run([]))
  {
  }

  /** With no discipline at all, a blocked `WaitWhilePaused` is on the channel of the
      pause in force, or may return at once: no resume leaves it behind. */
  lemma NoResumptionStranded(acts: seq<Action>, t: int)
    requires IsBlocked(Run(acts), t) && Run(acts).waiters[t].call == Resumption
    ensures var s := Run(acts); var ch := s.waiters[t].ch;
            && (ch in s.closed || s.pausedCh == Some(ch))
            && (s.pausedCh.None? ==> Step(s, Wake(t)).waiters[t].ReturnedNil?)
  {
    GateIsLive(acts);
  }

  lemma RunAppend(acts: seq<Action>, a: Action)
    ensures Run(acts + [a]) == Step(Run(acts), a)
  {
    assert (acts + [a])[..|acts|] == acts;
  }

  // ------------------------------------------------------ the task and its closure

  predicate IsTaskCall(a: Action) {
    a.Set? || a.Clear?
  }

  /** Action `i` is the last Set or Clear of the history. */
  ghost predicate LastTaskCall(acts: seq<Action>, i: nat) {
    i < |acts| && IsTaskCall(acts[i]) && forall j :: i < j < |acts| ==> !IsTaskCall(acts[j])
  }

  ghost predicate NoTaskCall(acts: seq<Action>) {
    forall i :: 0 <= i < |acts| ==> !IsTaskCall(acts[i])
  }

  lemma TaskStep(s: State, a: Action)
    ensures Step(s, a).current == if a.Set? then Some(a.task) else if a.Clear? then None else s.current
    ensures Step(s, a).renewFn == if a.Set? then a.renewFn else if a.Clear? then None else s.renewFn
  {
  }

  lemma LastTaskCallStep(init: seq<Action>, a: Action, i: nat)
    ensures LastTaskCall(init + [a], i) <==> if IsTaskCall(a) then i == |init| else LastTaskCall(init, i)
  {
    var acts := init + [a];
    assert acts[|init|] == a && forall j :: 0 <= j < |init| ==> acts[j] == init[j];
  }

  /** Task and closure are those of the last Set, unless a Clear came after it. */
  lemma {:induction false} TaskByLastCall(acts: seq<Action>)
    ensures forall i: nat :: LastTaskCall(acts, i) ==>
              && Run(acts).current == (if acts[i].Set? then Some(acts[i].task) else None)
              && Run(acts).renewFn == if acts[i].Set? then acts[i].renewFn else None
    ensures NoTaskCall(acts) ==> Run(acts).current == None && Run(acts).renewFn == None
  {
    hide Step;
    if acts != [] {
      var init, a := acts[..|acts| - 1], acts[|acts| - 1];
      assert acts == init + [a];
      TaskByLastCall(init);
      TaskStep(Run(init), a);
      forall i: nat | LastTaskCall(acts, i) ensures if IsTaskCall(a) then i == |init| else LastTaskCall(init, i) {
        LastTaskCallStep(init, a, i);
      }
    }
  }

  // -------------------------------------------------- the gate and the drain

  /** The last SetPaused of the history asked for a pause. */
  ghost predicate LastTogglePauses(acts: seq<Action>) {
    exists i :: 0 <= i < |acts| && acts[i] == SetPaused(true) && forall j :: i < j < |acts| ==> !acts[j].SetPaused?
  }

  lemma ToggleStep(init: seq<Action>, a: Action)
    ensures LastTogglePauses(init + [a]) <==> if a.SetPaused? then a.paused else LastTogglePauses(init)
  {
    var acts := init + [a];
    assert acts[|init|] == a && forall i :: 0 <= i < |init| ==> acts[i] == init[i];
    if !a.SetPaused? && LastTogglePauses(init) {
      var i :| 0 <= i < |init| && init[i] == SetPaused(true) && forall j :: i < j < |init| ==> !init[j].SetPaused?;
      assert acts[i] == SetPaused(true);
    }
  }

  lemma GateStep(s: State, a: Action)
    ensures Step(s, a).pausedCh.Some? <==> if a.SetPaused? then a.paused else s.pausedCh.Some?
  {
  }

  /** Paused exactly when the last SetPaused asked for a pause. */
  lemma {:induction false} PausedByLastToggle(acts: seq<Action>)
    ensures Run(acts).pausedCh.Some? <==> LastTogglePauses(acts)
  {
    hide LastTogglePauses, Step;
    if acts == [] {
      NoToggle();
    } else {
      var init, a := acts[..|acts| - 1], acts[|acts| - 1];
      PausedByLastToggle(init);
      assert acts == init + [a];
      ToggleStep(init, a);
      GateStep(Run(init), a);
    }
  }

  lemma NoToggle()
    ensures !LastTogglePauses([])
  {
  }

  /** The drain signal is seen exactly after some SignalDrain, and stays. */
  lemma {:induction false} DrainIsSticky(acts: seq<Action>)
    ensures DRAIN_CH in Run(acts).closed <==> SignalDrain in acts
  {
    hide WaiterOk;
    if acts != [] {
      var init, a := acts[..|acts| - 1], acts[|acts| - 1];
      DrainIsSticky(init);
      RunKeepsInv(init);
      assert acts == init + [a];
    }
  }

  // ------------------------------------------------------------- the object

  class LoopTaskHolder {
    var current: Option<Task>
    var done: Option<nat>
    var renewFn: Option<int>
    var pausedCh: Option<nat>
    var nextChan: nat
    var closed: set<nat>
    ghost var acts: seq<Action>

    ghost predicate Valid()
      reads this
    {
      var s := Run(acts);
      && current == s.current && done == s.done && renewFn == s.renewFn && pausedCh == s.pausedCh
      && nextChan == s.nextChan && closed == s.closed
    }

    constructor ()
      ensures Valid() && acts == []
    {
      current, done, renewFn, pausedCh := None, None, None, None;
      nextChan, closed := DRAIN_CH + 1, {};
      acts := [];
    }

    ghost method Take(a: Action)
      modifies `acts
      ensures acts == old(acts) + [a] && Run(acts) == Step(Run(old(acts)), a)
    {
      acts := acts + [a];
      assert acts[..|acts| - 1] == old(acts);
    }

    /** Closing a closed channel would panic. */
    method CloseChan(c: nat)
      requires c !in closed
      modifies `closed
      ensures closed == old(closed) + {c}
    {
      closed := closed + {c};
    }

    method Set(task: Task, fn: Option<int>)
      requires Valid()
      modifies this
      ensures Valid() && acts == old(acts) + [Action.Set(task, fn)] && current == Some(task)
    {
      current, renewFn := Some(task), fn;
      done, nextChan := Some(nextChan), nextChan + 1;
      Take(Action.Set(task, fn));
    }

    method Clear()
      requires Valid()
      modifies this
      ensures Valid() && acts == old(acts) + [Action.Clear] && current == None && done == None
      ensures old(done).Some? ==> old(done).value in closed
    {
      RunKeepsInv(acts);
      Take(Action.Clear);
      current, renewFn := None, None;
      if done.Some? {
        CloseChan(done.value);
        done := None;
      }
    }

    /** The task of the last Set, if no Clear followed. */
    method CurrentTask() returns (task: Option<Task>)
      requires Valid()
      ensures forall i: nat :: LastTaskCall(acts, i) ==> task == if acts[i].Set? then Some(acts[i].task) else None
      ensures NoTaskCall(acts) ==> task == None
    {
      TaskByLastCall(acts);
      task := current;
    }

    /** The closure to call: that of the last Set, which may be nil, if no Clear
        followed. */
    method Renew() returns (fn: Option<int>)
      requires Valid()
      ensures forall i: nat :: LastTaskCall(acts, i) ==> fn == if acts[i].Set? then acts[i].renewFn else None
      ensures NoTaskCall(acts) ==> fn == None
    {
      TaskByLastCall(acts);
      fn := renewFn;
    }

    method SignalDrain()
      requires Valid()
      modifies this
      ensures Valid() && acts == old(acts) + [Action.SignalDrain] && DRAIN_CH in closed
    {
      Take(Action.SignalDrain);
      if DRAIN_CH !in closed {
        CloseChan(DRAIN_CH);
      }
    }

    method DrainSignaled() returns (b: bool)
      requires Valid()
      ensures b <==> Action.SignalDrain in acts
    {
      DrainIsSticky(acts);
      b := DRAIN_CH in closed;
    }

    method SetPaused(paused: bool)
      requires Valid()
      modifies this
      ensures Valid() && acts == old(acts) + [Action.SetPaused(paused)]
      ensures paused && old(pausedCh).Some? ==> pausedCh == old(pausedCh)
    {
      RunKeepsInv(acts);
      Take(Action.SetPaused(paused));
      if paused {
        if pausedCh.None? {
          pausedCh, nextChan := Some(nextChan), nextChan + 1;
        }
        return;
      }
      if pausedCh.Some? {
        CloseChan(pausedCh.value);
        pausedCh := None;
      }
    }

    method Paused() returns (b: bool)
      requires Valid()
      ensures b <==> LastTogglePauses(acts)
    {
      PausedByLastToggle(acts);
      b := pausedCh.Some?;
    }

    /** The critical section that begins a waiting call of thread `t`: the channel
        to block on, or none when the call returns nil at once. */
    method BeginWait(t: int, call: Call) returns (ch: Option<nat>)
      requires Valid() && !IsBlocked(Run(acts), t)
      modifies `acts
      ensures Valid() && acts == old(acts) + [Begin(t, call)]
      ensures ch.None? <==> Released(Run(acts), call)
      ensures t in Run(acts).waiters
      ensures Run(acts).waiters[t]
              == if ch.Some? then Blocked(call, ch.value, |old(acts)|) else ReturnedNil(call, |old(acts)|)
    {
      RunKeepsInv(acts);
      ch := if call == Completion then done else pausedCh;
      Take(Begin(t, call));
    }
  }
}
