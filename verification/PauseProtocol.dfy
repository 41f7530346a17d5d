/** The agent daemon's pause protocol.

    Any number of threads handle messages or shut the daemon down. One step of a
    thread is one critical section under `mu` or one of the actions that follow
    it after the lock is released: closing a channel, touching the state file,
    starting the hold loop, offering a control message. Channels are numbers with
    an open or closed state. A step that is not enabled leaves the state alone, so
    a history is any list of actions. */
module PauseProtocol {
  import opened Wrappers

  datatype Ids = Ids(session: string, issue: string)

  const NO_IDS := Ids("", "")

  /** A message with the ids of the task the holder reported on its arrival. */
  datatype Message = Pause(ids: Ids) | Resume | Drain(ids: Ids) | Other

  datatype ControlKind = PauseMsg | ResumeMsg | DrainMsg

  datatype ControlMsg = ControlMsg(kind: ControlKind, ids: Ids)

  /** The arguments of one `runPauseHold` goroutine. */
  datatype HoldLoop = HoldLoop(stop: nat, done: nat, ids: Ids)

  /** The fields guarded by `mu`. */
  datatype Guarded = Guarded(paused: bool, ids: Ids, holdStop: Option<nat>, holdDone: Option<nat>)

  // -------------------------------------------------------- critical sections

  /** The section of "pause": the new fields and the hold loop to start, if any. */
  function PauseSection(g: Guarded, nextChan: nat, ids: Ids): (Guarded, Option<HoldLoop>) {
    if g.paused then (g, None)
    else
      var h := HoldLoop(nextChan, nextChan + 1, ids);
      (Guarded(true, ids, Some(h.stop), Some(h.done)), Some(h))
  }

  /** The section of "resume": the new fields and, when the daemon was paused, the
      channel taken out of the field. */
  function ResumeSection(g: Guarded): (Guarded, Option<Option<nat>>) {
    if !g.paused then (g, None) else (Guarded(false, NO_IDS, None, None), Some(g.holdStop))
  }

  /** The section of `stopPauseHold`; `paused` and the ids stay. */
  function StopSection(g: Guarded): (Guarded, Option<nat>) {
    (g.(holdStop := None, holdDone := None), g.holdStop)
  }

  // -------------------------------------------------------------- the machine

  /** What a thread does next. */
  datatype Pc =
    | Idle
    | PauseSeen(ids: Ids)                                // take the lock
    | Accepted(h: HoldLoop)                              // write the state file
    | Written(h: HoldLoop)                               // start the hold loop
    | Spawned(h: HoldLoop)                               // offer the control message
    | StopTaken(stop: Option<nat>, resumed: Option<Ids>) // close the channel
    | StopClosed(ids: Ids)                               // remove the state file
    | FileRemoved(ids: Ids)                              // offer the control message
    | Draining(ids: Ids)                                 // offer the control message

  datatype State = State(
    hasFile: bool,              // a state file is configured
    g: Guarded,
    nextChan: nat,              // channels below this number have been made
    closed: set<nat>,
    panicked: bool,             // a closed channel was closed again
    pcs: map<int, Pc>,
    running: set<HoldLoop>,
    file: Option<string>,
    control: seq<ControlMsg>,   // what entered the control channel
    accepted: seq<HoldLoop>,    // history: one entry for each accepted pause
    renewals: seq<HoldLoop>,    // history: the loop of each lease renewal
    offered: seq<ControlMsg>,   // history: control messages offered to the channel
    log: seq<Message>)          // history: messages received

  datatype Action =
    | Receive(t: int, m: Message)
    | LockPause(t: int)
    | LockStop(t: int)
    | Advance(t: int, room: bool)   // room: the control channel can take a message
    | Tick(h: HoldLoop)
    | Exit(h: HoldLoop)

  function Init(hasFile: bool): State {
    State(hasFile, Guarded(false, NO_IDS, None, None), 0, {}, false, map[], {}, None, [], [], [], [], [])
  }

  function PcOf(s: State, t: int): Pc {
    if t in s.pcs then s.pcs[t] else Idle
  }

  function Goto(s: State, t: int, pc: Pc): State {
    s.(pcs := s.pcs[t := pc])
  }

  function Close(s: State, c: nat): State {
    if c in s.closed then s.(panicked := true) else s.(closed := s.closed + {c})
  }

  function FileBody(ids: Ids): string {
    "paused\n" + ids.session + "\n" + ids.issue + "\n"
  }

  function Offer(s: State, msg: ControlMsg, room: bool): State {
    s.(offered := s.offered + [msg], control := if room then s.control + [msg] else s.control)
  }

  function ReceiveStep(s: State, t: int, m: Message): State {
    var r := s.(log := s.log + [m]);
    match m
    case Pause(ids) => Goto(r, t, PauseSeen(ids))
    case Resume =>
      var (g, taken) := ResumeSection(r.g);
      if taken.None? then r else Goto(r.(g := g), t, StopTaken(taken.value, Some(r.g.ids)))
    case Drain(ids) => Goto(r, t, Draining(ids))
    case Other => r
  }

  function AdvanceStep(s: State, t: int, room: bool): State {
    match PcOf(s, t)
    case Accepted(h) => Goto(if s.hasFile then s.(file := Some(FileBody(h.ids))) else s, t, Written(h))
    case Written(h) => Goto(s.(running := s.running + {h}), t, Spawned(h))
    case Spawned(h) => Goto(Offer(s, ControlMsg(PauseMsg, h.ids), room), t, Idle)
    case StopTaken(stop, resumed) =>
      var c := if stop.Some? then Close(s, stop.value) else s;
      Goto(c, t, if resumed.Some? then StopClosed(resumed.value) else Idle)
    case StopClosed(ids) => Goto(if s.hasFile then s.(file := None) else s, t, FileRemoved(ids))
    case FileRemoved(ids) => Goto(Offer(s, ControlMsg(ResumeMsg, ids), room), t, Idle)
    case Draining(ids) => Goto(Offer(s, ControlMsg(DrainMsg, ids), room), t, Idle)
    case _ => s
  }

  function LockPauseStep(s: State, t: int): State {
    if !PcOf(s, t).PauseSeen? then s
    else
      var (g, h) := PauseSection(s.g, s.nextChan, PcOf(s, t).ids);
      if h.None? then Goto(s, t, Idle)
      else Goto(s.(g := g, nextChan := s.nextChan + 2, accepted := s.accepted + [h.value]), t, Accepted(h.value))
  }

  function LockStopStep(s: State, t: int): State {
    if PcOf(s, t) != Idle then s
    else
      var (g, stop) := StopSection(s.g);
      Goto(s.(g := g), t, StopTaken(stop, None))
  }

  function Step(s: State, a: Action): State {
    match a
    case Receive(t, m) => if PcOf(s, t) == Idle then ReceiveStep(s, t, m) else s
    case LockPause(t) => LockPauseStep(s, t)
    case LockStop(t) => LockStopStep(s, t)
    case Advance(t, room) => AdvanceStep(s, t, room)
    case Tick(h) => if h in s.running then s.(renewals := s.renewals + [h]) else s
    case Exit(h) => if h in s.running && h.stop in s.closed then Close(s.(running := s.running - {h}), h.done) else s
  }

  function Run(hasFile: bool, acts: seq<Action>): State {
    if acts == [] then Init(hasFile) else Step(Run(hasFile, acts[..|acts| - 1]), acts[|acts| - 1])
  }

  // ----------------------------------------------------------- channel owners

  /** Who may still close a stop channel, or that it is closed. */
  datatype StopOwner = Field | Closer(t: int) | Nobody

  ghost predicate OwnsStop(s: State, o: StopOwner, c: nat) {
    match o
    case Field => s.g.holdStop == Some(c)
    case Closer(t) => PcOf(s, t).StopTaken? && PcOf(s, t).stop == Some(c)
    case Nobody => c in s.closed
  }

  ghost predicate OneStopOwner(s: State, c: nat) {
    && (exists o :: OwnsStop(s, o, c))
    && (forall o, o' :: OwnsStop(s, o, c) && OwnsStop(s, o', c) ==> o == o')
  }

  /** Where the hold loop of a done channel is: about to be started, running, or
      gone, which is when the channel is closed. */
  datatype DoneOwner = Starter(t: int) | Loop | Gone

  ghost predicate OwnsDone(s: State, o: DoneOwner, h: HoldLoop) {
    match o
    case Starter(t) => PcOf(s, t) == Accepted(h) || PcOf(s, t) == Written(h)
    case Loop => h in s.running
    case Gone => h.done in s.closed
  }

  ghost predicate OneDoneOwner(s: State, h: HoldLoop) {
    && (exists o :: OwnsDone(s, o, h))
    && (forall o, o' :: OwnsDone(s, o, h) && OwnsDone(s, o', h) ==> o == o')
  }

  // ---------------------------------------------------------------- invariant

  ghost predicate Numbered(s: State) {
    && s.nextChan == 2 * |s.accepted|
    && (forall k :: 0 <= k < |s.accepted| ==> s.accepted[k].stop == 2 * k && s.accepted[k].done == 2 * k + 1)
    && (forall c :: c in s.closed ==> c < s.nextChan)
    && (forall h :: h in s.running ==> h in s.accepted)
    && (forall h :: h in s.renewals ==> h in s.accepted)
    && (forall t :: t in s.pcs ==> PcNumbered(s, s.pcs[t]))
  }

  ghost predicate PcNumbered(s: State, pc: Pc) {
    && (pc.Accepted? || pc.Written? || pc.Spawned? ==> pc.h in s.accepted)
    && (pc.StopTaken? && pc.stop.Some? ==> pc.stop.value < s.nextChan && pc.stop.value % 2 == 0)
  }

  ghost predicate FieldsAgree(s: State) {
    && (s.g.paused ==> s.accepted != [] && s.g.ids == s.accepted[|s.accepted| - 1].ids)
    && (!s.g.paused ==> s.g.ids == NO_IDS)
    && (s.g.holdStop.Some? ==>
          && s.g.paused
          && s.g.holdStop == Some(s.accepted[|s.accepted| - 1].stop)
          && s.g.holdDone == Some(s.accepted[|s.accepted| - 1].done))
    && (s.g.holdStop.None? ==> s.g.holdDone.None?)
  }

  ghost predicate Owned(s: State, h: HoldLoop) {
    OneStopOwner(s, h.stop) && OneDoneOwner(s, h) && (h.done in s.closed ==> h.stop in s.closed)
  }

  ghost predicate Inv(s: State) {
    && !s.panicked
    && Numbered(s)
    && FieldsAgree(s)
    && forall h :: h in s.accepted ==> Owned(s, h)
  }

  lemma NumbersIdentify(s: State, h: HoldLoop, h': HoldLoop)
    requires Numbered(s) && h in s.accepted && h' in s.accepted
    ensures h.stop != h'.done
    ensures h.stop == h'.stop || h.done == h'.done ==> h == h'
    ensures h.stop < s.nextChan && h.done < s.nextChan
  {
  }

  /** Owners are unchanged for `h` except that those named move. */
  lemma StopMoves(s: State, r: State, c: nat, o: StopOwner, o': StopOwner)
    requires OneStopOwner(s, c) && OwnsStop(s, o, c) && OwnsStop(r, o', c)
    requires forall x :: OwnsStop(r, x, c) ==> x == o' || (x != o && OwnsStop(s, x, c))
    ensures OneStopOwner(r, c)
  {
  }

  lemma DoneMoves(s: State, r: State, h: HoldLoop, o: DoneOwner, o': DoneOwner)
    requires OneDoneOwner(s, h) && OwnsDone(s, o, h) && OwnsDone(r, o', h)
    requires forall x :: OwnsDone(r, x, h) ==> x == o' || (x != o && OwnsDone(s, x, h))
    ensures OneDoneOwner(r, h)
  {
  }

  lemma StopStays(s: State, r: State, c: nat)
    requires OneStopOwner(s, c) && forall o :: OwnsStop(r, o, c) <==> OwnsStop(s, o, c)
    ensures OneStopOwner(r, c)
  {
    var o :| OwnsStop(s, o, c);
    StopMoves(s, r, c, o, o);
  }

  lemma DoneStays(s: State, r: State, h: HoldLoop)
    requires OneDoneOwner(s, h) && forall o :: OwnsDone(r, o, h) <==> OwnsDone(s, o, h)
    ensures OneDoneOwner(r, h)
  {
    var o :| OwnsDone(s, o, h);
    DoneMoves(s, r, h, o, o);
  }

  /** Taking the channel out of the field makes the thread its only closer. */
  lemma TakeKeepsInv(s: State, r: State, t: int)
    requires Inv(s) && PcOf(s, t) == Idle
    requires r.nextChan == s.nextChan && r.closed == s.closed && r.running == s.running
    requires r.accepted == s.accepted && r.renewals == s.renewals && r.panicked == s.panicked
    requires t in r.pcs && r.pcs == s.pcs[t := r.pcs[t]] && r.pcs[t].StopTaken? && r.pcs[t].stop == s.g.holdStop
    requires FieldsAgree(r) && r.g.holdStop.None?
    ensures Inv(r)
  {
    forall h | h in r.accepted ensures Owned(r, h) {
      assert Owned(s, h);
      if s.g.holdStop == Some(h.stop) {
        StopMoves(s, r, h.stop, Field, Closer(t));
      } else {
        StopStays(s, r, h.stop);
      }
      DoneStays(s, r, h);
    }
  }

  lemma ReceiveKeepsInv(s: State, t: int, m: Message)
    requires Inv(s) && PcOf(s, t) == Idle
    ensures Inv(ReceiveStep(s, t, m))
  {
    var r := ReceiveStep(s, t, m);
    if m.Resume? && s.g.paused {
      TakeKeepsInv(s, r, t);
    } else if m.Pause? || m.Drain? {
      QuietKeepsInv(s, r, t);
    } else {
      LogKeepsInv(s, r);
    }
  }

  /** Histories that no owner depends on may grow. */
  lemma LogKeepsInv(s: State, r: State)
    requires Inv(s) && r == s.(log := r.log, renewals := r.renewals)
    requires forall h :: h in r.renewals ==> h in s.accepted
    ensures Inv(r)
  {
    forall h | h in r.accepted ensures Owned(r, h) {
      assert Owned(s, h);
      StopStays(s, r, h.stop);
      DoneStays(s, r, h);
    }
  }

  lemma LockPauseKeepsOwner(s: State, t: int, h: HoldLoop)
    requires Inv(s) && PcOf(s, t).PauseSeen? && h in s.accepted
    ensures Owned(LockPauseStep(s, t), h)
  {
    var r := LockPauseStep(s, t);
    assert Owned(s, h);
    NumbersIdentify(s, h, h);
    StopStays(s, r, h.stop);
    DoneStays(s, r, h);
  }

  lemma LockPauseOwnsNew(s: State, t: int)
    requires Inv(s) && PcOf(s, t).PauseSeen? && !s.g.paused
    ensures Owned(LockPauseStep(s, t), HoldLoop(s.nextChan, s.nextChan + 1, PcOf(s, t).ids))
  {
    var r, n := LockPauseStep(s, t), HoldLoop(s.nextChan, s.nextChan + 1, PcOf(s, t).ids);
    assert OwnsStop(r, Field, n.stop) && OwnsDone(r, Starter(t), n);
    assert n.stop !in s.closed && n.done !in s.closed;
    forall o | OwnsStop(r, o, n.stop) ensures o == Field {
      if o.Closer? && o.t in s.pcs {
        assert PcNumbered(s, s.pcs[o.t]);
      }
    }
    forall o | OwnsDone(r, o, n) ensures o == Starter(t) {
      if o.Starter? && o.t in s.pcs {
        assert PcNumbered(s, s.pcs[o.t]);
      }
      if n in s.accepted {
        NumbersIdentify(s, n, n);
      }
    }
  }

  lemma LockPauseKeepsInv(s: State, t: int)
    requires Inv(s) && PcOf(s, t).PauseSeen?
    ensures Inv(LockPauseStep(s, t))
  {
    var r := LockPauseStep(s, t);
    if s.g.paused {
      QuietKeepsInv(s, r, t);
    } else {
      var n := HoldLoop(s.nextChan, s.nextChan + 1, PcOf(s, t).ids);
      assert r.accepted == s.accepted + [n];
      forall h | h in r.accepted ensures Owned(r, h) {
        if h in s.accepted { LockPauseKeepsOwner(s, t, h); } else { LockPauseOwnsNew(s, t); }
      }
      forall x | x in r.pcs ensures PcNumbered(r, r.pcs[x]) {
        assert x != t ==> PcNumbered(s, s.pcs[x]);
      }
    }
  }

  /** A step of `t` that moves no channel and no goroutine. */
  ghost predicate Quiet(s: State, r: State, t: int) {
    && r.g == s.g && r.nextChan == s.nextChan && r.closed == s.closed && r.running == s.running
    && r.accepted == s.accepted && r.renewals == s.renewals && r.panicked == s.panicked
    && t in r.pcs && r.pcs == s.pcs[t := r.pcs[t]]
    && !PcOf(s, t).StopTaken? && !r.pcs[t].StopTaken?
    && Starts(PcOf(s, t)) == Starts(r.pcs[t])
    && PcNumbered(r, r.pcs[t])
  }

  /** The hold loop a thread at `pc` is going to start. */
  function Starts(pc: Pc): Option<HoldLoop> {
    if pc.Accepted? || pc.Written? then Some(pc.h) else None
  }

  lemma QuietKeepsInv(s: State, r: State, t: int)
    requires Inv(s) && Quiet(s, r, t)
    ensures Inv(r)
  {
    forall h | h in r.accepted ensures Owned(r, h) {
      assert Owned(s, h);
      StopStays(s, r, h.stop);
      forall o ensures OwnsDone(r, o, h) <==> OwnsDone(s, o, h) {
        if o.Starter? {
          assert OwnsDone(s, o, h) <==> Starts(PcOf(s, o.t)) == Some(h);
          assert OwnsDone(r, o, h) <==> Starts(PcOf(r, o.t)) == Some(h);
        }
      }
      DoneStays(s, r, h);
    }
  }

  lemma SpawnKeepsInv(s: State, t: int, room: bool)
    requires Inv(s) && PcOf(s, t).Written?
    ensures Inv(AdvanceStep(s, t, room))
  {
    var r, n := AdvanceStep(s, t, room), PcOf(s, t).h;
    assert PcNumbered(s, s.pcs[t]);
    forall h | h in s.accepted ensures Owned(r, h) {
      assert Owned(s, h);
      StopStays(s, r, h.stop);
      if n == h {
        DoneMoves(s, r, h, Starter(t), Loop);
      } else {
        DoneStays(s, r, h);
      }
    }
    forall x | x in r.pcs ensures PcNumbered(r, r.pcs[x]) {
      assert x != t ==> PcNumbered(s, s.pcs[x]);
    }
  }

  /** The thread that closes a stop channel finds it open. */
  lemma CloseKeepsOwner(s: State, t: int, room: bool, h: HoldLoop)
    requires Inv(s) && h in s.accepted && PcOf(s, t).StopTaken?
    ensures Owned(AdvanceStep(s, t, room), h)
    ensures PcOf(s, t).stop == Some(h.stop) ==> h.stop !in s.closed
  {
    var r, pc := AdvanceStep(s, t, room), PcOf(s, t);
    assert Owned(s, h);
    if pc.stop == Some(h.stop) {
      assert OwnsStop(s, Closer(t), h.stop) && !OwnsStop(s, Nobody, h.stop);
      StopMoves(s, r, h.stop, Closer(t), Nobody);
    } else {
      StopStays(s, r, h.stop);
    }
    assert PcNumbered(s, s.pcs[t]);
    DoneStays(s, r, h);
  }

  lemma CloseKeepsInv(s: State, t: int, room: bool)
    requires Inv(s) && PcOf(s, t).StopTaken?
    ensures Inv(AdvanceStep(s, t, room))
  {
    hide OwnsStop, OwnsDone, OneStopOwner, OneDoneOwner;
    var r, pc := AdvanceStep(s, t, room), PcOf(s, t);
    assert PcNumbered(s, s.pcs[t]);
    if pc.stop.Some? {
      CloseKeepsOwner(s, t, room, s.accepted[pc.stop.value / 2]);
    }
    forall h | h in s.accepted ensures Owned(r, h) {
      CloseKeepsOwner(s, t, room, h);
    }
  }

  lemma ThreadNumbered(s: State, t: int)
    requires Inv(s) && t in s.pcs
    ensures PcNumbered(s, s.pcs[t])
  {
  }

  lemma FileKeepsInv(s: State, t: int, room: bool)
    requires Inv(s) && (PcOf(s, t).Accepted? || PcOf(s, t).StopClosed?)
    ensures Inv(AdvanceStep(s, t, room))
  {
    ThreadNumbered(s, t);
    hide Inv, Numbered, FieldsAgree;
    QuietKeepsInv(s, AdvanceStep(s, t, room), t);
  }

  lemma OfferKeepsInv(s: State, t: int, room: bool)
    requires Inv(s) && (PcOf(s, t).Spawned? || PcOf(s, t).FileRemoved? || PcOf(s, t).Draining?)
    ensures Inv(AdvanceStep(s, t, room))
  {
    hide Inv, Numbered, FieldsAgree;
    QuietKeepsInv(s, AdvanceStep(s, t, room), t);
  }

  lemma AdvanceKeepsInv(s: State, t: int, room: bool)
    requires Inv(s)
    ensures Inv(AdvanceStep(s, t, room))
  {
    hide Inv;
    var pc := PcOf(s, t);
    if pc.StopTaken? {
      CloseKeepsInv(s, t, room);
    } else if pc.Written? {
      SpawnKeepsInv(s, t, room);
    } else if pc.Accepted? || pc.StopClosed? {
      FileKeepsInv(s, t, room);
    } else if pc.Spawned? || pc.FileRemoved? || pc.Draining? {
      OfferKeepsInv(s, t, room);
    }
  }

  /** A hold loop that exits finds its own done channel open. */
  lemma ExitKeepsOwner(s: State, h: HoldLoop, h': HoldLoop)
    requires Inv(s) && h in s.running && h.stop in s.closed && h' in s.accepted
    ensures Owned(Step(s, Exit(h)), h')
    ensures h.done !in s.closed
  {
    var r := Step(s, Exit(h));
    assert Owned(s, h) && Owned(s, h');
    assert OwnsDone(s, Loop, h) && !OwnsDone(s, Gone, h);
    NumbersIdentify(s, h, h');
    NumbersIdentify(s, h', h);
    StopStays(s, r, h'.stop);
    if h' == h {
      DoneMoves(s, r, h, Loop, Gone);
    } else {
      DoneStays(s, r, h');
    }
  }

  lemma ExitKeepsInv(s: State, h: HoldLoop)
    requires Inv(s) && h in s.running && h.stop in s.closed
    ensures Inv(Step(s, Exit(h)))
  {
    NumbersIdentify(s, h, h);
    ExitKeepsOwner(s, h, h);
    forall h' | h' in s.accepted ensures Owned(Step(s, Exit(h)), h') {
      ExitKeepsOwner(s, h, h');
    }
  }

  lemma StepKeepsInv(s: State, a: Action)
    requires Inv(s)
    ensures Inv(Step(s, a))
  {
    match a
    case Receive(t, m) => if PcOf(s, t) == Idle { ReceiveKeepsInv(s, t, m); }
    case LockPause(t) => if PcOf(s, t).PauseSeen? { LockPauseKeepsInv(s, t); }
    case LockStop(t) => if PcOf(s, t) == Idle { TakeKeepsInv(s, LockStopStep(s, t), t); }
    case Advance(t, room) => AdvanceKeepsInv(s, t, room);
    case Tick(h) => LogKeepsInv(s, Step(s, a));
    case Exit(h) => if h in s.running && h.stop in s.closed { ExitKeepsInv(s, h); }
  }

  lemma {:induction false} RunKeepsInv(hasFile: bool, acts: seq<Action>)
    ensures Inv(Run(hasFile, acts))
  {
    if acts != [] {
      RunKeepsInv(hasFile, acts[..|acts| - 1]);
      StepKeepsInv(Run(hasFile, acts[..|acts| - 1]), acts[|acts| - 1]);
    }
  }

  // ------------------------------------------------------------------ results

  /** What is a panic: a thread that closes the stop channel it took, or a loop that
      closes its done channel, when that channel is closed already. Nothing takes it
      back. */
  lemma PanicsIffClosedAgain(s: State, a: Action)
    ensures Step(s, a).panicked
            <==> || s.panicked
                 || (a.Advance? && a.t in s.pcs && s.pcs[a.t].StopTaken? && s.pcs[a.t].stop.Some?
                     && s.pcs[a.t].stop.value in s.closed)
                 || (a.Exit? && a.h in s.running && a.h.stop in s.closed && a.h.done in s.closed)
  {
    hide FileBody;
  }

  /** In every interleaving each stop channel has exactly one owner (the field,
      one thread about to close it, or nobody because it is closed), each done
      channel has exactly one (its loop, before or while it runs, or nobody), so
      no channel is closed twice; a channel in the field means paused. */
  lemma ChannelsHaveOneOwner(hasFile: bool, acts: seq<Action>)
    ensures var s := Run(hasFile, acts);
            && !s.panicked
            && (s.g.holdStop.Some? ==> s.g.paused && s.g.holdDone.Some?)
            && (forall h :: h in s.accepted ==> OneStopOwner(s, h.stop) && OneDoneOwner(s, h))
  {
    RunKeepsInv(hasFile, acts);
    forall h | h in Run(hasFile, acts).accepted ensures Owned(Run(hasFile, acts), h) {
    }
  }

  /** An accepted pause finds both channel fields empty and uses new channels. */
  lemma PauseOverwritesNothing(hasFile: bool, acts: seq<Action>, t: int)
    ensures var s := Run(hasFile, acts); var r := Step(s, LockPause(t));
            |r.accepted| > |s.accepted| ==>
              && s.g.holdStop.None? && s.g.holdDone.None?
              && r.g.holdStop.Some? && r.g.holdDone.Some? && r.g.holdStop != r.g.holdDone
              && r.g.holdStop.value !in r.closed && r.g.holdDone.value !in r.closed
              && forall h :: h in s.accepted ==> {r.g.holdStop.value, r.g.holdDone.value} !! {h.stop, h.done}
  {
    RunKeepsInv(hasFile, acts);
  }

  /** Only the exit of its own hold loop closes a done channel, and only after the
      loop's stop channel is closed. */
  lemma DoneClosedByOwnLoop(hasFile: bool, acts: seq<Action>, a: Action, h: HoldLoop)
    requires h in Run(hasFile, acts).accepted && h.done !in Run(hasFile, acts).closed
    requires h.done in Step(Run(hasFile, acts), a).closed
    ensures a == Exit(h) && h in Run(hasFile, acts).running && h.stop in Run(hasFile, acts).closed
  {
    RunKeepsInv(hasFile, acts);
    DoneStaysOpen(Run(hasFile, acts), a, h);
  }

  lemma DoneStaysOpen(s: State, a: Action, h: HoldLoop)
    requires Inv(s) && h in s.accepted && h.done !in s.closed
    ensures h.done in Step(s, a).closed ==> a == Exit(h) && h in s.running && h.stop in s.closed
  {
    match a
    case Receive(t, m) =>
    case LockPause(t) =>
    case LockStop(t) =>
    case Advance(t, room) => if t in s.pcs { assert PcNumbered(s, s.pcs[t]); ClosesAtMost(s, t, room); }
    case Tick(_) =>
    case Exit(h') => if h' in s.running { NumbersIdentify(s, h', h); }
  }

  lemma ClosesAtMost(s: State, t: int, room: bool)
    ensures AdvanceStep(s, t, room).closed
            <= s.closed + if PcOf(s, t).StopTaken? && PcOf(s, t).stop.Some? then {PcOf(s, t).stop.value} else {}
  {
  }

  ghost predicate Signalled(s: State, h: HoldLoop) {
    h.stop in s.closed || exists t :: PcOf(s, t).StopTaken? && PcOf(s, t).stop == Some(h.stop)
  }

  /** Hold loops do not stack: of all loops started or about to be, at most one
      has not been told to stop, it belongs to the latest accepted pause, and the
      daemon is paused. When no close is outstanding and the field is empty,
      every running loop can exit. */
  lemma LoopsDoNotStack(hasFile: bool, acts: seq<Action>, h: HoldLoop)
    requires h in Run(hasFile, acts).accepted
    ensures var s := Run(hasFile, acts);
            && (!Signalled(s, h) ==> s.g.paused && s.g.holdStop == Some(h.stop) && h == s.accepted[|s.accepted| - 1])
            && (s.g.holdStop.None? && (forall t :: !PcOf(s, t).StopTaken?) ==> h.stop in s.closed)
  {
    hide Run, Inv, Signalled, PcOf;
    RunKeepsInv(hasFile, acts);
    UnsignalledIsLatest(Run(hasFile, acts), h);
  }

  lemma UnsignalledIsLatest(s: State, h: HoldLoop)
    requires Inv(s) && h in s.accepted
    ensures !Signalled(s, h) ==> s.g.paused && s.g.holdStop == Some(h.stop) && h == s.accepted[|s.accepted| - 1]
    ensures s.g.holdStop.None? && (forall t :: !PcOf(s, t).StopTaken?) ==> h.stop in s.closed
  {
    assert Owned(s, h);
    var o :| OwnsStop(s, o, h.stop);
    if o == Field {
      NumbersIdentify(s, h, s.accepted[|s.accepted| - 1]);
    }
  }
}
