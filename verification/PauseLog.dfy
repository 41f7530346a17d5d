/** What the daemon's pause state means in terms of the messages it received.

    One reader goroutine handles messages; shutdowns, hold loops and their ticks
    interleave with every one of its steps. The state is compared with a reading
    of the message log that does not mention the daemon. */
module PauseLog {
  import opened Wrappers
  import opened PauseProtocol

  // -------------------------------------------------------- reading a log alone

  /** The last pause or resume in the log is a pause. */
  ghost predicate LastControlIsPause(log: seq<Message>) {
    exists i :: 0 <= i < |log| && log[i].Pause? && forall j :: i < j < |log| ==> !log[j].Pause? && !log[j].Resume?
  }

  /** `log[i]` is the first pause of the stretch that is still open at the end. */
  ghost predicate IsStretchStart(log: seq<Message>, i: nat) {
    && i < |log| && log[i].Pause?
    && (forall j :: i < j < |log| ==> !log[j].Resume?)
    && (forall j :: 0 <= j < i && log[j].Pause? ==> exists k :: j < k < i && log[k].Resume?)
  }

  /** The index of that pause, if a stretch is open. */
  function Open(log: seq<Message>): (r: Option<nat>)
    ensures r.Some? ==> r.value < |log| && log[r.value].Pause?
  {
    if log == [] then None
    else
      var before := Open(log[..|log| - 1]);
      match log[|log| - 1]
      case Pause(_) => if before.None? then Some(|log| - 1) else before
      case Resume => None
      case _ => before
  }

  /** Open computes the declared reading, in both directions. */
  lemma {:induction false} OpenIsStretchStart(log: seq<Message>)
    ensures forall i: nat :: Open(log) == Some(i) <==> IsStretchStart(log, i)
    ensures Open(log).Some? <==> LastControlIsPause(log)
  {
    if log != [] {
      var init, m := log[..|log| - 1], log[|log| - 1];
      OpenIsStretchStart(init);
      assert forall j :: 0 <= j < |init| ==> init[j] == log[j];
      forall i: nat ensures Open(log) == Some(i) <==> IsStretchStart(log, i) {
        StretchStep(init, m, i);
        assert log == init + [m];
      }
      LastControlStep(init, m);
      assert log == init + [m];
    }
  }

  lemma StretchStep(init: seq<Message>, m: Message, i: nat)
    requires forall i: nat :: Open(init) == Some(i) <==> IsStretchStart(init, i)
    requires Open(init).Some? <==> LastControlIsPause(init)
    ensures Open(init + [m]) == Some(i) <==> IsStretchStart(init + [m], i)
  {
    var log := init + [m];
    assert log[..|log| - 1] == init && log[|log| - 1] == m;
    assert forall j :: 0 <= j < |init| ==> init[j] == log[j];
    if i < |init| && !m.Resume? {
      assert IsStretchStart(log, i) <==> IsStretchStart(init, i);
    }
    if i == |init| && m.Pause? {
      if Open(init).None? {
        forall j | 0 <= j < i && log[j].Pause? ensures exists k :: j < k < i && log[k].Resume? {
          NoOpenPause(init, j);
        }
      } else {
        var j := Open(init).value;
        assert IsStretchStart(init, j);
      }
    }
  }

  /** With no open stretch, every pause has been answered by a later resume. */
  lemma {:induction false} NoOpenPause(log: seq<Message>, j: nat)
    requires !LastControlIsPause(log) && j < |log| && log[j].Pause?
    ensures exists k :: j < k < |log| && log[k].Resume?
    decreases |log| - j
  {
    var i :| j < i < |log| && (log[i].Pause? || log[i].Resume?);
    if log[i].Pause? {
      NoOpenPause(log, i);
    }
  }

  lemma LastControlStep(init: seq<Message>, m: Message)
    requires Open(init).Some? <==> LastControlIsPause(init)
    ensures Open(init + [m]).Some? <==> LastControlIsPause(init + [m])
  {
    var log := init + [m];
    assert log[..|log| - 1] == init && log[|log| - 1] == m;
    assert forall j :: 0 <= j < |init| ==> init[j] == log[j];
    if m.Pause? {
      assert log[|init|].Pause?;
    } else if !m.Resume? {
      if LastControlIsPause(init) {
        var i :| 0 <= i < |init| && init[i].Pause? && forall j :: i < j < |init| ==> !init[j].Pause? && !init[j].Resume?;
        assert log[i].Pause?;
      }
      if LastControlIsPause(log) {
        var i :| 0 <= i < |log| && log[i].Pause? && forall j :: i < j < |log| ==> !log[j].Pause? && !log[j].Resume?;
        assert init[i].Pause?;
      }
    }
  }

  /** The control messages the log calls for: one for each pause that opens a
      stretch, one for each resume that ends one, with the ids of its own pause,
      and one for each drain. */
  function Announced(log: seq<Message>): seq<ControlMsg> {
    if log == [] then []
    else
      var init := log[..|log| - 1];
      Announced(init) +
      match log[|log| - 1]
      case Pause(ids) => if Open(init).None? then [ControlMsg(PauseMsg, ids)] else []
      case Resume => if Open(init).Some? then [ControlMsg(ResumeMsg, init[Open(init).value].ids)] else []
      case Drain(ids) => [ControlMsg(DrainMsg, ids)]
      case Other => []
  }

  /** The ids of the pauses that open a stretch, in order. */
  function Accepts(log: seq<Message>): seq<Ids> {
    if log == [] then []
    else
      var init := log[..|log| - 1];
      Accepts(init) + if log[|log| - 1].Pause? && Open(init).None? then [log[|log| - 1].ids] else []
  }

  ghost predicate Subsequence<T>(s: seq<T>, t: seq<T>) {
    s == [] || (t != [] && (
      Subsequence(s, t[..|t| - 1])
      || (s[|s| - 1] == t[|t| - 1] && Subsequence(s[..|s| - 1], t[..|t| - 1]))))
  }

  lemma SubsequenceGrows<T>(s: seq<T>, t: seq<T>, x: T)
    requires Subsequence(s, t)
    ensures Subsequence(s, t + [x]) && Subsequence(s + [x], t + [x])
  {
    assert (t + [x])[..|t|] == t && (s + [x])[..|s|] == s;
  }

  /** The places of `t` that a subsequence is taken from, in order. */
  lemma {:induction false} SubsequencePlaces<T>(s: seq<T>, t: seq<T>) returns (at: seq<nat>)
    requires Subsequence(s, t)
    ensures |at| == |s| && forall i :: 0 <= i < |s| ==> at[i] < |t| && s[i] == t[at[i]]
    ensures forall i, j :: 0 <= i < j < |s| ==> at[i] < at[j]
    decreases |t|
  {
    at := [];
    if s != [] {
      var init := t[..|t| - 1];
      if Subsequence(s, init) {
        at := SubsequencePlaces(s, init);
      } else {
        at := SubsequencePlaces(s[..|s| - 1], init);
        at := at + [|t| - 1];
      }
    }
  }

  // ------------------------------------------------------- the daemon's history

  ghost predicate SingleReader(acts: seq<Action>) {
    forall i :: 0 <= i < |acts| ==> ReaderOnly(acts[i])
  }

  /** Thread 0 is the reader; every other thread only shuts down. */
  predicate ReaderOnly(a: Action) {
    (a.Receive? ==> a.t == 0) && (a.LockStop? ==> a.t != 0)
  }

  /** The messages whose critical section has been entered. */
  function Handled(s: State): seq<Message> {
    if PcOf(s, 0).PauseSeen? && s.log != [] then s.log[..|s.log| - 1] else s.log
  }

  /** The control message the reader has still to offer. */
  function Pending(pc: Pc): seq<ControlMsg> {
    match pc
    case Accepted(h) => [ControlMsg(PauseMsg, h.ids)]
    case Written(h) => [ControlMsg(PauseMsg, h.ids)]
    case Spawned(h) => [ControlMsg(PauseMsg, h.ids)]
    case StopTaken(_, resumed) => if resumed.Some? then [ControlMsg(ResumeMsg, resumed.value)] else []
    case StopClosed(ids) => [ControlMsg(ResumeMsg, ids)]
    case FileRemoved(ids) => [ControlMsg(ResumeMsg, ids)]
    case Draining(ids) => [ControlMsg(DrainMsg, ids)]
    case _ => []
  }

  function FileWhen(paused: bool, ids: Ids): Option<string> {
    if paused then Some(FileBody(ids)) else None
  }

  /** The state file lags behind the field between a critical section and its
      file operation. */
  function ExpectedFile(s: State): Option<string> {
    if !s.hasFile then None
    else
      match PcOf(s, 0)
      case Accepted(h) => None
      case StopTaken(_, resumed) => FileWhen(resumed.Some?, if resumed.Some? then resumed.value else NO_IDS)
      case StopClosed(ids) => FileWhen(true, ids)
      case _ => FileWhen(s.g.paused, s.g.ids)
  }

  function IdsOf(hs: seq<HoldLoop>): (r: seq<Ids>)
    ensures |r| == |hs|
  {
    seq(|hs|, i requires 0 <= i < |hs| => hs[i].ids)
  }

  ghost predicate ReaderInv(s: State) {
    var pc := PcOf(s, 0);
    && (forall t :: t in s.pcs && t != 0 ==> s.pcs[t] == Idle || (s.pcs[t].StopTaken? && s.pcs[t].resumed.None?))
    && (pc.PauseSeen? ==> s.log != [] && s.log[|s.log| - 1] == Pause(pc.ids))
    && (pc.StopTaken? ==> pc.resumed.Some?)
    && (pc.Accepted? || pc.Written? || pc.Spawned? ==> s.g.paused && pc.h.ids == s.g.ids)
    && (pc.StopTaken? || pc.StopClosed? || pc.FileRemoved? ==> !s.g.paused)
    && (!s.g.paused ==> s.g.ids == NO_IDS)
    && (s.g.paused <==> Open(Handled(s)).Some?)
    && (s.g.paused ==> s.g.ids == Handled(s)[Open(Handled(s)).value].ids)
    && s.offered + Pending(pc) == Announced(Handled(s))
    && Subsequence(s.control, s.offered)
    && IdsOf(s.accepted) == Accepts(Handled(s))
    && s.file == ExpectedFile(s)
  }

  lemma PauseArrives(s: State, m: Message)
    requires ReaderInv(s) && PcOf(s, 0) == Idle && m.Pause?
    ensures ReaderInv(ReceiveStep(s, 0, m))
  {
    hide Announced, Accepts, Open, Subsequence, IdsOf;
    var r := ReceiveStep(s, 0, m);
    assert r.log == s.log + [m] && r.log[..|s.log|] == s.log && Handled(s) == s.log && Handled(r) == s.log;
  }

  lemma ResumeArrives(s: State, m: Message)
    requires ReaderInv(s) && PcOf(s, 0) == Idle && m.Resume?
    ensures ReaderInv(ReceiveStep(s, 0, m))
  {
    hide Announced, Accepts, Open, Subsequence, IdsOf;
    LogGrows(s.log, m);
    assert Handled(s) == s.log && Handled(ReceiveStep(s, 0, m)) == s.log + [m];
  }

  lemma OtherArrives(s: State, m: Message)
    requires ReaderInv(s) && PcOf(s, 0) == Idle && !m.Pause? && !m.Resume?
    ensures ReaderInv(ReceiveStep(s, 0, m))
  {
    hide Announced, Accepts, Open, Subsequence, IdsOf;
    LogGrows(s.log, m);
    assert Handled(s) == s.log && Handled(ReceiveStep(s, 0, m)) == s.log + [m];
  }

  lemma ReceiveKeepsReader(s: State, m: Message)
    requires ReaderInv(s) && PcOf(s, 0) == Idle
    ensures ReaderInv(ReceiveStep(s, 0, m)) && ReceiveStep(s, 0, m).hasFile == s.hasFile
  {
    hide ReaderInv;
    match m
    case Pause(_) => PauseArrives(s, m);
    case Resume => ResumeArrives(s, m);
    case _ => OtherArrives(s, m);
  }

  lemma LogGrows(log: seq<Message>, m: Message)
    ensures Open(log + [m]) == match m
                               case Pause(_) => if Open(log).None? then Some(|log|) else Open(log)
                               case Resume => None
                               case _ => Open(log)
    ensures Announced(log + [m])
            == Announced(log) + match m
                                case Pause(ids) => if Open(log).None? then [ControlMsg(PauseMsg, ids)] else []
                                case Resume =>
                                  if Open(log).Some? then [ControlMsg(ResumeMsg, log[Open(log).value].ids)] else []
                                case Drain(ids) => [ControlMsg(DrainMsg, ids)]
                                case Other => []
    ensures Accepts(log + [m]) == Accepts(log) + if m.Pause? && Open(log).None? then [m.ids] else []
  {
    assert (log + [m])[..|log|] == log;
  }

  lemma LockPauseKeepsReader(s: State)
    requires ReaderInv(s) && PcOf(s, 0).PauseSeen?
    ensures ReaderInv(LockPauseStep(s, 0)) && LockPauseStep(s, 0).hasFile == s.hasFile
  {
    hide Subsequence;
    var r := LockPauseStep(s, 0);
    assert Handled(r) == s.log && Handled(s) == s.log[..|s.log| - 1];
    if !s.g.paused {
      assert IdsOf(r.accepted) == IdsOf(s.accepted) + [PcOf(s, 0).ids];
    }
  }

  /** The reader's last step for a message: it offers what was pending. */
  lemma OfferStep(s: State, room: bool)
    requires PcOf(s, 0).Spawned? || PcOf(s, 0).FileRemoved? || PcOf(s, 0).Draining?
    ensures |Pending(PcOf(s, 0))| == 1
    ensures AdvanceStep(s, 0, room) == Goto(Offer(s, Pending(PcOf(s, 0))[0], room), 0, Idle)
    ensures Handled(AdvanceStep(s, 0, room)) == Handled(s)
    ensures ExpectedFile(AdvanceStep(s, 0, room)) == ExpectedFile(s)
  {
  }

  /** Offering the pending message leaves the reader idle with nothing pending. */
  lemma OfferedKeepsReader(s: State, r: State, msg: ControlMsg)
    requires ReaderInv(s) && Pending(PcOf(s, 0)) == [msg] && !PcOf(s, 0).PauseSeen?
    requires r.offered == s.offered + [msg] && Subsequence(r.control, r.offered)
    requires r.g == s.g && r.accepted == s.accepted && r.file == s.file
    requires Handled(r) == Handled(s) && ExpectedFile(r) == ExpectedFile(s)
    requires r.pcs == s.pcs[0 := Idle]
    ensures ReaderInv(r)
  {
    hide Announced, Accepts, Open, Subsequence, IdsOf, Handled, ExpectedFile;
    assert PcOf(r, 0) == Idle && Pending(Idle) == [];
    assert r.offered + [] == s.offered + [msg];
  }

  lemma OfferKeepsReader(s: State, room: bool)
    requires ReaderInv(s) && (PcOf(s, 0).Spawned? || PcOf(s, 0).FileRemoved? || PcOf(s, 0).Draining?)
    ensures ReaderInv(AdvanceStep(s, 0, room)) && AdvanceStep(s, 0, room).hasFile == s.hasFile
  {
    OfferStep(s, room);
    var msg := Pending(PcOf(s, 0))[0];
    OfferGrows(s, msg, room);
    hide ReaderInv, Subsequence, AdvanceStep, Handled, ExpectedFile, Pending;
    OfferedKeepsReader(s, AdvanceStep(s, 0, room), msg);
  }

  lemma OfferGrows(s: State, msg: ControlMsg, room: bool)
    requires Subsequence(s.control, s.offered)
    ensures Subsequence(Offer(s, msg, room).control, Offer(s, msg, room).offered)
  {
    hide Subsequence;
    SubsequenceGrows(s.control, s.offered, msg);
  }

  lemma CloseKeepsReader(s: State, room: bool)
    requires ReaderInv(s) && PcOf(s, 0).StopTaken?
    ensures ReaderInv(AdvanceStep(s, 0, room)) && AdvanceStep(s, 0, room).hasFile == s.hasFile
  {
    hide Announced, Accepts, Open, Subsequence;
  }

  lemma FileKeepsReader(s: State, room: bool)
    requires ReaderInv(s) && (PcOf(s, 0).Accepted? || PcOf(s, 0).Written? || PcOf(s, 0).StopClosed?)
    ensures ReaderInv(AdvanceStep(s, 0, room)) && AdvanceStep(s, 0, room).hasFile == s.hasFile
  {
    hide Announced, Accepts, Open, Subsequence;
  }

  lemma AdvanceKeepsReader(s: State, room: bool)
    requires ReaderInv(s)
    ensures ReaderInv(AdvanceStep(s, 0, room)) && AdvanceStep(s, 0, room).hasFile == s.hasFile
  {
    hide ReaderInv;
    match PcOf(s, 0)
    case Idle =>
    case PauseSeen(_) =>
    case Accepted(_) => FileKeepsReader(s, room);
    case Written(_) => FileKeepsReader(s, room);
    case StopTaken(_, _) => CloseKeepsReader(s, room);
    case StopClosed(_) => FileKeepsReader(s, room);
    case _ => OfferKeepsReader(s, room);
  }

  /** The steps of other threads and of the hold loops change nothing the reader
      relies on. */
  lemma OthersKeepReader(s: State, r: State)
    requires ReaderInv(s)
    requires r.hasFile == s.hasFile && r.g.paused == s.g.paused && r.g.ids == s.g.ids && r.log == s.log
    requires r.offered == s.offered && r.control == s.control && r.accepted == s.accepted && r.file == s.file
    requires PcOf(r, 0) == PcOf(s, 0)
    requires forall t :: t in r.pcs && t != 0 ==> r.pcs[t] == Idle || (r.pcs[t].StopTaken? && r.pcs[t].resumed.None?)
    ensures ReaderInv(r)
  {
  }

  lemma OtherThreadKeepsReader(s: State, t: int, room: bool)
    requires ReaderInv(s) && t != 0
    ensures ReaderInv(AdvanceStep(s, t, room)) && AdvanceStep(s, t, room).hasFile == s.hasFile
  {
    hide Announced, Accepts, Open, ExpectedFile, Subsequence, Handled, Pending, IdsOf;
    if t in s.pcs {
      OthersKeepReader(s, AdvanceStep(s, t, room));
    }
  }

  lemma LockStopKeepsReader(s: State, t: int)
    requires ReaderInv(s) && t != 0
    ensures ReaderInv(LockStopStep(s, t)) && LockStopStep(s, t).hasFile == s.hasFile
  {
    hide Announced, Accepts, Open, ExpectedFile, Subsequence, Handled, Pending, IdsOf;
    OthersKeepReader(s, LockStopStep(s, t));
  }

  lemma LoopKeepsReader(s: State, a: Action)
    requires ReaderInv(s) && (a.Tick? || a.Exit?)
    ensures ReaderInv(Step(s, a)) && Step(s, a).hasFile == s.hasFile
  {
    hide Announced, Accepts, Open, ExpectedFile, Subsequence, Handled, Pending, IdsOf;
    OthersKeepReader(s, Step(s, a));
  }

  lemma StepKeepsReader(s: State, a: Action)
    requires ReaderInv(s) && ReaderOnly(a)
    ensures ReaderInv(Step(s, a)) && Step(s, a).hasFile == s.hasFile
  {
    match a
    case Receive(_, m) => if PcOf(s, 0) == Idle { ReceiveKeepsReader(s, m); }
    case LockPause(t) => if PcOf(s, t).PauseSeen? { LockPauseKeepsReader(s); }
    case LockStop(t) => LockStopKeepsReader(s, t);
    case Advance(t, room) => if t == 0 { AdvanceKeepsReader(s, room); } else { OtherThreadKeepsReader(s, t, room); }
    case Tick(_) => LoopKeepsReader(s, a);
    case Exit(_) => LoopKeepsReader(s, a);
  }

  lemma {:induction false} RunKeepsReader(hasFile: bool, acts: seq<Action>)
    requires SingleReader(acts)
    ensures ReaderInv(Run(hasFile, acts)) && Run(hasFile, acts).hasFile == hasFile
  {
    if acts == [] {
      assert IdsOf(Run(hasFile, acts).accepted) == [];
    } else {
      RunKeepsReader(hasFile, acts[..|acts| - 1]);
      StepKeepsReader(Run(hasFile, acts[..|acts| - 1]), acts[|acts| - 1]);
    }
  }

  /** Whenever the reader has finished a message: paused exactly when the last
      pause or resume received is a pause; the ids held are those of the first
      pause of the stretch; the state file, if one is configured, exists exactly
      while paused and holds those ids; the control messages offered are those the
      log calls for, so each resume carries the ids of its own pause, and the
      channel received some of them in order. */
  lemma LogDecidesState(hasFile: bool, acts: seq<Action>)
    requires SingleReader(acts) && PcOf(Run(hasFile, acts), 0) == Idle
    ensures var s := Run(hasFile, acts);
            && (s.g.paused <==> LastControlIsPause(s.log))
            && (forall i: nat :: IsStretchStart(s.log, i) ==> s.g.ids == s.log[i].ids)
            && (!s.g.paused ==> s.g.ids == Ids("", ""))
            && (hasFile ==> s.file == if s.g.paused then Some("paused\n" + s.g.ids.session + "\n" + s.g.ids.issue + "\n") else None)
            && (!hasFile ==> s.file == None)
            && s.offered == Announced(s.log)
            && Subsequence(s.control, s.offered)
  {
    RunKeepsReader(hasFile, acts);
    var s := Run(hasFile, acts);
    OpenIsStretchStart(s.log);
    assert s.offered + [] == s.offered;
    forall i: nat | IsStretchStart(s.log, i) ensures s.g.ids == s.log[i].ids {
      assert Open(s.log) == Some(i);
    }
  }

  /** At every instant, also between two steps of the reader, every lease renewal so
      far carries the ids of the pause its loop was started for: the pause that
      opened the stretch numbered by the loop's channels. */
  lemma RenewalsCarryTheirPause(hasFile: bool, acts: seq<Action>, h: HoldLoop)
    requires SingleReader(acts) && h in Run(hasFile, acts).renewals
    ensures h.stop % 2 == 0 && h.done == h.stop + 1 && h.stop / 2 < |Accepts(Handled(Run(hasFile, acts)))|
    ensures h.ids == Accepts(Handled(Run(hasFile, acts)))[h.stop / 2]
  {
    RunKeepsReader(hasFile, acts);
    RunKeepsInv(hasFile, acts);
    NumberedIds(Run(hasFile, acts), h);
  }

  lemma NumberedIds(s: State, h: HoldLoop)
    requires Numbered(s) && h in s.accepted
    ensures h.stop % 2 == 0 && h.done == h.stop + 1
    ensures h.stop / 2 < |IdsOf(s.accepted)| && IdsOf(s.accepted)[h.stop / 2] == h.ids
  {
    var k :| 0 <= k < |s.accepted| && s.accepted[k] == h;
    assert IdsOf(s.accepted)[k] == h.ids;
  }
}
