/** The daemon as an object whose methods update its fields, proved to take the
    steps of the pause protocol's machine. */
module DaemonObject {
  import opened Wrappers
  import opened PauseProtocol
  import opened PauseLog

  /** The reader's steps for one message: a pause or a resume that changes nothing
      ends with its critical section. */
  function ReaderSteps(m: Message, paused: bool, room: bool): seq<Action> {
    var next := Advance(0, room);
    [Receive(0, m)] +
    match m
    case Pause(_) => [LockPause(0)] + if paused then [] else [next, next, next]
    case Resume => if paused then [next, next, next] else []
    case Drain(_) => [next]
    case Other => []
  }

  class Daemon {
    // guarded by mu
    var paused: bool
    var pausedIds: Ids
    var pauseHoldStop: Option<nat>
    var pauseHoldDone: Option<nat>
    // channels made so far, and those closed
    var nextChan: nat
    var closed: set<nat>
    var stateFile: Option<string>
    var control: seq<ControlMsg>
    const hasFile: bool
    // every step taken so far, by any thread
    ghost var acts: seq<Action>

    ghost function Machine(): State
      reads this
    {
      Run(hasFile, acts)
    }

    /** The fields are those of the machine after the steps taken. */
    ghost predicate Valid()
      reads this
    {
      var s := Machine();
      && Guarded(paused, pausedIds, pauseHoldStop, pauseHoldDone) == s.g
      && nextChan == s.nextChan && closed == s.closed && stateFile == s.file && control == s.control
    }

    /** The reader is between two messages. */
    ghost predicate Ready()
      reads this
    {
      Valid() && SingleReader(acts) && PcOf(Machine(), 0) == Idle
    }

    constructor (hasFile: bool)
      ensures this.hasFile == hasFile && acts == [] && Ready()
    {
      paused, pausedIds, pauseHoldStop, pauseHoldDone := false, NO_IDS, None, None;
      nextChan, closed, stateFile, control := 0, {}, None, [];
      this.hasFile := hasFile;
      acts := [];
    }

    /** Records one step of the machine. */
    ghost method Take(a: Action)
      modifies `acts
      ensures acts == old(acts) + [a] && Machine() == Step(old(Machine()), a)
      ensures old(SingleReader(acts)) && ReaderOnly(a) ==> SingleReader(acts)
    {
      acts := acts + [a];
      assert acts[..|acts| - 1] == old(acts);
    }

    /** Closing a closed channel would panic; the protocol never does. */
    method Close(c: nat)
      requires c !in closed
      modifies `closed
      ensures closed == old(closed) + {c}
    {
      closed := closed + {c};
    }

    method PauseSnapshot() returns (isPaused: bool, ids: Ids)
      requires Valid()
      ensures isPaused == Machine().g.paused && ids == Machine().g.ids
      ensures !isPaused ==> ids == Ids("", "")
    {
      RunKeepsInv(hasFile, acts);
      isPaused, ids := paused, pausedIds;
    }

    /** Handles one message by the reader's steps for it; `room` tells whether the
        control channel can take a message. The reader is ready again. */
    method HandleIncoming(m: Message, room: bool)
      requires Ready()
      modifies this
      ensures Ready() && Machine().log == old(Machine()).log + [m]
      ensures acts == old(acts) + ReaderSteps(m, old(paused), room)
    {
      hide Run, SingleReader;
      match m
      case Pause(ids) =>
        Arrive(m);
        HandlePause(ids, room);
      case Resume => HandleResume(room);
      case Drain(ids) =>
        Arrive(m);
        Announce(ControlMsg(DrainMsg, ids), room);
      case Other => Arrive(m);
    }

    /** The arrival of a message other than a resume: no field changes. */
    ghost method Arrive(m: Message)
      requires Ready() && !m.Resume?
      modifies `acts
      ensures Valid() && SingleReader(acts) && Machine().log == old(Machine()).log + [m]
      ensures PcOf(Machine(), 0) == match m case Pause(ids) => PauseSeen(ids) case Drain(ids) => Draining(ids) case _ => Idle
      ensures acts == old(acts) + [Receive(0, m)]
    {
      Take(Receive(0, m));
    }

    method HandlePause(ids: Ids, room: bool)
      requires Valid() && SingleReader(acts) && PcOf(Machine(), 0) == PauseSeen(ids)
      modifies this
      ensures Ready() && Machine().log == old(Machine()).log
      ensures acts == old(acts) + ReaderSteps(Pause(ids), old(paused), room)[1..]
    {
      hide Run, SingleReader;
      var h := LockForPause(ids);
      if h.Some? {
        WritePauseState(h.value, room);
        StartHold(h.value, room);
        Announce(ControlMsg(PauseMsg, h.value.ids), room);
      }
    }

    /** The critical section of "pause". */
    method LockForPause(ids: Ids) returns (h: Option<HoldLoop>)
      requires Valid() && SingleReader(acts) && PcOf(Machine(), 0) == PauseSeen(ids)
      modifies this
      ensures Valid() && SingleReader(acts) && Machine().log == old(Machine()).log
      ensures PcOf(Machine(), 0) == if h.Some? then Accepted(h.value) else Idle
      ensures h.None? <==> old(paused)
      ensures h.Some? ==> h.value.ids == ids && paused && pausedIds == ids
      ensures acts == old(acts) + [LockPause(0)]
    {
      Take(LockPause(0));
      if paused {
        return None;
      }
      var stop, done := nextChan, nextChan + 1;
      nextChan := nextChan + 2;
      paused, pausedIds, pauseHoldStop, pauseHoldDone := true, ids, Some(stop), Some(done);
      h := Some(HoldLoop(stop, done, ids));
    }

    method WritePauseState(h: HoldLoop, room: bool)
      requires Valid() && SingleReader(acts) && PcOf(Machine(), 0) == Accepted(h)
      modifies this
      ensures Valid() && SingleReader(acts) && Machine().log == old(Machine()).log
      ensures PcOf(Machine(), 0) == Written(h) && acts == old(acts) + [Advance(0, room)]
      ensures stateFile == if hasFile then Some("paused\n" + h.ids.session + "\n" + h.ids.issue + "\n") else old(stateFile)
    {
      HasFileStays();
      if hasFile {
        stateFile := Some(FileBody(h.ids));
      }
      Take(Advance(0, room));
    }

    /** `go runPauseHold(h.stop, h.done, h.ids)` */
    method StartHold(h: HoldLoop, room: bool)
      requires Valid() && SingleReader(acts) && PcOf(Machine(), 0) == Written(h)
      modifies `acts
      ensures Valid() && SingleReader(acts) && Machine().log == old(Machine()).log
      ensures PcOf(Machine(), 0) == Spawned(h) && acts == old(acts) + [Advance(0, room)]
      ensures Machine().running == old(Machine()).running + {h}
    {
      Take(Advance(0, room));
    }

    method RemovePauseState(ids: Ids, room: bool)
      requires Valid() && SingleReader(acts) && PcOf(Machine(), 0) == StopClosed(ids)
      modifies this
      ensures Valid() && SingleReader(acts) && Machine().log == old(Machine()).log
      ensures PcOf(Machine(), 0) == FileRemoved(ids) && acts == old(acts) + [Advance(0, room)]
      ensures stateFile == if hasFile then None else old(stateFile)
    {
      HasFileStays();
      if hasFile {
        stateFile := None;
      }
      Take(Advance(0, room));
    }

    /** The non-blocking send that ends the handling of a message. */
    method Announce(msg: ControlMsg, room: bool)
      requires Valid() && SingleReader(acts) && Pending(PcOf(Machine(), 0)) == [msg]
      requires PcOf(Machine(), 0).Spawned? || PcOf(Machine(), 0).FileRemoved? || PcOf(Machine(), 0).Draining?
      modifies this
      ensures Ready() && Machine().log == old(Machine()).log && acts == old(acts) + [Advance(0, room)]
      ensures control == if room then old(control) + [msg] else old(control)
    {
      if room {
        control := control + [msg];
      }
      Take(Advance(0, room));
    }

    lemma HasFileStays()
      requires SingleReader(acts)
      ensures Machine().hasFile == hasFile
    {
      RunKeepsReader(hasFile, acts);
    }

    method HandleResume(room: bool)
      requires Ready()
      modifies this
      ensures Ready() && Machine().log == old(Machine()).log + [Resume]
      ensures acts == old(acts) + ReaderSteps(Resume, old(paused), room)
    {
      hide Run, SingleReader;
      var wasPaused, ids, stop := LockForResume();
      if wasPaused {
        CloseTaken(0, stop, room);
        RemovePauseState(ids, room);
        Announce(ControlMsg(ResumeMsg, ids), room);
      }
    }

    /** The critical section of "resume". */
    method LockForResume() returns (wasPaused: bool, ids: Ids, stop: Option<nat>)
      requires Ready()
      modifies this
      ensures Valid() && SingleReader(acts) && Machine().log == old(Machine()).log + [Resume]
      ensures PcOf(Machine(), 0) == if wasPaused then StopTaken(stop, Some(ids)) else Idle
      ensures wasPaused == old(paused) && acts == old(acts) + [Receive(0, Resume)]
      ensures wasPaused ==> ids == old(pausedIds) && stop == old(pauseHoldStop)
    {
      Take(Receive(0, Resume));
      if !paused {
        return false, NO_IDS, None;
      }
      wasPaused, ids, stop := true, pausedIds, pauseHoldStop;
      paused, pausedIds, pauseHoldStop, pauseHoldDone := false, NO_IDS, None, None;
    }

    /** Closes the channel a thread took out of the field. */
    method CloseTaken(t: int, stop: Option<nat>, room: bool)
      requires Valid() && PcOf(Machine(), t).StopTaken? && PcOf(Machine(), t).stop == stop
      modifies `closed, `acts
      ensures Valid() && acts == old(acts) + [Advance(t, room)] && Machine().log == old(Machine()).log
      ensures closed == old(closed) + if stop.Some? then {stop.value} else {}
      ensures var resumed := old(PcOf(Machine(), t).resumed);
              PcOf(Machine(), t) == if resumed.Some? then StopClosed(resumed.value) else Idle
      ensures old(SingleReader(acts)) ==> SingleReader(acts)
      ensures t != 0 ==> PcOf(Machine(), 0) == old(PcOf(Machine(), 0))
    {
      if stop.Some? {
        CloseIsSafe(t);
        Close(stop.value);
      }
      Take(Advance(t, room));
    }

    lemma CloseIsSafe(t: int)
      requires PcOf(Machine(), t).StopTaken? && PcOf(Machine(), t).stop.Some?
      ensures PcOf(Machine(), t).stop.value !in Machine().closed
    {
      RunKeepsInv(hasFile, acts);
      var s := Machine();
      assert PcNumbered(s, s.pcs[t]);
      CloseKeepsOwner(s, t, true, s.accepted[PcOf(s, t).stop.value / 2]);
    }

    /** The shutdown path of thread `t`: the hold loop is told to stop, once, and
        neither the pause nor its ids nor the state file change. */
    method StopPauseHold(t: int)
      requires Valid() && PcOf(Machine(), t) == Idle
      modifies this
      ensures Valid() && PcOf(Machine(), t) == Idle && acts == old(acts) + [LockStop(t), Advance(t, false)]
      ensures pauseHoldStop == None && pauseHoldDone == None
      ensures closed == old(closed) + if old(pauseHoldStop).Some? then {old(pauseHoldStop).value} else {}
      ensures paused == old(paused) && pausedIds == old(pausedIds) && stateFile == old(stateFile)
      ensures old(Ready()) && t != 0 ==> Ready() && Machine().log == old(Machine()).log
    {
      hide Run, SingleReader;
      var stop := LockForStop(t);
      CloseTaken(t, stop, false);
    }

    /** The critical section of `stopPauseHold`. */
    method LockForStop(t: int) returns (stop: Option<nat>)
      requires Valid() && PcOf(Machine(), t) == Idle
      modifies this
      ensures Valid() && PcOf(Machine(), t) == StopTaken(stop, None) && acts == old(acts) + [LockStop(t)]
      ensures stop == old(pauseHoldStop) && pauseHoldStop == None && pauseHoldDone == None
      ensures closed == old(closed) && paused == old(paused) && pausedIds == old(pausedIds) && stateFile == old(stateFile)
      ensures Machine().log == old(Machine()).log
      ensures t != 0 ==> PcOf(Machine(), 0) == old(PcOf(Machine(), 0))
      ensures old(SingleReader(acts)) && t != 0 ==> SingleReader(acts)
    {
      Take(LockStop(t));
      stop := pauseHoldStop;
      pauseHoldStop, pauseHoldDone := None, None;
    }

    /** The read pump, on a daemon with any past: any earlier messages, shutdowns by
        other threads and hold loops. `rooms[i]` tells whether the control channel has
        room when message `i` is announced. Afterwards the fields say what all the
        messages so far say. */
    method ReadAll(messages: seq<Message>, rooms: seq<bool>)
      requires Ready() && |rooms| == |messages|
      modifies this
      ensures Ready() && Machine().log == old(Machine()).log + messages
      ensures paused <==> LastControlIsPause(Machine().log)
      ensures forall i: nat :: IsStretchStart(Machine().log, i) ==> pausedIds == Machine().log[i].ids
      ensures stateFile == if hasFile && paused then Some("paused\n" + pausedIds.session + "\n" + pausedIds.issue + "\n") else None
      ensures Machine().offered == Announced(Machine().log) && Subsequence(control, Machine().offered)
    {
      ghost var log := Machine().log;
      hide Run, SingleReader;
      assert log + messages[..0] == log;
      for i := 0 to |messages|
        invariant Ready() && Machine().log == log + messages[..i]
      {
        HandleIncoming(messages[i], rooms[i]);
        assert log + messages[..i] + [messages[i]] == log + messages[..i + 1];
      }
      assert messages[..|messages|] == messages;
      LogDecidesState(hasFile, acts);
    }
  }
}
