/** The life of an agent's row, over any run of the agent statements. */
module Agents {
  import opened Wrappers

  datatype Session = Session(sessionId: string, worktreePath: string, worktreeBranch: string, pid: int)

  datatype Env = Env(taskGroup: string, composeProject: string, serverPort: int, databaseUrl: string, valkeyUrl: string)

  const NO_ENV := Env("", "", 0, "", "")

  datatype Row = Row(
    projectId: Option<int>, session: Session, env: Env, status: string, idle: bool, originallyGlobal: bool,
    lastHeartbeat: int, createdAt: int, disconnectAt: Option<int>)

  type Table = map<string, Row>

  datatype Op =
    | Register(id: string, projectId: Option<int>, session: Session, env: Env, status: string)
    | RegisterGlobal(id: string, session: Session, status: string, idle: bool)
    | Assign(id: string, projectId: Option<int>)
    | Unassign(id: string)
    | Connect(id: string)
    | Disconnect(id: string)
    | Heartbeat(id: string)
    | SetStatus(id: string, status: string)
    | SetIdle(id: string, idle: bool)
    | Delete(id: string)
    | Reap(threshold: int)

  datatype Event = Event(now: int, op: Op)

  // ------------------------------------------------------------- the statements

  function Lookup(t: Table, id: string): Option<Row> {
    if id in t then Some(t[id]) else None
  }

  predicate Stale(r: Row, now: int, threshold: int) {
    r.lastHeartbeat < now - threshold
  }

  function Connected(status: string): string {
    if status == "paused" then "paused" else "active"
  }

  function Disconnected(status: string): string {
    if status == "paused" || status == "draining" then status else "disconnected"
  }

  function Registered(r: Option<Row>, now: int, op: Op): Row
    requires op.Register?
  {
    if r.Some? then r.value.(session := op.session, env := op.env, status := op.status, lastHeartbeat := now)
    else Row(op.projectId, op.session, op.env, op.status, false, false, now, now, None)
  }

  function RegisteredGlobally(r: Option<Row>, now: int, op: Op): Row
    requires op.RegisterGlobal?
  {
    if r.Some? then r.value.(session := op.session, status := op.status, idle := op.idle, lastHeartbeat := now)
    else Row(None, op.session, NO_ENV, op.status, op.idle, true, now, now, None)
  }

  /** An `UPDATE` of a row that exists. */
  function Updated(r: Row, now: int, op: Op): Row {
    match op
    case Assign(_, p) => if r.originallyGlobal then r.(projectId := p) else r
    case Unassign(_) => if r.originallyGlobal then r.(projectId := None) else r
    case Connect(_) => r.(status := Connected(r.status), disconnectAt := None)
    case Disconnect(_) => r.(status := Disconnected(r.status), disconnectAt := Some(now))
    case Heartbeat(_) => r.(lastHeartbeat := now)
    case SetStatus(_, s) => r.(status := s)
    case SetIdle(_, i) => r.(idle := i)
    case _ => r
  }

  /** What a statement does to a row it is aimed at; `None` is no row. */
  function Apply(r: Option<Row>, e: Event): Option<Row> {
    match e.op
    case Register(_, _, _, _, _) => Some(Registered(r, e.now, e.op))
    case RegisterGlobal(_, _, _, _) => Some(RegisteredGlobally(r, e.now, e.op))
    case Delete(_) => None
    case Reap(threshold) => if r.Some? && Stale(r.value, e.now, threshold) then None else r
    case _ => if r.None? then None else Some(Updated(r.value, e.now, e.op))
  }

  function Step(t: Table, e: Event): Table {
    if e.op.Reap? then map id | id in t && Apply(Some(t[id]), e).Some? :: t[id]
    else
      var r := Apply(Lookup(t, e.op.id), e);
      if r.None? then t - {e.op.id} else t[e.op.id := r.value]
  }

  function Replay(es: seq<Event>): Table {
    if es == [] then map[] else Step(Replay(es[..|es| - 1]), es[|es| - 1])
  }

  predicate Targets(op: Op, id: string) {
    op.Reap? || op.id == id
  }

  /** Statements aimed at another agent leave a row alone. */
  lemma LookupStep(t: Table, e: Event, id: string)
    ensures Lookup(Step(t, e), id) == if Targets(e.op, id) then Apply(Lookup(t, id), e) else Lookup(t, id)
  {
  }

  // -------------------------------------------------------------------- a lifetime

  /** The row was inserted by event `b` and has been there ever since. */
  ghost predicate Born(es: seq<Event>, id: string, b: nat) {
    b < |es| && id !in Replay(es[..b]) && forall k :: b < k <= |es| ==> id in Replay(es[..k])
  }

  lemma {:induction false} BirthExists(es: seq<Event>, id: string)
    requires id in Replay(es)
    ensures exists b: nat :: Born(es, id, b)
  {
    var init := es[..|es| - 1];
    assert es[..|es|] == es;
    if id in Replay(init) {
      BirthExists(init, id);
      var b: nat :| Born(init, id, b);
      assert forall k :: 0 <= k < |es| ==> es[..k] == init[..k];
      assert Born(es, id, b);
    } else {
      assert Born(es, id, |es| - 1);
    }
  }

  lemma BornBefore(es: seq<Event>, e: Event, id: string, b: nat)
    requires Born(es + [e], id, b) && b < |es|
    ensures Born(es, id, b) && id in Replay(es)
  {
    var all := es + [e];
    assert forall k :: 0 <= k <= |es| ==> all[..k] == es[..k];
    assert all[..|es|] == es == es[..|es|];
  }

  /** The row before the last event of a lifetime, and after it. */
  lemma LifeStep(es: seq<Event>, e: Event, id: string, b: nat)
    requires Born(es + [e], id, b)
    ensures id in Replay(es + [e]) && Lookup(Replay(es + [e]), id)
            == if Targets(e.op, id) then Apply(Lookup(Replay(es), id), e) else Lookup(Replay(es), id)
    ensures b < |es| ==> Born(es, id, b) && id in Replay(es)
    ensures b == |es| ==> id !in Replay(es) && (e.op.Register? || e.op.RegisterGlobal?) && e.op.id == id
  {
    var all := es + [e];
    assert all[..|all|] == all && all[..|all| - 1] == es;
    LookupStep(Replay(es), e, id);
    if b < |es| {
      BornBefore(es, e, id, b);
    }
  }

  datatype Kind = Pin | Touch | StatusSet | Connection | Reconnect | IdleSet | SessionSet | EnvSet

  predicate Affects(op: Op, id: string, kind: Kind) {
    && !op.Reap? && op.id == id
    && match kind
       case Pin => op.Assign? || op.Unassign?
       case Touch => op.Register? || op.RegisterGlobal? || op.Heartbeat?
       case StatusSet => op.Register? || op.RegisterGlobal? || op.SetStatus?
       case Connection => op.Connect? || op.Disconnect?
       case Reconnect => op.Connect?
       case IdleSet => op.RegisterGlobal? || op.SetIdle?
       case SessionSet => op.Register? || op.RegisterGlobal?
       case EnvSet => op.Register?
  }

  /** The last event of a kind from `b` on. */
  function LastSince(es: seq<Event>, b: nat, id: string, kind: Kind): (r: Option<nat>)
    ensures r.Some? ==> b <= r.value < |es| && Affects(es[r.value].op, id, kind)
                        && forall k :: r.value < k < |es| ==> !Affects(es[k].op, id, kind)
    ensures r.None? ==> forall k :: b <= k < |es| ==> !Affects(es[k].op, id, kind)
  {
    if |es| <= b then None
    else if Affects(es[|es| - 1].op, id, kind) then Some(|es| - 1)
    else LastSince(es[..|es| - 1], b, id, kind)
  }

  lemma LastStep(es: seq<Event>, e: Event, b: nat, id: string, kind: Kind)
    ensures LastSince(es + [e], b, id, kind)
            == if b <= |es| && Affects(e.op, id, kind) then Some(|es|) else LastSince(es, b, id, kind)
  {
    assert (es + [e])[..|es + [e]| - 1] == es;
  }

  // ------------------------------------------------ each column, as history tells it

  /** A project-scoped row keeps the project it was inserted with; a global row has
      the project of its last assign or unassign, and none before the first. */
  function ProjectSince(es: seq<Event>, b: nat, id: string): Option<int>
    requires b < |es|
  {
    if es[b].op.Register? then es[b].op.projectId
    else
      var pin := LastSince(es, b, id, Pin);
      if pin.Some? && es[pin.value].op.Assign? then es[pin.value].op.projectId else None
  }

  /** The status last set; a connection event changes it unless it is `paused`, and
      a disconnect unless it is `draining` and there has been no reconnect. */
  function StatusSince(es: seq<Event>, b: nat, id: string): Option<string> {
    var j := LastSince(es, b, id, StatusSet);
    if j.None? then None
    else
      var s := es[j.value].op.status;
      var c := LastSince(es, j.value, id, Connection);
      if s == "paused" || c.None? then Some(s)
      else if es[c.value].op.Connect? then Some("active")
      else if s == "draining" && LastSince(es, j.value, id, Reconnect).None? then Some(s)
      else Some("disconnected")
  }

  function DisconnectSince(es: seq<Event>, b: nat, id: string): Option<int> {
    var c := LastSince(es, b, id, Connection);
    if c.Some? && es[c.value].op.Disconnect? then Some(es[c.value].now) else None
  }

  function TouchSince(es: seq<Event>, b: nat, id: string): Option<int> {
    var j := LastSince(es, b, id, Touch);
    if j.Some? then Some(es[j.value].now) else None
  }

  function IdleSince(es: seq<Event>, b: nat, id: string): bool {
    var j := LastSince(es, b, id, IdleSet);
    j.Some? && es[j.value].op.idle
  }

  /** The session of the last registration of either kind. */
  function SessionFrom(es: seq<Event>, b: nat, id: string): Option<Session> {
    var j := LastSince(es, b, id, SessionSet);
    if j.Some? then Some(es[j.value].op.session) else None
  }

  /** The environment of the last project registration; empty texts and port 0 when
      there is none. */
  function EnvSince(es: seq<Event>, b: nat, id: string): Env {
    var j := LastSince(es, b, id, EnvSet);
    if j.Some? then es[j.value].op.env else Env("", "", 0, "", "")
  }

  lemma {:induction false} SessionIsTold(es: seq<Event>, id: string, b: nat)
    requires Born(es, id, b)
    ensures id in Replay(es) && SessionFrom(es, b, id) == Some(Replay(es)[id].session)
  {
    assert b < |es|;
    hide Replay, Step, Born, LastSince;
    var init, e := es[..|es| - 1], es[|es| - 1];
    assert es == init + [e];
    LifeStep(init, e, id, b);
    LastStep(init, e, b, id, SessionSet);
    if b < |init| {
      SessionIsTold(init, id, b);
    }
  }

  lemma {:induction false} EnvIsTold(es: seq<Event>, id: string, b: nat)
    requires Born(es, id, b)
    ensures id in Replay(es) && Replay(es)[id].env == EnvSince(es, b, id)
  {
    assert b < |es|;
    hide Replay, Step, Born, LastSince;
    var init, e := es[..|es| - 1], es[|es| - 1];
    assert es == init + [e];
    LifeStep(init, e, id, b);
    LastStep(init, e, b, id, EnvSet);
    if b < |init| {
      EnvIsTold(init, id, b);
    }
  }

  lemma {:induction false} ScopeIsFixedAtBirth(es: seq<Event>, id: string, b: nat)
    requires Born(es, id, b)
    ensures id in Replay(es)
    ensures Replay(es)[id].originallyGlobal <==> es[b].op.RegisterGlobal?
    ensures Replay(es)[id].createdAt == es[b].now
    ensures (es[b].op.Register? || es[b].op.RegisterGlobal?) && es[b].op.id == id
  {
    assert b < |es|;
    hide Replay, Step, Born, LastSince;
    var init, e := es[..|es| - 1], es[|es| - 1];
    assert es == init + [e];
    LifeStep(init, e, id, b);
    if b < |init| {
      ScopeIsFixedAtBirth(init, id, b);
    }
  }

  lemma {:induction false} ProjectIsTold(es: seq<Event>, id: string, b: nat)
    requires Born(es, id, b)
    ensures id in Replay(es) && Replay(es)[id].projectId == ProjectSince(es, b, id)
  {
    assert b < |es|;
    hide Replay, Step, Born, LastSince;
    var init, e := es[..|es| - 1], es[|es| - 1];
    assert es == init + [e];
    LifeStep(init, e, id, b);
    LastStep(init, e, b, id, Pin);
    ScopeIsFixedAtBirth(es, id, b);
    if b < |init| {
      ProjectIsTold(init, id, b);
      ScopeIsFixedAtBirth(init, id, b);
    }
  }

  lemma {:induction false} StatusIsTold(es: seq<Event>, id: string, b: nat)
    requires Born(es, id, b)
    ensures id in Replay(es) && StatusSince(es, b, id) == Some(Replay(es)[id].status)
  {
    assert b < |es|;
    hide Replay, Step, Born, LastSince;
    var init, e := es[..|es| - 1], es[|es| - 1];
    assert es == init + [e];
    LifeStep(init, e, id, b);
    if b < |init| {
      StatusIsTold(init, id, b);
    }
    StatusStep(init, e, id, b);
    ApplySetsStatus(Lookup(Replay(init), id), e, id);
    hide Apply, StatusSince;
  }

  /** What one statement does to the status column of the row it is aimed at. */
  lemma ApplySetsStatus(r: Option<Row>, e: Event, id: string)
    requires Targets(e.op, id) ==> Apply(r, e).Some?
    ensures Affects(e.op, id, StatusSet) ==> Targets(e.op, id) && Apply(r, e).value.status == e.op.status
    ensures r.Some? && Targets(e.op, id) && !Affects(e.op, id, StatusSet) ==>
              Apply(r, e).value.status == if Affects(e.op, id, Reconnect) then Connected(r.value.status)
                                          else if Affects(e.op, id, Connection) then Disconnected(r.value.status)
                                          else r.value.status
    ensures !Targets(e.op, id) ==> forall k :: !Affects(e.op, id, k)
  {
  }

  /** What one event does to the status history tells. */
  lemma StatusStep(es: seq<Event>, e: Event, id: string, b: nat)
    requires b <= |es| && (b == |es| ==> Affects(e.op, id, StatusSet))
    ensures StatusSince(es + [e], b, id)
            == if Affects(e.op, id, StatusSet) then Some(e.op.status)
               else if StatusSince(es, b, id).None? then None
               else if Affects(e.op, id, Reconnect) then Some(Connected(StatusSince(es, b, id).value))
               else if Affects(e.op, id, Connection) then Some(Disconnected(StatusSince(es, b, id).value))
               else StatusSince(es, b, id)
  {
    hide LastSince;
    var j := LastSince(es + [e], b, id, StatusSet);
    LastStep(es, e, b, id, StatusSet);
    if j.Some? {
      LastStep(es, e, j.value, id, Connection);
      LastStep(es, e, j.value, id, Reconnect);
    }
  }

  lemma {:induction false} DisconnectIsTold(es: seq<Event>, id: string, b: nat)
    requires Born(es, id, b)
    ensures id in Replay(es) && Replay(es)[id].disconnectAt == DisconnectSince(es, b, id)
  {
    assert b < |es|;
    hide Replay, Step, Born, LastSince;
    var init, e := es[..|es| - 1], es[|es| - 1];
    assert es == init + [e];
    LifeStep(init, e, id, b);
    LastStep(init, e, b, id, Connection);
    if b < |init| {
      DisconnectIsTold(init, id, b);
    }
  }

  lemma {:induction false} HeartbeatIsTold(es: seq<Event>, id: string, b: nat)
    requires Born(es, id, b)
    ensures id in Replay(es) && TouchSince(es, b, id) == Some(Replay(es)[id].lastHeartbeat)
  {
    assert b < |es|;
    hide Replay, Step, Born, LastSince;
    var init, e := es[..|es| - 1], es[|es| - 1];
    assert es == init + [e];
    LifeStep(init, e, id, b);
    LastStep(init, e, b, id, Touch);
    if b < |init| {
      HeartbeatIsTold(init, id, b);
    }
  }

  lemma {:induction false} IdleIsTold(es: seq<Event>, id: string, b: nat)
    requires Born(es, id, b)
    ensures id in Replay(es) && Replay(es)[id].idle == IdleSince(es, b, id)
  {
    assert b < |es|;
    hide Replay, Step, Born, LastSince;
    var init, e := es[..|es| - 1], es[|es| - 1];
    assert es == init + [e];
    LifeStep(init, e, id, b);
    LastStep(init, e, b, id, IdleSet);
    if b < |init| {
      IdleIsTold(init, id, b);
    }
  }

  // ------------------------------------------------------------- what follows for runs

  /** `paused` comes and goes with registrations and status updates only: no run of
      connects, disconnects, heartbeats, assignments or reaps sets or clears it. */
  lemma PausedIffLastSet(es: seq<Event>, id: string, b: nat)
    requires Born(es, id, b)
    ensures id in Replay(es) && LastSince(es, b, id, StatusSet).Some?
    ensures Replay(es)[id].status == "paused" <==> es[LastSince(es, b, id, StatusSet).value].op.status == "paused"
  {
    hide Replay, LastSince;
    StatusIsTold(es, id, b);
  }

  /** `draining` lasts exactly until the first reconnect. */
  lemma DrainingUntilReconnect(es: seq<Event>, id: string, b: nat, j: nat)
    requires Born(es, id, b) && LastSince(es, b, id, StatusSet) == Some(j) && es[j].op.status == "draining"
    ensures id in Replay(es)
    ensures Replay(es)[id].status == "draining" <==> forall k :: j <= k < |es| ==> !Affects(es[k].op, id, Reconnect)
  {
    hide Replay, LastSince;
    StatusIsTold(es, id, b);
  }

  /** A row goes when it is deleted, or when a reap finds its last touch older than
      the threshold; nothing else removes it. */
  lemma GoneIffDeletedOrSilent(es: seq<Event>, e: Event, id: string, b: nat)
    requires Born(es, id, b)
    ensures TouchSince(es, b, id).Some?
    ensures id !in Replay(es + [e]) <==>
            || (e.op.Delete? && e.op.id == id)
            || (e.op.Reap? && TouchSince(es, b, id).value < e.now - e.op.threshold)
  {
    HeartbeatIsTold(es, id, b);
    assert (es + [e])[..|es|] == es;
    LookupStep(Replay(es), e, id);
    hide TouchSince, LastSince;
  }

  ghost predicate MonotoneClock(es: seq<Event>) {
    forall i, j :: 0 <= i <= j < |es| ==> es[i].now <= es[j].now
  }

  /** A touch not after `k`, and at most `gap` older. */
  ghost predicate TouchedBy(es: seq<Event>, b: nat, id: string, gap: int, k: nat)
    requires k < |es|
  {
    exists j :: b <= j <= k && Affects(es[j].op, id, Touch) && es[k].now - es[j].now <= gap
  }

  lemma SurvivesSoFar(es: seq<Event>, id: string, b: nat, gap: int)
    requires MonotoneClock(es) && b < |es| - 1
    requires forall k :: b <= k < |es| ==> TouchedBy(es, b, id, gap, k)
    ensures var init := es[..|es| - 1];
            && MonotoneClock(init) && init[..b] == es[..b]
            && forall k :: b <= k < |init| ==> TouchedBy(init, b, id, gap, k)
  {
    var init := es[..|es| - 1];
    forall k | b <= k < |init| ensures TouchedBy(init, b, id, gap, k) {
      assert TouchedBy(es, b, id, gap, k);
      var j :| b <= j <= k && Affects(es[j].op, id, Touch) && es[k].now - es[j].now <= gap;
      assert init[j] == es[j] && init[k] == es[k];
    }
  }

  lemma RecentTouch(es: seq<Event>, e: Event, id: string, b: nat, gap: int)
    requires MonotoneClock(es + [e]) && b < |es| && e.op.Reap? && TouchedBy(es + [e], b, id, gap, |es|)
    requires TouchSince(es, b, id).Some?
    ensures e.now - TouchSince(es, b, id).value <= gap
  {
    var all := es + [e];
    var j :| b <= j <= |es| && Affects(all[j].op, id, Touch) && all[|es|].now - all[j].now <= gap;
    var last := LastSince(es, b, id, Touch).value;
    assert j < |es| && all[j] == es[j] && all[last] == es[last];
    assert j <= last;
  }

  lemma BornAfter(es: seq<Event>, e: Event, id: string, b: nat)
    requires Born(es, id, b) && id in Replay(es + [e])
    ensures Born(es + [e], id, b)
  {
    var all := es + [e];
    assert forall k :: 0 <= k <= |es| ==> all[..k] == es[..k];
    assert all[..|all|] == all;
  }

  lemma FirstStep(es: seq<Event>, e: Event, id: string)
    requires id !in Replay(es) && (e.op.Register? || e.op.RegisterGlobal?) && e.op.id == id
    ensures Born(es + [e], id, |es|)
  {
    var all := es + [e];
    assert all[..|es|] == es && all[..|all|] == all;
    LookupStep(Replay(es), e, id);
  }

  /** From its registration on, an agent that is touched at gaps of at most the
      threshold is never reaped. */
  lemma {:induction false} TouchedAgentsSurvive(es: seq<Event>, id: string, b: nat, threshold: int)
    requires MonotoneClock(es)
    requires b < |es| && id !in Replay(es[..b]) && !es[b].op.Reap? && es[b].op.id == id
    requires es[b].op.Register? || es[b].op.RegisterGlobal?
    requires forall k :: b <= k < |es| ==> TouchedBy(es, b, id, threshold, k)
    requires forall k :: b <= k < |es| ==> !(es[k].op.Delete? && es[k].op.id == id)
    requires forall k :: b <= k < |es| && es[k].op.Reap? ==> es[k].op.threshold >= threshold
    ensures Born(es, id, b)
  {
    hide LastSince, Step, Apply;
    var init, e := es[..|es| - 1], es[|es| - 1];
    assert es == init + [e];
    if b == |init| {
      assert es[..b] == init;
      FirstStep(init, e, id);
    } else {
      SurvivesSoFar(es, id, b, threshold);
      TouchedAgentsSurvive(init, id, b, threshold);
      GoneIffDeletedOrSilent(init, e, id, b);
      if e.op.Reap? {
        RecentTouch(init, e, id, b, threshold);
      }
      BornAfter(init, e, id, b);
    }
  }

  // ---------------------------------------------------------------------- the table

  class AgentTable {
    var rows: Table
    ghost var log: seq<Event>

    ghost predicate Valid()
      reads this
    {
      rows == Replay(log)
    }

    constructor ()
      ensures Valid() && log == [] && rows == map[]
    {
      rows, log := map[], [];
    }

    ghost method Record(e: Event)
      requires rows == Step(Replay(log), e)
      modifies this`log
      ensures Valid() && log == old(log) + [e]
    {
      log := log + [e];
      assert log[..|log| - 1] == old(log);
    }

    /** A row that is there keeps its project, its scope and its idle flag. */
    method RegisterAgent(now: int, id: string, projectId: Option<int>, session: Session, env: Env, status: string)
      returns (r: Row)
      requires Valid()
      modifies this
      ensures Valid() && log == old(log) + [Event(now, Register(id, projectId, session, env, status))]
      ensures rows == old(rows)[id := r] && r.session == session && r.env == env && r.status == status && r.lastHeartbeat == now
      ensures id in old(rows) ==>
                var o := old(rows)[id];
                r == o.(session := session, env := env, status := status, lastHeartbeat := now)
      ensures id !in old(rows) ==> r.projectId == projectId && !r.originallyGlobal && !r.idle && r.createdAt == now
    {
      if id !in rows {
        r := Row(projectId, session, env, status, false, false, now, now, None);
      } else {
        r := rows[id].(session := session, env := env, status := status, lastHeartbeat := now);
      }
      rows := rows[id := r];
      Record(Event(now, Register(id, projectId, session, env, status)));
    }

    /** A row that is there keeps its project and its scope, global or not. */
    method RegisterGlobalAgent(now: int, id: string, session: Session, status: string, idle: bool) returns (r: Row)
      requires Valid()
      modifies this
      ensures Valid() && log == old(log) + [Event(now, RegisterGlobal(id, session, status, idle))]
      ensures rows == old(rows)[id := r]
      ensures id in old(rows) ==> r == old(rows)[id].(session := session, status := status, idle := idle, lastHeartbeat := now)
      ensures id !in old(rows) ==> r.projectId == None && r.originallyGlobal && r.env == NO_ENV && r.createdAt == now
    {
      if id !in rows {
        r := Row(None, session, NO_ENV, status, idle, true, now, now, None);
      } else {
        r := rows[id].(session := session, status := status, idle := idle, lastHeartbeat := now);
      }
      rows := rows[id := r];
      Record(Event(now, RegisterGlobal(id, session, status, idle)));
    }

    /** No row comes back for an agent that is missing or project-scoped. */
    method AssignAgentToProject(now: int, id: string, projectId: Option<int>) returns (r: Option<Row>)
      requires Valid()
      modifies this
      ensures Valid() && log == old(log) + [Event(now, Assign(id, projectId))]
      ensures r.Some? <==> id in old(rows) && old(rows)[id].originallyGlobal
      ensures rows == if r.Some? then old(rows)[id := old(rows)[id].(projectId := projectId)] else old(rows)
      ensures r.Some? ==> r.value == rows[id]
    {
      r := None;
      if id in rows && rows[id].originallyGlobal {
        rows := rows[id := rows[id].(projectId := projectId)];
        r := Some(rows[id]);
      }
      Record(Event(now, Assign(id, projectId)));
    }

    method UnassignAgent(now: int, id: string) returns (r: Option<Row>)
      requires Valid()
      modifies this
      ensures Valid() && log == old(log) + [Event(now, Unassign(id))]
      ensures r.Some? <==> id in old(rows) && old(rows)[id].originallyGlobal
      ensures rows == if r.Some? then old(rows)[id := old(rows)[id].(projectId := None)] else old(rows)
      ensures r.Some? ==> r.value == rows[id]
    {
      r := None;
      if id in rows && rows[id].originallyGlobal {
        rows := rows[id := rows[id].(projectId := None)];
        r := Some(rows[id]);
      }
      Record(Event(now, Unassign(id)));
    }

    method MarkAgentConnected(now: int, id: string)
      requires Valid()
      modifies this
      ensures Valid() && log == old(log) + [Event(now, Connect(id))]
      ensures id !in old(rows) ==> rows == old(rows)
      ensures id in old(rows) ==>
                var o := old(rows)[id];
                rows == old(rows)[id := o.(status := if o.status == "paused" then "paused" else "active", disconnectAt := None)]
    {
      if id in rows {
        var status := if rows[id].status == "paused" then "paused" else "active";
        rows := rows[id := rows[id].(status := status, disconnectAt := None)];
      }
      Record(Event(now, Connect(id)));
    }

    method MarkAgentDisconnected(now: int, id: string)
      requires Valid()
      modifies this
      ensures Valid() && log == old(log) + [Event(now, Disconnect(id))]
      ensures id !in old(rows) ==> rows == old(rows)
      ensures id in old(rows) ==>
                var o := old(rows)[id];
                var kept := o.status == "paused" || o.status == "draining";
                rows == old(rows)[id := o.(status := if kept then o.status else "disconnected", disconnectAt := Some(now))]
    {
      if id in rows {
        var status := if rows[id].status in ["paused", "draining"] then rows[id].status else "disconnected";
        rows := rows[id := rows[id].(status := status, disconnectAt := Some(now))];
      }
      Record(Event(now, Disconnect(id)));
    }

    method UpdateAgentHeartbeat(now: int, id: string)
      requires Valid()
      modifies this
      ensures Valid() && log == old(log) + [Event(now, Heartbeat(id))]
      ensures rows == if id in old(rows) then old(rows)[id := old(rows)[id].(lastHeartbeat := now)] else old(rows)
    {
      if id in rows {
        rows := rows[id := rows[id].(lastHeartbeat := now)];
      }
      Record(Event(now, Heartbeat(id)));
    }

    method UpdateAgentStatus(now: int, id: string, status: string)
      requires Valid()
      modifies this
      ensures Valid() && log == old(log) + [Event(now, SetStatus(id, status))]
      ensures rows == if id in old(rows) then old(rows)[id := old(rows)[id].(status := status)] else old(rows)
    {
      if id in rows {
        rows := rows[id := rows[id].(status := status)];
      }
      Record(Event(now, SetStatus(id, status)));
    }

    method SetAgentIdle(now: int, id: string, idle: bool)
      requires Valid()
      modifies this
      ensures Valid() && log == old(log) + [Event(now, SetIdle(id, idle))]
      ensures rows == if id in old(rows) then old(rows)[id := old(rows)[id].(idle := idle)] else old(rows)
    {
      if id in rows {
        rows := rows[id := rows[id].(idle := idle)];
      }
      Record(Event(now, SetIdle(id, idle)));
    }

    method DeleteAgent(now: int, id: string)
      requires Valid()
      modifies this
      ensures Valid() && log == old(log) + [Event(now, Delete(id))]
      ensures rows == old(rows) - {id}
    {
      rows := rows - {id};
      Record(Event(now, Delete(id)));
    }

    /** The rows returned are the rows deleted: every stale one, and no other. */
    method ReapStaleAgents(now: int, threshold: int) returns (gone: Table)
      requires Valid()
      modifies this
      ensures Valid() && log == old(log) + [Event(now, Reap(threshold))]
      ensures forall id :: id in gone <==> id in old(rows) && old(rows)[id].lastHeartbeat < now - threshold
      ensures forall id :: id in rows <==> id in old(rows) && id !in gone
      ensures forall id :: id in gone ==> gone[id] == old(rows)[id]
      ensures forall id :: id in rows ==> rows[id] == old(rows)[id]
    {
      gone := map id | id in rows && rows[id].lastHeartbeat < now - threshold :: rows[id];
      rows := rows - gone.Keys;
      Record(Event(now, Reap(threshold)));
    }
  }
}
