/** The token totals: of a session, of a session's agents, and of an agent. */
module TokenUsage {
  import opened Wrappers
  import opened ClaudeEvents

  /** The four counters, and the number of rows. */
  datatype Tokens = Tokens(input: int, output: int, cacheRead: int, cacheCreation: int, events: int)

  const ZERO := Tokens(0, 0, 0, 0, 0)

  function Plus(a: Tokens, b: Tokens): Tokens {
    Tokens(a.input + b.input, a.output + b.output, a.cacheRead + b.cacheRead,
           a.cacheCreation + b.cacheCreation, a.events + b.events)
  }

  function OrZero(x: Option<int>): int {
    if x.Some? then x.value else 0
  }

  /** `event_type = 'assistant' AND usage IS NOT NULL` */
  predicate Counts(e: Event) {
    e.eventType == "assistant" && e.usage.Some?
  }

  function TokensOf(e: Event): Tokens
    requires Counts(e)
  {
    var u := e.usage.value;
    Tokens(OrZero(u.input), OrZero(u.output), OrZero(u.cacheRead), OrZero(u.cacheCreation), 1)
  }

  datatype Agent = Agent(id: string, type_: string, description: string)

  function AgentOf(e: Event): Agent {
    Agent(e.agentId, e.agentType, e.agentDescription)
  }

  datatype Group = Group(agent: Agent, tokens: Tokens)

  /** The row sets that are summed. */
  datatype Rows =
    | InSession(s: int)
    | OfAgent(agentId: string)
    | OfGroup(s: int, agent: Agent)
    | OfAgentIn(s: int, agentId: string)
    | OfAgents(s: int, agents: set<Agent>)
    | InSessions(sessions: set<int>, agentId: string)

  /** Groups may be restricted to one agent id. */
  predicate Selected(only: Option<string>, a: Agent) {
    only.None? || a.id == only.value
  }

  predicate Has(rows: Rows, e: Event) {
    match rows
    case InSession(s) => e.session == s
    case OfAgent(agentId) => e.agentId == agentId
    case OfGroup(s, agent) => e.session == s && AgentOf(e) == agent
    case OfAgentIn(s, agentId) => e.session == s && e.agentId == agentId
    case OfAgents(s, agents) => e.session == s && AgentOf(e) in agents
    case InSessions(sessions, agentId) => e.session in sessions && e.agentId == agentId
  }

  /** What one row adds when it is in the row set. */
  function ShareIf(e: Event, isIn: bool): Tokens {
    if Counts(e) && isIn then TokensOf(e) else ZERO
  }

  function Share(e: Event, rows: Rows): Tokens {
    ShareIf(e, Has(rows, e))
  }

  /** `coalesce(sum(...), 0)` over the counted rows of the set. */
  function Total(events: seq<Event>, rows: Rows): Tokens {
    if events == [] then ZERO
    else
      var e := events[|events| - 1];
      Plus(Total(events[..|events| - 1], rows), Share(e, rows))
  }

  /** GetClaudeSessionTokenUsage */
  function SessionUsage(events: seq<Event>, s: int): Tokens {
    Total(events, InSession(s))
  }

  /** GetAgentTokenUsage */
  function AgentUsage(events: seq<Event>, agentId: string): Tokens {
    Total(events, OfAgent(agentId))
  }

  /** The group holds its agent's sums. */
  ghost predicate GroupSums(events: seq<Event>, s: int, g: Group) {
    g.tokens == Total(events, OfGroup(s, g.agent))
  }

  ghost predicate HasAgent(out: seq<Group>, a: Agent) {
    exists i :: 0 <= i < |out| && out[i].agent == a
  }

  /** The agent has a counted event in the session. */
  ghost predicate HasEvent(events: seq<Event>, s: int, a: Agent) {
    exists e :: e in events && Counts(e) && e.session == s && AgentOf(e) == a
  }

  /** Rows for different agents, each with its agent's sums. */
  ghost predicate AreGroups(events: seq<Event>, s: int, out: seq<Group>) {
    && (forall i, j :: 0 <= i < j < |out| ==> out[i].agent != out[j].agent)
    && (forall i {:trigger GroupSums(events, s, out[i])} :: 0 <= i < |out| ==> GroupSums(events, s, out[i]))
  }

  /** A possible result of GetClaudeSessionTokenUsageByAgent: one row for each agent
      with a counted event, by descending event count. */
  ghost predicate IsByAgent(events: seq<Event>, s: int, out: seq<Group>) {
    && AreGroups(events, s, out)
    && (forall i, j :: 0 <= i < j < |out| ==> out[i].tokens.events >= out[j].tokens.events)
    && (forall e {:trigger HasAgent(out, AgentOf(e))} ::
          e in events && Counts(e) && e.session == s ==> HasAgent(out, AgentOf(e)))
    && (forall i :: 0 <= i < |out| ==> HasEvent(events, s, out[i].agent))
  }

  /** The sum of the selected rows of a result. */
  function Sum(out: seq<Group>, only: Option<string>): Tokens {
    if out == [] then ZERO
    else
      var g := out[|out| - 1];
      Plus(Sum(out[..|out| - 1], only), if Selected(only, g.agent) then g.tokens else ZERO)
  }

  // ------------------------------------------------------- what one row adds

  /** `after` is `before` with the four counters of the usage added, a missing counter
      adding nothing, and one row more. */
  ghost predicate AddsUsage(before: Tokens, u: Usage, after: Tokens) {
    && after.input == before.input + (if u.input.Some? then u.input.value else 0)
    && after.output == before.output + (if u.output.Some? then u.output.value else 0)
    && after.cacheRead == before.cacheRead + (if u.cacheRead.Some? then u.cacheRead.value else 0)
    && after.cacheCreation == before.cacheCreation + (if u.cacheCreation.Some? then u.cacheCreation.value else 0)
    && after.events == before.events + 1
  }

  lemma TotalStep(events: seq<Event>, e: Event, rows: Rows)
    ensures Total([], rows) == Tokens(0, 0, 0, 0, 0)
    ensures if e.eventType == "assistant" && e.usage.Some? && Has(rows, e)
            then AddsUsage(Total(events, rows), e.usage.value, Total(events + [e], rows))
            else Total(events + [e], rows) == Total(events, rows)
  {
    assert (events + [e])[..|events|] == events;
  }

  /** A row adds its counters to its session's totals when it is an assistant's and
      has a usage, and nothing otherwise. */
  lemma SessionUsageStep(events: seq<Event>, e: Event, s: int)
    ensures SessionUsage([], s) == Tokens(0, 0, 0, 0, 0)
    ensures if e.eventType == "assistant" && e.usage.Some? && e.session == s
            then AddsUsage(SessionUsage(events, s), e.usage.value, SessionUsage(events + [e], s))
            else SessionUsage(events + [e], s) == SessionUsage(events, s)
  {
    hide Total;
    TotalStep(events, e, InSession(s));
  }

  /** The same for an agent's totals, by its id alone. */
  lemma AgentUsageStep(events: seq<Event>, e: Event, agentId: string)
    ensures AgentUsage([], agentId) == Tokens(0, 0, 0, 0, 0)
    ensures if e.eventType == "assistant" && e.usage.Some? && e.agentId == agentId
            then AddsUsage(AgentUsage(events, agentId), e.usage.value, AgentUsage(events + [e], agentId))
            else AgentUsage(events + [e], agentId) == AgentUsage(events, agentId)
  {
    hide Total;
    TotalStep(events, e, OfAgent(agentId));
  }

  /** The same for a group of a session: by id, type and description together. */
  lemma GroupUsageStep(events: seq<Event>, e: Event, s: int, a: Agent)
    ensures Total([], OfGroup(s, a)) == Tokens(0, 0, 0, 0, 0)
    ensures if e.eventType == "assistant" && e.usage.Some? && e.session == s
               && e.agentId == a.id && e.agentType == a.type_ && e.agentDescription == a.description
            then AddsUsage(Total(events, OfGroup(s, a)), e.usage.value, Total(events + [e], OfGroup(s, a)))
            else Total(events + [e], OfGroup(s, a)) == Total(events, OfGroup(s, a))
  {
    hide Total;
    TotalStep(events, e, OfGroup(s, a));
  }

  // ------------------------------------------------------------- additive totals

  lemma {:induction false} TotalSame(events: seq<Event>, p: Rows, q: Rows)
    requires forall e :: e in events && Counts(e) ==> Has(p, e) == Has(q, e)
    ensures Total(events, p) == Total(events, q)
  {
    if events != [] {
      TotalSame(events[..|events| - 1], p, q);
    }
  }

  lemma PlusSwaps(a: Tokens, b: Tokens, x: Tokens, y: Tokens)
    ensures Plus(Plus(a, b), Plus(x, y)) == Plus(Plus(a, x), Plus(b, y))
  {
  }

  lemma {:induction false} TotalAdds(events: seq<Event>, p: Rows, q: Rows, r: Rows)
    requires forall e :: e in events ==> Share(e, r) == Plus(Share(e, p), Share(e, q))
    ensures Total(events, r) == Plus(Total(events, p), Total(events, q))
  {
    if events != [] {
      var init, e := events[..|events| - 1], events[|events| - 1];
      assert e in events;
      TotalAdds(init, p, q, r);
      PlusSwaps(Total(init, p), Total(init, q), Share(e, p), Share(e, q));
    }
  }

  lemma ShareSplits(e: Event, inP: bool, inQ: bool, inR: bool)
    requires !(inP && inQ) && (inR <==> inP || inQ)
    ensures ShareIf(e, inR) == Plus(ShareIf(e, inP), ShareIf(e, inQ))
  {
  }

  lemma {:induction false} TotalNone(events: seq<Event>, p: Rows)
    requires forall e :: e in events && Counts(e) ==> !Has(p, e)
    ensures Total(events, p) == ZERO
  {
    if events != [] {
      TotalNone(events[..|events| - 1], p);
      assert events[|events| - 1] in events;
    }
  }

  /** The agents of the selected groups. */
  function Agents(out: seq<Group>, only: Option<string>): set<Agent> {
    if out == [] then {}
    else
      var a := out[|out| - 1].agent;
      Agents(out[..|out| - 1], only) + if Selected(only, a) then {a} else {}
  }

  lemma {:induction false} AgentsExact(out: seq<Group>, only: Option<string>, a: Agent)
    ensures a in Agents(out, only) <==> Selected(only, a) && HasAgent(out, a)
  {
    if out != [] {
      var n := |out| - 1;
      AgentsExact(out[..n], only, a);
      if HasAgent(out, a) && out[n].agent != a {
        var i :| 0 <= i < |out| && out[i].agent == a;
        assert out[..n][i].agent == a;
      }
      if HasAgent(out[..n], a) {
        var i :| 0 <= i < n && out[..n][i].agent == a;
        assert out[i].agent == a;
      }
    }
  }

  lemma AgentSplits(events: seq<Event>, s: int, agents: set<Agent>, a: Agent)
    requires a !in agents
    ensures Total(events, OfAgents(s, agents + {a}))
            == Plus(Total(events, OfAgents(s, agents)), Total(events, OfGroup(s, a)))
  {
    var p, q, r := OfAgents(s, agents), OfGroup(s, a), OfAgents(s, agents + {a});
    forall e | e in events ensures Share(e, r) == Plus(Share(e, p), Share(e, q)) {
      ShareSplits(e, Has(p, e), Has(q, e), Has(r, e));
    }
    TotalAdds(events, p, q, r);
  }

  lemma LastGroup(events: seq<Event>, s: int, out: seq<Group>)
    requires AreGroups(events, s, out) && out != []
    ensures var before, g := out[..|out| - 1], out[|out| - 1];
            AreGroups(events, s, before) && GroupSums(events, s, g) && !HasAgent(before, g.agent)
  {
    var before := out[..|out| - 1];
    assert GroupSums(events, s, out[|out| - 1]);
    forall i {:trigger GroupSums(events, s, before[i])} | 0 <= i < |before| ensures GroupSums(events, s, before[i]) {
      assert GroupSums(events, s, out[i]) && before[i] == out[i];
    }
  }

  lemma {:induction false} GroupsAddUp(events: seq<Event>, s: int, out: seq<Group>, only: Option<string>)
    requires AreGroups(events, s, out)
    ensures Sum(out, only) == Total(events, OfAgents(s, Agents(out, only)))
    decreases |out|
  {
    hide Total;
    if out == [] {
      TotalNone(events, OfAgents(s, {}));
    } else {
      var before, g := out[..|out| - 1], out[|out| - 1];
      LastGroup(events, s, out);
      GroupsAddUp(events, s, before, only);
      AgentsExact(before, only, g.agent);
      if Selected(only, g.agent) {
        AgentSplits(events, s, Agents(before, only), g.agent);
      } else {
        assert Agents(out, only) == Agents(before, only);
      }
    }
  }

  // --------------------------------------------------------- the rows of a result

  /** Event `e` is an assistant's with a usage, in the session, of that id, type and
      description. */
  ghost predicate IsUsageOf(e: Event, s: int, a: Agent) {
    && e.eventType == "assistant" && e.usage.Some? && e.session == s
    && e.agentId == a.id && e.agentType == a.type_ && e.agentDescription == a.description
  }

  /** A result has a row for an agent exactly when there is such an event, one row for
      each, by descending event count. */
  lemma RowsOfByAgent(events: seq<Event>, s: int, out: seq<Group>, a: Agent)
    requires IsByAgent(events, s, out)
    ensures (exists i :: 0 <= i < |out| && out[i].agent == a) <==> (exists e :: e in events && IsUsageOf(e, s, a))
    ensures forall i, j :: 0 <= i < j < |out| ==> out[i].agent != out[j].agent
    ensures forall i, j :: 0 <= i < j < |out| ==> out[i].tokens.events >= out[j].tokens.events
  {
    if i :| 0 <= i < |out| && out[i].agent == a {
      assert HasEvent(events, s, a);
      var e :| e in events && Counts(e) && e.session == s && AgentOf(e) == a;
      assert IsUsageOf(e, s, a);
    }
    if e :| e in events && IsUsageOf(e, s, a) {
      assert HasAgent(out, AgentOf(e));
    }
  }

  /** The agent of a set with the fewest counted events. */
  lemma {:induction false} FewestEvents(events: seq<Event>, s: int, agents: set<Agent>) returns (a: Agent)
    requires agents != {}
    ensures a in agents
    ensures forall b :: b in agents ==> Total(events, OfGroup(s, b)).events >= Total(events, OfGroup(s, a)).events
  {
    hide Total;
    a :| a in agents;
    if agents != {a} {
      var other := FewestEvents(events, s, agents - {a});
      if Total(events, OfGroup(s, other)).events < Total(events, OfGroup(s, a)).events {
        a := other;
      }
    }
  }

  lemma {:induction false} GroupsExist(events: seq<Event>, s: int, agents: set<Agent>) returns (out: seq<Group>)
    ensures AreGroups(events, s, out) && forall a :: HasAgent(out, a) <==> a in agents
    ensures forall i, j :: 0 <= i < j < |out| ==> out[i].tokens.events >= out[j].tokens.events
  {
    hide Total;
    if agents == {} {
      out := [];
    } else {
      var a := FewestEvents(events, s, agents);
      var rest := GroupsExist(events, s, agents - {a});
      var g := Group(a, Total(events, OfGroup(s, a)));
      out := rest + [g];
      assert forall i :: 0 <= i < |rest| ==> HasAgent(rest, rest[i].agent) && GroupSums(events, s, rest[i]);
      assert out[|rest|] == g && HasAgent(out, a);
      forall b ensures HasAgent(out, b) <==> b in agents {
        if i :| 0 <= i < |out| && out[i].agent == b {
          assert i == |rest| || HasAgent(rest, b);
        }
        if i :| 0 <= i < |rest| && rest[i].agent == b {
          assert out[i].agent == b;
        }
        assert b in agents - {a} <==> HasAgent(rest, b);
      }
    }
  }

  /** There is a result for every table and session. */
  lemma ByAgentExists(events: seq<Event>, s: int) returns (out: seq<Group>)
    ensures IsByAgent(events, s, out)
  {
    hide Total, AreGroups;
    var agents := set e | e in events && Counts(e) && e.session == s :: AgentOf(e);
    out := GroupsExist(events, s, agents);
    forall i | 0 <= i < |out| ensures HasEvent(events, s, out[i].agent) {
      assert HasAgent(out, out[i].agent);
    }
  }

  /** A session's agent rows add up to the session's totals, in every counter and
      in the number of rows, missing counters included. */
  lemma AgentsAddUpToSession(events: seq<Event>, s: int, out: seq<Group>)
    requires IsByAgent(events, s, out)
    ensures Sum(out, None) == SessionUsage(events, s)
  {
    hide Total;
    GroupsAddUp(events, s, out, None);
    forall e | e in events && Counts(e)
      ensures Has(OfAgents(s, Agents(out, None)), e) == Has(InSession(s), e)
    {
      AgentsExact(out, None, AgentOf(e));
    }
    TotalSame(events, OfAgents(s, Agents(out, None)), InSession(s));
  }

  lemma AgentWithinSession(events: seq<Event>, s: int, out: seq<Group>, agentId: string)
    requires IsByAgent(events, s, out)
    ensures Sum(out, Some(agentId)) == Total(events, OfAgentIn(s, agentId))
  {
    hide Total;
    GroupsAddUp(events, s, out, Some(agentId));
    forall e | e in events && Counts(e)
      ensures Has(OfAgents(s, Agents(out, Some(agentId))), e) == Has(OfAgentIn(s, agentId), e)
    {
      AgentsExact(out, Some(agentId), AgentOf(e));
    }
    TotalSame(events, OfAgents(s, Agents(out, Some(agentId))), OfAgentIn(s, agentId));
  }

  /** The sum of one agent's rows in several results. */
  function SumAll(outs: seq<seq<Group>>, agentId: string): Tokens {
    if outs == [] then ZERO else Plus(SumAll(outs[..|outs| - 1], agentId), Sum(outs[|outs| - 1], Some(agentId)))
  }

  lemma SessionSplits(events: seq<Event>, sessions: set<int>, s: int, agentId: string)
    requires s !in sessions
    ensures Total(events, InSessions(sessions + {s}, agentId))
            == Plus(Total(events, InSessions(sessions, agentId)), Total(events, OfAgentIn(s, agentId)))
  {
    var p, q, r := InSessions(sessions, agentId), OfAgentIn(s, agentId), InSessions(sessions + {s}, agentId);
    forall e | e in events ensures Share(e, r) == Plus(Share(e, p), Share(e, q)) {
      ShareSplits(e, Has(p, e), Has(q, e), Has(r, e));
    }
    TotalAdds(events, p, q, r);
  }

  /** One result for each of several distinct sessions. */
  ghost predicate AreByAgent(events: seq<Event>, sessions: seq<int>, outs: seq<seq<Group>>) {
    && |outs| == |sessions|
    && (forall i, j :: 0 <= i < j < |sessions| ==> sessions[i] != sessions[j])
    && (forall i :: 0 <= i < |sessions| ==> IsByAgent(events, sessions[i], outs[i]))
  }

  lemma {:induction false} SessionsAddUp(events: seq<Event>, sessions: seq<int>, outs: seq<seq<Group>>, agentId: string)
    requires AreByAgent(events, sessions, outs)
    ensures SumAll(outs, agentId) == Total(events, InSessions((set s | s in sessions), agentId))
    decreases |sessions|
  {
    hide IsByAgent, Sum;
    hide Total;
    if sessions == [] {
      TotalNone(events, InSessions({}, agentId));
      assert (set s | s in sessions) == {};
    } else {
      var n := |sessions| - 1;
      LastSession(events, sessions, outs, n);
      SessionsAddUp(events, sessions[..n], outs[..n], agentId);
      AgentWithinSession(events, sessions[n], outs[n], agentId);
      SessionSplits(events, (set s | s in sessions[..n]), sessions[n], agentId);
      assert sessions == sessions[..n] + [sessions[n]];
      assert (set s | s in sessions) == (set s | s in sessions[..n]) + {sessions[n]};
    }
  }

  lemma LastSession(events: seq<Event>, sessions: seq<int>, outs: seq<seq<Group>>, n: nat)
    requires AreByAgent(events, sessions, outs) && |sessions| == n + 1
    ensures AreByAgent(events, sessions[..n], outs[..n]) && IsByAgent(events, sessions[n], outs[n])
    ensures sessions[n] !in sessions[..n]
  {
  }

  /** An agent's rows over all sessions add up to the agent's own total. */
  lemma SessionsAddUpToAgent(events: seq<Event>, sessions: seq<int>, outs: seq<seq<Group>>, agentId: string)
    requires AreByAgent(events, sessions, outs)
    requires forall e :: e in events && Counts(e) && e.agentId == agentId ==> e.session in sessions
    ensures SumAll(outs, agentId) == AgentUsage(events, agentId)
  {
    hide Total;
    SessionsAddUp(events, sessions, outs, agentId);
    TotalSame(events, InSessions((set s | s in sessions), agentId), OfAgent(agentId));
  }
}
