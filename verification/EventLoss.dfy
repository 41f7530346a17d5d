/** What a follower of the event log loses, for appends of any kind.

    Nothing keeps a session from storing a seq twice, or from storing a row behind
    the cursor of a follower. The theorem here says exactly which runs lose a row. */
module EventLoss {
  import opened ClaudeEvents

  function Stored(f: Follower, s: int): multiset<Event> {
    multiset(OfSession(f.events, s))
  }

  /** The rows delivered are exactly the stored rows above the start and not above
      the cursor, each as often as it is stored. */
  ghost predicate NothingLost(f: Follower, s: int, start: int) {
    forall e :: multiset(f.delivered)[e] == if start < e.seq_ <= f.cursor then Stored(f, s)[e] else 0
  }

  /** A page that is not empty holds every stored row with the seq it ends on. */
  ghost predicate IsWhole(f: Follower, s: int, page: seq<Event>) {
    page != [] ==> forall e: Event :: e.seq_ == page[|page| - 1].seq_ ==> multiset(page)[e] == Stored(f, s)[e]
  }

  ghost predicate WholePages(s: int, start: int, ops: seq<Op>) {
    forall i :: 0 <= i < |ops| && ops[i].Poll? ==> IsWhole(Run(start, ops[..i]), s, ops[i].page)
  }

  // ------------------------------------------------------------- what a page holds

  /** The rows between the cursor and the end of a page are on the page, and no row
      beyond either is. */
  ghost predicate Covers(f: Follower, s: int, page: seq<Event>)
    requires page != []
  {
    var last := page[|page| - 1].seq_;
    && last > f.cursor && Ascending(page)
    && (forall e: Event :: e.seq_ <= f.cursor || e.seq_ > last ==> multiset(page)[e] == 0)
    && (forall e: Event :: f.cursor < e.seq_ < last ==> multiset(page)[e] == Stored(f, s)[e])
  }

  lemma CutOfOrder(full: seq<Event>, k: nat, e: Event)
    requires Ascending(full) && 0 < k <= |full|
    ensures e.seq_ > full[k - 1].seq_ ==> multiset(full[..k])[e] == 0
    ensures e.seq_ < full[k - 1].seq_ ==> multiset(full[..k])[e] == multiset(full)[e]
  {
    assert full == full[..k] + full[k..];
    assert e.seq_ > full[k - 1].seq_ ==> e !in full[..k];
    assert e.seq_ < full[k - 1].seq_ ==> e !in full[k..];
  }

  lemma CutAscends(full: seq<Event>, k: nat)
    requires Ascending(full) && k <= |full|
    ensures Ascending(full[..k])
  {
  }

  lemma PageCounts(f: Follower, s: int, full: seq<Event>, k: nat, e: Event)
    requires IsOrderBySeq(After(OfSession(f.events, s), f.cursor), full) && 0 < k <= |full|
    ensures e.seq_ <= f.cursor || e.seq_ > full[k - 1].seq_ ==> multiset(full[..k])[e] == 0
    ensures f.cursor < e.seq_ < full[k - 1].seq_ ==> multiset(full[..k])[e] == Stored(f, s)[e]
  {
    hide After, OfSession;
    AfterCounts(OfSession(f.events, s), f.cursor, e);
    hide Ascending;
    CutOfOrder(full, k, e);
    assert full == full[..k] + full[k..];
  }

  lemma CutCovers(f: Follower, s: int, full: seq<Event>, k: nat)
    requires IsOrderBySeq(After(OfSession(f.events, s), f.cursor), full) && 0 < k <= |full|
    ensures Covers(f, s, full[..k])
  {
    hide Stored, After, OfSession;
    var page, last := full[..k], full[k - 1];
    CutAscends(full, k);
    PageCounts(f, s, full, k, last);
    assert page[k - 1] == last && last in page && multiset(page)[last] > 0;
    forall e: Event
      ensures e.seq_ <= f.cursor || e.seq_ > last.seq_ ==> multiset(page)[e] == 0
      ensures f.cursor < e.seq_ < last.seq_ ==> multiset(page)[e] == Stored(f, s)[e]
    {
      PageCounts(f, s, full, k, e);
    }
    hide IsOrderBySeq, Ascending;
  }

  lemma PageCovers(f: Follower, s: int, limit: nat, page: seq<Event>)
    requires page != [] && IsPage(f.events, s, f.cursor, limit, page)
    ensures Covers(f, s, page)
  {
    hide After, OfSession, IsOrderBySeq, Covers;
    var full :| IsOrderBySeq(After(OfSession(f.events, s), f.cursor), full)
                && page == full[..if limit < |full| then limit else |full|];
    CutCovers(f, s, full, |page|);
  }

  lemma AdvanceToLast(f: Follower, s: int, page: seq<Event>)
    requires page != [] && Covers(f, s, page)
    ensures Advance(f.cursor, page) == page[|page| - 1].seq_
  {
    hide Stored;
    forall i | 0 <= i < |page| ensures page[i].seq_ > f.cursor {
      assert page[i] in page && multiset(page)[page[i]] > 0;
    }
    AdvanceIsLast(f.cursor, page);
  }

  // ------------------------------------------------------------------- single steps

  lemma StoreCounts(f: Follower, s: int, e: Event)
    ensures Stored(Step(f, Append(e)), s) == Stored(f, s) + if e.session == s then multiset{e} else multiset{}
  {
    var events := f.events + [e];
    assert events[..|events| - 1] == f.events;
  }

  lemma AppendLoses(f: Follower, s: int, start: int, e: Event)
    requires NothingLost(f, s, start)
    ensures NothingLost(Step(f, Append(e)), s, start) <==> (e.session == s ==> IsAhead(f, start, e))
  {
    hide Stored;
    var r := Step(f, Append(e));
    StoreCounts(f, s, e);
    if e.session == s && !IsAhead(f, start, e) {
      assert multiset(r.delivered)[e] != Stored(r, s)[e];
    }
  }

  lemma PollLoses(f: Follower, s: int, start: int, limit: nat, page: seq<Event>)
    requires NothingLost(f, s, start) && f.cursor >= start && IsPage(f.events, s, f.cursor, limit, page)
    ensures NothingLost(Step(f, Poll(limit, page)), s, start) <==> IsWhole(f, s, page)
    ensures Step(f, Poll(limit, page)).cursor >= f.cursor
  {
    hide IsPage;
    var r := Step(f, Poll(limit, page));
    assert multiset(r.delivered) == multiset(f.delivered) + multiset(page);
    assert Stored(r, s) == Stored(f, s);
    hide Stored;
    if page == [] {
      assert r == f.(delivered := f.delivered + []) && f.delivered + [] == f.delivered;
    } else {
      PageCovers(f, s, limit, page);
      AdvanceToLast(f, s, page);
      hide Advance;
      if !IsWhole(f, s, page) {
        var e: Event :| e.seq_ == page[|page| - 1].seq_ && multiset(page)[e] != Stored(f, s)[e];
        assert multiset(r.delivered)[e] != Stored(r, s)[e];
      }
    }
  }

  lemma WholePagesInit(s: int, start: int, init: seq<Op>, op: Op)
    ensures WholePages(s, start, init + [op])
            <==> WholePages(s, start, init) && (op.Poll? ==> IsWhole(Run(start, init), s, op.page))
  {
    hide IsWhole, Run;
    var ops := init + [op];
    assert forall i :: 0 <= i <= |init| ==> ops[..i] == init[..i];
    assert forall i :: 0 <= i < |init| ==> ops[i] == init[i];
    assert init[..|init|] == init && ops[|init|] == op;
  }

  // ------------------------------------------------------------------------ the runs

  lemma {:induction false} CursorNeverFalls(start: int, ops: seq<Op>)
    ensures Run(start, ops).cursor >= start
  {
    if ops != [] {
      var f, op := Run(start, ops[..|ops| - 1]), ops[|ops| - 1];
      CursorNeverFalls(start, ops[..|ops| - 1]);
      if op.Poll? {
        AdvanceGrows(f.cursor, op.page);
      }
    }
  }

  lemma NothingLostAtStart(s: int, start: int)
    ensures NothingLost(Run(start, []), s, start)
  {
  }

  /** Exactly when a follower loses nothing, for any appends and any polls: no wanted
      row is stored after its cursor has passed the row's seq, and no page ends amid
      rows that share a seq. */
  lemma {:induction false} NothingLostIff(s: int, start: int, ops: seq<Op>)
    requires Polled(s, start, ops)
    ensures AppendsAhead(s, start, ops) && WholePages(s, start, ops)
            <==> forall n :: 0 <= n <= |ops| ==> NothingLost(Run(start, ops[..n]), s, start)
  {
    hide IsPage, Polled, Run, IsAhead, IsWhole, NothingLost;
    if ops == [] {
      NothingLostAtStart(s, start);
      assert forall n :: 0 <= n <= |ops| ==> ops[..n] == [];
    } else {
      hide AppendsAhead, WholePages;
      var init, op := ops[..|ops| - 1], ops[|ops| - 1];
      assert ops == init + [op] && ops[..|ops|] == ops && init[..|init|] == init;
      assert forall n :: 0 <= n <= |init| ==> ops[..n] == init[..n];
      PolledInit(s, start, init, op);
      AppendsAheadInit(s, start, init, op);
      WholePagesInit(s, start, init, op);
      RunStep(start, init, op);
      CursorNeverFalls(start, init);
      NothingLostIff(s, start, init);
      if NothingLost(Run(start, init), s, start) {
        match op
        case Append(e) => AppendLoses(Run(start, init), s, start, e);
        case Poll(limit, page) => PollLoses(Run(start, init), s, start, limit, page);
      }
    }
  }

  /** What is delivered is in the order of ListClaudeEvents, whatever is lost. */
  lemma {:induction false} DeliveredAscends(s: int, start: int, ops: seq<Op>)
    requires Polled(s, start, ops)
    ensures Ascending(Run(start, ops).delivered)
    ensures forall i :: 0 <= i < |Run(start, ops).delivered| ==> Run(start, ops).delivered[i].seq_ <= Run(start, ops).cursor
  {
    hide IsPage, Polled, Run;
    if ops == [] {
      assert Run(start, ops).delivered == [] by { RunOfNothing(start); }
    } else {
      var init, op := ops[..|ops| - 1], ops[|ops| - 1];
      assert ops == init + [op];
      PolledInit(s, start, init, op);
      RunStep(start, init, op);
      DeliveredAscends(s, start, init);
      if op.Poll? && op.page != [] {
        PageCovers(Run(start, init), s, op.limit, op.page);
        AdvanceToLast(Run(start, init), s, op.page);
        PageIsBetween(Run(start, init), s, op.page);
        hide Advance;
      }
    }
  }

  lemma RunOfNothing(start: int)
    ensures Run(start, []).delivered == []
  {
  }

  lemma PageIsBetween(f: Follower, s: int, page: seq<Event>)
    requires page != [] && Covers(f, s, page)
    ensures forall i :: 0 <= i < |page| ==> f.cursor < page[i].seq_ <= page[|page| - 1].seq_
  {
    hide Stored;
    forall i | 0 <= i < |page| ensures f.cursor < page[i].seq_ {
      assert page[i] in page && multiset(page)[page[i]] > 0;
    }
  }

  // ------------------------------------------------------- appends with seqs of their own

  lemma {:induction false} DistinctCount(rows: seq<Event>, x: Event, e: Event)
    requires DistinctSeqs(rows) && x in rows && e.seq_ == x.seq_
    ensures multiset(rows)[e] == if e == x then 1 else 0
  {
    var init, last := rows[..|rows| - 1], rows[|rows| - 1];
    assert rows == init + [last];
    if x in init {
      DistinctCount(init, x, e);
    } else {
      assert e !in init;
    }
  }

  lemma {:induction false} RunIsDistinct(s: int, start: int, ops: seq<Op>)
    requires AppendsNew(s, start, ops)
    ensures DistinctSeqs(OfSession(Run(start, ops).events, s))
  {
    hide IsNew, Run, DistinctSeqs;
    if ops == [] {
      NothingIsDistinct(s, start);
    } else {
      hide AppendsNew;
      var init, op := ops[..|ops| - 1], ops[|ops| - 1];
      assert ops == init + [op];
      AppendsNewInit(s, start, init, op);
      RunStep(start, init, op);
      RunIsDistinct(s, start, init);
      if op.Append? {
        StoreInserts(Run(start, init), s, start, op.e);
      }
    }
  }

  lemma NothingIsDistinct(s: int, start: int)
    ensures DistinctSeqs(OfSession(Run(start, []).events, s))
  {
  }

  lemma PageIsStored(f: Follower, s: int, limit: nat, page: seq<Event>, e: Event)
    requires IsPage(f.events, s, f.cursor, limit, page)
    ensures multiset(page)[e] <= Stored(f, s)[e]
  {
    hide After, OfSession;
    var full :| IsOrderBySeq(After(OfSession(f.events, s), f.cursor), full)
                && page == full[..if limit < |full| then limit else |full|];
    AfterCounts(OfSession(f.events, s), f.cursor, e);
    assert full == full[..|page|] + full[|page|..];
  }

  lemma DistinctIsWhole(f: Follower, s: int, limit: nat, page: seq<Event>)
    requires DistinctSeqs(OfSession(f.events, s)) && IsPage(f.events, s, f.cursor, limit, page)
    ensures IsWhole(f, s, page)
  {
    hide IsPage, OfSession, DistinctSeqs;
    if page != [] {
      var last := page[|page| - 1];
      assert last in page && multiset(page)[last] >= 1;
      PageIsStored(f, s, limit, page, last);
      forall e: Event | e.seq_ == last.seq_ ensures multiset(page)[e] == Stored(f, s)[e] {
        PageIsStored(f, s, limit, page, e);
        assert last in Stored(f, s);
        DistinctCount(OfSession(f.events, s), last, last);
        DistinctCount(OfSession(f.events, s), last, e);
      }
    }
  }

  /** When every stored row has a seq of its own, no page splits a tie: a follower
      loses nothing exactly when no wanted row is stored behind its cursor. */
  lemma {:induction false} OwnSeqsMakeWholePages(s: int, start: int, ops: seq<Op>)
    requires Polled(s, start, ops) && AppendsNew(s, start, ops)
    ensures WholePages(s, start, ops)
  {
    hide IsPage, Polled, Run, IsWhole, IsNew;
    if ops != [] {
      hide AppendsNew, WholePages;
      var init, op := ops[..|ops| - 1], ops[|ops| - 1];
      assert ops == init + [op];
      PolledInit(s, start, init, op);
      AppendsNewInit(s, start, init, op);
      WholePagesInit(s, start, init, op);
      OwnSeqsMakeWholePages(s, start, init);
      if op.Poll? {
        RunIsDistinct(s, start, init);
        DistinctIsWhole(Run(start, init), s, op.limit, op.page);
      }
    }
  }

  // ----------------------------------------------------------------- inputs that lose

  lemma RunOfThree(start: int, x: Op, y: Op, z: Op)
    ensures Run(start, []) == Follower([], start, []) && Run(start, [x]) == Step(Run(start, []), x)
    ensures Run(start, [x, y]) == Step(Run(start, [x]), y) && Run(start, [x, y, z]) == Step(Run(start, [x, y]), z)
  {
    RunStep(start, [], x);
    RunStep(start, [x], y);
    RunStep(start, [x, y], z);
    assert [] + [x] == [x] && [x] + [y] == [x, y] && [x, y] + [z] == [x, y, z];
  }

  predicate AheadOk(f: Follower, s: int, start: int, op: Op) {
    op.Append? && op.e.session == s ==> IsAhead(f, start, op.e)
  }

  ghost predicate WholeOk(f: Follower, s: int, op: Op) {
    op.Poll? ==> IsWhole(f, s, op.page)
  }

  lemma NothingIsTold(s: int, start: int)
    ensures Polled(s, start, []) && AppendsAhead(s, start, []) && WholePages(s, start, [])
  {
  }

  /** What the run predicates say of three operations. */
  lemma ThreeAreTold(s: int, start: int, x: Op, y: Op, z: Op)
    ensures var f, g, h := Run(start, []), Run(start, [x]), Run(start, [x, y]);
            && (Polled(s, start, [x, y, z]) <==> PollOk(f, s, x) && PollOk(g, s, y) && PollOk(h, s, z))
            && (AppendsAhead(s, start, [x, y, z]) <==> AheadOk(f, s, start, x) && AheadOk(g, s, start, y) && AheadOk(h, s, start, z))
            && (WholePages(s, start, [x, y, z]) <==> WholeOk(f, s, x) && WholeOk(g, s, y) && WholeOk(h, s, z))
  {
    hide Run, Polled, PollOk, AppendsAhead, IsAhead, WholePages, IsWhole;
    NothingIsTold(s, start);
    assert [] + [x] == [x] && [x] + [y] == [x, y] && [x, y] + [z] == [x, y, z];
    PolledInit(s, start, [], x);
    PolledInit(s, start, [x], y);
    PolledInit(s, start, [x, y], z);
    AppendsAheadInit(s, start, [], x);
    AppendsAheadInit(s, start, [x], y);
    AppendsAheadInit(s, start, [x, y], z);
    WholePagesInit(s, start, [], x);
    WholePagesInit(s, start, [x], y);
    WholePagesInit(s, start, [x, y], z);
  }

  lemma AdvanceOverOne(cursor: int, e: Event)
    requires e.seq_ > cursor
    ensures Advance(cursor, [e]) == e.seq_
  {
    assert [e][..0] == [];
  }

  lemma OneOfSession(s: int, a: Event)
    requires a.session == s
    ensures OfSession([a], s) == [a]
  {
    assert [a][..0] == [] && OfSession([], s) + [a] == [a];
  }

  lemma TwoOfSession(s: int, a: Event, b: Event)
    requires a.session == b.session == s
    ensures OfSession([a, b], s) == [a, b]
  {
    OneOfSession(s, a);
    assert [a, b][..1] == [a] && [a] + [b] == [a, b];
  }

  lemma FirstOfTwoIsPage(s: int, start: int, a: Event, b: Event)
    requires a.session == b.session == s && start < a.seq_ <= b.seq_
    ensures IsPage([a, b], s, start, 1, [a])
  {
    hide After, OfSession;
    var two := [a, b];
    TwoOfSession(s, a, b);
    AfterAll(two, start);
    assert two[..1] == [a] && IsOrderBySeq(two, two);
  }

  lemma OnlyOneIsPage(s: int, start: int, a: Event)
    requires a.session == s && start < a.seq_
    ensures IsPage([a], s, start, 1, [a])
  {
    hide After, OfSession;
    var one := [a];
    OneOfSession(s, a);
    AfterAll(one, start);
    assert one[..1] == one && IsOrderBySeq(one, one);
  }

  /** Two rows share a seq and the page limit falls between them: nothing is stored
      behind the cursor, and yet the second row is lost for good. */
  lemma SplitTieIsLost(s: int, start: int, a: Event, b: Event, more: seq<Op>)
    requires a.session == b.session == s && a.seq_ == b.seq_ > start && a != b
    requires Polled(s, start, [Append(a), Append(b), Poll(1, [a])] + more)
    ensures var ops := [Append(a), Append(b), Poll(1, [a])];
            && Polled(s, start, ops) && AppendsAhead(s, start, ops) && !WholePages(s, start, ops)
            && b !in Run(start, ops + more).delivered
  {
    var x, y, z := Append(a), Append(b), Poll(1, [a]);
    RunOfThree(start, x, y, z);
    FirstOfTwoIsPage(s, start, a, b);
    AdvanceOverOne(start, a);
    hide Run, IsPage, Advance, Polled, AppendsAhead, WholePages;
    var f := Run(start, [x, y]);
    StoredOfTwo(f, s, a, b);
    assert multiset([a])[b] == 0 && !IsWhole(f, s, [a]);
    ThreeAreTold(s, start, x, y, z);
    LateRowIsLost(s, start, [x, y, z], more, b);
  }

  lemma StoredOfTwo(f: Follower, s: int, a: Event, b: Event)
    requires f.events == [a, b] && a.session == b.session == s
    ensures Stored(f, s)[b] >= 1
  {
    hide OfSession;
    TwoOfSession(s, a, b);
    assert b in [a, b];
  }

  lemma LateRun(start: int, a: Event, b: Event)
    requires start < a.seq_
    ensures Run(start, []) == Follower([], start, []) && Run(start, [Append(a)]) == Follower([a], start, [])
    ensures Run(start, [Append(a), Poll(1, [a])]) == Follower([a], a.seq_, [a])
    ensures Run(start, [Append(a), Poll(1, [a]), Append(b)]) == Follower([a, b], a.seq_, [a])
  {
    RunOfThree(start, Append(a), Poll(1, [a]), Append(b));
    AdvanceOverOne(start, a);
    hide Run, Advance;
    assert [] + [a] == [a] && [a] + [b] == [a, b];
  }

  /** A row stored behind the cursor is lost for good. */
  lemma LateAppendIsLost(s: int, start: int, a: Event, b: Event, more: seq<Op>)
    requires a.session == b.session == s && start < b.seq_ < a.seq_
    requires Polled(s, start, [Append(a), Poll(1, [a]), Append(b)] + more)
    ensures var ops := [Append(a), Poll(1, [a]), Append(b)];
            Polled(s, start, ops) && !AppendsAhead(s, start, ops) && b !in Run(start, ops + more).delivered
  {
    hide Run, Step, IsPage, IsWhole, Polled, AppendsAhead, WholePages;
    LateRun(start, a, b);
    OnlyOneIsPage(s, start, a);
    ThreeAreTold(s, start, Append(a), Poll(1, [a]), Append(b));
    assert b !in [a];
    LateRowIsLost(s, start, [Append(a), Poll(1, [a]), Append(b)], more, b);
  }
}
