/** The event log of Claude sessions: listing, tailing and ingest. */
module ClaudeEvents {
  import opened Wrappers

  /** Token counters of one message; a missing counter is NULL. */
  datatype Usage = Usage(input: Option<int>, output: Option<int>, cacheRead: Option<int>, cacheCreation: Option<int>)

  datatype Event = Event(
    session: int, seq_: int, eventType: string, usage: Option<Usage>,
    agentId: string, agentType: string, agentDescription: string)

  // -------------------------------------------------------------- listing queries

  function OfSession(events: seq<Event>, s: int): seq<Event> {
    if events == [] then []
    else
      var e := events[|events| - 1];
      OfSession(events[..|events| - 1], s) + if e.session == s then [e] else []
  }

  function After(rows: seq<Event>, cursor: int): seq<Event> {
    if rows == [] then []
    else
      var e := rows[|rows| - 1];
      After(rows[..|rows| - 1], cursor) + if e.seq_ > cursor then [e] else []
  }

  lemma {:induction false} AfterHas(rows: seq<Event>, cursor: int, e: Event)
    ensures e in After(rows, cursor) <==> e in rows && e.seq_ > cursor
  {
    if rows != [] {
      var init := rows[..|rows| - 1];
      AfterHas(init, cursor, e);
      assert rows == init + [rows[|rows| - 1]];
    }
  }

  lemma {:induction false} AfterNone(rows: seq<Event>, c: int)
    requires forall i :: 0 <= i < |rows| ==> rows[i].seq_ <= c
    ensures After(rows, c) == []
  {
    if rows != [] {
      AfterNone(rows[..|rows| - 1], c);
    }
  }

  lemma {:induction false} AfterAll(rows: seq<Event>, c: int)
    requires forall i :: 0 <= i < |rows| ==> rows[i].seq_ > c
    ensures After(rows, c) == rows
  {
    if rows != [] {
      AfterAll(rows[..|rows| - 1], c);
    }
  }

  ghost predicate Ascending(rows: seq<Event>) {
    forall i, j :: 0 <= i < j < |rows| ==> rows[i].seq_ <= rows[j].seq_
  }

  /** `ORDER BY seq`: some arrangement of the rows; equal seqs leave it open. */
  ghost predicate IsOrderBySeq(rows: seq<Event>, out: seq<Event>) {
    multiset(out) == multiset(rows) && Ascending(out)
  }

  /** A possible result of ListClaudeEvents. */
  ghost predicate IsListing(events: seq<Event>, s: int, out: seq<Event>) {
    IsOrderBySeq(OfSession(events, s), out)
  }

  /** A possible result of ListClaudeEventsSinceSeq. */
  ghost predicate IsPage(events: seq<Event>, s: int, cursor: int, limit: nat, page: seq<Event>) {
    exists full :: IsOrderBySeq(After(OfSession(events, s), cursor), full)
                   && page == full[..if limit < |full| then limit else |full|]
  }

  /** The session's rows, each as often as it is in the table, and no other row. */
  lemma {:induction false} OfSessionCounts(events: seq<Event>, s: int, e: Event)
    ensures multiset(OfSession(events, s))[e] == if e.session == s then multiset(events)[e] else 0
  {
    if events != [] {
      var init, last := events[..|events| - 1], events[|events| - 1];
      OfSessionCounts(init, s, e);
      assert events == init + [last];
    }
  }

  lemma OfSessionHas(events: seq<Event>, s: int, e: Event)
    ensures e in OfSession(events, s) <==> e in events && e.session == s
  {
    hide OfSession;
    OfSessionCounts(events, s, e);
    assert e in OfSession(events, s) <==> multiset(OfSession(events, s))[e] > 0;
    assert e in events <==> multiset(events)[e] > 0;
  }

  /** `max(seq)` over the session; NULL when it has no row. */
  function MaxOf(events: seq<Event>, s: int): Option<int> {
    if events == [] then None
    else
      var rest, e := MaxOf(events[..|events| - 1], s), events[|events| - 1];
      if e.session != s then rest
      else if rest.None? || e.seq_ > rest.value then Some(e.seq_)
      else rest
  }

  /** `coalesce(max(seq), -1)` over the session. */
  function MaxSeq(events: seq<Event>, s: int): int {
    if MaxOf(events, s).Some? then MaxOf(events, s).value else -1
  }

  /** Some row of the session has that seq. */
  ghost predicate HasRow(events: seq<Event>, s: int, q: int) {
    exists i :: 0 <= i < |events| && events[i].session == s && events[i].seq_ == q
  }

  ghost predicate NoRow(events: seq<Event>, s: int) {
    forall i :: 0 <= i < |events| ==> events[i].session != s
  }

  /** `x` exceeds the seq of every row of the session. */
  ghost predicate AboveRows(events: seq<Event>, s: int, x: int) {
    forall i :: 0 <= i < |events| && events[i].session == s ==> events[i].seq_ < x
  }

  lemma {:induction false} MaxOfExact(events: seq<Event>, s: int)
    ensures MaxOf(events, s).None? <==> NoRow(events, s)
    ensures MaxOf(events, s).Some? ==> HasRow(events, s, MaxOf(events, s).value) && AboveRows(events, s, MaxOf(events, s).value + 1)
  {
    if events != [] {
      var init, e := events[..|events| - 1], events[|events| - 1];
      MaxOfExact(init, s);
      assert events == init + [e];
      if e.session == s && MaxOf(events, s) == Some(e.seq_) {
        assert events[|init|].session == s && events[|init|].seq_ == e.seq_;
      } else if MaxOf(init, s).Some? {
        var i :| 0 <= i < |init| && init[i].session == s && init[i].seq_ == MaxOf(init, s).value;
        assert events[i].session == s;
      }
    }
  }

  /** The largest seq is that of a row of the session, or -1 when it has none, and no
      row of the session exceeds it. */
  lemma MaxSeqExact(events: seq<Event>, s: int)
    ensures if NoRow(events, s) then MaxSeq(events, s) == -1 else HasRow(events, s, MaxSeq(events, s))
    ensures forall x :: x > MaxSeq(events, s) <==> AboveRows(events, s, x) && (NoRow(events, s) ==> x > -1)
  {
    hide MaxOf;
    MaxOfExact(events, s);
    var m := MaxSeq(events, s);
    forall x ensures x > m <==> AboveRows(events, s, x) && (NoRow(events, s) ==> x > -1) {
      if x <= m && !NoRow(events, s) {
        var i :| 0 <= i < |events| && events[i].session == s && events[i].seq_ == m;
        assert !AboveRows(events, s, x);
      }
    }
  }

  lemma MaxSeqBounds(events: seq<Event>, s: int)
    ensures forall i :: 0 <= i < |OfSession(events, s)| ==> OfSession(events, s)[i].seq_ <= MaxSeq(events, s)
  {
    MaxSeqExact(events, s);
    hide OfSession, MaxSeq;
    assert AboveRows(events, s, MaxSeq(events, s) + 1);
    forall i | 0 <= i < |OfSession(events, s)| ensures OfSession(events, s)[i].seq_ <= MaxSeq(events, s) {
      OfSessionHas(events, s, OfSession(events, s)[i]);
    }
  }

  // ------------------------------------------------------------------- the tail

  ghost predicate Increasing(rows: seq<Event>) {
    forall i, j :: 0 <= i < j < |rows| ==> rows[i].seq_ < rows[j].seq_
  }

  /** The last row of an ordering is the largest, and the rest is an ordering. */
  lemma LastAgrees(rows: seq<Event>, out: seq<Event>, n: nat)
    requires Increasing(rows) && IsOrderBySeq(rows, out) && |rows| == |out| == n + 1
    ensures out[n] == rows[n]
  {
    assert out[n] in multiset(rows) && rows[n] in multiset(out);
    var i :| 0 <= i < |rows| && rows[i] == out[n];
    var j :| 0 <= j < |out| && out[j] == rows[n];
    assert out[j].seq_ <= out[n].seq_ && rows[i].seq_ <= rows[n].seq_;
  }

  lemma WithoutLast(rows: seq<Event>, out: seq<Event>, e: Event)
    requires Increasing(rows + [e]) && IsOrderBySeq(rows + [e], out + [e])
    ensures Increasing(rows) && IsOrderBySeq(rows, out)
  {
    assert multiset(rows) == multiset(rows + [e]) - multiset{e};
    assert multiset(out) == multiset(out + [e]) - multiset{e};
    assert forall i :: 0 <= i < |rows| ==> rows[i] == (rows + [e])[i];
    assert forall i :: 0 <= i < |out| ==> out[i] == (out + [e])[i];
  }

  /** With distinct seqs the order is decided. */
  lemma {:induction false} OrderIsUnique(rows: seq<Event>, out: seq<Event>)
    requires Increasing(rows) && IsOrderBySeq(rows, out)
    ensures out == rows
    decreases |rows|
  {
    assert |out| == |multiset(out)| == |multiset(rows)| == |rows|;
    if rows != [] {
      var n := |rows| - 1;
      LastAgrees(rows, out, n);
      var e := rows[n];
      assert rows == rows[..n] + [e] && out == out[..n] + [e];
      WithoutLast(rows[..n], out[..n], e);
      OrderIsUnique(rows[..n], out[..n]);
    }
  }

  lemma {:induction false} AfterIsIncreasing(rows: seq<Event>, c: int)
    requires Increasing(rows)
    ensures Increasing(After(rows, c))
    ensures forall i :: 0 <= i < |After(rows, c)| ==>
              After(rows, c)[i].seq_ > c && After(rows, c)[i].seq_ <= rows[|rows| - 1].seq_
  {
    if rows != [] {
      var n := |rows| - 1;
      AfterIsIncreasing(rows[..n], c);
      if n > 0 {
        assert rows[..n][n - 1].seq_ < rows[n].seq_;
      }
    }
  }

  /** What follows the `k`-th row is everything above its seq. */
  lemma {:induction false} AfterSplits(rows: seq<Event>, k: nat)
    requires Increasing(rows) && 0 < k <= |rows|
    ensures After(rows, rows[k - 1].seq_) == rows[k..]
    decreases |rows|
  {
    var n := |rows| - 1;
    if k == |rows| {
      AfterNone(rows, rows[n].seq_);
    } else {
      AfterSplits(rows[..n], k);
      assert rows[..n][k - 1] == rows[k - 1] && rows[k..] == rows[..n][k..] + [rows[n]];
    }
  }

  lemma AfterAppend(rows: seq<Event>, e: Event, c: int)
    ensures After(rows + [e], c) == After(rows, c) + if e.seq_ > c then [e] else []
  {
    assert (rows + [e])[..|rows|] == rows;
  }

  lemma AfterTwiceStep(init: seq<Event>, e: Event, c: int, d: int)
    requires c <= d && After(After(init, c), d) == After(init, d)
    ensures After(After(init + [e], c), d) == After(init + [e], d)
  {
    AfterAppend(init, e, c);
    AfterAppend(init, e, d);
    if e.seq_ > c {
      AfterAppend(After(init, c), e, d);
    } else {
      assert After(init, c) + [] == After(init, c) && After(init, d) + [] == After(init, d);
    }
  }

  lemma {:induction false} AfterTwice(rows: seq<Event>, c: int, d: int)
    requires c <= d
    ensures After(After(rows, c), d) == After(rows, d)
  {
    hide After;
    if rows == [] {
      AfterNone(rows, c);
    } else {
      var init, e := rows[..|rows| - 1], rows[|rows| - 1];
      AfterTwice(init, c, d);
      AfterTwiceStep(init, e, c, d);
      assert rows == init + [e];
    }
  }

  lemma {:induction false} AfterCounts(rows: seq<Event>, c: int, e: Event)
    ensures multiset(After(rows, c))[e] == if e.seq_ > c then multiset(rows)[e] else 0
  {
    if rows == [] {
      AfterNone(rows, c);
    } else {
      hide After;
      var init, last := rows[..|rows| - 1], rows[|rows| - 1];
      AfterCounts(init, c, e);
      AfterAppend(init, last, c);
      assert rows == init + [last];
    }
  }

  lemma AfterKeepsSame(a: seq<Event>, b: seq<Event>, c: int)
    requires multiset(a) == multiset(b)
    ensures multiset(After(a, c)) == multiset(After(b, c))
  {
    hide After;
    forall e ensures multiset(After(a, c))[e] == multiset(After(b, c))[e] {
      AfterCounts(a, c, e);
      AfterCounts(b, c, e);
    }
  }

  // ------------------------------------------------------- the rows in seq order

  ghost predicate DistinctSeqs(rows: seq<Event>) {
    forall i, j :: 0 <= i < j < |rows| ==> rows[i].seq_ != rows[j].seq_
  }

  ghost predicate HasSeq(rows: seq<Event>, q: int) {
    exists i :: 0 <= i < |rows| && rows[i].seq_ == q
  }

  ghost function Insert(rows: seq<Event>, e: Event): (r: seq<Event>)
    ensures multiset(r) == multiset(rows) + multiset{e} && |r| == |rows| + 1
  {
    if rows == [] || rows[|rows| - 1].seq_ < e.seq_ then rows + [e]
    else
      var init, last := rows[..|rows| - 1], rows[|rows| - 1];
      assert rows == init + [last];
      Insert(init, e) + [last]
  }

  /** The rows in ascending order of seq. */
  ghost function InOrder(rows: seq<Event>): (r: seq<Event>)
    ensures multiset(r) == multiset(rows) && |r| == |rows|
  {
    if rows == [] then []
    else
      assert rows == rows[..|rows| - 1] + [rows[|rows| - 1]];
      Insert(InOrder(rows[..|rows| - 1]), rows[|rows| - 1])
  }

  lemma SameHaveSeq(a: seq<Event>, b: seq<Event>, q: int)
    requires multiset(a) == multiset(b) && HasSeq(a, q)
    ensures HasSeq(b, q)
  {
    var i :| 0 <= i < |a| && a[i].seq_ == q;
    assert a[i] in multiset(b);
    var j :| 0 <= j < |b| && b[j] == a[i];
  }

  lemma {:induction false} InsertIncreases(rows: seq<Event>, e: Event)
    requires Increasing(rows) && !HasSeq(rows, e.seq_)
    ensures Increasing(Insert(rows, e))
    ensures forall i :: 0 <= i < |rows| + 1 ==>
              Insert(rows, e)[i].seq_ <= e.seq_ || (rows != [] && Insert(rows, e)[i].seq_ <= rows[|rows| - 1].seq_)
  {
    if rows != [] && rows[|rows| - 1].seq_ >= e.seq_ {
      var init, last := rows[..|rows| - 1], rows[|rows| - 1];
      InsertIncreases(init, e);
    }
  }

  lemma {:induction false} InOrderIncreases(rows: seq<Event>)
    requires DistinctSeqs(rows)
    ensures Increasing(InOrder(rows))
  {
    if rows != [] {
      var init, e := rows[..|rows| - 1], rows[|rows| - 1];
      InOrderIncreases(init);
      assert !HasSeq(init, e.seq_);
      if HasSeq(InOrder(init), e.seq_) {
        SameHaveSeq(InOrder(init), init, e.seq_);
      }
      InsertIncreases(InOrder(init), e);
    }
  }

  lemma InsertAtEnd(rows: seq<Event>, e: Event)
    requires forall i :: 0 <= i < |rows| ==> rows[i].seq_ < e.seq_
    ensures Insert(rows, e) == rows + [e]
  {
  }

  lemma InsertBefore(rows: seq<Event>, last: Event, e: Event)
    requires last.seq_ >= e.seq_
    ensures Insert(rows + [last], e) == Insert(rows, e) + [last]
  {
    assert (rows + [last])[..|rows|] == rows;
  }

  /** Insertion commutes with taking the rows above `c`. */
  lemma {:induction false} AfterInsert(rows: seq<Event>, e: Event, c: int)
    requires Increasing(rows)
    ensures After(Insert(rows, e), c) == if e.seq_ > c then Insert(After(rows, c), e) else After(rows, c)
  {
    hide After, Insert;
    if rows == [] || rows[|rows| - 1].seq_ < e.seq_ {
      InsertAtEnd(rows, e);
      AfterAppend(rows, e, c);
      AfterIsIncreasing(rows, c);
      if rows == [] {
        AfterNone(rows, c);
      }
      InsertAtEnd(After(rows, c), e);
    } else {
      var init, last := rows[..|rows| - 1], rows[|rows| - 1];
      assert rows == init + [last];
      AfterInsert(init, e, c);
      InsertBefore(init, last, e);
      AfterAppend(Insert(init, e), last, c);
      AfterAppend(init, last, c);
      InsertBefore(After(init, c), last, e);
    }
  }

  /** Insertion beyond the first `k` rows leaves them; insertion among them does not. */
  lemma {:induction false} InsertKeepsPrefix(rows: seq<Event>, e: Event, k: nat)
    requires Increasing(rows) && k <= |rows| && (k > 0 ==> rows[k - 1].seq_ < e.seq_)
    ensures Insert(rows, e)[..k] == rows[..k]
  {
    if rows != [] && rows[|rows| - 1].seq_ >= e.seq_ {
      InsertKeepsPrefix(rows[..|rows| - 1], e, k);
    }
  }

  lemma {:induction false} InsertBreaksPrefix(rows: seq<Event>, e: Event, k: nat)
    requires Increasing(rows) && 0 < k <= |rows| && rows[k - 1].seq_ > e.seq_
    ensures e in Insert(rows, e)[..k]
  {
    var init, last := rows[..|rows| - 1], rows[|rows| - 1];
    var r := Insert(init, e);
    assert Insert(rows, e) == r + [last];
    if k < |rows| {
      InsertBreaksPrefix(init, e, k);
      assert (r + [last])[..k] == r[..k];
    } else {
      assert (r + [last])[..k] == r;
      assert e in multiset(r);
    }
  }

  // ------------------------------------------------------------------- following

  datatype Op = Append(e: Event) | Poll(limit: nat, page: seq<Event>)

  datatype Follower = Follower(events: seq<Event>, cursor: int, delivered: seq<Event>)

  /** The cursor moves to the largest seq of the page. */
  function Advance(cursor: int, page: seq<Event>): int {
    if page == [] then cursor
    else
      var c := Advance(cursor, page[..|page| - 1]);
      if page[|page| - 1].seq_ > c then page[|page| - 1].seq_ else c
  }

  function Step(f: Follower, op: Op): Follower {
    match op
    case Append(e) => f.(events := f.events + [e])
    case Poll(_, page) => f.(cursor := Advance(f.cursor, page), delivered := f.delivered + page)
  }

  function Run(start: int, ops: seq<Op>): Follower {
    if ops == [] then Follower([], start, []) else Step(Run(start, ops[..|ops| - 1]), ops[|ops| - 1])
  }

  ghost predicate PollOk(f: Follower, s: int, op: Op) {
    op.Poll? ==> op.limit >= 1 && IsPage(f.events, s, f.cursor, op.limit, op.page)
  }

  /** Every poll returned a possible page with a limit of at least one. */
  ghost predicate Polled(s: int, start: int, ops: seq<Op>) {
    forall i :: 0 <= i < |ops| ==> PollOk(Run(start, ops[..i]), s, ops[i])
  }

  /** Every append to the session exceeded its largest seq. */
  ghost predicate AppendsAbove(s: int, start: int, ops: seq<Op>) {
    forall i :: 0 <= i < |ops| && ops[i].Append? && ops[i].e.session == s ==>
      ops[i].e.seq_ > MaxSeq(Run(start, ops[..i]).events, s)
  }

  /** No stored row has the seq of `e`. */
  ghost predicate IsNew(f: Follower, s: int, e: Event) {
    !HasSeq(OfSession(f.events, s), e.seq_)
  }

  /** The follower has not passed `e`, or does not want it. */
  predicate IsAhead(f: Follower, start: int, e: Event) {
    e.seq_ > f.cursor || e.seq_ <= start
  }

  ghost predicate AppendsNew(s: int, start: int, ops: seq<Op>) {
    forall i :: 0 <= i < |ops| && ops[i].Append? && ops[i].e.session == s ==> IsNew(Run(start, ops[..i]), s, ops[i].e)
  }

  /** Every append to the session came before the follower had passed its seq. */
  ghost predicate AppendsAhead(s: int, start: int, ops: seq<Op>) {
    forall i :: 0 <= i < |ops| && ops[i].Append? && ops[i].e.session == s ==>
      IsAhead(Run(start, ops[..i]), start, ops[i].e)
  }

  ghost function Rows(f: Follower, s: int): (r: seq<Event>)
    ensures multiset(r) == multiset(OfSession(f.events, s))
  {
    InOrder(OfSession(f.events, s))
  }

  /** All rows the follower is to see so far. */
  ghost function Wanted(f: Follower, s: int, start: int): seq<Event> {
    After(Rows(f, s), start)
  }

  ghost predicate Tailing(f: Follower, s: int, start: int) {
    && DistinctSeqs(OfSession(f.events, s)) && Increasing(Rows(f, s))
    && |f.delivered| <= |Wanted(f, s, start)|
    && f.delivered == Wanted(f, s, start)[..|f.delivered|]
    && f.cursor == if f.delivered == [] then start else f.delivered[|f.delivered| - 1].seq_
  }

  lemma IncreasingAppend(rows: seq<Event>, e: Event)
    requires Increasing(rows) && forall i :: 0 <= i < |rows| ==> rows[i].seq_ < e.seq_
    ensures Increasing(rows + [e])
  {
  }

  lemma DistinctAppend(rows: seq<Event>, e: Event)
    requires DistinctSeqs(rows) && !HasSeq(rows, e.seq_)
    ensures DistinctSeqs(rows + [e])
  {
  }

  /** What storing a new row does to the rows wanted. */
  lemma StoreInserts(f: Follower, s: int, start: int, e: Event)
    requires DistinctSeqs(OfSession(f.events, s)) && (e.session == s ==> IsNew(f, s, e))
    ensures var r := Step(f, Append(e));
            && DistinctSeqs(OfSession(r.events, s)) && Increasing(Rows(r, s))
            && Wanted(r, s, start)
               == if e.session == s && e.seq_ > start then Insert(Wanted(f, s, start), e) else Wanted(f, s, start)
  {
    hide After, Insert, HasSeq, Increasing;
    var r, rows := Step(f, Append(e)), OfSession(f.events, s);
    assert r.events[..|r.events| - 1] == f.events;
    InOrderIncreases(rows);
    if e.session == s {
      DistinctAppend(rows, e);
      InOrderIncreases(rows + [e]);
      assert (rows + [e])[..|rows|] == rows;
      assert InOrder(rows + [e]) == Insert(InOrder(rows), e);
      AfterInsert(InOrder(rows), e, start);
    } else {
      assert OfSession(r.events, s) == rows + [] == rows;
    }
  }

  lemma AppendKeepsTailing(f: Follower, s: int, start: int, e: Event)
    requires Tailing(f, s, start) && (e.session == s ==> IsNew(f, s, e) && IsAhead(f, start, e))
    ensures Tailing(Step(f, Append(e)), s, start)
  {
    hide After, Insert, IsNew, Rows, OfSession;
    StoreInserts(f, s, start, e);
    if e.session == s && e.seq_ > start {
      WantedIncreases(f, s, start);
      InsertKeepsPrefix(Wanted(f, s, start), e, |f.delivered|);
    }
  }

  lemma WantedIncreases(f: Follower, s: int, start: int)
    requires Tailing(f, s, start)
    ensures Increasing(Wanted(f, s, start))
  {
    hide After, Rows;
    AfterIsIncreasing(Rows(f, s), start);
  }

  /** Above the cursor are exactly the wanted rows not delivered yet. */
  lemma CursorSplits(f: Follower, s: int, start: int)
    requires Tailing(f, s, start)
    ensures After(Rows(f, s), f.cursor) == Wanted(f, s, start)[|f.delivered|..]
    ensures Increasing(Wanted(f, s, start)) && Increasing(After(Rows(f, s), f.cursor))
  {
    hide After, Rows;
    var rows, wanted, k := Rows(f, s), Wanted(f, s, start), |f.delivered|;
    AfterIsIncreasing(rows, start);
    AfterIsIncreasing(rows, f.cursor);
    if k > 0 {
      assert f.cursor == wanted[k - 1].seq_;
      AfterTwice(rows, start, f.cursor);
      AfterSplits(wanted, k);
    }
  }

  /** What a page holds: the next rows wanted, as many as the limit allows. */
  lemma PageIsNext(f: Follower, s: int, start: int, limit: nat, page: seq<Event>)
    requires Tailing(f, s, start) && IsPage(f.events, s, f.cursor, limit, page)
    ensures var wanted, k := Wanted(f, s, start), |f.delivered|;
            page == wanted[k..if k + limit < |wanted| then k + limit else |wanted|]
  {
    hide IsPage, After, Rows, Increasing, DistinctSeqs;
    CursorSplits(f, s, start);
    PageIsPrefix(f, s, f.cursor, limit, page);
  }

  lemma PageIsPrefix(f: Follower, s: int, cursor: int, limit: nat, page: seq<Event>)
    requires IsPage(f.events, s, cursor, limit, page) && Increasing(After(Rows(f, s), cursor))
    ensures var rest := After(Rows(f, s), cursor); page == rest[..if limit < |rest| then limit else |rest|]
  {
    hide After, InOrder;
    var rows, rest := OfSession(f.events, s), After(Rows(f, s), cursor);
    var full :| IsOrderBySeq(After(rows, cursor), full) && page == full[..if limit < |full| then limit else |full|];
    AfterKeepsSame(rows, Rows(f, s), cursor);
    OrderIsUnique(rest, full);
  }

  lemma {:induction false} AdvanceIsLast(cursor: int, page: seq<Event>)
    requires Ascending(page) && forall i :: 0 <= i < |page| ==> page[i].seq_ > cursor
    ensures Advance(cursor, page) == if page == [] then cursor else page[|page| - 1].seq_
  {
    if page != [] {
      AdvanceIsLast(cursor, page[..|page| - 1]);
    }
  }

  lemma PollKeepsTailing(f: Follower, s: int, start: int, limit: nat, page: seq<Event>)
    requires Tailing(f, s, start) && IsPage(f.events, s, f.cursor, limit, page)
    ensures Tailing(Step(f, Poll(limit, page)), s, start)
    ensures var left := |Wanted(f, s, start)| - |f.delivered|; |page| == if limit < left then limit else left
  {
    hide Wanted, Rows, IsPage, Advance, Increasing, Ascending, DistinctSeqs;
    var wanted, k := Wanted(f, s, start), |f.delivered|;
    SameRows(Step(f, Poll(limit, page)), f, s, start);
    PageIsNext(f, s, start, limit, page);
    PageIsAboveCursor(f, s, start, limit, page);
    AdvanceIsLast(f.cursor, page);
    assert f.delivered + page == wanted[..k + |page|];
  }

  lemma PageIsAboveCursor(f: Follower, s: int, start: int, limit: nat, page: seq<Event>)
    requires Tailing(f, s, start) && IsPage(f.events, s, f.cursor, limit, page)
    ensures Increasing(page) && Ascending(page) && forall i :: 0 <= i < |page| ==> page[i].seq_ > f.cursor
  {
    hide After, Rows, IsPage;
    CursorSplits(f, s, start);
    PageIsPrefix(f, s, f.cursor, limit, page);
    AfterIsIncreasing(Rows(f, s), f.cursor);
  }

  lemma PolledInit(s: int, start: int, init: seq<Op>, op: Op)
    ensures Polled(s, start, init + [op]) <==> Polled(s, start, init) && PollOk(Run(start, init), s, op)
  {
    hide PollOk, Run;
    var ops := init + [op];
    assert forall i :: 0 <= i <= |init| ==> ops[..i] == init[..i];
    assert forall i :: 0 <= i < |init| ==> ops[i] == init[i];
    assert init[..|init|] == init && ops[|init|] == op;
  }

  lemma AppendsAboveInit(s: int, start: int, init: seq<Op>, op: Op)
    requires AppendsAbove(s, start, init + [op])
    ensures AppendsAbove(s, start, init)
    ensures op.Append? && op.e.session == s ==> op.e.seq_ > MaxSeq(Run(start, init).events, s)
  {
    hide MaxSeq, Run;
    var ops := init + [op];
    assert forall i :: 0 <= i <= |init| ==> ops[..i] == init[..i];
    assert init[..|init|] == init && ops[|init|] == op;
  }

  lemma AppendsNewInit(s: int, start: int, init: seq<Op>, op: Op)
    ensures AppendsNew(s, start, init + [op])
            <==> AppendsNew(s, start, init)
                 && (op.Append? && op.e.session == s ==> IsNew(Run(start, init), s, op.e))
  {
    hide IsNew, Run;
    var ops := init + [op];
    assert forall i :: 0 <= i <= |init| ==> ops[..i] == init[..i];
    assert forall i :: 0 <= i < |init| ==> ops[i] == init[i];
    assert init[..|init|] == init && ops[|init|] == op;
  }

  lemma AppendsAheadInit(s: int, start: int, init: seq<Op>, op: Op)
    ensures AppendsAhead(s, start, init + [op])
            <==> AppendsAhead(s, start, init)
                 && (op.Append? && op.e.session == s ==> IsAhead(Run(start, init), start, op.e))
  {
    hide IsAhead, Run;
    var ops := init + [op];
    assert forall i :: 0 <= i <= |init| ==> ops[..i] == init[..i];
    assert forall i :: 0 <= i < |init| ==> ops[i] == init[i];
    assert init[..|init|] == init && ops[|init|] == op;
  }

  lemma RunStep(start: int, init: seq<Op>, op: Op)
    ensures Run(start, init + [op]) == Step(Run(start, init), op)
  {
    assert (init + [op])[..|init|] == init;
  }

  lemma TailingAtStart(s: int, start: int)
    ensures Tailing(Run(start, []), s, start)
  {
  }

  lemma {:induction false} RunIsTailing(s: int, start: int, ops: seq<Op>)
    requires Polled(s, start, ops) && AppendsNew(s, start, ops) && AppendsAhead(s, start, ops)
    ensures Tailing(Run(start, ops), s, start)
  {
    hide IsPage, Advance, Tailing, Polled, AppendsNew, AppendsAhead, IsNew, IsAhead, Run;
    if ops == [] {
      TailingAtStart(s, start);
    } else {
      var init, op := ops[..|ops| - 1], ops[|ops| - 1];
      assert ops == init + [op];
      PolledInit(s, start, init, op);
      AppendsNewInit(s, start, init, op);
      AppendsAheadInit(s, start, init, op);
      RunStep(start, init, op);
      RunIsTailing(s, start, init);
      match op
      case Append(e) => AppendKeepsTailing(Run(start, init), s, start, e);
      case Poll(limit, page) => PollKeepsTailing(Run(start, init), s, start, limit, page);
    }
  }

  lemma ListingIsRows(f: Follower, s: int, start: int, out: seq<Event>)
    requires Tailing(f, s, start) && IsListing(f.events, s, out)
    ensures out == Rows(f, s) && Increasing(out)
  {
    hide After, InOrder;
    OrderIsUnique(Rows(f, s), out);
  }

  /** Whatever the limits and the interleaving, as long as no row is stored that the
      follower has already passed, the pages delivered so far are a prefix, without
      gap or repetition, of the session's events above the starting cursor, in the
      order of ListClaudeEvents. */
  lemma DeliveredIsPrefix(s: int, start: int, ops: seq<Op>, out: seq<Event>)
    requires Polled(s, start, ops) && AppendsNew(s, start, ops) && AppendsAhead(s, start, ops)
    requires IsListing(Run(start, ops).events, s, out)
    ensures Run(start, ops).delivered <= After(out, start) && Increasing(out)
    ensures start <= -1 && (forall e :: e in out ==> e.seq_ >= 0) ==> Run(start, ops).delivered <= out
  {
    hide After, OfSession, IsPage, Advance, Run, Rows;
    RunIsTailing(s, start, ops);
    ListingIsRows(Run(start, ops), s, start, out);
    if start <= -1 && forall e :: e in out ==> e.seq_ >= 0 {
      assert forall i :: 0 <= i < |out| ==> out[i] in out;
      AfterAll(out, start);
    }
  }

  /** The ingest handler's appends, each above the session's largest seq, are of this
      kind. */
  lemma {:induction false} AppendsAboveAreAhead(s: int, start: int, ops: seq<Op>)
    requires Polled(s, start, ops) && AppendsAbove(s, start, ops)
    ensures AppendsNew(s, start, ops) && AppendsAhead(s, start, ops)
  {
    hide IsPage, Polled, AppendsAbove, Run, MaxSeq, IsNew, IsAhead;
    if ops != [] {
      hide AppendsNew, AppendsAhead;
      var init, op := ops[..|ops| - 1], ops[|ops| - 1];
      assert ops == init + [op];
      PolledInit(s, start, init, op);
      AppendsAboveInit(s, start, init, op);
      AppendsAboveAreAhead(s, start, init);
      AppendsNewInit(s, start, init, op);
      AppendsAheadInit(s, start, init, op);
      if op.Append? && op.e.session == s {
        RunIsTailing(s, start, init);
        AboveIsAhead(Run(start, init), s, start, op.e);
      }
    }
  }

  lemma AboveIsAhead(f: Follower, s: int, start: int, e: Event)
    requires Tailing(f, s, start) && e.seq_ > MaxSeq(f.events, s)
    ensures IsNew(f, s, e) && IsAhead(f, start, e)
  {
    hide After, OfSession, MaxSeq, InOrder;
    MaxSeqBounds(f.events, s);
    if f.delivered != [] {
      var last := f.delivered[|f.delivered| - 1];
      assert last in Wanted(f, s, start);
      WantedIsStored(f, s, start, last);
    }
  }

  /** The delivered pages are a prefix of every listing. */
  ghost predicate InStep(f: Follower, s: int, start: int) {
    forall out :: IsListing(f.events, s, out) ==> f.delivered <= After(out, start)
  }

  lemma TailingIsInStep(f: Follower, s: int, start: int)
    requires Tailing(f, s, start)
    ensures InStep(f, s, start)
  {
    hide After, Rows, IsListing;
    forall out | IsListing(f.events, s, out) ensures f.delivered <= After(out, start) {
      ListingIsRows(f, s, start, out);
    }
  }

  /** A wanted row stored behind the cursor breaks the prefix. */
  lemma BehindBreaksStep(f: Follower, s: int, start: int, e: Event)
    requires Tailing(f, s, start) && e.session == s && IsNew(f, s, e) && !IsAhead(f, start, e)
    ensures !InStep(Step(f, Append(e)), s, start)
  {
    hide After, OfSession, InOrder, Insert;
    var r, wanted, k := Step(f, Append(e)), Wanted(f, s, start), |f.delivered|;
    StoreInserts(f, s, start, e);
    WantedIncreases(f, s, start);
    IncreasingIsOrdered(r, s);
    forall x | x in wanted ensures x.seq_ != e.seq_ {
      WantedIsStored(f, s, start, x);
    }
    assert wanted[k - 1] in wanted;
    InsertBreaksPrefix(wanted, e, k);
    assert e !in wanted[..k];
  }

  lemma WantedIsStored(f: Follower, s: int, start: int, x: Event)
    requires x in Wanted(f, s, start)
    ensures x in OfSession(f.events, s) && HasSeq(OfSession(f.events, s), x.seq_) && x.seq_ > start
  {
    hide After, OfSession, InOrder;
    AfterHas(Rows(f, s), start, x);
    assert x in multiset(Rows(f, s));
  }

  lemma IncreasingIsOrdered(f: Follower, s: int)
    requires Increasing(Rows(f, s))
    ensures IsListing(f.events, s, Rows(f, s))
  {
    hide InOrder;
  }

  /** Exactly when a follower stays in step, for appends with seqs of their own and
      any polls: no wanted row is stored after its cursor passed it. */
  lemma {:induction false} InStepIffAppendsAhead(s: int, start: int, ops: seq<Op>)
    requires Polled(s, start, ops) && AppendsNew(s, start, ops)
    ensures AppendsAhead(s, start, ops) <==> forall n :: 0 <= n <= |ops| ==> InStep(Run(start, ops[..n]), s, start)
  {
    hide IsPage, Polled, AppendsNew, Run, IsNew, IsAhead, InStep, Tailing;
    if ops == [] {
      TailingAtStart(s, start);
      TailingIsInStep(Run(start, []), s, start);
      assert forall n :: 0 <= n <= |ops| ==> ops[..n] == [];
    } else {
      hide AppendsAhead;
      var init, op := ops[..|ops| - 1], ops[|ops| - 1];
      assert ops == init + [op] && ops[..|ops|] == ops;
      assert forall n :: 0 <= n <= |init| ==> ops[..n] == init[..n];
      PolledInit(s, start, init, op);
      AppendsNewInit(s, start, init, op);
      AppendsAheadInit(s, start, init, op);
      RunStep(start, init, op);
      InStepIffAppendsAhead(s, start, init);
      if AppendsAhead(s, start, ops) {
        RunIsTailing(s, start, ops);
        TailingIsInStep(Run(start, ops), s, start);
      } else if AppendsAhead(s, start, init) {
        RunIsTailing(s, start, init);
        BehindBreaksStep(Run(start, init), s, start, op.e);
      }
    }
  }

  lemma {:induction false} PollsDeliver(s: int, start: int, ops: seq<Op>, polls: seq<Op>)
    requires Polled(s, start, ops + polls) && AppendsNew(s, start, ops + polls) && AppendsAhead(s, start, ops + polls)
    requires forall i :: 0 <= i < |polls| ==> polls[i].Poll?
    ensures Run(start, ops + polls).events == Run(start, ops).events
    ensures Tailing(Run(start, ops), s, start) && Tailing(Run(start, ops + polls), s, start)
    ensures var total := |Wanted(Run(start, ops), s, start)|;
            |Run(start, ops + polls).delivered| >= total
            || |Run(start, ops + polls).delivered| >= |Run(start, ops).delivered| + |polls|
    decreases |polls|
  {
    hide Tailing, After, Rows, IsPage, Advance, Polled, AppendsNew, AppendsAhead, IsNew, IsAhead, Run;
    RunIsTailing(s, start, ops + polls);
    if polls == [] {
      assert ops + polls == ops;
    } else {
      var n, init := |polls| - 1, polls[..|polls| - 1];
      assert ops + polls == ops + init + [polls[n]];
      PolledInit(s, start, ops + init, polls[n]);
      AppendsNewInit(s, start, ops + init, polls[n]);
      AppendsAheadInit(s, start, ops + init, polls[n]);
      RunStep(start, ops + init, polls[n]);
      PollsDeliver(s, start, ops, init);
      SameRows(Run(start, ops + init), Run(start, ops), s, start);
      PollKeepsTailing(Run(start, ops + init), s, start, polls[n].limit, polls[n].page);
    }
  }

  lemma SameRows(f: Follower, g: Follower, s: int, start: int)
    requires f.events == g.events
    ensures Rows(f, s) == Rows(g, s) && Wanted(f, s, start) == Wanted(g, s, start)
  {
  }

  /** Without appends, as many polls as rows are missing deliver everything. */
  lemma PollsCatchUp(s: int, start: int, ops: seq<Op>, polls: seq<Op>, out: seq<Event>)
    requires Polled(s, start, ops + polls) && AppendsNew(s, start, ops + polls) && AppendsAhead(s, start, ops + polls)
    requires forall i :: 0 <= i < |polls| ==> polls[i].Poll?
    requires IsListing(Run(start, ops).events, s, out)
    requires |polls| >= |After(out, start)| - |Run(start, ops).delivered|
    ensures Run(start, ops + polls).delivered == After(out, start)
  {
    hide After, OfSession, IsPage, Advance, Run, MaxSeq, Rows, Polled, AppendsNew, AppendsAhead;
    PollsDeliver(s, start, ops, polls);
    ListingIsRows(Run(start, ops), s, start, out);
    SameRows(Run(start, ops + polls), Run(start, ops), s, start);
  }

  lemma {:induction false} AdvanceGrows(cursor: int, page: seq<Event>)
    ensures Advance(cursor, page) >= cursor
  {
    if page != [] {
      AdvanceGrows(cursor, page[..|page| - 1]);
    }
  }

  /** A row at or below the cursor that was not delivered never will be, whatever
      happens next. */
  lemma {:induction false} LateRowIsLost(s: int, start: int, ops: seq<Op>, more: seq<Op>, e: Event)
    requires Polled(s, start, ops + more)
    requires e.seq_ <= Run(start, ops).cursor && e !in Run(start, ops).delivered
    ensures e !in Run(start, ops + more).delivered && Run(start, ops + more).cursor >= Run(start, ops).cursor
    decreases |more|
  {
    hide IsPage, MaxSeq, After, OfSession, Polled, Run;
    if more == [] {
      assert ops + more == ops;
    } else {
      var init, op := more[..|more| - 1], more[|more| - 1];
      assert ops + more == ops + init + [op];
      PolledInit(s, start, ops + init, op);
      RunStep(start, ops + init, op);
      LateRowIsLost(s, start, ops, init, e);
      var f := Run(start, ops + init);
      if op.Poll? {
        AdvanceGrows(f.cursor, op.page);
        PageIsAbove(f.events, s, f.cursor, op.limit, op.page, e);
      }
    }
  }

  lemma PageIsAbove(events: seq<Event>, s: int, cursor: int, limit: nat, page: seq<Event>, e: Event)
    requires IsPage(events, s, cursor, limit, page)
    ensures e in page ==> e.seq_ > cursor
  {
    var rows := After(OfSession(events, s), cursor);
    var full :| IsOrderBySeq(rows, full) && page == full[..if limit < |full| then limit else |full|];
    if e in page {
      assert e in multiset(full) && e in multiset(rows);
      AfterHas(OfSession(events, s), cursor, e);
    }
  }

  // -------------------------------------------------------------- the event table

  /** Line `i` exceeds `m` and every earlier line. */
  ghost predicate IsRecord(lines: seq<Event>, i: nat, m: int)
    requires i < |lines|
  {
    lines[i].seq_ > m && forall j :: 0 <= j < i ==> lines[j].seq_ < lines[i].seq_
  }

  ghost function Fresh(lines: seq<Event>, m: int): seq<Event> {
    if lines == [] then []
    else
      var n := |lines| - 1;
      Fresh(lines[..n], m) + if IsRecord(lines, n, m) then [lines[n]] else []
  }

  /** The lines kept are those, in ascending order of seq. */
  lemma {:induction false} FreshExact(lines: seq<Event>, m: int)
    ensures Increasing(Fresh(lines, m))
    ensures forall e :: e in Fresh(lines, m) <==> exists i :: 0 <= i < |lines| && lines[i] == e && IsRecord(lines, i, m)
  {
    if lines != [] {
      var init, last, n := lines[..|lines| - 1], lines[|lines| - 1], |lines| - 1;
      FreshExact(init, m);
      assert lines == init + [last];
      RecordsGrow(init, last, m);
      if IsRecord(lines, n, m) {
        forall k | 0 <= k < |Fresh(init, m)| ensures Fresh(init, m)[k].seq_ < last.seq_ {
          assert Fresh(init, m)[k] in Fresh(init, m);
        }
        IncreasingAppend(Fresh(init, m), last);
      }
    }
  }

  lemma RecordsGrow(init: seq<Event>, last: Event, m: int)
    ensures forall i :: 0 <= i < |init| ==> (IsRecord(init + [last], i, m) <==> IsRecord(init, i, m))
  {
    assert forall i :: 0 <= i < |init| ==> (init + [last])[i] == init[i];
  }

  lemma FreshStart(lines: seq<Event>, m: int)
    ensures Fresh(lines[..0], m) == []
  {
  }

  lemma FreshStep(lines: seq<Event>, i: nat, m: int, top: int)
    requires i < |lines| && top >= m && forall j :: 0 <= j < i ==> lines[j].seq_ <= top
    requires top == m || exists j :: 0 <= j < i && lines[j].seq_ == top
    ensures Fresh(lines[..i + 1], m) == Fresh(lines[..i], m) + if lines[i].seq_ > top then [lines[i]] else []
  {
    assert lines[..i + 1][..i] == lines[..i];
    assert forall j :: 0 <= j < i ==> lines[..i + 1][j] == lines[j];
    assert IsRecord(lines[..i + 1], i, m) <==> lines[i].seq_ > top;
  }

  /** Line `i` exceeds every row of the session (-1 when there is none) and every
      earlier line. */
  ghost predicate IsNews(events: seq<Event>, s: int, lines: seq<Event>, i: nat)
    requires i < |lines|
  {
    && AboveRows(events, s, lines[i].seq_) && (NoRow(events, s) ==> lines[i].seq_ > -1)
    && forall j :: 0 <= j < i ==> lines[j].seq_ < lines[i].seq_
  }

  lemma FreshIsNews(events: seq<Event>, s: int, lines: seq<Event>)
    ensures Increasing(Fresh(lines, MaxSeq(events, s)))
    ensures forall e :: e in Fresh(lines, MaxSeq(events, s)) <==>
              exists i :: 0 <= i < |lines| && lines[i] == e && IsNews(events, s, lines, i)
  {
    hide MaxSeq, NoRow, AboveRows, HasRow, Fresh;
    MaxSeqExact(events, s);
    var kept := Fresh(lines, MaxSeq(events, s));
    FreshExact(lines, MaxSeq(events, s));
    assert forall i :: 0 <= i < |lines| ==> (IsRecord(lines, i, MaxSeq(events, s)) <==> IsNews(events, s, lines, i));
    hide IsRecord, IsNews;
    forall i | 0 <= i < |lines| && IsNews(events, s, lines, i) ensures lines[i] in kept {
      assert IsRecord(lines, i, MaxSeq(events, s));
    }
    forall e | e in kept ensures exists i :: 0 <= i < |lines| && lines[i] == e && IsNews(events, s, lines, i) {
      var i :| 0 <= i < |lines| && lines[i] == e && IsRecord(lines, i, MaxSeq(events, s));
      assert IsNews(events, s, lines, i);
    }
  }

  lemma StoredAbove(events: seq<Event>, s: int, e: Event)
    requires e.session == s && e.seq_ > MaxSeq(events, s)
    ensures MaxSeq(events + [e], s) == e.seq_
    ensures Increasing(OfSession(events, s)) ==> Increasing(OfSession(events + [e], s))
  {
    assert (events + [e])[..|events|] == events;
    MaxSeqBounds(events, s);
    if Increasing(OfSession(events, s)) {
      IncreasingAppend(OfSession(events, s), e);
    }
  }

  /** The lines with consecutive seqs from `n`. */
  function Numbered(lines: seq<Event>, n: nat): (r: seq<Event>)
    ensures |r| == |lines| && forall i :: 0 <= i < |lines| ==> r[i] == lines[i].(seq_ := n + i)
  {
    if lines == [] then []
    else Numbered(lines[..|lines| - 1], n) + [lines[|lines| - 1].(seq_ := n + |lines| - 1)]
  }

  lemma {:induction false} OfSessionAppend(events: seq<Event>, s: int, added: seq<Event>)
    requires forall i :: 0 <= i < |added| ==> added[i].session == s
    ensures OfSession(events + added, s) == OfSession(events, s) + added
    decreases |added|
  {
    if added == [] {
      assert events + added == events;
    } else {
      hide OfSession;
      var init, last := added[..|added| - 1], added[|added| - 1];
      OfSessionAppend(events, s, init);
      assert events + added == events + init + [last];
      OfSessionStep(events + init, s, last);
    }
  }

  lemma OfSessionStep(events: seq<Event>, s: int, e: Event)
    ensures OfSession(events + [e], s) == OfSession(events, s) + if e.session == s then [e] else []
  {
    assert (events + [e])[..|events|] == events;
  }

  lemma ApartWhenDistinct(rows: seq<Event>, added: seq<Event>, j: nat)
    requires DistinctSeqs(rows + added) && j < |added|
    ensures !HasSeq(rows, added[j].seq_)
  {
    forall i | 0 <= i < |rows| ensures rows[i].seq_ != added[j].seq_ {
      assert (rows + added)[i] == rows[i] && (rows + added)[|rows| + j] == added[j];
    }
  }

  lemma DistinctWhenApart(rows: seq<Event>, added: seq<Event>)
    requires DistinctSeqs(rows) && DistinctSeqs(added) && forall j :: 0 <= j < |added| ==> !HasSeq(rows, added[j].seq_)
    ensures DistinctSeqs(rows + added)
  {
    var all := rows + added;
    forall i, j | 0 <= i < j < |all| ensures all[i].seq_ != all[j].seq_ {
      if i < |rows| <= j {
        assert !HasSeq(rows, added[j - |rows|].seq_);
      }
    }
  }

  lemma {:induction false} CountIsOfPositions(events: seq<Event>, s: int)
    ensures |OfSession(events, s)| == |set i | 0 <= i < |events| && events[i].session == s|
  {
    if events != [] {
      hide OfSession;
      var init, e, n := events[..|events| - 1], events[|events| - 1], |events| - 1;
      assert events == init + [e];
      CountIsOfPositions(init, s);
      OfSessionStep(init, s, e);
      PositionsStep(init, s, e);
    }
  }

  lemma PositionsStep(init: seq<Event>, s: int, e: Event)
    ensures |set i | 0 <= i < |init + [e]| && (init + [e])[i].session == s|
            == |set i | 0 <= i < |init| && init[i].session == s| + if e.session == s then 1 else 0
  {
    var before := set i | 0 <= i < |init| && init[i].session == s;
    var after := set i | 0 <= i < |init + [e]| && (init + [e])[i].session == s;
    assert after == before + if e.session == s then {|init|} else {};
  }

  /** Numbering from the count repeats a seq exactly when one of the numbers is taken. */
  lemma NumberedDistinctIff(events: seq<Event>, s: int, lines: seq<Event>, n: nat)
    requires forall e :: e in lines ==> e.session == s
    ensures DistinctSeqs(OfSession(events, s)) ==>
              (DistinctSeqs(OfSession(events + Numbered(lines, n), s))
               <==> forall q :: 0 <= q - n < |lines| ==> !HasSeq(OfSession(events, s), q))
  {
    hide OfSession;
    var rows, added := OfSession(events, s), Numbered(lines, n);
    OfSessionAppend(events, s, added);
    hide Numbered;
    assert DistinctSeqs(added);
    if DistinctSeqs(rows + added) {
      forall q | 0 <= q - n < |lines| ensures !HasSeq(rows, q) {
        ApartWhenDistinct(rows, added, q - n);
      }
    }
    if DistinctSeqs(rows) && forall q :: 0 <= q - n < |lines| ==> !HasSeq(rows, q) {
      DistinctWhenApart(rows, added);
    }
  }

  /** One gap is enough: with seqs 0 and 2 stored, one legacy line is stored as a
      second 2. */
  lemma LegacyRepeatsSeq(s: int, a: Event, b: Event, line: Event)
    requires a.session == b.session == line.session == s && a.seq_ == 0 && b.seq_ == 2
    ensures var rows := OfSession([a, b], s);
            && DistinctSeqs(rows) && |rows| == 2
            && !DistinctSeqs(OfSession([a, b] + Numbered([line], |rows|), s))
  {
    var two := [a, b];
    OfSessionAppend([], s, two);
    assert [] + two == two && OfSession(two, s) == two;
    hide OfSession, Numbered;
    assert two[1].seq_ == 2 && HasSeq(two, 2);
    NumberedDistinctIff(two, s, [line], 2);
  }

  class EventTable {
    var events: seq<Event>

    method CreateClaudeEvent(e: Event)
      modifies this
      ensures events == old(events) + [e]
    {
      events := events + [e];
    }

    /** The largest seq of the session's rows, -1 when it has none. */
    method GetMaxClaudeEventSeq(s: int) returns (m: int)
      ensures m == MaxSeq(events, s)
      ensures forall i :: 0 <= i < |events| && events[i].session == s ==> events[i].seq_ <= m
      ensures if NoRow(events, s) then m == -1
              else exists i :: 0 <= i < |events| && events[i].session == s && events[i].seq_ == m
      ensures (forall i :: 0 <= i < |events| ==> events[i].seq_ >= 0) ==> m >= -1
    {
      var max: Option<int> := None;
      for i := 0 to |events|
        invariant max == MaxOf(events[..i], s)
      {
        assert events[..i + 1][..i] == events[..i];
        if events[i].session == s && (max.None? || events[i].seq_ > max.value) {
          max := Some(events[i].seq_);
        }
      }
      assert events[..|events|] == events;
      MaxOfExact(events, s);
      m := if max.Some? then max.value else -1;
    }

    /** The ingest loop of a session: the rows are kept, and added to them, in
        ascending order of seq, is exactly each line whose seq exceeds that of every
        row of the session, -1 when there is none, and of every earlier line. Rows that
        were strictly increasing stay so. */
    method Ingest(s: int, lines: seq<Event>) returns (persisted: nat, skipped: nat)
      requires forall e :: e in lines ==> e.session == s
      modifies this
      ensures old(events) <= events && Increasing(events[|old(events)|..])
      ensures forall e :: e in events[|old(events)|..] <==>
                exists i :: 0 <= i < |lines| && lines[i] == e && IsNews(old(events), s, lines, i)
      ensures Increasing(OfSession(old(events), s)) ==> Increasing(OfSession(events, s))
      ensures persisted == |events| - |old(events)| && persisted + skipped == |lines|
    {
      hide OfSession, MaxSeq, Fresh, Increasing, IsNews, NoRow, HasRow, AboveRows;
      persisted, skipped := 0, 0;
      var maxSeq := GetMaxClaudeEventSeq(s);
      ghost var start, was := maxSeq, events;
      FreshStart(lines, start);
      assert was + [] == was;
      for i := 0 to |lines|
        invariant maxSeq == MaxSeq(events, s)
        invariant Increasing(OfSession(was, s)) ==> Increasing(OfSession(events, s))
        invariant events == was + Fresh(lines[..i], start)
        invariant maxSeq >= start && (forall j :: 0 <= j < i ==> lines[j].seq_ <= maxSeq)
        invariant maxSeq == start || exists j :: 0 <= j < i && lines[j].seq_ == maxSeq
        invariant persisted == |events| - |was| && persisted + skipped == i
      {
        FreshStep(lines, i, start, maxSeq);
        if lines[i].seq_ <= maxSeq {
          skipped := skipped + 1;
        } else {
          assert lines[i] in lines;
          StoredAbove(events, s, lines[i]);
          CreateClaudeEvent(lines[i]);
          maxSeq := lines[i].seq_;
          persisted := persisted + 1;
        }
      }
      assert lines[..|lines|] == lines && events[|was|..] == Fresh(lines, start);
      FreshIsNews(was, s, lines);
    }

    /** An audit message of a connected agent: stored one above some row of its own
        session and above all of them, or with seq 0 when there is none. */
    method IngestAuditEvent(s: int, e: Event)
      requires e.session == s
      modifies this
      ensures |events| == |old(events)| + 1
      ensures var q := events[|old(events)|].seq_;
              && events == old(events) + [e.(seq_ := q)] && AboveRows(old(events), s, q)
              && if NoRow(old(events), s) then q == 0 else HasRow(old(events), s, q - 1)
      ensures Increasing(OfSession(old(events), s)) ==> Increasing(OfSession(events, s))
    {
      hide OfSession, MaxSeq, Increasing, NoRow, HasRow, AboveRows;
      MaxSeqExact(events, s);
      var maxSeq := GetMaxClaudeEventSeq(s);
      StoredAbove(events, s, e.(seq_ := maxSeq + 1));
      CreateClaudeEvent(e.(seq_ := maxSeq + 1));
    }

    method CountClaudeEvents(s: int) returns (n: nat)
      ensures n == |OfSession(events, s)|
      ensures n == |set i | 0 <= i < |events| && events[i].session == s|
    {
      CountIsOfPositions(events, s);
      n := 0;
      for i := 0 to |events|
        invariant n == |OfSession(events[..i], s)|
      {
        assert events[..i + 1][..i] == events[..i];
        if events[i].session == s {
          n := n + 1;
        }
      }
      assert events[..|events|] == events;
    }

    /** The legacy upload numbers its lines from the count of the session's rows, not
        from their largest seq. */
    method UploadLegacy(s: int, lines: seq<Event>)
      requires forall e :: e in lines ==> e.session == s
      modifies this
      ensures events == old(events) + Numbered(lines, |OfSession(old(events), s)|)
      ensures DistinctSeqs(OfSession(old(events), s)) ==>
                (DistinctSeqs(OfSession(events, s))
                 <==> forall q :: 0 <= q - |OfSession(old(events), s)| < |lines| ==> !HasSeq(OfSession(old(events), s), q))
    {
      hide OfSession, DistinctSeqs, HasSeq;
      var n := CountClaudeEvents(s);
      ghost var was := events;
      var seq_: nat := n;
      assert was + [] == was;
      for i := 0 to |lines|
        invariant events == was + Numbered(lines[..i], n) && seq_ == n + i
      {
        assert lines[..i + 1][..i] == lines[..i];
        CreateClaudeEvent(lines[i].(seq_ := seq_));
        seq_ := seq_ + 1;
      }
      assert lines[..|lines|] == lines;
      NumberedDistinctIff(was, s, lines, n);
    }
  }
}
