/** The comment tables: comments, the seen high-water mark of each target, the
    listing of targets with unread comments and the listing of features waiting
    for an answer. */
module Comments {

  datatype Target = Target(projectId: int, targetType: string, targetId: string)

  /** `createdAt` is the time of the insertion; an empty alias is a human's. */
  datatype Comment = Comment(id: int, target: Target, authorAlias: string, createdAt: int)

  datatype Tables = Tables(comments: seq<Comment>, seen: map<Target, int>)

  function Human(c: Comment): bool {
    c.authorAlias == ""
  }

  /** `COALESCE(s.last_comment_id, 0)` */
  function Watermark(db: Tables, t: Target): int {
    if t in db.seen then db.seen[t] else 0
  }

  // ---------------------------------------------------------------- the queries

  ghost predicate IsUnread(db: Tables, t: Target, c: Comment) {
    c in db.comments && c.target == t && c.id > Watermark(db, t)
  }

  ghost predicate IsOn(db: Tables, t: Target, c: Comment) {
    c in db.comments && c.target == t
  }

  /** `SELECT DISTINCT ON (target) ... ORDER BY created_at DESC` may return `c`:
      no row of the group is newer. Ties leave the choice open. */
  ghost predicate LatestUnread(db: Tables, t: Target, c: Comment) {
    IsUnread(db, t, c) && forall o :: IsUnread(db, t, o) ==> o.createdAt <= c.createdAt
  }

  ghost predicate LatestOn(db: Tables, t: Target, c: Comment) {
    IsOn(db, t, c) && forall o :: IsOn(db, t, o) ==> o.createdAt <= c.createdAt
  }

  /** A possible result of ListTargetsWithUnreadComments, as a set. */
  ghost predicate IsUnreadListing(db: Tables, projectId: int, out: set<Target>) {
    && (forall t: Target :: t in out ==> t.projectId == projectId && exists c :: LatestUnread(db, t, c) && Human(c))
    && (forall t: Target, c :: t.projectId == projectId && IsUnread(db, t, c) && t !in out
          ==> exists l :: LatestUnread(db, t, l) && !Human(l))
  }

  /** A possible result of ListFeaturesWithPendingComments, as targets. */
  ghost predicate IsPendingListing(db: Tables, projectId: int, out: set<Target>) {
    && (forall t: Target :: t in out ==>
          t.projectId == projectId && t.targetType == "feature" && exists c :: LatestOn(db, t, c) && Human(c))
    && (forall t: Target, c :: t.projectId == projectId && t.targetType == "feature" && IsOn(db, t, c) && t !in out
          ==> exists l :: LatestOn(db, t, l) && !Human(l))
  }

  /** `COALESCE(MAX(id), 0)` over the target's comments. */
  function MaxId(comments: seq<Comment>, t: Target): int {
    if comments == [] then 0
    else
      var c, rest := comments[|comments| - 1], comments[..|comments| - 1];
      if c.target == t && c.id > MaxId(rest, t) then c.id else MaxId(rest, t)
  }

  function Mark(db: Tables, t: Target): Tables {
    var top := MaxId(db.comments, t);
    db.(seen := db.seen[t := if t in db.seen && db.seen[t] > top then db.seen[t] else top])
  }

  function Add(db: Tables, c: Comment): Tables {
    db.(comments := db.comments + [c])
  }

  // ------------------------------------------------ ids and times in one order

  /** Ids are positive, as the serial column makes them, and within a target they
      are in the order of the times. */
  ghost predicate Ordered(comments: seq<Comment>) {
    && (forall i :: 0 <= i < |comments| ==> comments[i].id > 0)
    && (forall c, o :: c in comments && o in comments && c.target == o.target ==>
          (c.id < o.id <==> c.createdAt < o.createdAt) && (c.id == o.id ==> c == o))
  }

  /** `c` is the latest comment on `t`. */
  ghost predicate IsTop(db: Tables, t: Target, c: Comment) {
    IsOn(db, t, c) && forall o :: IsOn(db, t, o) ==> o.id <= c.id
  }

  lemma {:induction false} MaxIdIsTop(comments: seq<Comment>, t: Target)
    ensures forall c :: c in comments && c.target == t ==> c.id <= MaxId(comments, t)
    ensures MaxId(comments, t) == 0 || exists c :: c in comments && c.target == t && c.id == MaxId(comments, t)
    ensures MaxId(comments, t) >= 0
  {
    if comments != [] {
      var rest := comments[..|comments| - 1];
      MaxIdIsTop(rest, t);
      assert comments == rest + [comments[|comments| - 1]];
    }
  }

  lemma TopExists(db: Tables, t: Target, c: Comment) returns (top: Comment)
    requires Ordered(db.comments) && IsOn(db, t, c)
    ensures IsTop(db, t, top)
  {
    MaxIdIsTop(db.comments, t);
    var m := MaxId(db.comments, t);
    assert c.id <= m;
    top :| top in db.comments && top.target == t && top.id == m;
  }

  /** The listing holds exactly the targets whose latest comment is a human's and
      has not been seen. */
  lemma UnreadIffLatestIsNewHuman(db: Tables, projectId: int, out: set<Target>, t: Target)
    requires Ordered(db.comments) && IsUnreadListing(db, projectId, out)
    ensures t in out <==> t.projectId == projectId
                          && exists c :: IsTop(db, t, c) && Human(c) && c.id > Watermark(db, t)
  {
    if t in out {
      var c :| LatestUnread(db, t, c) && Human(c);
      var top := TopExists(db, t, c);
      assert IsUnread(db, t, top);
      assert top == c;
    }
    if t.projectId == projectId {
      if c :| IsTop(db, t, c) && Human(c) && c.id > Watermark(db, t) {
        assert IsUnread(db, t, c);
        assert forall l :: LatestUnread(db, t, l) ==> l == c;
      }
    }
  }

  // --------------------------------------------- when the two listings can part

  /** No two comments on `t` have the same time. */
  ghost predicate DistinctTimes(db: Tables, t: Target) {
    forall c, o :: IsOn(db, t, c) && IsOn(db, t, o) && c.createdAt == o.createdAt ==> c == o
  }

  /** The newest comment on `t` may be taken to be an agent's, and the newest unread
      one a human's. */
  ghost predicate CanPart(db: Tables, t: Target) {
    (exists l :: LatestOn(db, t, l) && !Human(l)) && exists c :: LatestUnread(db, t, c) && Human(c)
  }

  /** One of some comments that none of them is newer than. */
  lemma {:induction false} NewestOf(comments: seq<Comment>, t: Target, above: int, c: Comment) returns (l: Comment)
    requires c in comments && c.target == t && c.id > above
    ensures l in comments && l.target == t && l.id > above
    ensures forall o :: o in comments && o.target == t && o.id > above ==> o.createdAt <= l.createdAt
  {
    var init, last := comments[..|comments| - 1], comments[|comments| - 1];
    assert comments == init + [last];
    l := if c in init then c else last;
    if o :| o in init && o.target == t && o.id > above {
      l := NewestOf(init, t, above, o);
      if last.target == t && last.id > above && last.createdAt > l.createdAt {
        l := last;
      }
    }
  }

  lemma LatestUnreadExists(db: Tables, t: Target, c: Comment) returns (l: Comment)
    requires IsUnread(db, t, c)
    ensures LatestUnread(db, t, l)
  {
    l := NewestOf(db.comments, t, Watermark(db, t), c);
  }

  lemma LatestOnExists(db: Tables, t: Target, c: Comment) returns (l: Comment)
    requires IsOn(db, t, c)
    ensures LatestOn(db, t, l)
  {
    var least := LeastId(db.comments);
    l := NewestOf(db.comments, t, least - 1, c);
  }

  lemma {:induction false} LeastId(comments: seq<Comment>) returns (m: int)
    ensures forall c :: c in comments ==> c.id >= m
  {
    m := 0;
    if comments != [] {
      var init, last := comments[..|comments| - 1], comments[|comments| - 1];
      m := LeastId(init);
      assert comments == init + [last];
      m := if last.id < m then last.id else m;
    }
  }

  /** The listings that take a human's comment wherever a tie lets them; the pending
      one leaves out `but`. */
  ghost function GreedyUnread(db: Tables, projectId: int): set<Target> {
    set c | c in db.comments && c.target.projectId == projectId
            && exists l :: LatestUnread(db, c.target, l) && Human(l) :: c.target
  }

  ghost function GreedyPending(db: Tables, projectId: int, but: Target): set<Target> {
    set c | c in db.comments && c.target.projectId == projectId && c.target.targetType == "feature" && c.target != but
            && exists l :: LatestOn(db, c.target, l) && Human(l) :: c.target
  }

  lemma GreedyUnreadIsListing(db: Tables, projectId: int)
    ensures IsUnreadListing(db, projectId, GreedyUnread(db, projectId))
  {
    hide LatestUnread, Watermark;
    var out := GreedyUnread(db, projectId);
    forall t: Target, c | t.projectId == projectId && IsUnread(db, t, c) && t !in out
      ensures exists l :: LatestUnread(db, t, l) && !Human(l)
    {
      var l := LatestUnreadExists(db, t, c);
      assert c.target == t;
    }
  }

  lemma GreedyPendingIsListing(db: Tables, projectId: int, but: Target)
    requires exists l :: LatestOn(db, but, l) && !Human(l)
    ensures IsPendingListing(db, projectId, GreedyPending(db, projectId, but))
  {
    hide LatestOn;
    var out := GreedyPending(db, projectId, but);
    forall t: Target, c | t.projectId == projectId && t.targetType == "feature" && IsOn(db, t, c) && t !in out
      ensures exists l :: LatestOn(db, t, l) && !Human(l)
    {
      var l := LatestOnExists(db, t, c);
      assert c.target == t;
    }
  }

  /** For any table, ties and clocks included: some possible pair of listings has a
      feature unread but not pending exactly when the newest comment on it can be
      taken to be an agent's and the newest unread one a human's. */
  lemma SomeListingsPartIff(db: Tables, projectId: int, t: Target)
    requires t.projectId == projectId && t.targetType == "feature"
    ensures (exists unread, pending :: IsUnreadListing(db, projectId, unread) && IsPendingListing(db, projectId, pending)
                                       && t in unread && t !in pending)
            <==> CanPart(db, t)
  {
    if CanPart(db, t) {
      var c :| LatestUnread(db, t, c) && Human(c);
      assert c in db.comments && c.target == t;
      GreedyUnreadIsListing(db, projectId);
      GreedyPendingIsListing(db, projectId, t);
      assert t in GreedyUnread(db, projectId) && t !in GreedyPending(db, projectId, t);
    }
    forall unread, pending | IsUnreadListing(db, projectId, unread) && IsPendingListing(db, projectId, pending)
                             && t in unread && t !in pending
      ensures CanPart(db, t)
    {
      PartsOnlyIf(db, projectId, unread, pending, t);
    }
  }

  lemma PartsOnlyIf(db: Tables, projectId: int, unread: set<Target>, pending: set<Target>, t: Target)
    requires IsUnreadListing(db, projectId, unread) && IsPendingListing(db, projectId, pending)
    requires t in unread && t.targetType == "feature" && t !in pending
    ensures CanPart(db, t)
  {
    var c :| LatestUnread(db, t, c) && Human(c);
    assert IsOn(db, t, c);
  }

  /** When the times on a feature are distinct its listings are decided: it is unread
      but not pending exactly when its newest comment is an agent's and already seen,
      while its newest unread comment is a human's. */
  lemma ListingsPartIff(db: Tables, projectId: int, unread: set<Target>, pending: set<Target>, t: Target)
    requires t.projectId == projectId && t.targetType == "feature" && DistinctTimes(db, t)
    requires IsUnreadListing(db, projectId, unread) && IsPendingListing(db, projectId, pending)
    ensures t in unread && t !in pending
            <==> (exists l :: LatestOn(db, t, l) && !Human(l) && l.id <= Watermark(db, t))
                 && exists c :: LatestUnread(db, t, c) && Human(c)
  {
    hide LatestOn, LatestUnread, IsUnread, IsOn, Watermark;
    if t in unread && t !in pending {
      PartsOnlyIf(db, projectId, unread, pending, t);
      var l :| LatestOn(db, t, l) && !Human(l);
      var c :| LatestUnread(db, t, c) && Human(c);
      UnseenNewestIsUnread(db, t, l, c);
    }
    if l, c :| LatestOn(db, t, l) && !Human(l) && LatestUnread(db, t, c) && Human(c) {
      LatestAreDecided(db, t, l, c);
    }
  }

  lemma LatestAreDecided(db: Tables, t: Target, l: Comment, c: Comment)
    requires DistinctTimes(db, t) && LatestOn(db, t, l) && LatestUnread(db, t, c)
    ensures IsOn(db, t, l) && IsUnread(db, t, c)
    ensures forall o :: LatestOn(db, t, o) ==> o == l
    ensures forall o :: LatestUnread(db, t, o) ==> o == c
  {
    hide Watermark;
    forall o | LatestUnread(db, t, o) ensures o == c {
      assert IsOn(db, t, o) && IsOn(db, t, c);
    }
  }

  lemma UnseenNewestIsUnread(db: Tables, t: Target, l: Comment, c: Comment)
    requires DistinctTimes(db, t) && LatestOn(db, t, l) && LatestUnread(db, t, c)
    ensures l.id > Watermark(db, t) ==> l == c
  {
    hide Watermark;
    assert IsOn(db, t, c);
    assert l.id > Watermark(db, t) ==> IsUnread(db, t, l);
  }

  /** When the times on a target are distinct: the listing tells whether its newest
      comment is an unseen human's, except exactly when the newest comment has been
      seen and the newest unread one is a human's. */
  lemma UnreadTellsNewestIff(db: Tables, projectId: int, out: set<Target>, t: Target)
    requires t.projectId == projectId && DistinctTimes(db, t) && IsUnreadListing(db, projectId, out)
    ensures (t in out <==> exists c :: LatestOn(db, t, c) && Human(c) && c.id > Watermark(db, t))
            <==> !((exists l :: LatestOn(db, t, l) && l.id <= Watermark(db, t))
                   && exists c :: LatestUnread(db, t, c) && Human(c))
  {
    hide LatestOn, LatestUnread, IsUnread, IsOn, Watermark;
    if c :| LatestUnread(db, t, c) {
      UnreadIsOn(db, t, c);
      var l := LatestOnExists(db, t, c);
      LatestAreDecided(db, t, l, c);
      UnseenNewestIsUnread(db, t, l, c);
    } else if l :| LatestOn(db, t, l) {
      NothingUnread(db, t, l);
    }
  }

  lemma UnreadIsOn(db: Tables, t: Target, c: Comment)
    requires LatestUnread(db, t, c)
    ensures IsOn(db, t, c) && c.id > Watermark(db, t)
  {
  }

  lemma NothingUnread(db: Tables, t: Target, l: Comment)
    requires LatestOn(db, t, l) && forall c :: !LatestUnread(db, t, c)
    ensures forall o :: LatestOn(db, t, o) ==> o.id <= Watermark(db, t)
  {
    forall o | LatestOn(db, t, o) ensures o.id <= Watermark(db, t) {
      assert o.id > Watermark(db, t) ==> LatestUnread(db, t, o);
    }
  }

  /** Every feature listed as unread is also listed as pending, when ids and times
      agree within it. */
  lemma UnreadFeaturesArePending(db: Tables, projectId: int, unread: set<Target>, pending: set<Target>, t: Target)
    requires Ordered(db.comments) && IsUnreadListing(db, projectId, unread) && IsPendingListing(db, projectId, pending)
    requires t in unread && t.targetType == "feature"
    ensures t in pending
  {
    if t !in pending {
      PartsOnlyIf(db, projectId, unread, pending, t);
      SeenAgentIsOlder(db, t);
    }
  }

  lemma SeenAgentIsOlder(db: Tables, t: Target)
    requires Ordered(db.comments)
    ensures !CanPart(db, t)
  {
    if l, c :| LatestOn(db, t, l) && !Human(l) && LatestUnread(db, t, c) && Human(c) {
      assert IsOn(db, t, c) && l.createdAt >= c.createdAt;
      assert l.id >= c.id;
      assert IsUnread(db, t, l);
    }
  }

  /** When the clock runs against the ids the two listings part: a human comment
      with an unseen id but an older time than a seen agent comment. */
  lemma ClockAgainstIdsParts(t: Target)
    requires t.targetType == "feature"
    ensures var db := Tables([Comment(1, t, "agent", 9), Comment(2, t, "", 5)], map[t := 1]);
            && IsUnreadListing(db, t.projectId, {t})
            && IsPendingListing(db, t.projectId, {})
  {
    var agent, human := Comment(1, t, "agent", 9), Comment(2, t, "", 5);
    var db := Tables([agent, human], map[t := 1]);
    assert db.comments[0] == agent && db.comments[1] == human;
    assert forall c :: c in db.comments <==> c == agent || c == human;
    assert LatestUnread(db, t, human) && LatestOn(db, t, agent);
  }

  // -------------------------------------------------------------------- marking

  /** Marking moves one watermark, never down, to at least every comment on the
      target, and marking again changes nothing. */
  lemma MarkIsMonotoneAndIdempotent(db: Tables, t: Target, other: Target)
    ensures Watermark(Mark(db, t), other) >= Watermark(db, other)
    ensures other != t ==> Watermark(Mark(db, t), other) == Watermark(db, other)
    ensures Mark(Mark(db, t), t) == Mark(db, t) && Mark(db, t).comments == db.comments
    ensures forall c :: IsOn(db, t, c) ==> c.id <= Watermark(Mark(db, t), t)
    ensures var w := Watermark(Mark(db, t), t);
            w == Watermark(db, t) || w == 0 || exists c :: IsOn(db, t, c) && c.id == w
  {
    MaxIdIsTop(db.comments, t);
  }

  // ------------------------------------------------------------------ histories

  datatype Op = AddComment(c: Comment) | MarkSeen(t: Target)

  function Apply(db: Tables, op: Op): Tables {
    match op
    case AddComment(c) => Add(db, c)
    case MarkSeen(t) => Mark(db, t)
  }

  function Replay(ops: seq<Op>): Tables {
    if ops == [] then Tables([], map[]) else Apply(Replay(ops[..|ops| - 1]), ops[|ops| - 1])
  }

  /** The serial column and a clock that never stands still: every new comment has
      a larger id and a later time than all before. */
  ghost predicate Serial(ops: seq<Op>) {
    forall i :: 0 <= i < |ops| && ops[i].AddComment? ==>
      && ops[i].c.id > 0
      && forall j :: 0 <= j < i && ops[j].AddComment? ==>
           ops[j].c.id < ops[i].c.id && ops[j].c.createdAt < ops[i].c.createdAt
  }

  ghost predicate AddedIn(ops: seq<Op>, c: Comment) {
    exists i :: 0 <= i < |ops| && ops[i] == AddComment(c)
  }

  lemma {:induction false} ReplayHoldsAdds(ops: seq<Op>)
    ensures forall c :: c in Replay(ops).comments <==> AddedIn(ops, c)
  {
    if ops != [] {
      var init, op := ops[..|ops| - 1], ops[|ops| - 1];
      ReplayHoldsAdds(init);
      forall c ensures c in Replay(ops).comments <==> AddedIn(ops, c) {
        AddedStep(init, op, c);
        assert ops == init + [op];
      }
    }
  }

  lemma AddedStep(init: seq<Op>, op: Op, c: Comment)
    ensures AddedIn(init + [op], c) <==> AddedIn(init, c) || op == AddComment(c)
  {
    var ops := init + [op];
    assert ops[|init|] == op;
    assert forall i :: 0 <= i < |init| ==> ops[i] == init[i];
    if AddedIn(init, c) {
      var i :| 0 <= i < |init| && init[i] == AddComment(c);
      assert ops[i] == AddComment(c);
    }
  }

  lemma ReplayIsOrdered(ops: seq<Op>)
    requires Serial(ops)
    ensures Ordered(Replay(ops).comments)
  {
    var cs := Replay(ops).comments;
    ReplayHoldsAdds(ops);
    forall c | c in cs ensures exists i :: 0 <= i < |ops| && ops[i] == AddComment(c) {
      assert AddedIn(ops, c);
    }
    forall i | 0 <= i < |cs| ensures cs[i].id > 0 {
      assert cs[i] in cs;
    }
    forall c, o | c in cs && o in cs && c.target == o.target
      ensures (c.id < o.id <==> c.createdAt < o.createdAt) && (c.id == o.id ==> c == o)
    {
      var i :| 0 <= i < |ops| && ops[i] == AddComment(c);
      var j :| 0 <= j < |ops| && ops[j] == AddComment(o);
    }
  }

  /** The newest comment on `t` is number `i` of the history, and no mark of `t`
      follows it. */
  ghost predicate EndsUnseen(ops: seq<Op>, t: Target, i: nat) {
    && i < |ops| && ops[i].AddComment? && ops[i].c.target == t
    && forall j :: i < j < |ops| ==> ops[j] != MarkSeen(t) && !(ops[j].AddComment? && ops[j].c.target == t)
  }

  ghost predicate Unmarked(ops: seq<Op>, t: Target, i: nat) {
    forall j :: i < j < |ops| ==> ops[j] != MarkSeen(t)
  }

  /** The watermark of `t` is below exactly the comments no mark of `t` follows. */
  ghost predicate Tracks(ops: seq<Op>, t: Target) {
    && (forall i: nat :: i < |ops| && ops[i].AddComment? && ops[i].c.target == t ==>
          (ops[i].c.id > Watermark(Replay(ops), t) <==> Unmarked(ops, t, i)))
    && (Watermark(Replay(ops), t) == 0
        || exists i :: 0 <= i < |ops| && ops[i].AddComment? && ops[i].c.id == Watermark(Replay(ops), t))
  }

  lemma UnmarkedStep(init: seq<Op>, op: Op, t: Target, i: nat)
    requires i < |init|
    ensures Unmarked(init + [op], t, i) <==> Unmarked(init, t, i) && op != MarkSeen(t)
  {
    assert (init + [op])[|init|] == op;
    assert forall j :: 0 <= j < |init| ==> (init + [op])[j] == init[j];
  }

  lemma MarkTracks(init: seq<Op>, t: Target)
    requires Tracks(init, t)
    ensures Tracks(init + [MarkSeen(t)], t)
  {
    var ops, db := init + [MarkSeen(t)], Replay(init);
    assert ops[..|ops| - 1] == init;
    ReplayHoldsAdds(init);
    MaxIdIsTop(db.comments, t);
    forall i: nat | i < |ops| && ops[i].AddComment? && ops[i].c.target == t
      ensures ops[i].c.id <= Watermark(Replay(ops), t) && !Unmarked(ops, t, i)
    {
      UnmarkedStep(init, MarkSeen(t), t, i);
      assert AddedIn(init, ops[i].c);
    }
    if c :| c in db.comments && c.id == Watermark(Replay(ops), t) {
      assert AddedIn(init, c);
      var i :| 0 <= i < |init| && init[i] == AddComment(c);
      assert ops[i] == init[i];
    } else if i :| 0 <= i < |init| && init[i].AddComment? && init[i].c.id == Watermark(Replay(ops), t) {
      assert ops[i] == init[i];
    }
  }

  lemma OtherOpTracks(init: seq<Op>, op: Op, t: Target)
    requires Tracks(init, t) && op != MarkSeen(t) && Serial(init + [op])
    ensures Tracks(init + [op], t)
  {
    var ops := init + [op];
    assert ops[..|ops| - 1] == init && ops[|init|] == op;
    assert Watermark(Replay(ops), t) == Watermark(Replay(init), t);
    forall i: nat | i < |ops| && ops[i].AddComment? && ops[i].c.target == t
      ensures ops[i].c.id > Watermark(Replay(ops), t) <==> Unmarked(ops, t, i)
    {
      if i < |init| {
        assert ops[i] == init[i];
        UnmarkedStep(init, op, t, i);
      } else if k :| 0 <= k < |init| && init[k].AddComment? && init[k].c.id == Watermark(Replay(init), t) {
        assert ops[k] == init[k];
      }
    }
    if k :| 0 <= k < |init| && init[k].AddComment? && init[k].c.id == Watermark(Replay(init), t) {
      assert ops[k] == init[k];
    }
  }

  lemma {:induction false} WatermarkTracks(ops: seq<Op>, t: Target)
    requires Serial(ops)
    ensures Tracks(ops, t)
  {
    if ops != [] {
      var init, op := ops[..|ops| - 1], ops[|ops| - 1];
      assert forall i :: 0 <= i < |init| ==> init[i] == ops[i];
      WatermarkTracks(init, t);
      assert ops == init + [op];
      if op == MarkSeen(t) { MarkTracks(init, t); } else { OtherOpTracks(init, op, t); }
    }
  }

  /** The listing read off the history: a target is listed exactly when its newest
      comment is a human's and has not been marked since. In particular a mark
      silences a target until a newer human comment is the latest. */
  lemma ListedIffHumanSpokeLast(ops: seq<Op>, projectId: int, out: set<Target>, t: Target)
    requires Serial(ops) && IsUnreadListing(Replay(ops), projectId, out)
    ensures t in out <==> t.projectId == projectId && exists i: nat :: EndsUnseen(ops, t, i) && Human(ops[i].c)
  {
    var db := Replay(ops);
    ReplayIsOrdered(ops);
    ReplayHoldsAdds(ops);
    WatermarkTracks(ops, t);
    UnreadIffLatestIsNewHuman(db, projectId, out, t);
    if t in out {
      var c :| IsTop(db, t, c) && Human(c) && c.id > Watermark(db, t);
      assert AddedIn(ops, c);
      var i: nat :| i < |ops| && ops[i] == AddComment(c);
      TopBounds(ops, t, c);
      assert EndsUnseen(ops, t, i);
    }
    if i: nat :| EndsUnseen(ops, t, i) && Human(ops[i].c) {
      NewestIsTop(ops, t, i);
    }
  }

  lemma TopBounds(ops: seq<Op>, t: Target, c: Comment)
    requires IsTop(Replay(ops), t, c)
    ensures forall j :: 0 <= j < |ops| && ops[j].AddComment? && ops[j].c.target == t ==> ops[j].c.id <= c.id
  {
    ReplayHoldsAdds(ops);
    forall j | 0 <= j < |ops| && ops[j].AddComment? && ops[j].c.target == t ensures ops[j].c.id <= c.id {
      assert AddedIn(ops, ops[j].c) && IsOn(Replay(ops), t, ops[j].c);
    }
  }

  lemma NewestIsTop(ops: seq<Op>, t: Target, i: nat)
    requires Serial(ops) && EndsUnseen(ops, t, i)
    ensures IsTop(Replay(ops), t, ops[i].c)
  {
    var db, c := Replay(ops), ops[i].c;
    ReplayHoldsAdds(ops);
    assert AddedIn(ops, c);
    forall o | IsOn(db, t, o) ensures o.id <= c.id {
      assert AddedIn(ops, o);
      var j :| 0 <= j < |ops| && ops[j] == AddComment(o);
    }
  }

  // ------------------------------------------------------------------ the tables

  class CommentTables {
    var comments: seq<Comment>
    var seen: map<Target, int>
    ghost var ops: seq<Op>

    ghost predicate Valid()
      reads this
    {
      Tables(comments, seen) == Replay(ops)
    }

    constructor ()
      ensures Valid() && ops == []
    {
      comments, seen, ops := [], map[], [];
    }

    method InsertComment(c: Comment)
      requires Valid()
      modifies this
      ensures Valid() && ops == old(ops) + [AddComment(c)]
      ensures comments == old(comments) + [c] && seen == old(seen)
    {
      comments := comments + [c];
      ops := ops + [AddComment(c)];
      assert ops[..|ops| - 1] == old(ops);
    }

    /** `INSERT ... SELECT COALESCE(MAX(id), 0) ... ON CONFLICT DO UPDATE` */
    method MarkTargetCommentsSeen(t: Target)
      requires Valid()
      modifies this
      ensures Valid() && ops == old(ops) + [MarkSeen(t)] && comments == old(comments)
      ensures t in seen && forall c :: c in comments && c.target == t ==> c.id <= seen[t]
      ensures (t in old(seen) && seen[t] == old(seen)[t]) || seen[t] == 0
              || exists c :: c in comments && c.target == t && c.id == seen[t]
      ensures forall o :: o != t ==> (o in seen <==> o in old(seen)) && (o in seen ==> seen[o] == old(seen)[o])
    {
      var top := 0;
      for i := 0 to |comments|
        invariant top == MaxId(comments[..i], t)
      {
        assert comments[..i + 1][..i] == comments[..i];
        if comments[i].target == t && comments[i].id > top {
          top := comments[i].id;
        }
      }
      assert comments[..|comments|] == comments;
      MaxIdIsTop(comments, t);
      if t in seen && seen[t] > top {
        top := seen[t];
      }
      seen := seen[t := top];
      ops := ops + [MarkSeen(t)];
      assert ops[..|ops| - 1] == old(ops);
    }
  }
}
