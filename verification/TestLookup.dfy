/** Resolving a test name through the paginated listing. */
module TestLookup {
  import opened Wrappers
  import opened Text

  datatype Test = Test(id: int, name: string, lastRunAt: Option<string>)

  datatype Resolution = Found(id: int) | NoMatch

  /** The rows the loop sees when the server returns `pageLen(offset)` rows at each
      offset: it stops at the total or at an empty page. */
  function Seen(total: nat, pageLen: nat -> nat, offset: nat): (n: nat)
    requires offset <= total
    ensures offset <= n <= total
    decreases total - offset
  {
    var len := PageLength(total, pageLen, offset);
    if offset + len >= total || len == 0 then offset + len else Seen(total, pageLen, offset + len)
  }

  /** A page is never longer than what is left. */
  function PageLength(total: nat, pageLen: nat -> nat, offset: nat): nat
    requires offset <= total
  {
    if pageLen(offset) <= total - offset then pageLen(offset) else total - offset
  }

  /** The loop ends at the total, or at an offset whose page is empty. */
  lemma {:induction false} StopsAtEmptyPage(total: nat, pageLen: nat -> nat, offset: nat)
    requires offset <= total
    ensures offset <= Seen(total, pageLen, offset) <= total
    ensures Seen(total, pageLen, offset) == total || pageLen(Seen(total, pageLen, offset)) == 0
    decreases total - offset
  {
    var len := PageLength(total, pageLen, offset);
    if offset + len < total && len > 0 {
      StopsAtEmptyPage(total, pageLen, offset + len);
    }
  }

  /** With pages that are never empty before the end, every row is seen. */
  lemma {:induction false} PositivePagesSeeAll(total: nat, pageLen: nat -> nat, offset: nat)
    requires offset <= total && forall o :: pageLen(o) >= 1
    ensures Seen(total, pageLen, offset) == total
    decreases total - offset
  {
    var len := PageLength(total, pageLen, offset);
    if offset + len < total && len > 0 {
      PositivePagesSeeAll(total, pageLen, offset + len);
    }
  }

  /** A missing time counts as least. */
  predicate RanBefore(a: Test, b: Test) {
    b.lastRunAt.Some? && (a.lastRunAt.None? || Less(a.lastRunAt.value, b.lastRunAt.value))
  }

  /** No time is before every time, and is not before no time; two times compare as
      text. */
  lemma RanBeforeByTimes(a: Test, b: Test)
    ensures b.lastRunAt == None ==> !RanBefore(a, b)
    ensures a.lastRunAt == None && b.lastRunAt != None ==> RanBefore(a, b)
    ensures a.lastRunAt != None && b.lastRunAt != None ==>
              var x, y := a.lastRunAt.value, b.lastRunAt.value;
              RanBefore(a, b) <==> (|x| < |y| && y[..|x|] == x) || exists k: nat :: FirstDiffers(x, y, k)
  {
    if a.lastRunAt != None && b.lastRunAt != None {
      LessIsLexicographic(a.lastRunAt.value, b.lastRunAt.value);
    }
  }

  /** The later of two runs is found, wherever it is in the list. */
  lemma LaterRunIsFound(name: string, r: Resolution)
    requires Resolves([Test(1, name, Some("1")), Test(2, name, Some("2"))], name, r)
    ensures r == Found(2)
  {
    var a, b := Test(1, name, Some("1")), Test(2, name, Some("2"));
    var rows := [a, b];
    assert rows[0] == a && rows[1] == b;
    assert "1"[0] < "2"[0] && RanBefore(a, b);
    assert !IsFirstLatest(rows, name, 0);
  }

  lemma RanBeforeIsTransitive(a: Test, b: Test, c: Test)
    requires !RanBefore(b, a) && RanBefore(b, c)
    ensures RanBefore(a, c)
  {
    if a.lastRunAt.Some? && b.lastRunAt.Some? {
      LessIsTotal(a.lastRunAt.value, b.lastRunAt.value);
      if Less(a.lastRunAt.value, b.lastRunAt.value) {
        LessIsTransitive(a.lastRunAt.value, b.lastRunAt.value, c.lastRunAt.value);
      }
    }
  }

  lemma RanBeforeIsIrreflexive(a: Test)
    ensures !RanBefore(a, a)
  {
    if a.lastRunAt.Some? && Less(a.lastRunAt.value, a.lastRunAt.value) {
      LessIsAsymmetric(a.lastRunAt.value, a.lastRunAt.value);
    }
  }

  lemma RanBeforeChains(a: Test, b: Test, c: Test)
    requires RanBefore(a, b) && RanBefore(b, c)
    ensures RanBefore(a, c)
  {
    if a.lastRunAt.Some? {
      LessIsTransitive(a.lastRunAt.value, b.lastRunAt.value, c.lastRunAt.value);
    }
  }

  /** Row `i` is the first of the most recently run rows with that name. */
  ghost predicate IsFirstLatest(tests: seq<Test>, name: string, i: nat) {
    && i < |tests| && tests[i].name == name
    && (forall j :: 0 <= j < |tests| && tests[j].name == name ==> !RanBefore(tests[i], tests[j]))
    && (forall j :: 0 <= j < i && tests[j].name == name ==> RanBefore(tests[j], tests[i]))
  }

  /** There is only one such row: of equal times the earlier row is taken. */
  lemma FirstLatestIsUnique(tests: seq<Test>, name: string, i: nat, j: nat)
    requires IsFirstLatest(tests, name, i) && IsFirstLatest(tests, name, j)
    ensures i == j
  {
    hide RanBefore;
  }

  /** The exact-name matches among the first `n` rows. */
  function Matches(tests: seq<Test>, n: nat, name: string): seq<Test>
    requires n <= |tests|
  {
    if n == 0 then []
    else Matches(tests, n - 1, name) + if tests[n - 1].name == name then [tests[n - 1]] else []
  }

  lemma {:induction false} MatchesExact(tests: seq<Test>, n: nat, name: string, m: nat)
    requires n <= |tests| && m < |Matches(tests, n, name)|
    ensures Matches(tests, n, name)[m].name == name
    ensures exists i :: 0 <= i < n && tests[i] == Matches(tests, n, name)[m] && Matches(tests, i, name) == Matches(tests, n, name)[..m]
  {
    var all := Matches(tests, n, name);
    var before := Matches(tests, n - 1, name);
    if m < |before| {
      MatchesExact(tests, n - 1, name, m);
      assert all[..m] == before[..m];
    } else {
      assert all[..m] == before;
    }
  }

  lemma {:induction false} MatchesHold(tests: seq<Test>, n: nat, name: string, i: nat)
    requires i < n <= |tests| && tests[i].name == name
    ensures exists m :: 0 <= m < |Matches(tests, n, name)| && Matches(tests, n, name)[m] == tests[i]
  {
    var before := Matches(tests, n - 1, name);
    if i < n - 1 {
      MatchesHold(tests, n - 1, name, i);
      var m :| 0 <= m < |before| && before[m] == tests[i];
      assert Matches(tests, n, name)[m] == tests[i];
    } else {
      assert Matches(tests, n, name)[|before|] == tests[i];
    }
  }

  /** The first of the most recently run matches, as an index into the matches. */
  method MostRecent(matches: seq<Test>) returns (best: nat)
    requires matches != []
    ensures best < |matches|
    ensures forall m :: 0 <= m < |matches| ==> !RanBefore(matches[best], matches[m])
    ensures forall m :: 0 <= m < best ==> RanBefore(matches[m], matches[best])
  {
    best := 0;
    RanBeforeIsIrreflexive(matches[0]);
    for k := 1 to |matches|
      invariant best < k
      invariant forall m :: 0 <= m < k ==> !RanBefore(matches[best], matches[m])
      invariant forall m :: 0 <= m < best ==> RanBefore(matches[m], matches[best])
    {
      if RanBefore(matches[best], matches[k]) {
        forall m | 0 <= m < k ensures RanBefore(matches[m], matches[k]) && !RanBefore(matches[k], matches[m]) {
          RanBeforeIsTransitive(matches[m], matches[best], matches[k]);
          if RanBefore(matches[k], matches[m]) {
            RanBeforeChains(matches[best], matches[k], matches[m]);
          }
        }
        RanBeforeIsIrreflexive(matches[k]);
        best := k;
      }
    }
  }

  /** No match exactly when no row has the name; otherwise the id of the first of the
      most recently run rows that have it. */
  ghost predicate Resolves(rows: seq<Test>, name: string, r: Resolution) {
    && (r.NoMatch? <==> forall i :: 0 <= i < |rows| ==> rows[i].name != name)
    && (r.Found? ==> exists i: nat :: IsFirstLatest(rows, name, i) && rows[i].id == r.id)
  }

  /** Among the rows seen, the first of the most recently run rows with exactly
      that name; no match exactly when there is no such row. */
  method ResolveTestId(tests: seq<Test>, pageLen: nat -> nat, name: string) returns (r: Resolution)
    ensures Resolves(tests[..Seen(|tests|, pageLen, 0)], name, r)
    ensures (forall o :: pageLen(o) >= 1) ==> Resolves(tests, name, r)
  {
    hide Resolves;
    var offset: nat := 0;
    var matches: seq<Test> := [];
    ghost var n := Seen(|tests|, pageLen, 0);
    var more := true;
    while more
      invariant offset <= |tests| && matches == Matches(tests, offset, name)
      invariant n == if more then Seen(|tests|, pageLen, offset) else offset
      decreases more, |tests| - offset
    {
      var page := tests[offset..offset + PageLength(|tests|, pageLen, offset)];
      for k := 0 to |page|
        invariant matches == Matches(tests, offset + k, name)
      {
        if page[k].name == name {
          matches := matches + [page[k]];
        }
      }
      offset := offset + |page|;
      more := !(offset >= |tests| || |page| == 0);
    }
    ghost var seen := tests[..n];
    if forall o :: pageLen(o) >= 1 {
      PositivePagesSeeAll(|tests|, pageLen, 0);
      assert seen == tests;
    }
    if matches == [] {
      NoneResolves(tests, n, name);
      return NoMatch;
    }
    var best := MostRecent(matches);
    BestResolves(tests, n, name, best);
    r := Found(matches[best].id);
  }

  lemma NoneResolves(tests: seq<Test>, n: nat, name: string)
    requires n <= |tests| && Matches(tests, n, name) == []
    ensures Resolves(tests[..n], name, NoMatch)
  {
    SeenMatches(tests, n, name);
  }

  lemma BestResolves(tests: seq<Test>, n: nat, name: string, best: nat)
    requires n <= |tests| && best < |Matches(tests, n, name)|
    requires var ms := Matches(tests, n, name);
             && (forall m :: 0 <= m < |ms| ==> !RanBefore(ms[best], ms[m]))
             && (forall m :: 0 <= m < best ==> RanBefore(ms[m], ms[best]))
    ensures Resolves(tests[..n], name, Found(Matches(tests, n, name)[best].id))
  {
    BestIsFirstLatest(tests, n, name, best);
  }

  lemma SeenMatches(tests: seq<Test>, n: nat, name: string)
    requires n <= |tests|
    ensures Matches(tests, n, name) == [] <==> forall i :: 0 <= i < n ==> tests[i].name != name
  {
    if i :| 0 <= i < n && tests[i].name == name {
      MatchesHold(tests, n, name, i);
    }
    if Matches(tests, n, name) != [] {
      MatchesExact(tests, n, name, 0);
    }
  }

  lemma BestIsFirstLatest(tests: seq<Test>, n: nat, name: string, best: nat)
    requires n <= |tests| && best < |Matches(tests, n, name)|
    requires var ms := Matches(tests, n, name);
             && (forall m :: 0 <= m < |ms| ==> !RanBefore(ms[best], ms[m]))
             && (forall m :: 0 <= m < best ==> RanBefore(ms[m], ms[best]))
    ensures exists i: nat :: IsFirstLatest(tests[..n], name, i) && tests[..n][i].id == Matches(tests, n, name)[best].id
  {
    var ms, seen := Matches(tests, n, name), tests[..n];
    MatchesExact(tests, n, name, best);
    var i: nat :| i < n && tests[i] == ms[best] && Matches(tests, i, name) == ms[..best];
    forall j | 0 <= j < n && seen[j].name == name
      ensures !RanBefore(seen[i], seen[j]) && (j < i ==> RanBefore(seen[j], seen[i]))
    {
      MatchesHold(tests, n, name, j);
      if j < i {
        MatchesHold(tests, i, name, j);
      }
    }
    assert IsFirstLatest(seen, name, i);
  }
}
