/** UpsertCounted as an incremental aggregate of the counter events. */
module Counters {
  import opened Wrappers

  /** The columns of the unique index: `COALESCE(project_id, 0)` and three names. */
  datatype Key = Key(projectOrZero: int, component: string, environment: string, name: string)

  datatype Params = Params(
    projectId: Option<int>, component: string, environment: string, name: string,
    value: int, source: string, context: string, totalValue: int)

  datatype Row = Row(value: int, source: string, context: string, count: int, totalValue: int)

  function KeyOf(p: Params): Key {
    Key(if p.projectId.Some? then p.projectId.value else 0, p.component, p.environment, p.name)
  }

  /** Two calls are on one row exactly when component, environment and name agree and
      so do the projects, no project counting as project 0. */
  lemma SameKeyIff(p: Params, q: Params)
    ensures KeyOf(p) == KeyOf(q) <==>
              && p.component == q.component && p.environment == q.environment && p.name == q.name
              && (p.projectId == q.projectId
                  || (p.projectId == None && q.projectId == Some(0)) || (p.projectId == Some(0) && q.projectId == None))
  {
  }

  function Upsert(table: map<Key, Row>, p: Params): map<Key, Row> {
    var k := KeyOf(p);
    if k !in table then table[k := Row(p.value, p.source, p.context, 1, p.totalValue)]
    else
      var r := table[k];
      var greater := p.value > r.value;
      table[k := Row(
               if greater then p.value else r.value,
               if greater then p.source else r.source,
               if greater then p.context else r.context,
               r.count + 1,
               r.totalValue + p.value)]
  }

  function Replay(ps: seq<Params>): map<Key, Row> {
    if ps == [] then map[] else Upsert(Replay(ps[..|ps| - 1]), ps[|ps| - 1])
  }

  // ---------------------------------------------------------- the events of a key

  /** The calls on one key, in order. */
  function Of(ps: seq<Params>, k: Key): (r: seq<Params>) {
    if ps == [] then []
    else Of(ps[..|ps| - 1], k) + if KeyOf(ps[|ps| - 1]) == k then [ps[|ps| - 1]] else []
  }

  function Sum(ps: seq<Params>): int {
    if ps == [] then 0 else Sum(ps[..|ps| - 1]) + ps[|ps| - 1].value
  }

  ghost predicate IsMax(ps: seq<Params>, m: int) {
    (exists i :: 0 <= i < |ps| && ps[i].value == m) && forall i :: 0 <= i < |ps| ==> ps[i].value <= m
  }

  /** The row says what the calls on its key say: how many, their maximum with the
      source and context of the earliest call that attains it, and their sum but
      for the first call's own `total_value`. */
  ghost predicate Aggregates(r: Row, es: seq<Params>) {
    && es != []
    && r.count == |es|
    && r.totalValue == es[0].totalValue + Sum(es) - es[0].value
    && exists i :: 0 <= i < |es| && es[i].value == r.value && es[i].source == r.source && es[i].context == r.context
                   && (forall j :: 0 <= j < |es| ==> es[j].value <= r.value)
                   && (forall j :: 0 <= j < i ==> es[j].value < r.value)
  }

  lemma AggregatesStep(r: Row, es: seq<Params>, p: Params, table: map<Key, Row>)
    requires Aggregates(r, es) && KeyOf(p) in table && table[KeyOf(p)] == r
    ensures Aggregates(Upsert(table, p)[KeyOf(p)], es + [p])
  {
    var all, n := es + [p], Upsert(table, p)[KeyOf(p)];
    assert all[..|all| - 1] == es && all[0] == es[0] && all[|es|] == p;
    assert forall j :: 0 <= j < |es| ==> all[j] == es[j];
    if p.value <= r.value {
      var i :| 0 <= i < |es| && es[i].value == r.value && es[i].source == r.source && es[i].context == r.context
               && (forall j :: 0 <= j < i ==> es[j].value < r.value);
      assert all[i].value == n.value && all[i].source == n.source && all[i].context == n.context;
    }
  }

  /** After any calls, on any keys in any order, each key has a row exactly when it
      was called, and the row aggregates the calls on that key alone. */
  lemma {:induction false} RowsAggregate(ps: seq<Params>, k: Key)
    ensures k in Replay(ps) <==> Of(ps, k) != []
    ensures k in Replay(ps) ==> Aggregates(Replay(ps)[k], Of(ps, k))
  {
    if ps != [] {
      var init, p := ps[..|ps| - 1], ps[|ps| - 1];
      RowsAggregate(init, k);
      if KeyOf(p) == k {
        if k in Replay(init) {
          AggregatesStep(Replay(init)[k], Of(init, k), p, Replay(init));
        } else {
          assert Of(ps, k) == [p] && Sum([p]) == Sum([p][..0]) + p.value;
        }
      } else {
        assert Of(ps, k) == Of(init, k);
      }
    }
  }

  /** The total is the sum of the values exactly when the first call on the key
      passed its value as the total, as the ingest handler does. */
  lemma TotalIsSumIff(ps: seq<Params>, k: Key)
    requires k in Replay(ps)
    ensures Of(ps, k) != []
    ensures Replay(ps)[k].totalValue == Sum(Of(ps, k)) <==> Of(ps, k)[0].totalValue == Of(ps, k)[0].value
    ensures Replay(ps)[k].count == |Of(ps, k)| && IsMax(Of(ps, k), Replay(ps)[k].value)
  {
    RowsAggregate(ps, k);
  }

  // --------------------------------------------------------------- order is no matter

  lemma {:induction false} SumSplit(a: seq<Params>, b: seq<Params>)
    ensures Sum(a + b) == Sum(a) + Sum(b)
  {
    if b == [] {
      assert a + b == a;
    } else {
      SumSplit(a, b[..|b| - 1]);
      assert (a + b)[..|a + b| - 1] == a + b[..|b| - 1];
    }
  }

  lemma SumOfOne(p: Params)
    ensures Sum([p]) == p.value
  {
    assert [p][..0] == [];
  }

  lemma SumAround(l: seq<Params>, p: Params, r: seq<Params>)
    ensures Sum(l + ([p] + r)) == Sum(l + r) + p.value
  {
    SumOfOne(p);
    hide Sum;
    SumSplit(l, [p] + r);
    SumSplit([p], r);
    SumSplit(l, r);
  }

  lemma SumWithout(a: seq<Params>, i: nat)
    requires i < |a|
    ensures Sum(a) == Sum(a[..i] + a[i + 1..]) + a[i].value
  {
    hide Sum;
    SumAround(a[..i], a[i], a[i + 1..]);
    assert a == a[..i] + ([a[i]] + a[i + 1..]);
  }

  lemma MultisetWithout(a: seq<Params>, i: nat)
    requires i < |a|
    ensures multiset(a[..i] + a[i + 1..]) == multiset(a) - multiset{a[i]}
  {
    assert a == a[..i] + ([a[i]] + a[i + 1..]);
  }

  lemma {:induction false} SumOfPermutation(a: seq<Params>, b: seq<Params>)
    requires multiset(a) == multiset(b)
    ensures Sum(a) == Sum(b) && |a| == |b|
    decreases |a|
  {
    assert |a| == |multiset(a)| == |multiset(b)| == |b|;
    if a != [] {
      var n := |a| - 1;
      assert a[n] in multiset(b);
      var i :| 0 <= i < |b| && b[i] == a[n];
      SumWithout(a, n);
      SumWithout(b, i);
      MultisetWithout(a, n);
      MultisetWithout(b, i);
      assert a[..n] + a[n + 1..] == a[..n];
      SumOfPermutation(a[..n], b[..i] + b[i + 1..]);
    }
  }

  lemma {:induction false} OfPermutation(a: seq<Params>, k: Key)
    ensures forall p :: multiset(Of(a, k))[p] == if KeyOf(p) == k then multiset(a)[p] else 0
  {
    if a != [] {
      OfPermutation(a[..|a| - 1], k);
      assert a == a[..|a| - 1] + [a[|a| - 1]];
    }
  }

  /** How far the first call's `total_value` is from its value. */
  function FirstOffset(es: seq<Params>): int {
    if es == [] then 0 else es[0].totalValue - es[0].value
  }

  /** Count and maximum do not depend on the order of the calls; neither does the
      total, as long as the first calls on the key are off by the same amount. */
  lemma OrderDoesNotMatter(a: seq<Params>, b: seq<Params>, k: Key)
    requires multiset(a) == multiset(b) && k in Replay(a)
    ensures k in Replay(b)
    ensures Replay(a)[k].count == Replay(b)[k].count && Replay(a)[k].value == Replay(b)[k].value
    ensures Replay(a)[k].totalValue == Replay(b)[k].totalValue <==> FirstOffset(Of(a, k)) == FirstOffset(Of(b, k))
  {
    hide Of, Sum, Upsert, Replay;
    var x, y := Of(a, k), Of(b, k);
    OfPermutation(a, k);
    OfPermutation(b, k);
    assert multiset(x) == multiset(y);
    SumOfPermutation(x, y);
    RowsAggregate(a, k);
    RowsAggregate(b, k);
    MaxOfPermutation(x, y, Replay(a)[k].value, Replay(b)[k].value);
  }

  lemma MaxOfPermutation(a: seq<Params>, b: seq<Params>, m: int, n: int)
    requires multiset(a) == multiset(b) && IsMax(a, m) && IsMax(b, n)
    ensures m == n
  {
    var i :| 0 <= i < |a| && a[i].value == m;
    var j :| 0 <= j < |b| && b[j].value == n;
    assert a[i] in multiset(b) && b[j] in multiset(a);
    var i' :| 0 <= i' < |b| && b[i'] == a[i];
    var j' :| 0 <= j' < |a| && a[j'] == b[j];
  }

  class CounterTable {
    var rows: map<Key, Row>
    ghost var calls: seq<Params>

    ghost predicate Valid()
      reads this
    {
      rows == Replay(calls)
    }

    constructor ()
      ensures Valid() && calls == []
    {
      rows, calls := map[], [];
    }

    method UpsertCounted(p: Params)
      requires Valid()
      modifies this
      ensures Valid() && calls == old(calls) + [p]
      ensures KeyOf(p) in rows && Aggregates(rows[KeyOf(p)], Of(calls, KeyOf(p)))
      ensures forall k :: k != KeyOf(p) ==> (k in rows <==> k in old(rows)) && (k in rows ==> rows[k] == old(rows)[k])
    {
      var k := KeyOf(p);
      if k !in rows {
        rows := rows[k := Row(p.value, p.source, p.context, 1, p.totalValue)];
      } else {
        var r := rows[k];
        if p.value > r.value {
          r := Row(p.value, p.source, p.context, r.count + 1, r.totalValue + p.value);
        } else {
          r := Row(r.value, r.source, r.context, r.count + 1, r.totalValue + p.value);
        }
        rows := rows[k := r];
      }
      assert rows == Upsert(old(rows), p);
      hide Upsert;
      hide Aggregates, Of, Sum;
      calls := calls + [p];
      assert calls[..|calls| - 1] == old(calls);
      RowsAggregate(calls, k);
    }
  }
}
