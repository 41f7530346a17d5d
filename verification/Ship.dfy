/** Validation of the ship sections: the in-place sort, one component's problems,
    and the report over all components. */
module Ship {
  import opened Wrappers
  import opened Text

  datatype Stage = Stage(name: string, run: string, builtin: string)

  datatype Ship = Ship(strategy: string, secretsFile: string, env: map<string, string>, stages: seq<Stage>)

  /** One error line; stage indices are as in the message. */
  datatype Problem =
    | UnknownStrategy
    | NoStages
    | MissingRun(stage: nat)
    | Duplicate(stage: nat, also: nat)

  // ---------------------------------------------------------------------- the sort

  ghost predicate Sorted(s: seq<string>) {
    forall i, j :: 0 <= i < j < |s| ==> Leq(s[i], s[j])
  }

  ghost predicate SameElements(a: seq<string>, b: seq<string>) {
    multiset(a) == multiset(b)
  }

  ghost predicate SortedTo(s: seq<string>, n: nat) {
    n <= |s| && forall a, b :: 0 <= a < b < n ==> Leq(s[a], s[b])
  }

  /** Sorted up to `s[i]`, but for `s[j]` and what is before it. */
  ghost predicate SortedBut(s: seq<string>, i: nat, j: nat) {
    j <= i < |s| && forall a, b :: 0 <= a < b <= i && b != j ==> Leq(s[a], s[b])
  }

  function Swapped(s: seq<string>, j: nat): seq<string>
    requires 0 < j < |s|
  {
    s[j - 1 := s[j]][j := s[j - 1]]
  }

  lemma SwapKeepsElements(s: seq<string>, j: nat, was: seq<string>)
    requires 0 < j < |s| && SameElements(s, was)
    ensures SameElements(Swapped(s, j), was)
  {
  }

  lemma SwapKeepsOrder(s: seq<string>, i: nat, j: nat)
    requires SortedBut(s, i, j) && j > 0 && Less(s[j], s[j - 1])
    ensures SortedBut(Swapped(s, j), i, j - 1)
  {
    hide Less;
  }

  lemma StartInsertion(s: seq<string>, i: nat)
    requires SortedTo(s, i) && i < |s|
    ensures SortedBut(s, i, i)
  {
    hide Less;
  }

  /** What is sorted but for `s[j]` is sorted when `s[j]` is not below `s[j - 1]`. */
  lemma EndInsertion(s: seq<string>, i: nat, j: nat)
    requires SortedBut(s, i, j) && (j > 0 ==> !Less(s[j], s[j - 1]))
    ensures SortedTo(s, i + 1)
  {
    hide Less;
    forall a | 0 <= a < j ensures Leq(s[a], s[j]) {
      LessIsTotal(s[j - 1], s[j]);
      if a < j - 1 {
        LeqIsTransitive(s[a], s[j - 1], s[j]);
      }
    }
  }

  lemma SortedAtEnds(s: seq<string>)
    ensures |s| >= 1 ==> SortedTo(s, 1)
    ensures SortedTo(s, |s|) || |s| == 0 ==> Sorted(s)
  {
    hide Less;
  }

  method SortStrings(s: array<string>)
    modifies s
    ensures Sorted(s[..]) && multiset(s[..]) == multiset(old(s[..]))
  {
    ghost var was := s[..];
    assert SameElements(was, was);
    SortedAtEnds(was);
    hide Less, Sorted, SortedTo, SortedBut;
    var i := 1;
    while i < s.Length
      invariant 1 <= i && (s.Length > 0 ==> i <= s.Length && SortedTo(s[..], i))
      invariant SameElements(s[..], was)
    {
      hide SameElements;
      StartInsertion(s[..], i);
      var j := i;
      while j > 0 && Less(s[j], s[j - 1])
        invariant 0 <= j <= i && SortedBut(s[..], i, j)
        invariant SameElements(s[..], was)
      {
        ghost var before := s[..];
        s[j - 1], s[j] := s[j], s[j - 1];
        assert s[..] == Swapped(before, j);
        SwapKeepsElements(before, j, was);
        SwapKeepsOrder(before, i, j);
        j := j - 1;
      }
      EndInsertion(s[..], i, j);
      i := i + 1;
    }
    SortedAtEnds(s[..]);
  }

  /** There is only one sorted permutation, so any sort gives the same sequence. */
  lemma {:induction false} SortedIsUnique(a: seq<string>, b: seq<string>)
    requires Sorted(a) && Sorted(b) && multiset(a) == multiset(b)
    ensures a == b
  {
    assert |a| == |multiset(a)| == |multiset(b)| == |b|;
    if a != [] {
      LeastFirst(a, b);
      LeastFirst(b, a);
      if a[0] != b[0] {
        LessIsAsymmetric(a[0], b[0]);
      }
      assert a == [a[0]] + a[1..] && b == [b[0]] + b[1..];
      assert multiset(a[1..]) == multiset(a) - multiset{a[0]};
      assert multiset(b[1..]) == multiset(b) - multiset{b[0]};
      SortedIsUnique(a[1..], b[1..]);
    }
  }

  lemma LeastFirst(a: seq<string>, b: seq<string>)
    requires Sorted(a) && a != [] && b != [] && multiset(a) == multiset(b)
    ensures Leq(a[0], b[0])
  {
    assert b[0] in multiset(a);
    var i :| 0 <= i < |a| && a[i] == b[0];
  }

  // ----------------------------------------------------------- one component's problems

  predicate ValidStrategy(s: string) {
    s == "simple" || s == "rolling-pair" || s == "maintenance" || s == "blue-green"
  }

  predicate IsZero(s: Ship) {
    s.strategy == "" && s.secretsFile == "" && |s.env| == 0 && |s.stages| == 0
  }

  predicate IsMissing(st: Stage) {
    st.run == "" && st.builtin == ""
  }

  /** The first of the first `n` stages with that name. */
  function FirstNamed(stages: seq<Stage>, name: string, n: nat): (r: Option<nat>)
    requires n <= |stages|
    ensures r.None? ==> forall i :: 0 <= i < n ==> stages[i].name != name
    ensures r.Some? ==> r.value < n && stages[r.value].name == name && forall i :: 0 <= i < r.value ==> stages[i].name != name
  {
    if n == 0 then None
    else
      var before := FirstNamed(stages, name, n - 1);
      if before.Some? then before
      else if stages[n - 1].name == name then Some(n - 1)
      else None
  }

  function ProblemsAt(stages: seq<Stage>, i: nat): seq<Problem>
    requires i < |stages|
  {
    var first := FirstNamed(stages, stages[i].name, i);
    (if IsMissing(stages[i]) then [MissingRun(i)] else [])
    + (if stages[i].name != "" && first.Some? then [Duplicate(i, first.value)] else [])
  }

  function StageProblems(stages: seq<Stage>, n: nat): seq<Problem>
    requires n <= |stages|
  {
    if n == 0 then [] else StageProblems(stages, n - 1) + ProblemsAt(stages, n - 1)
  }

  function ShipProblems(s: Ship): seq<Problem> {
    (if s.strategy != "" && !ValidStrategy(s.strategy) then [UnknownStrategy] else [])
    + (if |s.stages| == 0 then [NoStages] else StageProblems(s.stages, |s.stages|))
  }

  /** The names seen in the first `n` stages, each with its first index. */
  ghost predicate Indexes(seen: map<string, nat>, stages: seq<Stage>, n: nat)
    requires n <= |stages|
  {
    forall name ::
      && (name in seen <==> name != "" && FirstNamed(stages, name, n).Some?)
      && (name in seen ==> seen[name] == FirstNamed(stages, name, n).value)
  }

  lemma IndexesStep(seen: map<string, nat>, stages: seq<Stage>, i: nat)
    requires i < |stages| && Indexes(seen, stages, i)
    ensures var name := stages[i].name;
            Indexes(if name == "" || name in seen then seen else seen[name := i], stages, i + 1)
  {
  }

  lemma StageStep(seen: map<string, nat>, stages: seq<Stage>, i: nat, head: seq<Problem>)
    requires i < |stages| && Indexes(seen, stages, i)
    ensures var name := stages[i].name;
            head + StageProblems(stages, i + 1)
            == head + StageProblems(stages, i) + (if IsMissing(stages[i]) then [MissingRun(i)] else [])
               + if name in seen then [Duplicate(i, seen[name])] else []
  {
    hide IsMissing, FirstNamed;
    var before := StageProblems(stages, i);
    assert head + (before + ProblemsAt(stages, i)) == head + before + ProblemsAt(stages, i);
  }

  method ValidateShip(s: Ship) returns (errs: seq<Problem>)
    ensures errs == ShipProblems(s)
  {
    hide ValidStrategy, FirstNamed, ProblemsAt;
    errs := [];
    if s.strategy != "" && !ValidStrategy(s.strategy) {
      errs := errs + [UnknownStrategy];
    }
    if |s.stages| == 0 {
      errs := errs + [NoStages];
      return;
    }
    ghost var head := errs;
    var seen: map<string, nat> := map[];
    FirstNamedNone(s.stages);
    assert head + [] == head;
    for i := 0 to |s.stages|
      invariant errs == head + StageProblems(s.stages, i)
      invariant Indexes(seen, s.stages, i)
    {
      var st := s.stages[i];
      StageStep(seen, s.stages, i, head);
      IndexesStep(seen, s.stages, i);
      NoEmptyName(seen, s.stages, i);
      hide StageProblems, Indexes;
      if st.run == "" && st.builtin == "" {
        errs := errs + [MissingRun(i)];
      } else {
        assert errs + [] == errs;
      }
      if st.name == "" {
        assert errs + [] == errs;
        continue;
      }
      if st.name in seen {
        errs := errs + [Duplicate(i, seen[st.name])];
        continue;
      }
      assert errs + [] == errs;
      seen := seen[st.name := i];
    }
  }

  lemma FirstNamedNone(stages: seq<Stage>)
    ensures forall name :: FirstNamed(stages, name, 0).None?
  {
  }

  lemma NoEmptyName(seen: map<string, nat>, stages: seq<Stage>, i: nat)
    requires i < |stages| && Indexes(seen, stages, i)
    ensures "" !in seen
  {
  }

  /** A duplicate cites the first stage of that name, and only an earlier one. */
  ghost predicate Repeats(stages: seq<Stage>, i: nat, first: nat) {
    && first < i < |stages| && stages[i].name != "" && stages[first].name == stages[i].name
    && forall k :: 0 <= k < first ==> stages[k].name != stages[i].name
  }

  lemma ProblemsAtExact(stages: seq<Stage>, i: nat, p: Problem)
    requires i < |stages|
    ensures p in ProblemsAt(stages, i) <==>
            || (p == MissingRun(i) && IsMissing(stages[i]))
            || (p.Duplicate? && p.stage == i && Repeats(stages, i, p.also))
  {
    var first := FirstNamed(stages, stages[i].name, i);
    if p.Duplicate? && p.stage == i && Repeats(stages, i, p.also) {
      assert first.Some?;
      assert first.value == p.also;
    }
  }

  lemma {:induction false} StageProblemsExact(stages: seq<Stage>, n: nat, p: Problem)
    requires n <= |stages|
    ensures p in StageProblems(stages, n) <==>
            || (p.MissingRun? && p.stage < n && IsMissing(stages[p.stage]))
            || (p.Duplicate? && p.stage < n && Repeats(stages, p.stage, p.also))
  {
    hide ProblemsAt, IsMissing, Repeats;
    if n > 0 {
      StageProblemsExact(stages, n - 1, p);
      ProblemsAtExact(stages, n - 1, p);
    }
  }

  /** Exactly these problems are reported. */
  lemma ProblemsExact(s: Ship, p: Problem)
    ensures p in ShipProblems(s) <==>
            match p
            case UnknownStrategy => s.strategy !in {"", "simple", "rolling-pair", "maintenance", "blue-green"}
            case NoStages => s.stages == []
            case MissingRun(i) => i < |s.stages| && s.stages[i].run == "" && s.stages[i].builtin == ""
            case Duplicate(i, first) => Repeats(s.stages, i, first)
  {
    hide StageProblems;
    StageProblemsExact(s.stages, |s.stages|, p);
  }

  /** The strategy comes first; stages come in their order, and a missing command
      before a repeated name. */
  predicate Precedes(p: Problem, q: Problem) {
    if p.UnknownStrategy? then !q.UnknownStrategy?
    else
      && (p.MissingRun? || p.Duplicate?) && (q.MissingRun? || q.Duplicate?)
      && (p.stage < q.stage || (p.stage == q.stage && p.MissingRun? && q.Duplicate?))
  }

  ghost predicate InOrder(ps: seq<Problem>) {
    forall i, j :: 0 <= i < j < |ps| ==> Precedes(ps[i], ps[j])
  }

  lemma InOrderAppend(a: seq<Problem>, b: seq<Problem>)
    requires InOrder(a) && InOrder(b) && forall p, q :: p in a && q in b ==> Precedes(p, q)
    ensures InOrder(a + b)
  {
    hide Precedes;
    var all := a + b;
    forall i, j | 0 <= i < j < |all| ensures Precedes(all[i], all[j]) {
      if i < |a| <= j {
        assert all[i] in a && all[j] in b;
      }
    }
  }

  lemma {:induction false} StageProblemsInOrder(stages: seq<Stage>, n: nat)
    requires n <= |stages|
    ensures InOrder(StageProblems(stages, n))
  {
    if n > 0 {
      var before, at := StageProblems(stages, n - 1), ProblemsAt(stages, n - 1);
      StageProblemsInOrder(stages, n - 1);
      assert InOrder(at);
      forall p, q | p in before && q in at ensures Precedes(p, q) {
        StageProblemsExact(stages, n - 1, p);
        ProblemsAtExact(stages, n - 1, q);
      }
      hide ProblemsAt;
      InOrderAppend(before, at);
    }
  }

  lemma ProblemsInOrder(s: Ship)
    ensures InOrder(ShipProblems(s))
  {
    var head := if s.strategy != "" && !ValidStrategy(s.strategy) then [UnknownStrategy] else [];
    var tail := if |s.stages| == 0 then [NoStages] else StageProblems(s.stages, |s.stages|);
    hide StageProblems, ValidStrategy;
    StageProblemsInOrder(s.stages, |s.stages|);
    forall p, q | p in head && q in tail ensures Precedes(p, q) {
      StageProblemsExact(s.stages, |s.stages|, q);
    }
    InOrderAppend(head, tail);
  }

  // ------------------------------------------------------------------------ the count

  function MissingStages(stages: seq<Stage>, n: nat): set<nat>
    requires n <= |stages|
  {
    set i: nat | i < n && IsMissing(stages[i])
  }

  function NamedStages(stages: seq<Stage>, n: nat): set<nat>
    requires n <= |stages|
  {
    set i: nat | i < n && stages[i].name != ""
  }

  function Names(stages: seq<Stage>, n: nat): set<string>
    requires n <= |stages|
  {
    set i: nat | i < n && stages[i].name != "" :: stages[i].name
  }

  lemma MissingStep(stages: seq<Stage>, n: nat)
    requires n < |stages|
    ensures |MissingStages(stages, n + 1)| == |MissingStages(stages, n)| + if IsMissing(stages[n]) then 1 else 0
  {
    hide IsMissing;
    assert MissingStages(stages, n + 1) == MissingStages(stages, n) + if IsMissing(stages[n]) then {n} else {};
  }

  lemma NamedStep(stages: seq<Stage>, n: nat)
    requires n < |stages|
    ensures |NamedStages(stages, n + 1)| == |NamedStages(stages, n)| + if stages[n].name != "" then 1 else 0
  {
    assert NamedStages(stages, n + 1) == NamedStages(stages, n) + if stages[n].name != "" then {n} else {};
  }

  lemma NamesStep(stages: seq<Stage>, n: nat)
    requires n < |stages|
    ensures |Names(stages, n + 1)| == |Names(stages, n)|
                                      + if stages[n].name != "" && FirstNamed(stages, stages[n].name, n).None? then 1 else 0
  {
    var name := stages[n].name;
    NamesGrow(stages, n);
    if name != "" {
      NamesHold(stages, n, name);
    }
    hide FirstNamed, Names;
  }

  lemma NamesGrow(stages: seq<Stage>, n: nat)
    requires n < |stages|
    ensures Names(stages, n + 1) == Names(stages, n) + if stages[n].name != "" then {stages[n].name} else {}
  {
  }

  lemma NamesHold(stages: seq<Stage>, n: nat, name: string)
    requires n <= |stages| && name != ""
    ensures name in Names(stages, n) <==> FirstNamed(stages, name, n).Some?
  {
    hide FirstNamed;
    if FirstNamed(stages, name, n).Some? {
      assert stages[FirstNamed(stages, name, n).value].name in Names(stages, n);
    }
  }

  lemma ProblemsAtCount(stages: seq<Stage>, i: nat)
    requires i < |stages|
    ensures |ProblemsAt(stages, i)|
            == (if IsMissing(stages[i]) then 1 else 0)
               + if stages[i].name != "" && FirstNamed(stages, stages[i].name, i).Some? then 1 else 0
  {
  }

  lemma {:induction false} StageCount(stages: seq<Stage>, n: nat)
    requires n <= |stages|
    ensures |StageProblems(stages, n)|
            == |MissingStages(stages, n)| + |NamedStages(stages, n)| - |Names(stages, n)|
  {
    if n > 0 {
      hide ProblemsAt, FirstNamed, IsMissing;
      StageCount(stages, n - 1);
      ProblemsAtCount(stages, n - 1);
      MissingStep(stages, n - 1);
      NamedStep(stages, n - 1);
      NamesStep(stages, n - 1);
      hide MissingStages, NamedStages, Names;
    }
  }

  /** One problem for an unknown strategy; one more when there are no stages, and
      otherwise one for each stage without run and builtin and one for each named
      stage beyond the first of its name. */
  lemma ProblemCount(s: Ship)
    ensures var missing := set i: nat | i < |s.stages| && s.stages[i].run == "" && s.stages[i].builtin == "";
            var named := set i: nat | i < |s.stages| && s.stages[i].name != "";
            var names := set i: nat | i < |s.stages| && s.stages[i].name != "" :: s.stages[i].name;
            |ShipProblems(s)|
            == (if s.strategy !in {"", "simple", "rolling-pair", "maintenance", "blue-green"} then 1 else 0)
               + if s.stages == [] then 1 else |missing| + |named| - |names|
  {
    StageCount(s.stages, |s.stages|);
    hide StageProblems;
    assert MissingStages(s.stages, |s.stages|)
        == set i: nat | i < |s.stages| && s.stages[i].run == "" && s.stages[i].builtin == "";
  }

  // ----------------------------------------------------------------- all components

  datatype Line = Line(component: string, problem: Problem)

  function Label(name: string, ps: seq<Problem>): seq<Line> {
    if ps == [] then [] else Label(name, ps[..|ps| - 1]) + [Line(name, ps[|ps| - 1])]
  }

  function LinesFor(components: map<string, Ship>, name: string): seq<Line>
    requires name in components
  {
    if IsZero(components[name]) then [] else Label(name, ShipProblems(components[name]))
  }

  /** The lines of the components named, in that order. */
  function Collect(components: map<string, Ship>, names: seq<string>): seq<Line>
    requires forall i :: 0 <= i < |names| ==> names[i] in components
  {
    if names == [] then []
    else Collect(components, names[..|names| - 1]) + LinesFor(components, names[|names| - 1])
  }

  lemma CollectStep(components: map<string, Ship>, names: seq<string>, i: nat)
    requires i < |names| && forall k :: 0 <= k < |names| ==> names[k] in components
    ensures Collect(components, names[..i + 1]) == Collect(components, names[..i]) + LinesFor(components, names[i])
  {
    hide LinesFor;
    assert names[..i + 1][..i] == names[..i] && names[..i + 1][i] == names[i];
  }

  /** The names of the components, each once. */
  ghost predicate Enumerates(names: seq<string>, components: map<string, Ship>) {
    multiset(names) == multiset(components.Keys)
  }

  lemma EnumeratesOnlyKeys(names: seq<string>, components: map<string, Ship>)
    requires Enumerates(names, components)
    ensures forall i :: 0 <= i < |names| ==> names[i] in components
    ensures forall name :: name in components ==> name in names
  {
    forall i | 0 <= i < |names| ensures names[i] in components {
      assert names[i] in multiset(names);
    }
    forall name | name in components ensures name in names {
      assert name in multiset(components.Keys);
    }
  }

  /** The lines of all components, in the order of their names. */
  ghost predicate IsReport(components: map<string, Ship>, lines: seq<Line>) {
    exists names :: Sorted(names) && Enumerates(names, components)
                    && (forall i :: 0 <= i < |names| ==> names[i] in components)
                    && lines == Collect(components, names)
  }

  lemma ReportIsUnique(components: map<string, Ship>, a: seq<Line>, b: seq<Line>)
    requires IsReport(components, a) && IsReport(components, b)
    ensures a == b
  {
    var m :| Sorted(m) && Enumerates(m, components) && (forall i :: 0 <= i < |m| ==> m[i] in components) && a == Collect(components, m);
    var n :| Sorted(n) && Enumerates(n, components) && (forall i :: 0 <= i < |n| ==> n[i] in components) && b == Collect(components, n);
    SortedIsUnique(m, n);
  }

  lemma {:induction false} LabelExact(name: string, ps: seq<Problem>, l: Line)
    ensures l in Label(name, ps) <==> l.component == name && l.problem in ps
  {
    if ps != [] {
      LabelExact(name, ps[..|ps| - 1], l);
      assert ps == ps[..|ps| - 1] + [ps[|ps| - 1]];
    }
  }

  lemma {:induction false} CollectExact(components: map<string, Ship>, names: seq<string>, l: Line)
    requires forall i :: 0 <= i < |names| ==> names[i] in components
    ensures l in Collect(components, names) <==>
            && l.component in names && l.component in components && !IsZero(components[l.component])
            && l.problem in ShipProblems(components[l.component])
  {
    if names != [] {
      var init, last := names[..|names| - 1], names[|names| - 1];
      assert names == init + [last];
      CollectExact(components, init, l);
      LabelExact(last, ShipProblems(components[last]), l);
      hide Label, ShipProblems, IsZero;
    }
  }

  /** The report holds exactly the problems of every component that declares any field
      of a ship section. */
  lemma ReportExact(components: map<string, Ship>, lines: seq<Line>, l: Line)
    requires IsReport(components, lines)
    ensures l in lines <==>
            && l.component in components
            && (var c := components[l.component]; c.strategy != "" || c.secretsFile != "" || |c.env| > 0 || |c.stages| > 0)
            && l.problem in ShipProblems(components[l.component])
  {
    hide Collect, ShipProblems, Sorted;
    var names :| Sorted(names) && Enumerates(names, components) && (forall i :: 0 <= i < |names| ==> names[i] in components)
                 && lines == Collect(components, names);
    EnumeratesOnlyKeys(names, components);
    CollectExact(components, names, l);
  }

  // ------------------------------------------------------------ the order of the report

  ghost predicate LinePrecedes(l: Line, m: Line) {
    Less(l.component, m.component) || (l.component == m.component && Precedes(l.problem, m.problem))
  }

  lemma {:induction false} LabelAt(name: string, ps: seq<Problem>)
    ensures |Label(name, ps)| == |ps|
    ensures forall i :: 0 <= i < |ps| ==> Label(name, ps)[i] == Line(name, ps[i])
  {
    if ps != [] {
      LabelAt(name, ps[..|ps| - 1]);
    }
  }

  ghost predicate Ascending(names: seq<string>) {
    forall i, j :: 0 <= i < j < |names| ==> Less(names[i], names[j])
  }

  lemma RepeatCounts(names: seq<string>, i: nat, j: nat)
    requires i < j < |names| && names[i] == names[j]
    ensures multiset(names)[names[i]] >= 2
  {
    assert names == names[..j] + names[j..];
    assert names[i] in names[..j] && names[j] in names[j..];
  }

  lemma SortedKeysAscend(names: seq<string>, components: map<string, Ship>)
    requires Sorted(names) && Enumerates(names, components)
    ensures Ascending(names)
  {
    hide Less;
    forall i, j | 0 <= i < j < |names| ensures names[i] != names[j] {
      assert multiset(components.Keys)[names[i]] <= 1;
      if names[i] == names[j] {
        RepeatCounts(names, i, j);
      }
    }
  }

  lemma {:induction false} CollectInOrder(components: map<string, Ship>, names: seq<string>)
    requires Ascending(names) && forall i :: 0 <= i < |names| ==> names[i] in components
    ensures forall i, j :: 0 <= i < j < |Collect(components, names)| ==>
              LinePrecedes(Collect(components, names)[i], Collect(components, names)[j])
  {
    if names != [] {
      var init, last := names[..|names| - 1], names[|names| - 1];
      var a, b := Collect(components, init), LinesFor(components, last);
      CollectInOrder(components, init);
      ProblemsInOrder(components[last]);
      LabelAt(last, ShipProblems(components[last]));
      hide Less, ShipProblems, Label, Precedes;
      forall l | l in a ensures Less(l.component, last) {
        CollectExact(components, init, l);
        var k :| 0 <= k < |init| && init[k] == l.component;
      }
      assert Collect(components, names) == a + b;
      forall i, j | 0 <= i < j < |a + b| ensures LinePrecedes((a + b)[i], (a + b)[j]) {
        if i < |a| <= j {
          assert (a + b)[i] in a && (a + b)[j].component == last;
        }
      }
    }
  }

  /** The lines come by component name, and within a component in the order of its
      problems. */
  lemma ReportInOrder(components: map<string, Ship>, lines: seq<Line>)
    requires IsReport(components, lines)
    ensures forall i, j :: 0 <= i < j < |lines| ==> LinePrecedes(lines[i], lines[j])
  {
    hide Collect, Sorted, Less, LinePrecedes;
    var names :| Sorted(names) && Enumerates(names, components) && (forall i :: 0 <= i < |names| ==> names[i] in components)
                 && lines == Collect(components, names);
    SortedKeysAscend(names, components);
    CollectInOrder(components, names);
  }

  /** `order` is the order in which the map happens to be walked; the report does
      not depend on it. */
  method Validate(components: map<string, Ship>, order: seq<string>) returns (lines: seq<Line>)
    requires Enumerates(order, components)
    ensures IsReport(components, lines)
  {
    hide ShipProblems, IsZero, Sorted, Less;
    var names := new string[|order|](i requires 0 <= i < |order| => order[i]);
    assert names[..] == order;
    SortStrings(names);
    ghost var sorted := names[..];
    EnumeratesOnlyKeys(sorted, components);
    SortedIsReport(components, sorted);
    hide Enumerates, IsReport, Collect, LinesFor;
    lines := [];
    CollectNone(components, sorted);
    for i := 0 to names.Length
      invariant names[..] == sorted
      invariant lines == Collect(components, sorted[..i])
    {
      var name := names[i];
      assert name == sorted[i];
      CollectStep(components, sorted, i);
      LinesForCases(components, name);
      var ship := components[name];
      if IsZero(ship) {
        assert lines + [] == lines;
        continue;
      }
      var problems := ValidateShip(ship);
      lines := lines + Label(name, problems);
    }
    assert sorted[..names.Length] == sorted;
  }

  lemma SortedIsReport(components: map<string, Ship>, names: seq<string>)
    requires Sorted(names) && Enumerates(names, components) && forall i :: 0 <= i < |names| ==> names[i] in components
    ensures IsReport(components, Collect(components, names))
  {
  }

  lemma CollectNone(components: map<string, Ship>, names: seq<string>)
    ensures Collect(components, names[..0]) == []
  {
  }

  lemma LinesForCases(components: map<string, Ship>, name: string)
    requires name in components
    ensures LinesFor(components, name)
            == if IsZero(components[name]) then [] else Label(name, ShipProblems(components[name]))
  {
  }
}
