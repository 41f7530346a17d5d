/** The functions of Go's package strings that the modelled code calls. */
module GoStrings {
  import opened Wrappers

  predicate HasPrefix(s: string, p: string) {
    |p| <= |s| && s[..|p|] == p
  }

  predicate HasSuffix(s: string, p: string) {
    |p| <= |s| && s[|s| - |p|..] == p
  }

  function TrimPrefix(s: string, p: string): string {
    if HasPrefix(s, p) then s[|p|..] else s
  }

  /** Unicode's White_Space property, as unicode.IsSpace has it. */
  predicate IsSpace(c: char) {
    c in {'\t', '\n', '\U{0B}', '\U{0C}', '\r', ' ', '\U{85}', '\U{A0}', '\U{1680}',
          '\U{2028}', '\U{2029}', '\U{202F}', '\U{205F}', '\U{3000}'}
    || '\U{2000}' <= c <= '\U{200A}'
  }

  function TrimLeft(s: string): string {
    if s != [] && IsSpace(s[0]) then TrimLeft(s[1..]) else s
  }

  function TrimRight(s: string): string {
    if s != [] && IsSpace(s[|s| - 1]) then TrimRight(s[..|s| - 1]) else s
  }

  function TrimSpace(s: string): string {
    TrimRight(TrimLeft(s))
  }

  function Count(s: string, c: char): nat {
    if s == [] then 0 else (if s[0] == c then 1 else 0) + Count(s[1..], c)
  }

  predicate OccursAt(s: string, sub: string, i: nat) {
    i + |sub| <= |s| && s[i..i + |sub|] == sub
  }

  /** The first position from `i` on at which `sub` occurs. */
  function IndexFrom(s: string, sub: string, i: nat): (r: Option<nat>)
    ensures r.Some? ==> i <= r.value && r.value + |sub| <= |s|
    decreases |s| - i
  {
    if i + |sub| > |s| then None
    else if OccursAt(s, sub, i) then Some(i)
    else IndexFrom(s, sub, i + 1)
  }

  function Index(s: string, sub: string): (r: Option<nat>)
    ensures r.Some? ==> r.value + |sub| <= |s|
  {
    IndexFrom(s, sub, 0)
  }

  /** A text has a prefix when something follows it, and a suffix when something
      precedes it. */
  lemma PrefixAndSuffix(s: string, p: string)
    ensures HasPrefix(s, p) <==> exists r :: s == p + r
    ensures HasSuffix(s, p) <==> exists l :: s == l + p
    ensures forall r :: s == p + r ==> TrimPrefix(s, p) == r
    ensures !HasPrefix(s, p) ==> TrimPrefix(s, p) == s
  {
    if HasPrefix(s, p) {
      assert s == p + s[|p|..];
    }
    if HasSuffix(s, p) {
      assert s == s[..|s| - |p|] + p;
    }
    forall l: string | s == l + p ensures HasSuffix(s, p) {
      assert s[|l|..] == p;
    }
    forall r: string | s == p + r ensures HasPrefix(s, p) && s[|p|..] == r {
      assert s[..|p|] == p;
    }
  }

  /** Position `k` is the first at which `sub` occurs. */
  ghost predicate FirstAt(s: string, sub: string, k: nat) {
    (exists l, r :: |l| == k && s == l + sub + r) && forall j: nat :: j < k ==> !OccursAt(s, sub, j)
  }

  lemma OccursWithin(s: string, sub: string, k: nat)
    ensures OccursAt(s, sub, k) <==> exists l, r :: |l| == k && s == l + sub + r
  {
    if OccursAt(s, sub, k) {
      assert s == s[..k] + sub + s[k + |sub|..];
    }
    forall l: string, r: string | |l| == k && s == l + sub + r ensures OccursAt(s, sub, k) {
      assert s[k..k + |sub|] == sub;
    }
  }

  lemma {:induction false} IndexFromExact(s: string, sub: string, i: nat)
    ensures var r := IndexFrom(s, sub, i);
            && (r.Some? ==> OccursAt(s, sub, r.value) && forall j: nat :: i <= j < r.value ==> !OccursAt(s, sub, j))
            && (r.None? ==> forall j: nat :: i <= j ==> !OccursAt(s, sub, j))
    decreases |s| - i
  {
    if i + |sub| <= |s| && !OccursAt(s, sub, i) {
      IndexFromExact(s, sub, i + 1);
    }
  }

  /** The index is the first position of an occurrence, if there is one. */
  lemma IndexExact(s: string, sub: string)
    ensures forall k: nat :: Index(s, sub) == Some(k) <==> FirstAt(s, sub, k)
    ensures Index(s, sub).None? ==> forall k: nat :: !OccursAt(s, sub, k)
  {
    hide OccursAt;
    IndexFromExact(s, sub, 0);
    forall k: nat | FirstAt(s, sub, k) ensures Index(s, sub) == Some(k) {
      OccursWithin(s, sub, k);
      FirstIsLeast(s, sub, k, Index(s, sub).value);
    }
    if Index(s, sub).Some? {
      OccursWithin(s, sub, Index(s, sub).value);
    }
  }

  lemma FirstIsLeast(s: string, sub: string, k: nat, j: nat)
    requires FirstAt(s, sub, k) && OccursAt(s, sub, j)
    ensures k <= j
  {
    hide OccursAt;
  }

  /** How often the character is in the text. */
  lemma {:induction false} CountIsMultiplicity(s: string, c: char)
    ensures Count(s, c) == multiset(s)[c]
  {
    if s != [] {
      CountIsMultiplicity(s[1..], c);
      assert s == [s[0]] + s[1..];
    }
  }

  /** The space characters by number. */
  ghost predicate White(c: char) {
    (c as int) in {9, 10, 11, 12, 13, 32, 0x85, 0xA0, 0x1680, 0x2028, 0x2029, 0x202F, 0x205F, 0x3000}
    || 0x2000 <= c as int <= 0x200A
  }

  lemma SpaceIsWhite(c: char)
    ensures IsSpace(c) <==> White(c)
  {
  }

  ghost predicate AllWhite(s: string) {
    forall i :: 0 <= i < |s| ==> White(s[i])
  }

  lemma {:induction false} TrimLeftExact(s: string) returns (l: string)
    ensures AllWhite(l) && s == l + TrimLeft(s) && (TrimLeft(s) != [] ==> !White(TrimLeft(s)[0]))
  {
    hide IsSpace, White;
    l := [];
    if s != [] {
      SpaceIsWhite(s[0]);
      if IsSpace(s[0]) {
        var rest := TrimLeftExact(s[1..]);
        l := [s[0]] + rest;
        assert s == [s[0]] + s[1..];
      }
    }
  }

  lemma {:induction false} TrimRightExact(s: string) returns (r: string)
    ensures AllWhite(r) && s == TrimRight(s) + r
    ensures TrimRight(s) != [] ==> !White(TrimRight(s)[|TrimRight(s)| - 1]) && TrimRight(s)[0] == s[0]
  {
    hide IsSpace, White;
    r := [];
    if s != [] {
      var init, last := s[..|s| - 1], s[|s| - 1];
      SpaceIsWhite(last);
      if IsSpace(last) {
        var rest := TrimRightExact(init);
        r := rest + [last];
        assert s == init + [last];
      }
    }
  }

  /** The text without the space at its ends: only space is taken off, and none is
      left there. */
  lemma TrimSpaceExact(s: string)
    ensures var t := TrimSpace(s);
            && (exists l, r :: AllWhite(l) && AllWhite(r) && s == l + t + r)
            && (t != [] ==> !White(t[0]) && !White(t[|t| - 1]))
  {
    hide TrimLeft, TrimRight, White;
    var l := TrimLeftExact(s);
    var r := TrimRightExact(TrimLeft(s));
    assert s == l + TrimSpace(s) + r;
  }

  lemma {:induction false} IndexFromIsFirst(s: string, sub: string, i: nat, k: nat)
    requires i <= k && OccursAt(s, sub, k)
    requires forall j: nat :: i <= j < k ==> !OccursAt(s, sub, j)
    ensures IndexFrom(s, sub, i) == Some(k)
    decreases k - i
  {
    if i < k {
      IndexFromIsFirst(s, sub, i + 1, k);
    }
  }

  /** The first occurrence of a character ends a prefix that lacks it. */
  lemma IndexOfChar(a: string, c: char, b: string)
    requires c !in a
    ensures Index(a + [c] + b, [c]) == Some(|a|)
  {
    var s := a + [c] + b;
    assert s[|a|..|a| + 1] == [c];
    forall j: nat | j < |a| ensures !OccursAt(s, [c], j) {
      assert s[j..j + 1][0] == a[j];
    }
    IndexFromIsFirst(s, [c], 0, |a|);
  }

  lemma {:induction false} CountAppend(a: string, b: string, c: char)
    ensures Count(a + b, c) == Count(a, c) + Count(b, c)
  {
    if a == [] {
      assert a + b == b;
    } else {
      CountAppend(a[1..], b, c);
      assert (a + b)[1..] == a[1..] + b;
    }
  }

  /** Trimming removes the indent of a text that begins and ends with non-spaces. */
  lemma {:induction false} TrimIndent(indent: string, core: string)
    requires forall i :: 0 <= i < |indent| ==> IsSpace(indent[i])
    requires core != [] && !IsSpace(core[0]) && !IsSpace(core[|core| - 1])
    ensures TrimSpace(indent + core) == core
  {
    if indent == [] {
      assert indent + core == core;
    } else {
      TrimIndent(indent[1..], core);
      assert (indent + core)[1..] == indent[1..] + core;
    }
  }
}
