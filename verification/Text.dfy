/** The order of text.

    Go compares strings byte by byte; on valid UTF-8 that is the order of the
    code points, which is what `Less` defines on sequences of characters. */
module Text {

  /** Strict lexicographic order: Go's `<` on strings. */
  predicate Less(a: string, b: string) {
    b != [] && (a == [] || a[0] < b[0] || (a[0] == b[0] && Less(a[1..], b[1..])))
  }

  predicate Leq(a: string, b: string) {
    a == b || Less(a, b)
  }

  /** `a` and `b` agree before position `k`, where `a` has the smaller character. */
  ghost predicate FirstDiffers(a: string, b: string, k: nat) {
    k < |a| && k < |b| && a[..k] == b[..k] && a[k] < b[k]
  }

  /** Which of two strings comes first: the one that the other properly extends, or
      the one with the smaller character where they first differ. */
  lemma {:induction false} LessIsLexicographic(a: string, b: string)
    ensures Less(a, b) <==> (|a| < |b| && b[..|a|] == a) || exists k: nat :: FirstDiffers(a, b, k)
  {
    if a == [] || b == [] {
      assert |b| > 0 ==> b[..|a|] == a;
    } else {
      var x, y := a[1..], b[1..];
      LessIsLexicographic(x, y);
      if a[0] != b[0] {
        HeadsDiffer(a, b);
      } else {
        HeadsAgree(a, b);
      }
    }
  }

  lemma HeadsDiffer(a: string, b: string)
    requires a != [] && b != [] && a[0] != b[0]
    ensures (exists k: nat :: FirstDiffers(a, b, k)) <==> a[0] < b[0]
    ensures |a| <= |b| ==> b[..|a|] != a
  {
    if a[0] < b[0] {
      assert FirstDiffers(a, b, 0);
    }
    forall k: nat | 0 < k < |a| && k < |b| ensures a[..k] != b[..k] {
      SamePrefixSameHead(a, b, k);
    }
    assert |a| <= |b| ==> b[..|a|][0] == b[0];
  }

  lemma SamePrefixSameHead(a: string, b: string, k: nat)
    requires 0 < k <= |a| && k <= |b|
    ensures a[..k] == b[..k] ==> a[0] == b[0]
  {
    assert a[..k][0] == a[0] && b[..k][0] == b[0];
  }

  lemma HeadsAgree(a: string, b: string)
    requires a != [] && b != [] && a[0] == b[0]
    ensures (exists k: nat :: FirstDiffers(a, b, k)) <==> exists k: nat :: FirstDiffers(a[1..], b[1..], k)
    ensures |a| <= |b| ==> (b[..|a|] == a <==> b[1..][..|a| - 1] == a[1..])
  {
    var x, y := a[1..], b[1..];
    assert a == [a[0]] + x && b == [b[0]] + y;
    forall k: nat | FirstDiffers(a, b, k) ensures k > 0 && FirstDiffers(x, y, k - 1) {
      assert x[..k - 1] == a[..k][1..] && y[..k - 1] == b[..k][1..];
    }
    forall k: nat | FirstDiffers(x, y, k) ensures FirstDiffers(a, b, k + 1) {
      assert a[..k + 1] == [a[0]] + x[..k] && b[..k + 1] == [b[0]] + y[..k];
    }
    if |a| <= |b| {
      assert b[..|a|] == [b[0]] + y[..|x|];
      assert y[..|x|] == b[..|a|][1..];
    }
  }

  lemma {:induction false} LessIsTotal(a: string, b: string)
    ensures a == b || Less(a, b) || Less(b, a)
  {
    if a != [] && b != [] && a[0] == b[0] {
      LessIsTotal(a[1..], b[1..]);
      assert a == [a[0]] + a[1..] && b == [b[0]] + b[1..];
    }
  }

  lemma {:induction false} LessIsAsymmetric(a: string, b: string)
    requires Less(a, b)
    ensures a != b && !Less(b, a)
  {
    if a != [] && a[0] == b[0] {
      LessIsAsymmetric(a[1..], b[1..]);
    }
  }

  lemma {:induction false} LessIsTransitive(a: string, b: string, c: string)
    requires Less(a, b) && Less(b, c)
    ensures Less(a, c)
  {
    if a != [] && a[0] == b[0] == c[0] {
      LessIsTransitive(a[1..], b[1..], c[1..]);
    }
  }

  lemma LeqIsTransitive(a: string, b: string, c: string)
    requires Leq(a, b) && Leq(b, c)
    ensures Leq(a, c)
  {
    if a != b && b != c {
      LessIsTransitive(a, b, c);
    }
  }
}
