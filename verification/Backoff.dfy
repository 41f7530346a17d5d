/** RunForever's reconnect loop. Times are in whole seconds. */
module Backoff {

  const BACKOFF_INITIAL := 1
  const BACKOFF_MAX := 30
  const BACKOFF_RESET_AGE := 10

  function Pow2(k: nat): nat {
    if k == 0 then 1 else 2 * Pow2(k - 1)
  }

  /** The attempts made after the last one, at or before index `i`, whose connection
      lived long enough, or since the start when there is none. */
  ghost predicate AttemptsSince(ages: seq<int>, i: nat, k: nat)
    requires i < |ages|
  {
    && k <= i
    && (forall j :: i - k < j <= i ==> ages[j] < 10)
    && (i - k == 0 || ages[i - k] >= 10)
  }

  lemma {:induction false} AttemptsSinceUnique(ages: seq<int>, i: nat, k: nat, k': nat)
    requires i < |ages| && AttemptsSince(ages, i, k) && AttemptsSince(ages, i, k')
    ensures k == k'
  {
    if i > 0 && ages[i] < BACKOFF_RESET_AGE {
      AttemptsSinceUnique(ages, i - 1, k - 1, k' - 1);
    }
  }

  function Wait(k: nat): nat {
    if Pow2(k) < BACKOFF_MAX then Pow2(k) else BACKOFF_MAX
  }

  lemma {:induction false} Pow2Grows(k: nat)
    requires k >= 5
    ensures Pow2(k) >= 32
  {
    if k > 5 {
      Pow2Grows(k - 1);
    } else {
      assert Pow2(1) == 2 && Pow2(2) == 4 && Pow2(3) == 8 && Pow2(4) == 16;
    }
  }

  /** min(2^k, 30) */
  lemma WaitsInSeconds()
    ensures forall k: nat :: Wait(k) == if k < 5 then [1, 2, 4, 8, 16][k] else 30
  {
    assert Pow2(0) == 1 && Pow2(1) == 2 && Pow2(2) == 4 && Pow2(3) == 8 && Pow2(4) == 16;
    forall k: nat ensures Wait(k) == if k < 5 then [1, 2, 4, 8, 16][k] else 30 {
      if k >= 5 {
        Pow2Grows(k);
      }
    }
  }

  /** `ages[i]` is how long the connection of attempt `i` lived (0 when the dial
      failed); the loop runs until the context ends, here after the last attempt.
      `waits[i]` is the pause after attempt `i`. */
  method RunForever(ages: seq<int>) returns (waits: seq<nat>)
    ensures |waits| == |ages|
    ensures forall i, k: nat :: 0 <= i < |ages| && AttemptsSince(ages, i, k) ==>
              waits[i] == if k < 5 then [1, 2, 4, 8, 16][k] else 30
    ensures forall i :: 0 <= i < |ages| ==> 1 <= waits[i] <= 30
  {
    WaitsInSeconds();
    waits := [];
    var backoff := BACKOFF_INITIAL;
    ghost var k: nat := 0;
    for n := 0 to |ages|
      invariant |waits| == n && BACKOFF_INITIAL <= backoff <= BACKOFF_MAX
      invariant n > 0 ==> AttemptsSince(ages, n - 1, k) && backoff == Wait(k + 1)
      invariant n == 0 ==> backoff == BACKOFF_INITIAL
      invariant forall i :: 0 <= i < n ==> BACKOFF_INITIAL <= waits[i] <= BACKOFF_MAX
      invariant forall i, k: nat :: 0 <= i < n && AttemptsSince(ages, i, k) ==> waits[i] == Wait(k)
    {
      if ages[n] >= BACKOFF_RESET_AGE {
        backoff := BACKOFF_INITIAL;
      }
      k := if n == 0 || ages[n] >= BACKOFF_RESET_AGE then 0 else k + 1;
      assert AttemptsSince(ages, n, k) && backoff == Wait(k);
      forall k': nat | AttemptsSince(ages, n, k') ensures k' == k {
        AttemptsSinceUnique(ages, n, k, k');
      }
      waits := waits + [backoff];
      backoff := backoff * 2;
      assert backoff <= 2 * BACKOFF_MAX;
      if backoff > BACKOFF_MAX {
        backoff := BACKOFF_MAX;
      }
    }
  }

  /** Every attempt has such a count, so the method's promise covers every wait. */
  lemma {:induction false} AttemptsSinceExists(ages: seq<int>, i: nat)
    requires i < |ages|
    ensures exists k: nat :: AttemptsSince(ages, i, k)
  {
    if i == 0 || ages[i] >= BACKOFF_RESET_AGE {
      assert AttemptsSince(ages, i, 0);
    } else {
      AttemptsSinceExists(ages, i - 1);
      var k: nat :| AttemptsSince(ages, i - 1, k);
      assert AttemptsSince(ages, i, k + 1);
    }
  }
}
