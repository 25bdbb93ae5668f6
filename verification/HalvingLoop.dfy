/**
 The arithmetic of the loop that picks the block numbers of a synopsis.

 `low` starts at the lowest block number to report, `high` is the number of the reference block, and
 `trueHigh` is `high` plus the `n` blocks the network layer will append.  Each pass reports `low` and
 moves it half of the remaining distance towards `trueHigh + 2`; the loop ends once `low > high`.
 */
module HalvingLoop {
  import opened Uint32

  function Pow2(k: nat): (p: nat)
    ensures p >= 1
  {
    if k == 0 then 1 else 2 * Pow2(k - 1)
  }

  /** Division rounding up. */
  function CeilDiv(a: nat, b: nat): nat
    requires b > 0
  {
    (a + b - 1) / b
  }

  /** How one pass of the loop moves `low`, in wrapping arithmetic. */
  function Advance(low: uint32, trueHigh: uint32): uint32 {
    Add(low, Add(Sub(trueHigh, low), 2) / 2)
  }

  /** Closed form of the number reported by pass `k` of a loop that enters with `low`. */
  function NumberAt(low: nat, trueHigh: nat, k: nat): (num: int)
    requires low <= trueHigh
  {
    trueHigh + 2 - CeilDiv(trueHigh - low + 2, Pow2(k))
  }

  lemma DoublingMeets(m: nat, k: nat, gap: nat)
    requires (gap + 1) / 2 <= m * Pow2(k)
    ensures gap <= m * Pow2(k + 1)
  {
    assert m * Pow2(k + 1) == 2 * (m * Pow2(k));
  }

  lemma DoublingMisses(m: nat, j: nat, gap: nat)
    requires j > 0 && m * Pow2(j - 1) < (gap + 1) / 2
    ensures m * Pow2(j) < gap
  {
    assert m * Pow2(j) == 2 * (m * Pow2(j - 1));
  }

  /** The least `k` such that `k` halvings bring `gap` down to `n + 1`. */
  function Length(gap: nat, n: nat): (k: nat)
    ensures gap <= (n + 1) * Pow2(k)
    ensures forall j: nat :: j < k ==> (n + 1) * Pow2(j) < gap
  {
    if gap <= n + 1 then
      0
    else
      var k := Length((gap + 1) / 2, n);
      DoublingMeets(n + 1, k, gap);
      assert forall j: nat :: j < k + 1 ==> (n + 1) * Pow2(j) < gap by {
        forall j: nat | j < k + 1
          ensures (n + 1) * Pow2(j) < gap
        {
          if j > 0 {
            DoublingMisses(n + 1, j, gap);
          }
        }
      }
      k + 1
  }

  /** All numbers a loop reports, in order. */
  function Numbers(low: nat, high: nat, n: nat): seq<int>
    requires low <= high
  {
    seq(Length(high + n - low + 2, n), k requires k >= 0 => NumberAt(low, high + n, k))
  }

  // ----- properties of the closed form

  lemma MulMonotone(x: int, y: int, b: nat)
    requires x <= y
    ensures x * b <= y * b
  {
  }

  /** The rounded-up quotient is the one `q` with `a` in `((q - 1) * b, q * b]`. */
  lemma CeilDivBounds(a: nat, b: nat, q: nat)
    requires b > 0
    ensures CeilDiv(a, b) == q <==> (q - 1) * b < a <= q * b
  {
    var c := CeilDiv(a, b);
    assert c * b <= a + b - 1 < c * b + b;
    assert (c - 1) * b == c * b - b;
    if q < c {
      MulMonotone(q, c - 1, b);
    } else if q > c {
      MulMonotone(c, q - 1, b);
    }
  }

  lemma MulTwice(x: int, b: nat)
    ensures x * (2 * b) == (2 * x) * b
  {
  }

  /** Rounding up commutes with halving: one more halving of the gap. */
  lemma CeilDivHalves(gap: nat, k: nat)
    ensures CeilDiv(gap, Pow2(k + 1)) == (CeilDiv(gap, Pow2(k)) + 1) / 2
  {
    var p := Pow2(k);
    assert Pow2(k + 1) == 2 * p;
    hide Pow2, CeilDiv;
    var q: int := CeilDiv(gap, p);
    CeilDivBounds(gap, p, q);
    var h: int := (q + 1) / 2;
    MulMonotone(q, 2 * h, p);
    MulMonotone(2 * h - 2, q - 1, p);
    MulTwice(h, p);
    MulTwice(h - 1, p);
    CeilDivBounds(gap, 2 * p, h);
  }

  /** A rounded-up quotient is small exactly when the dividend is. */
  lemma CeilDivThreshold(a: nat, b: nat, m: nat)
    requires b > 0
    ensures CeilDiv(a, b) <= m <==> a <= m * b
  {
    var q := CeilDiv(a, b);
    CeilDivBounds(a, b, q);
    if q <= m {
      MulMonotone(q, m, b);
    } else {
      MulMonotone(m, q - 1, b);
    }
  }

  lemma CeilDivByOne(a: nat)
    ensures CeilDiv(a, Pow2(0)) == a
  {
  }

  /** The closed form satisfies the loop: it starts at `low`, and each pass adds half of what is left. */
  lemma NumberAtSteps(low: nat, trueHigh: nat, k: nat)
    requires low <= trueHigh
    ensures NumberAt(low, trueHigh, 0) == low
    ensures NumberAt(low, trueHigh, k) <= trueHigh + 2
    ensures NumberAt(low, trueHigh, k + 1)
         == NumberAt(low, trueHigh, k) + (trueHigh - NumberAt(low, trueHigh, k) + 2) / 2
  {
    CeilDivByOne(trueHigh - low + 2);
    CeilDivHalves(trueHigh - low + 2, k);
  }

  /** The loop's exit test, read off the closed form. */
  lemma NumberAtExit(low: nat, high: nat, n: nat, k: nat)
    requires low <= high
    ensures NumberAt(low, high + n, k) > high <==> high + n - low + 2 <= (n + 1) * Pow2(k)
  {
    CeilDivThreshold(high + n - low + 2, Pow2(k), n + 1);
  }

  /** Pass `k` runs exactly while `k` is below the length. */
  lemma NumberAtRuns(low: nat, high: nat, n: nat, k: nat)
    requires low <= high
    requires k <= Length(high + n - low + 2, n)
    ensures k < Length(high + n - low + 2, n) <==> NumberAt(low, high + n, k) <= high
    ensures Length(high + n - low + 2, n) > 0
  {
    NumberAtExit(low, high, n, k);
  }

  /** The closed form never falls below where the loop entered. */
  lemma NumberAtLeastLow(low: nat, trueHigh: nat, k: nat)
    requires low <= trueHigh
    ensures low <= NumberAt(low, trueHigh, k)
  {
    var gap := trueHigh - low + 2;
    MulMonotone(1, Pow2(k), gap);
    CeilDivThreshold(gap, Pow2(k), gap);
  }

  /** One reported number, and where it stands to its neighbours. */
  lemma NumbersAt(low: nat, high: nat, n: nat, k: nat)
    requires low <= high && k < |Numbers(low, high, n)|
    ensures var nums := Numbers(low, high, n); var next := nums[k] + (high + n - nums[k] + 2) / 2;
      && low <= nums[k] <= high
      && nums[k] < next
      && (k == 0 ==> nums[k] == low)
      && (k + 1 < |nums| ==> nums[k + 1] == next)
      && (k + 1 == |nums| ==> next > high)
  {
    NumberAtSteps(low, high + n, k);
    NumberAtLeastLow(low, high + n, k);
    NumberAtRuns(low, high, n, k);
    NumberAtRuns(low, high, n, k + 1);
  }

  /** The numbers start at `low` and their last one is within `n` of `high`. */
  lemma NumbersEnds(low: nat, high: nat, n: nat)
    requires low <= high
    ensures var nums := Numbers(low, high, n);
      |nums| > 0 && nums[0] == low && high - n <= nums[|nums| - 1] <= high
  {
    NumberAtRuns(low, high, n, 0);
    NumbersAt(low, high, n, 0);
    NumbersAt(low, high, n, |Numbers(low, high, n)| - 1);
  }

  /** Any two reported numbers are ordered like their positions. */
  lemma NumbersIncrease(low: nat, high: nat, n: nat, j: nat, k: nat)
    requires low <= high && j < k < |Numbers(low, high, n)|
    ensures Numbers(low, high, n)[j] < Numbers(low, high, n)[k]
  {
    NumbersAt(low, high, n, k - 1);
    if j < k - 1 {
      NumbersIncrease(low, high, n, j, k - 1);
    }
  }

  /** The number after `num` when the loop heads for `top`. */
  function Following(num: int, top: int): int {
    num + (top - num + 2) / 2
  }

  /**
   Whether numbers are what the loop reports: they rise from `low` to no more than `high`, each is the one
   that follows the number before it, and what follows the last is beyond `high`.
   */
  ghost predicate IsHalving(nums: seq<int>, low: nat, high: nat, n: nat) {
    && |nums| > 0
    && nums[0] == low
    && (forall k :: 0 <= k < |nums| ==> low <= nums[k] <= high)
    && (forall j, k :: 0 <= j < k < |nums| ==> nums[j] < nums[k])
    && (forall k :: 0 <= k < |nums| - 1 ==> Following(nums[k], high + n) == nums[k + 1])
    && Following(nums[|nums| - 1], high + n) > high
  }

  /** The closed form gives the numbers the loop reports. */
  lemma NumbersHalve(low: nat, high: nat, n: nat)
    requires low <= high
    ensures IsHalving(Numbers(low, high, n), low, high, n)
  {
    var nums := Numbers(low, high, n);
    NumbersEnds(low, high, n);
    forall k | 0 <= k < |nums|
      ensures low <= nums[k] <= high
      ensures k + 1 < |nums| ==> Following(nums[k], high + n) == nums[k + 1]
      ensures k + 1 == |nums| ==> Following(nums[k], high + n) > high
    {
      NumbersAt(low, high, n, k);
    }
    forall j, k | 0 <= j < k < |nums|
      ensures nums[j] < nums[k]
    {
      NumbersIncrease(low, high, n, j, k);
    }
  }

  /** The loop goes on exactly while what follows is within `high`. */
  lemma GoesOn(nums: seq<int>, low: nat, high: nat, n: nat, i: nat)
    requires IsHalving(nums, low, high, n) && 1 <= i <= |nums|
    ensures i < |nums| <==> Following(nums[i - 1], high + n) <= high
  {
    hide Following;
    assert i < |nums| ==> Following(nums[i - 1], high + n) == nums[i];
  }

  /** The loop's description leaves no choice: there is one such sequence. */
  lemma HalvingIsUnique(low: nat, high: nat, n: nat, a: seq<int>, b: seq<int>)
    requires IsHalving(a, low, high, n) && IsHalving(b, low, high, n)
    ensures a == b
  {
    hide Following;
    var i := 1;
    while i < |a| && i < |b|
      invariant 1 <= i <= |a| && i <= |b| && a[..i] == b[..i]
    {
      assert a[i - 1] == a[..i][i - 1] == b[..i][i - 1] == b[i - 1];
      assert Following(a[i - 1], high + n) == a[i] && Following(b[i - 1], high + n) == b[i];
      assert a[..i + 1] == a[..i] + [a[i]] && b[..i + 1] == b[..i] + [b[i]];
      i := i + 1;
    }
    assert a[i - 1] == a[..i][i - 1] == b[..i][i - 1] == b[i - 1];
    GoesOn(a, low, high, n, i);
    GoesOn(b, low, high, n, i);
    assert a[..i] == a && b[..i] == b;
  }

  lemma Pow2OfSum(a: nat, b: nat)
    ensures Pow2(a + b) == Pow2(a) * Pow2(b)
  {
    if a > 0 {
      Pow2OfSum(a - 1, b);
      assert Pow2(a + b) == 2 * Pow2(a - 1 + b);
      assert 2 * (Pow2(a - 1) * Pow2(b)) == (2 * Pow2(a - 1)) * Pow2(b);
    }
  }

  lemma Pow2Of32()
    ensures Pow2(32) == MODULUS
  {
    assert Pow2(4) == 16;
    Pow2OfSum(4, 4);
    Pow2OfSum(8, 8);
    Pow2OfSum(16, 16);
  }

  // ----- wrap-around

  /**
   Whether an execution of the loop on unbounded integers stays within 32 bits: the sum `trueHigh`,
   and on every pass the doubled step and the new `low`.
   */
  ghost predicate NeverWraps(low: nat, high: nat, n: nat)
    requires low <= high
    decreases high - low
  {
    var trueHigh := high + n;
    var next := low + (trueHigh - low + 2) / 2;
    && trueHigh < MODULUS
    && trueHigh - low + 2 < MODULUS
    && next < MODULUS
    && (next <= high ==> NeverWraps(next, high, n))
  }

  /** The check that nothing wraps. */
  predicate WrapFree(low: nat, high: nat, n: nat) {
    || high + n <= MODULUS - 2
    || (high + n == MODULUS - 1 && low >= 2 && n >= 1)
  }

  /** The loop is free of wrap-around exactly when the check passes. */
  lemma {:induction false} NeverWrapsExactly(low: nat, high: nat, n: nat)
    requires 1 <= low <= high
    ensures NeverWraps(low, high, n) <==> WrapFree(low, high, n)
    decreases high - low
  {
    var next := low + (high + n - low + 2) / 2;
    if next <= high {
      NeverWrapsExactly(next, high, n);
    }
  }

  /**
   The check that the loop comes to an end, whether or not the sum `high + n` wraps: the first gap fits in
   32 bits, and so does the number with which the loop exits.
   */
  predicate Ends(low: nat, high: nat, n: nat)
    requires low <= high
  {
    var gap := high + n - low + 2;
    gap < MODULUS && NumberAt(low, high + n, Length(gap, n)) < MODULUS
  }

  /** The loop would exit with 2^32, which wraps to zero. */
  predicate ComesToZero(low: nat, high: nat, n: nat)
    requires low <= high
  {
    var gap := high + n - low + 2;
    gap < MODULUS && NumberAt(low, high + n, Length(gap, n)) == MODULUS
  }

  /** No synopsis of 32-bit block numbers has more than 32 entries. */
  lemma LengthAtMost32(low: nat, high: nat, n: nat)
    requires 1 <= low <= high && Ends(low, high, n)
    ensures |Numbers(low, high, n)| <= 32
  {
    Pow2Of32();
    MulMonotone(1, n + 1, MODULUS);
    assert (n + 1) * Pow2(32) == (n + 1) * MODULUS;
  }

  /** As long as `high + n` fits in 32 bits, the loop ends exactly if nothing wraps. */
  lemma EndsIfWrapFree(low: nat, high: nat, n: nat)
    requires 1 <= low <= high && high + n < MODULUS
    ensures Ends(low, high, n) <==> WrapFree(low, high, n)
  {
    var last := |Numbers(low, high, n)| - 1;
    NumbersEnds(low, high, n);
    NumbersAt(low, high, n, last);
    NumberAtSteps(low, high + n, last);
  }

  function Wrapped(num: nat): uint32
    requires num < 2 * MODULUS
  {
    if num < MODULUS then num else num - MODULUS
  }

  /** While the gap fits in 32 bits, the 32-bit step is the unbounded one up to one wrap of its result. */
  lemma AdvanceIsExact(num: uint32, high: uint32, n: uint32)
    requires num <= high && high + n - num + 2 < MODULUS
    ensures Following(num, high + n) < 2 * MODULUS
    ensures Advance(num, Add(high, n)) == Wrapped(Following(num, high + n))
  {
  }

  /** What follows the `k`th number of the closed form is its next. */
  lemma FollowingIsNext(low: nat, high: nat, n: nat, k: nat)
    requires low <= high && k < |Numbers(low, high, n)|
    ensures var num := Numbers(low, high, n)[k];
      && low <= num <= high
      && num < Following(num, high + n) == NumberAt(low, high + n, k + 1)
  {
    NumbersAt(low, high, n, k);
    NumberAtSteps(low, high + n, k);
  }

  /**
   One pass of the 32-bit loop: it moves from a reported number to the next, and after the last one past
   `high` or to zero.
   */
  lemma HalvingPass(low: uint32, high: uint32, n: uint32, k: nat)
    requires 1 <= low <= high && (Ends(low, high, n) || ComesToZero(low, high, n))
    requires k < |Numbers(low, high, n)|
    ensures var nums := Numbers(low, high, n);
      && low <= nums[k] <= high
      && var next := Advance(nums[k], Add(high, n));
        if k + 1 < |nums| then nums[k] < next <= high && next == nums[k + 1]
        else if Ends(low, high, n) then high < next
        else next == 0
  {
    hide Advance, Length, CeilDiv;
    var num := Numbers(low, high, n)[k];
    FollowingIsNext(low, high, n, k);
    AdvanceIsExact(num, high, n);
    NumberAtRuns(low, high, n, k + 1);
  }

  /** `low` after `k` passes of the 32-bit loop body. */
  ghost function LowAfter(low: uint32, trueHigh: uint32, k: nat): uint32 {
    if k == 0 then low else Advance(LowAfter(low, trueHigh, k - 1), trueHigh)
  }

  /** Whether the 32-bit loop ever passes its exit test. */
  ghost predicate Exits(low: uint32, high: uint32, n: uint32) {
    exists k: nat :: k > 0 && LowAfter(low, Add(high, n), k) > high
  }

  /** What the loop exits with lies beyond `high`, and at most one beyond the unbounded `trueHigh`. */
  lemma ExitNumber(low: nat, high: nat, n: nat)
    requires low <= high
    ensures high < NumberAt(low, high + n, |Numbers(low, high, n)|) <= high + n + 1
  {
    var len := |Numbers(low, high, n)|;
    NumberAtRuns(low, high, n, len);
    CeilDivThreshold(high + n - low + 2, Pow2(len), 0);
  }

  /** While the first gap fits, the 32-bit passes report the closed form's numbers, the last of them wrapped. */
  lemma {:induction false} LowAfterIsNumberAt(low: uint32, high: uint32, n: uint32, k: nat)
    requires 1 <= low <= high && high + n - low + 2 < MODULUS
    requires k <= |Numbers(low, high, n)|
    ensures 0 <= NumberAt(low, high + n, k) < 2 * MODULUS
    ensures LowAfter(low, Add(high, n), k) == Wrapped(NumberAt(low, high + n, k))
  {
    hide Advance, Length, CeilDiv;
    NumberAtSteps(low, high + n, 0);
    if k > 0 {
      LowAfterIsNumberAt(low, high, n, k - 1);
      FollowingIsNext(low, high, n, k - 1);
      AdvanceIsExact(Numbers(low, high, n)[k - 1], high, n);
    }
  }

  /** Too far below the wrapped `trueHigh` for any step to lead past `high`. */
  predicate Captured(low: uint32, high: uint32, n: uint32) {
    high + n >= MODULUS - 1 && low <= high + n - MODULUS + 2
  }

  lemma CapturedStays(low: uint32, high: uint32, n: uint32)
    requires low <= high && Captured(low, high, n)
    ensures Advance(low, Add(high, n)) <= high && Captured(Advance(low, Add(high, n)), high, n)
    ensures low >= 1 ==> Advance(low, Add(high, n)) >= 1
  {
  }

  /** If the check fails the loop never gets past `high`, nor to zero except with an exit number of 2^32. */
  lemma {:induction false} NeverPast(low: uint32, high: uint32, n: uint32, k: nat)
    requires 1 <= low <= high && !Ends(low, high, n)
    ensures LowAfter(low, Add(high, n), k) <= high
    ensures !ComesToZero(low, high, n) ==> LowAfter(low, Add(high, n), k) >= 1
    ensures high + n - low + 2 >= MODULUS || k >= |Numbers(low, high, n)| ==>
      Captured(LowAfter(low, Add(high, n), k), high, n)
  {
    hide Advance, Length, CeilDiv;
    var len := |Numbers(low, high, n)|;
    if high + n - low + 2 < MODULUS && k <= len {
      LowAfterIsNumberAt(low, high, n, k);
      NumberAtRuns(low, high, n, k);
      NumberAtLeastLow(low, high + n, k);
      ExitNumber(low, high, n);
    } else if k > 0 {
      NeverPast(low, high, n, k - 1);
      CapturedStays(LowAfter(low, Add(high, n), k - 1), high, n);
    }
  }

  /** The loop comes to an end exactly when the check passes, for all 32-bit inputs. */
  lemma ExitsExactly(low: uint32, high: uint32, n: uint32)
    requires 1 <= low <= high
    ensures Exits(low, high, n) <==> Ends(low, high, n)
  {
    hide Advance, Length, CeilDiv;
    if Ends(low, high, n) {
      var len := |Numbers(low, high, n)|;
      LowAfterIsNumberAt(low, high, n, len);
      ExitNumber(low, high, n);
      NumberAtRuns(low, high, n, 0);
    } else {
      var trueHigh := Add(high, n);
      forall k: nat
        ensures LowAfter(low, trueHigh, k) <= high
      {
        NeverPast(low, high, n, k);
      }
    }
  }

  /**
   A loop that does not come to an end gets to number zero, where there is no block, exactly if it would
   exit with 2^32.  Otherwise it goes on for ever between 1 and `high`.
   */
  lemma ZeroExactly(low: uint32, high: uint32, n: uint32)
    requires 1 <= low <= high && !Ends(low, high, n)
    ensures (exists k: nat :: LowAfter(low, Add(high, n), k) == 0) <==> ComesToZero(low, high, n)
    ensures !ComesToZero(low, high, n) ==> forall k: nat :: 1 <= LowAfter(low, Add(high, n), k) <= high
  {
    hide Advance, Length, CeilDiv;
    if ComesToZero(low, high, n) {
      var len := |Numbers(low, high, n)|;
      LowAfterIsNumberAt(low, high, n, len);
      assert LowAfter(low, Add(high, n), len) == 0;
    } else {
      forall k: nat
        ensures 1 <= LowAfter(low, Add(high, n), k) <= high
      {
        NeverPast(low, high, n, k);
      }
    }
  }
}
