/**
  uint64_shl, uint64_shr and uint64_not (NeilOS/kernel/common/types.c) on bit vectors, with the
  operators of the source.  `Number` is the number a word stands for; on numbers they are the
  functions of `TwoWords`.
*/
module WordShifts {
  import opened Numbers
  import opened TwoWords

  const FULL: bv32 := 0xFFFF_FFFF

  // A shift amount of one word.
  type Shift = k: bv6 | k < 32

  // (1 << k) - 1
  function Low(k: Shift): bv32 { ((1 as bv32) << k) - 1 }

  // ----- the number of a word -----

  function Bit0(w: bv32): nat { if w & 1 == 1 then 1 else 0 }

  function Number(w: bv32): nat {
    if w == 0 then 0 else Bit0(w) + 2 * Number(w >> 1)
  }

  lemma {:induction false} Unfolded(w: bv32)
    ensures Number(w) == Bit0(w) + 2 * Number(w >> 1)
  {
    assert w == 0 ==> w & 1 != 1 && w >> 1 == 0;
  }

  function Power(k: bv6): (p: nat)
    ensures p > 0
  {
    if k == 0 then 1 else 2 * Power(k - 1)
  }

  lemma {:induction false} PowerIsPow2(k: bv6)
    ensures Power(k) == Pow2(k as nat)
  {
    if k > 0 {
      PowerIsPow2(k - 1);
      assert (k - 1) as nat == k as nat - 1;
    }
  }

  // ----- what the bit vectors do -----
  //
  // The lemmas on numbers name the words they speak of, so that the solver need not look into
  // them; those here do, and speak of no number but the lowest bit.

  lemma {:induction false} HalfOfShift(w: bv32, k: bv6)
    requires 1 <= k <= 32
    ensures (w >> 1) >> (k - 1) == w >> k
  {
  }

  lemma {:induction false} DownByNothing(w: bv32)
    ensures w >> (0 as bv6) == w
  {
  }

  lemma {:induction false} UpByNothing(w: bv32)
    ensures w << (0 as bv6) == w
  {
  }

  lemma {:induction false} NothingBelow(w: bv32)
    ensures w & Low(0) == 0
  {
  }

  lemma {:induction false} HalfOfLow(w: bv32, k: Shift)
    requires k > 0
    ensures (w & Low(k)) >> 1 == (w >> 1) & Low(k - 1)
    ensures Bit0(w & Low(k)) == Bit0(w)
  {
  }

  lemma {:induction false} HalvesOfAnd(a: bv32, b: bv32)
    requires a & b == 0
    ensures (a >> 1) & (b >> 1) == 0
  {
  }

  lemma {:induction false} HalvesOfOr(a: bv32, b: bv32)
    ensures (a | b) >> 1 == (a >> 1) | (b >> 1)
  {
  }

  lemma {:induction false} LowestOfOr(a: bv32, b: bv32)
    requires a & b == 0
    ensures Bit0(a | b) == Bit0(a) + Bit0(b)
  {
  }

  lemma {:induction false} UpAndDown(w: bv32, k: Shift)
    requires k > 0
    ensures (w << k) >> k == w & Low(32 - k) && (w << k) & Low(k) == 0
  {
  }

  lemma {:induction false} Apart(high: bv32, low: bv32, k: Shift)
    requires k > 0
    ensures (high << k) & (low >> (32 - k)) == 0
    ensures (low >> k) & ((high & Low(k)) << (32 - k)) == 0
  {
  }

  lemma {:induction false} LowOfLow(w: bv32, k: Shift)
    ensures (w & Low(k)) & Low(k) == w & Low(k)
  {
  }

  // ----- and what that means for the numbers -----

  lemma {:induction false} Bounded(w: bv32, n: bv6)
    requires n <= 32 && w >> n == 0
    ensures Number(w) < Power(n)
    decreases n
  {
    if n > 0 {
      HalfOfShift(w, n);
      Bounded(w >> 1, n - 1);
      Unfolded(w);
    } else {
      assert w == 0;
    }
  }

  lemma {:induction false} IsWord(w: bv32)
    ensures Number(w) < W
  {
    assert w >> 32 == 0;
    Bounded(w, 32);
    PowerIsPow2(32);
    WordPower();
  }

  lemma {:induction false} OneMoreBit(whole: nat, half: nat, low: nat, lowHalf: nat, bit: nat, top: nat, p: nat)
    requires whole == bit + 2 * half && low == bit + 2 * lowHalf && bit <= 1
    requires half == top * p + lowHalf && lowHalf < p
    ensures whole == top * (2 * p) + low && low < 2 * p
  {
    assert top * (2 * p) == 2 * (top * p);
  }

  lemma {:induction false} HalfOf(w: bv32, half: bv32)
    requires half == w >> 1
    ensures Number(w) == Bit0(w) + 2 * Number(half) && Bit0(w) <= 1
  {
    Unfolded(w);
  }

  lemma {:induction false} SplitNone(w: bv32, k: Shift, above: bv32, low: bv32)
    requires k == 0 && above == w >> k && low == w & Low(k)
    ensures above == w && low == 0
  {
    DownByNothing(w);
    NothingBelow(w);
  }

  lemma {:induction false} SplitHalves(w: bv32, k: Shift, above: bv32, low: bv32, half: bv32, lowHalf: bv32)
    requires k > 0 && above == w >> k && low == w & Low(k) && half == w >> 1 && lowHalf == low >> 1
    ensures above == half >> (k - 1) && lowHalf == half & Low(k - 1) && Bit0(low) == Bit0(w)
  {
    HalfOfShift(w, k);
    HalfOfLow(w, k);
  }

  lemma {:induction false} SplitStep(w: bv32, low: bv32, half: bv32, lowHalf: bv32, above: nat, p: nat)
    requires half == w >> 1 && lowHalf == low >> 1 && Bit0(low) == Bit0(w)
    requires Number(half) == above * p + Number(lowHalf) && Number(lowHalf) < p
    ensures Number(w) == above * (2 * p) + Number(low) && Number(low) < 2 * p
  {
    HalfOf(w, half);
    HalfOf(low, lowHalf);
    OneMoreBit(Number(w), Number(half), Number(low), Number(lowHalf), Bit0(w), above, p);
  }

  // The bits from k on, and those below.
  lemma {:induction false} Split(w: bv32, k: Shift, above: bv32, low: bv32, p: nat)
    requires above == w >> k && low == w & Low(k) && p == Power(k)
    ensures Number(w) == Number(above) * p + Number(low) && Number(low) < p
    decreases k
  {
    if k == 0 {
      SplitNone(w, k, above, low);
    } else {
      var half, lowHalf := w >> 1, low >> 1;
      SplitHalves(w, k, above, low, half, lowHalf);
      Split(half, k - 1, above, lowHalf, Power(k - 1));
      SplitStep(w, low, half, lowHalf, Number(above), Power(k - 1));
    }
  }

  // They are quotient and remainder.
  lemma {:induction false} DownIsQuotient(w: bv32, k: Shift, above: bv32, low: bv32)
    requires above == w >> k && low == w & Low(k)
    ensures Number(above) == Quot(Number(w), Power(k)) && Number(low) == Rem(Number(w), Power(k))
  {
    Split(w, k, above, low, Power(k));
    QuotRemUnique(Number(above), Number(low), Power(k));
  }

  lemma {:induction false} PowersApart(k: Shift)
    requires k > 0
    ensures Power(k) * Power(32 - k) == W
  {
    PowerIsPow2(k);
    PowerIsPow2(32 - k);
    assert (32 - k) as nat == 32 - k as nat;
    Opposite(k as nat);
  }

  lemma {:induction false} UpKeepsLow(w: bv32, k: Shift, up: bv32, kept: bv32)
    requires k > 0 && up == w << k && kept == w & Low(32 - k)
    ensures Number(up) == Number(kept) * Power(k)
  {
    UpAndDown(w, k);
    Split(up, k, kept, 0, Power(k));
  }

  lemma {:induction false} ProductOf(whole: Word, p: nat, q: nat, kept: nat, up: nat)
    requires p > 0 && q > 0 && p * q == W && kept == Rem(whole, q) && up == kept * p
    ensures up == whole * p % W
  {
    MovedUp(whole, p, q);
  }

  // What is shifted out is lost: a product modulo 2^32.
  lemma {:induction false} UpIsProduct(w: bv32, k: Shift, up: bv32, p: nat)
    requires k > 0 && up == w << k && p == Power(k)
    ensures Number(up) == Number(w) * p % W
  {
    IsWord(w);
    var r: Shift := 32 - k;
    var above, kept, q := w >> r, w & Low(r), Power(r);
    UpKeepsLow(w, k, up, kept);
    DownIsQuotient(w, r, above, kept);
    PowersApart(k);
    ProductOf(Number(w), p, q, Number(kept), Number(up));
  }

  lemma {:induction false} NumbersAdd(a: bv32, b: bv32, c: bv32, a1: bv32, b1: bv32, c1: bv32)
    requires a1 == a >> 1 && b1 == b >> 1 && c1 == c >> 1
    requires Number(c1) == Number(a1) + Number(b1) && Bit0(c) == Bit0(a) + Bit0(b)
    ensures Number(c) == Number(a) + Number(b)
  {
    Unfolded(a);
    Unfolded(b);
    Unfolded(c);
  }

  // `|` of words with no common bit is their sum.
  lemma {:induction false} OrIsSum(a: bv32, b: bv32, c: bv32, n: bv6)
    requires n <= 32 && c >> n == 0 && a & b == 0 && c == a | b
    ensures Number(c) == Number(a) + Number(b)
    decreases n
  {
    if n > 0 {
      var a1, b1, c1 := a >> 1, b >> 1, c >> 1;
      HalfAbove(c, n, c1);
      HalvesApart(a, b, c, a1, b1, c1);
      LowestOfOr(a, b);
      OrIsSum(a1, b1, c1, n - 1);
      NumbersAdd(a, b, c, a1, b1, c1);
    } else {
      assert a == 0 && b == 0 && c == 0;
    }
  }

  lemma {:induction false} HalfAbove(c: bv32, n: bv6, c1: bv32)
    requires 1 <= n <= 32 && c >> n == 0 && c1 == c >> 1
    ensures c1 >> (n - 1) == 0
  {
    HalfOfShift(c, n);
  }

  lemma {:induction false} HalvesApart(a: bv32, b: bv32, c: bv32, a1: bv32, b1: bv32, c1: bv32)
    requires a & b == 0 && c == a | b && a1 == a >> 1 && b1 == b >> 1 && c1 == c >> 1
    ensures a1 & b1 == 0 && c1 == a1 | b1
  {
    HalvesOfAnd(a, b);
    HalvesOfOr(a, b);
  }

  // ----- the functions of the source -----

  lemma {:induction false} JoinedIsSum(a: bv32, b: bv32, c: bv32)
    requires a & b == 0 && c == a | b
    ensures Number(c) == Number(a) + Number(b)
  {
    assert c >> 32 == 0;
    OrIsSum(a, b, c, 32);
  }

  lemma {:induction false} UpperOfShl(high: bv32, low: bv32, k: Shift, r: Shift, up: bv32, down: bv32, p: nat, q: nat)
    requires k > 0 && r == 32 - k && up == high << k && down == low >> r && p == Power(k) && q == Power(r)
    ensures up & down == 0
    ensures Number(up) == Number(high) * p % W && Number(down) == Quot(Number(low), q)
  {
    Apart(high, low, k);
    UpIsProduct(high, k, up, p);
    var rest := low & Low(r);
    DownIsQuotient(low, r, down, rest);
  }

  lemma {:induction false} MaskedUp(high: bv32, k: Shift, r: Shift, masked: bv32, up: bv32)
    requires k > 0 && r == 32 - k && masked == high & Low(k) && up == masked << r
    ensures Number(up) == Rem(Number(high), Power(k)) * Power(r)
  {
    LowOfLow(high, k);
    assert 32 - r == k;
    UpKeepsLow(masked, r, up, masked);
    var above := high >> k;
    DownIsQuotient(high, k, above, masked);
  }

  lemma {:induction false} LowerOfShr(high: bv32, low: bv32, k: Shift, r: Shift, down: bv32, masked: bv32, up: bv32)
    requires k > 0 && r == 32 - k && down == low >> k && masked == high & Low(k) && up == masked << r
    ensures down & up == 0
    ensures Number(down) == Quot(Number(low), Power(k)) && Number(up) == Rem(Number(high), Power(k)) * Power(r)
  {
    Apart(high, low, k);
    var rest := low & Low(k);
    DownIsQuotient(low, k, down, rest);
    MaskedUp(high, k, r, masked, up);
  }

  lemma {:induction false} Amounts(bits: bv6)
    requires 1 <= bits
    ensures bits < 32 ==> Power(bits) == Pow2(bits as nat) && Power(32 - bits) == Pow2(32 - bits as nat)
    ensures bits >= 32 ==> Power(bits - 32) == Pow2(bits as nat - 32)
  {
    if bits < 32 {
      PowerIsPow2(bits);
      PowerIsPow2(32 - bits);
      assert (32 - bits) as nat == 32 - bits as nat;
    } else {
      PowerIsPow2(bits - 32);
      assert (bits - 32) as nat == bits as nat - 32;
    }
  }

  // By less than a word: what leaves one word is joined to the other.
  lemma {:induction false} ShlNumbers(high: bv32, low: bv32, k: Shift, r: Shift, up: bv32, down: bv32, joined: bv32, lower: bv32, p: nat, q: nat)
    requires k > 0 && r == 32 - k && p == Power(k) && q == Power(r)
    requires up == high << k && down == low >> r && joined == up | down && lower == low << k
    ensures Number(joined) == Number(high) * p % W + Quot(Number(low), q) && Number(lower) == Number(low) * p % W
  {
    UpperOfShl(high, low, k, r, up, down, p, q);
    JoinedIsSum(up, down, joined);
    UpIsProduct(low, k, lower, p);
  }

  lemma {:induction false} ShrNumbers(high: bv32, low: bv32, k: Shift, r: Shift, down: bv32, masked: bv32, up: bv32, joined: bv32, upper: bv32,
                   p: nat, q: nat)
    requires k > 0 && r == 32 - k && p == Power(k) && q == Power(r)
    requires down == low >> k && masked == high & Low(k) && up == masked << r && joined == down | up && upper == high >> k
    ensures Number(upper) == Quot(Number(high), p)
    ensures Number(joined) == Quot(Number(low), p) + Rem(Number(high), p) * q
  {
    LowerOfShr(high, low, k, r, down, masked, up);
    JoinedIsSum(down, up, joined);
    DownIsQuotient(high, k, upper, masked);
  }

  // By a word or more.
  lemma {:induction false} ShlWholeNumbers(low: bv32, k: Shift, upper: bv32, p: nat)
    requires upper == low << k && p == Power(k)
    ensures Number(upper) == Number(low) * p % W
  {
    if k == 0 {
      UpByNothing(low);
      IsWord(low);
    } else {
      UpIsProduct(low, k, upper, p);
    }
  }

  lemma {:induction false} ShrWholeNumbers(high: bv32, k: Shift, lower: bv32, p: nat)
    requires lower == high >> k && p == Power(k)
    ensures Number(lower) == Quot(Number(high), p)
  {
    var rest := high & Low(k);
    DownIsQuotient(high, k, lower, rest);
  }

  // On numbers alone.
  lemma {:induction false} ShlIs(high: Word, low: Word, bits: nat, upper: nat, lower: nat)
    requires 1 <= bits <= 63
    requires bits >= 32 ==> upper == low * Pow2(bits - 32) % W && lower == 0
    requires bits < 32 ==>
      upper == high * Pow2(bits) % W + Quot(low, Pow2(32 - bits)) && lower == low * Pow2(bits) % W
    ensures upper < W && lower < W && U64(upper, lower) == Shl(U64(high, low), bits)
  {
    var r := Shl(U64(high, low), bits);
    assert r.high == upper && r.low == lower;
  }

  lemma {:induction false} ShrIs(high: Word, low: Word, bits: nat, upper: nat, lower: nat)
    requires 1 <= bits <= 63
    requires bits >= 32 ==> upper == 0 && lower == Quot(high, Pow2(bits - 32))
    requires bits < 32 ==>
      upper == Quot(high, Pow2(bits)) && lower == Quot(low, Pow2(bits)) + Rem(high, Pow2(bits)) * Pow2(32 - bits)
    ensures upper < W && lower < W && U64(upper, lower) == Shr(U64(high, low), bits)
  {
    var r := Shr(U64(high, low), bits);
    assert r.high == upper && r.low == lower;
  }

  // ----- the functions of the source, by a word or more, and by less -----

  // The words stand for the number n.
  ghost predicate Stand(high: bv32, low: bv32, n: U64) {
    Number(high) == n.high && Number(low) == n.low
  }

  // A shift amount as a number.
  ghost predicate Amount(k: Shift, bits: nat) {
    bits < 32 && Power(k) == Pow2(bits) && (k > 0 ==> bits > 0 && Power(32 - k) == Pow2(32 - bits))
  }

  lemma {:induction false} AmountOf(k: Shift)
    ensures Amount(k, k as nat)
  {
    if k == 0 { PowerIsPow2(k); } else { Amounts(k); }
  }

  /** a.high = a.low << (bits - 32); a.low = 0 */
  lemma {:induction false} ShlOfWhole(high: bv32, low: bv32, n: U64, k: Shift, bits: nat, upper: bv32)
    requires Stand(high, low, n) && Amount(k, bits) && upper == low << k
    ensures Stand(upper, 0, Shl(n, bits + 32))
  {
    ShlWholeNumbers(low, k, upper, Power(k));
    ShlIs(n.high, n.low, bits + 32, Number(upper), 0);
  }

  /** a.high <<= bits; a.high |= a.low >> (32 - bits); a.low <<= bits */
  lemma {:induction false} ShlOfPart(high: bv32, low: bv32, n: U64, k: Shift, bits: nat, up: bv32, down: bv32, upper: bv32, lower: bv32)
    requires Stand(high, low, n) && k > 0 && Amount(k, bits)
    requires up == high << k && down == low >> (32 - k) && upper == up | down && lower == low << k
    ensures Stand(upper, lower, Shl(n, bits))
  {
    ShlNumbers(high, low, k, 32 - k, up, down, upper, lower, Power(k), Power(32 - k));
    ShlIs(n.high, n.low, bits, Number(upper), Number(lower));
  }

  /** a.low = a.high >> (bits - 32); a.high = 0 */
  lemma {:induction false} ShrOfWhole(high: bv32, low: bv32, n: U64, k: Shift, bits: nat, lower: bv32)
    requires Stand(high, low, n) && Amount(k, bits) && lower == high >> k
    ensures Stand(0, lower, Shr(n, bits + 32))
  {
    ShrWholeNumbers(high, k, lower, Power(k));
    ShrIs(n.high, n.low, bits + 32, 0, Number(lower));
  }

  /** a.low >>= bits; a.low |= (a.high & ((1 << bits) - 1)) << (32 - bits); a.high >>= bits */
  lemma {:induction false} ShrOfPart(high: bv32, low: bv32, n: U64, k: Shift, bits: nat, down: bv32, masked: bv32, up: bv32,
                  upper: bv32, lower: bv32)
    requires Stand(high, low, n) && k > 0 && Amount(k, bits) && upper == high >> k
    requires down == low >> k && masked == high & Low(k) && up == masked << (32 - k) && lower == down | up
    ensures Stand(upper, lower, Shr(n, bits))
  {
    ShrNumbers(high, low, k, 32 - k, down, masked, up, lower, upper, Power(k), Power(32 - k));
    ShrIs(n.high, n.low, bits, Number(upper), Number(lower));
  }

  lemma {:induction false} AllOnes(n: bv6, w: bv32)
    requires n <= 32 && w == FULL >> (32 - n)
    ensures Number(w) == Power(n) - 1
    decreases n
  {
    if n > 0 {
      var half := w >> 1;
      assert half == FULL >> (32 - (n - 1)) && w & 1 == 1;
      AllOnes(n - 1, half);
      Unfolded(w);
    } else {
      assert w == 0;
    }
  }

  /** ~ of a word is the complement `TwoWords.Not` uses. */
  lemma {:induction false} ComplementOnNumbers(w: bv32)
    ensures Number(!w) + Number(w) == W - 1
  {
    var flipped := !w;
    assert flipped & w == 0 && flipped | w == FULL && FULL >> 0 == FULL && FULL >> 32 == 0;
    JoinedIsSum(flipped, w, FULL);
    AllOnes(32, FULL);
    PowerIsPow2(32);
    WordPower();
  }
}
