/**
  64-bit numbers in two 32-bit words (NeilOS/kernel/common/types.c).  Words are numbers
  below 2^32 and wrap; a shift is a product or quotient by a power of two, a mask a remainder,
  and the `|` of two shifted words, whose bits lie apart, their sum: `WordShifts` proves that
  of the operations on bit vectors.
*/
module TwoWords {
  import opened Numbers

  const W: nat := 0x1_0000_0000
  const WW: nat := 0x1_0000_0000_0000_0000

  type Word = w: nat | w < W

  // uint64_t
  datatype U64 = U64(high: Word, low: Word)

  function Value(a: U64): (v: nat)
    ensures v < WW
  {
    a.high * W + a.low
  }

  function Plus(a: Word, b: Word): Word { if a + b < W then a + b else a + b - W }

  function Complement(a: Word): Word { W - 1 - a }

  // uint64_add
  function Add(a: U64, b: U64): (r: U64)
    ensures Value(r) == if Value(a) + Value(b) < WW then Value(a) + Value(b) else Value(a) + Value(b) - WW
  {
    var low := Plus(a.low, b.low);
    var high := Plus(a.high, b.high);
    if low < b.low then U64(Plus(high, 1), low) else U64(high, low)
  }

  // uint64_inc
  function Inc(a: U64): (r: U64)
    ensures Value(r) == if Value(a) + 1 < WW then Value(a) + 1 else 0
  {
    var low := Plus(a.low, 1);
    if low == 0 then U64(Plus(a.high, 1), low) else U64(a.high, low)
  }

  // uint64_not
  function Not(a: U64): (r: U64)
    ensures Value(r) == WW - 1 - Value(a)
  {
    U64(Complement(a.high), Complement(a.low))
  }

  // uint64_sub: a + (~b + 1)
  function Sub(a: U64, b: U64): (r: U64)
    ensures Value(r) == if Value(a) >= Value(b) then Value(a) - Value(b) else Value(a) - Value(b) + WW
  {
    Inc(Add(a, Not(b)))
  }

  // uint64_greater
  predicate Greater(a: U64, b: U64)
    ensures Greater(a, b) <==> Value(a) > Value(b)
  {
    if a.high == b.high then a.low > b.low else a.high > b.high
  }

  // uint64_less
  predicate Less(a: U64, b: U64)
    ensures Less(a, b) <==> Value(a) < Value(b)
  {
    if a.high == b.high then a.low < b.low else a.high < b.high
  }

  /** What is added can be taken away again, across any carry. */
  lemma AddThenSub(a: U64, b: U64)
    ensures Sub(Add(a, b), b) == a
  {
    var r := Sub(Add(a, b), b);
    assert r.high * W + r.low == a.high * W + a.low;
  }

  // ----- shifts -----

  function WordShl(x: Word, k: nat): Word
    requires k < 32
  {
    x * Pow2(k) % W
  }

  function WordShr(x: Word, k: nat): Word
    requires k < 32
  {
    QuotAtMost(x, Pow2(k));
    Quot(x, Pow2(k))
  }

  lemma {:induction false} QuotAtMost(v: nat, r: nat)
    requires r > 0
    ensures Quot(v, r) <= v
  {
    if v >= r { QuotAtMost(v - r, r); }
  }

  lemma {:induction false} PowSum(j: nat, k: nat)
    ensures Pow2(j + k) == Pow2(j) * Pow2(k)
  {
    if j > 0 {
      PowSum(j - 1, k);
      Regroup(2, Pow2(j - 1), Pow2(k));
    }
  }

  lemma Product(h: nat, q: nat, r: nat, p: nat)
    ensures (h * q + r) * p == h * (p * q) + r * p
  {
    assert (h * q + r) * p == h * q * p + r * p;
  }

  lemma AtMost(a: nat, b: nat, c: nat)
    requires a <= b
    ensures a * c <= b * c
  {
  }

  // A word times p, when p * q is 2^32: the top of it leaves, the rest moves up.
  lemma MovedUp(x: Word, p: nat, q: nat)
    requires p > 0 && q > 0 && p * q == W
    ensures x * p == Quot(x, q) * W + Rem(x, q) * p
    ensures Rem(x, q) * p <= W - p && Quot(x, q) < p
    ensures x * p % W == Rem(x, q) * p
  {
    var h, r := Quot(x, q), Rem(x, q);
    QuotRem(x, q);
    Product(h, q, r, p);
    AtMost(r, q - 1, p);
    assert (q - 1) * p == W - p;
    if h >= p { AtMost(p, h, q); }
  }

  // uint64_shl; C leaves a shift of a word by 32 or more undefined, hence 1 to 63.
  function Shl(a: U64, bits: nat): (r: U64)
    requires 1 <= bits <= 63
  {
    if bits >= 32 then U64(WordShl(a.low, bits - 32), 0)
    else
      Opposite(bits);
      MovedUp(a.low, Pow2(bits), Pow2(32 - bits));
      MovedUp(a.high, Pow2(bits), Pow2(32 - bits));
      U64(WordShl(a.high, bits) + WordShr(a.low, 32 - bits), WordShl(a.low, bits))
  }

  lemma Fits(high: Word, low: Word, p: nat, q: nat)
    requires p > 0 && q > 0 && p * q == W
    ensures Quot(low, p) + Rem(high, p) * q < W
  {
    QuotRem(low, p);
    LessThan(Quot(low, p), p, q, low);
    AtMost(Rem(high, p), p - 1, q);
    Sum(p - 1, 1, q);
  }

  lemma LessThan(l: nat, p: nat, q: nat, low: nat)
    requires l * p <= low < p * q
    ensures l < q
  {
    if l >= q { AtMost(q, l, p); }
  }

  lemma Sum(a: nat, b: nat, c: nat)
    ensures (a + b) * c == a * c + b * c
  {
  }

  lemma Regroup(a: nat, b: nat, c: nat)
    ensures a * b * c == a * (b * c)
  {
  }

  // The low bits of the upper word go to the top of the lower one.
  lemma Carried(h: nat, r: nat, l: nat, s: nat, p: nat, q: nat)
    requires p * q == W
    ensures (h * p + r) * W + (l * p + s) == (h * W + (l + r * q)) * p + s
  {
    Sum(h * W, l + r * q, p);
    Sum(l, r * q, p);
    Regroup(r, q, p);
    Regroup(h, W, p);
    Regroup(h, p, W);
  }

  lemma MovedDown(high: Word, low: Word, p: nat, q: nat)
    requires p > 0 && p * q == W
    ensures Quot(high * W + low, p) == Quot(high, p) * W + (Quot(low, p) + Rem(high, p) * q)
  {
    var h, r, l, s := Quot(high, p), Rem(high, p), Quot(low, p), Rem(low, p);
    QuotRem(high, p);
    QuotRem(low, p);
    Carried(h, r, l, s, p, q);
    QuotRemUnique(h * W + (l + r * q), s, p);
  }

  // uint64_shr; high & ((1 << bits) - 1) is the remainder.
  function Shr(a: U64, bits: nat): (r: U64)
    requires 1 <= bits <= 63
  {
    if bits >= 32 then U64(0, WordShr(a.high, bits - 32))
    else
      Opposite(bits);
      Fits(a.high, a.low, Pow2(bits), Pow2(32 - bits));
      U64(WordShr(a.high, bits), WordShr(a.low, bits) + Rem(a.high, Pow2(bits)) * Pow2(32 - bits))
  }

  lemma Opposite(bits: nat)
    ensures bits <= 32 ==> Pow2(bits) * Pow2(32 - bits) == W
    ensures bits >= 32 ==> Pow2(bits) == Pow2(bits - 32) * W
  {
    WordPower();
    if bits <= 32 { PowSum(bits, 32 - bits); } else { PowSum(bits - 32, 32); }
  }

  lemma ModSquare(k: nat, x: nat, y: nat)
    requires y == k * WW + x && x < WW
    ensures y % WW == x
  {
  }

  lemma WholeWordUp(high: Word, low: Word, p: nat)
    ensures (high * W + low) * (p * W) % WW == low * p % W * W
  {
    Sum(high * W, low, p * W);
    Regroup(low, p, W);
    Regroup(high, W, p * W);
    Regroup(W, p, W);
    Regroup(high, p, WW);
    ModSquare(high * p + low * p / W, low * p % W * W, (high * W + low) * (p * W));
  }

  lemma PartUp(high: Word, low: Word, p: nat, q: nat)
    requires p > 0 && q > 0 && p * q == W
    ensures (high * W + low) * p % WW == (high * p % W + Quot(low, q)) * W + low * p % W
  {
    MovedUp(low, p, q);
    MovedUp(high, p, q);
    Sum(high * W, low, p);
    Regroup(high, W, p);
    Regroup(high, p, W);
    ModSquare(Quot(high, q), (high * p % W + Quot(low, q)) * W + low * p % W, (high * W + low) * p);
  }

  /** A shift to the left multiplies by a power of two, modulo 2^64. */
  lemma ShlMultiplies(a: U64, bits: nat)
    requires 1 <= bits <= 63
    ensures Value(Shl(a, bits)) == Value(a) * Pow2(bits) % WW
  {
    Opposite(bits);
    if bits >= 32 {
      WholeWordUp(a.high, a.low, Pow2(bits - 32));
    } else {
      PartUp(a.high, a.low, Pow2(bits), Pow2(32 - bits));
    }
  }

  lemma WholeWordDown(high: Word, low: Word, p: nat)
    requires p > 0
    ensures Quot(high * W + low, p * W) == Quot(high, p)
  {
    var h, r := Quot(high, p), Rem(high, p);
    QuotRem(high, p);
    AtMost(r, p - 1, W);
    Regroup(h, p, W);
    QuotRemUnique(h, r * W + low, p * W);
  }

  /** A shift to the right divides by it. */
  lemma ShrDivides(a: U64, bits: nat)
    requires 1 <= bits <= 63
    ensures Value(Shr(a, bits)) == Value(a) / Pow2(bits)
  {
    Opposite(bits);
    IsDivMod(Value(a), Pow2(bits));
    if bits >= 32 {
      WholeWordDown(a.high, a.low, Pow2(bits - 32));
    } else {
      MovedDown(a.high, a.low, Pow2(bits), Pow2(32 - bits));
    }
  }
}
