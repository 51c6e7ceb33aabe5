/**
  Printing numbers (NeilOS/kernel/common/lib.c): `itoa` writes digits lowest first and
  reverses them in place; the alternate form of %x pads with zeros in the same buffer.
*/
module Numbers {
  const LOOKUP: string := "0123456789ABCDEFGHIJKLMNOPQRSTUVWXYZ"

  // ----- what digit strings mean -----

  predicate Radix(r: nat) { 2 <= r <= 36 }

  function Digit(d: nat): (c: char)
    requires d < 36
    ensures DigitValue(c) == d && c != '\0' && (c == '0' <==> d == 0)
  {
    if d < 10 then '0' + d as char else 'A' + (d - 10) as char
  }

  function DigitValue(c: char): int {
    if '0' <= c <= '9' then c as int - '0' as int
    else if 'A' <= c <= 'Z' then c as int - 'A' as int + 10
    else -1
  }

  predicate Digits(s: string, r: nat) {
    forall i :: 0 <= i < |s| ==> 0 <= DigitValue(s[i]) < r
  }

  function Denotes(s: string, r: nat): int {
    if s == [] then 0 else Denotes(s[..|s| - 1], r) * r + DigitValue(s[|s| - 1])
  }

  // A numeral: digits, and no leading zero except in "0" itself.
  predicate Numeral(s: string, r: nat) {
    Digits(s, r) && |s| > 0 && (s[0] == '0' ==> |s| == 1)
  }

  // Quotient and remainder by repeated subtraction, so that proofs need no nonlinear
  // arithmetic; `IsDivMod` says they are `/` and `%`.
  function Quot(v: nat, r: nat): nat
    requires r > 0
  {
    if v < r then 0 else 1 + Quot(v - r, r)
  }

  function Rem(v: nat, r: nat): (d: nat)
    requires r > 0
    ensures d < r
  {
    if v < r then v else Rem(v - r, r)
  }

  lemma {:induction false} QuotHalves(v: nat, r: nat)
    requires r >= 2
    ensures Quot(v, r) <= v / 2
    ensures v >= r ==> Quot(v, r) > 0
  {
    if v >= r { QuotHalves(v - r, r); }
  }

  lemma {:induction false} QuotRem(v: nat, r: nat)
    requires r > 0
    ensures Quot(v, r) * r + Rem(v, r) == v
  {
    if v >= r {
      QuotRem(v - r, r);
      assert (1 + Quot(v - r, r)) * r == r + Quot(v - r, r) * r;
    }
  }

  function Render(value: nat, r: nat): (s: string)
    requires Radix(r)
  {
    QuotHalves(value, r);
    if value < r then [Digit(value)] else Render(Quot(value, r), r) + [Digit(Rem(value, r))]
  }

  // The table's entry for a digit.
  lemma LookupDigit(d: nat)
    requires d < 36
    ensures LOOKUP[d] == Digit(d)
  {
  }

  lemma OneMoreDigit(s: string, c: char, r: nat)
    ensures Denotes(s + [c], r) == Denotes(s, r) * r + DigitValue(c)
    ensures Numeral(s, r) && s != "0" && 0 <= DigitValue(c) < r ==> Numeral(s + [c], r)
  {
    assert (s + [c])[..|s|] == s;
  }

  lemma DigitAppended(s: string, q: nat, d: nat, r: nat)
    requires Radix(r) && Numeral(s, r) && s != "0" && Denotes(s, r) == q && d < r
    ensures Numeral(s + [Digit(d)], r) && Denotes(s + [Digit(d)], r) == q * r + d
  {
    OneMoreDigit(s, Digit(d), r);
  }

  /** The string `itoa` writes is a numeral that denotes the value. */
  lemma {:induction false} RenderDenotes(value: nat, r: nat)
    requires Radix(r)
    ensures Numeral(Render(value, r), r) && Denotes(Render(value, r), r) == value
    ensures Render(value, r) == "0" <==> value == 0
  {
    if value < r {
      OneMoreDigit([], Digit(value), r);
      assert [] + [Digit(value)] == Render(value, r);
    } else {
      QuotHalves(value, r);
      QuotRem(value, r);
      RenderDenotes(Quot(value, r), r);
      DigitAppended(Render(Quot(value, r), r), Quot(value, r), Rem(value, r), r);
    }
  }

  lemma DigitIsKnown(c: char, r: nat)
    requires Radix(r) && 0 <= DigitValue(c) < r
    ensures c == Digit(DigitValue(c))
  {
  }

  lemma {:induction false} QuotRemUnique(q: nat, d: nat, r: nat)
    requires r > 0 && d < r
    ensures q * r + d >= 0 && Quot(q * r + d, r) == q && Rem(q * r + d, r) == d
  {
    if q > 0 {
      assert q * r + d == r + ((q - 1) * r + d);
      QuotRemUnique(q - 1, d, r);
    }
  }

  lemma SmallMultiple(k: int, r: int, e: int)
    requires k * r == e && -r < e < r
    ensures k == 0
  {
  }

  lemma IsDivMod(v: nat, r: nat)
    requires r > 0
    ensures v / r == Quot(v, r) && v % r == Rem(v, r)
  {
    QuotRem(v, r);
    assert (v / r - Quot(v, r)) * r == Rem(v, r) - v % r;
    SmallMultiple(v / r - Quot(v, r), r, Rem(v, r) - v % r);
  }

  lemma Grows(q: int, r: int, d: int)
    requires q > 0 && r >= 2 && d >= 0
    ensures q * r + d >= r
  {
  }

  lemma RenderOneMore(q: nat, d: nat, r: nat)
    requires Radix(r) && q > 0 && d < r
    ensures q * r + d > 0 && Render(q * r + d, r) == Render(q, r) + [Digit(d)]
  {
    QuotRemUnique(q, d, r);
    Grows(q, r, d);
  }

  /** It is the only one: a numeral is what `itoa` writes for the value it denotes. */
  lemma {:induction false} NumeralIsRendered(s: string, r: nat)
    requires Radix(r) && Numeral(s, r)
    ensures Denotes(s, r) >= 0 && s == Render(Denotes(s, r), r)
    ensures Denotes(s, r) == 0 <==> s == "0"
  {
    var n := |s| - 1;
    var d := DigitValue(s[n]);
    DigitIsKnown(s[n], r);
    OneMoreDigit(s[..n], s[n], r);
    assert s == s[..n] + [s[n]];
    if n == 0 {
      assert s == [Digit(d)];
    } else {
      var q := Denotes(s[..n], r);
      NumeralIsRendered(s[..n], r);
      assert s[..n][0] == s[0];
      RenderOneMore(q, d, r);
    }
  }

  // ----- strings in a buffer -----

  // The C string s stands at index `at` of the buffer.
  predicate StringAt(buf: array<char>, at: nat, s: string)
    reads buf
  {
    && at + |s| < buf.Length
    && (forall j :: at <= j < at + |s| ==> buf[j] == s[j - at] && buf[j] != '\0')
    && buf[at + |s|] == '\0'
  }

  // strlen
  method StrLen(buf: array<char>, at: nat, ghost s: string) returns (len: nat)
    requires StringAt(buf, at, s)
    ensures len == |s|
  {
    len := 0;
    while buf[at + len] != '\0'
      invariant len <= |s|
      decreases |s| - len
    {
      len := len + 1;
    }
  }

  function Reverse(s: string): (t: string)
    ensures |t| == |s| && forall i :: 0 <= i < |s| ==> t[i] == s[|s| - 1 - i]
  {
    if s == "" then "" else Reverse(s[1..]) + [s[0]]
  }

  // strrev: two indices swap their way to the middle.
  method StrRev(buf: array<char>, at: nat, ghost s: string)
    requires StringAt(buf, at, s)
    modifies buf
    ensures StringAt(buf, at, Reverse(s))
    ensures forall i :: 0 <= i < buf.Length && !(at <= i < at + |s|) ==> buf[i] == old(buf[i])
  {
    var len := StrLen(buf, at, s);
    var beg := 0;
    var end: int := len as int - 1;
    ghost var n, t := |s|, Reverse(s);
    forall i | 0 <= i < n ensures t[i] != '\0' {
      assert buf[at + (n - 1 - i)] == s[n - 1 - i];
    }
    while beg < end
      invariant 0 <= beg <= n && end == n - 1 - beg && beg <= end + 2
      invariant forall j :: at <= j < at + beg || at + end < j < at + n ==> buf[j] == t[j - at]
      invariant forall j :: at + beg <= j <= at + end ==> buf[j] == s[j - at]
      invariant forall i :: 0 <= i < buf.Length && !(at <= i < at + n) ==> buf[i] == old(buf[i])
    {
      assert t[beg] == s[end] && t[end] == s[beg];
      var tmp := buf[at + end];
      buf[at + end] := buf[at + beg];
      buf[at + beg] := tmp;
      beg := beg + 1;
      end := end - 1;
    }
    assert beg == end ==> t[beg] == s[end];
  }

  // ----- itoa -----

  // The digits in the order the loop produces them.
  function LowFirst(value: nat, r: nat): string
    requires Radix(r)
  {
    QuotHalves(value, r);
    if value == 0 then "" else [Digit(Rem(value, r))] + LowFirst(Quot(value, r), r)
  }

  lemma ReverseStep(c: char, s: string)
    ensures Reverse([c] + s) == Reverse(s) + [c]
  {
    assert ([c] + s)[1..] == s;
  }

  lemma {:induction false} ReversedIsRendered(value: nat, r: nat)
    requires Radix(r) && value > 0
    ensures Reverse(LowFirst(value, r)) == Render(value, r)
    ensures forall i :: 0 <= i < |LowFirst(value, r)| ==> LowFirst(value, r)[i] != '\0'
  {
    QuotHalves(value, r);
    ReverseStep(Digit(Rem(value, r)), LowFirst(Quot(value, r), r));
    if value >= r {
      ReversedIsRendered(Quot(value, r), r);
    }
  }

  function Pow2(k: nat): (p: nat)
    ensures p > 0
  {
    if k == 0 then 1 else 2 * Pow2(k - 1)
  }

  lemma WordPower()
    ensures Pow2(32) == 0x1_0000_0000
  {
    assert Pow2(8) == 0x100;
    assert Pow2(16) == 0x1_0000;
    assert Pow2(24) == 0x100_0000;
  }

  lemma {:induction false} AtMostBits(value: nat, r: nat, k: nat)
    requires Radix(r) && value < Pow2(k)
    ensures |LowFirst(value, r)| <= k
  {
    QuotHalves(value, r);
    if value > 0 { AtMostBits(Quot(value, r), r, k - 1); }
  }

  /** 33 bytes hold any 32-bit number in any radix. */
  lemma BufferSuffices(value: nat, r: nat)
    requires Radix(r) && value < 0x1_0000_0000
    ensures |Render(value, r)| < 33
  {
    WordPower();
    AtMostBits(value, r, 32);
    if value > 0 { ReversedIsRendered(value, r); }
  }

  lemma {:induction false} HexDigits(value: nat, k: nat)
    requires value < Pow2(4 * k)
    ensures |LowFirst(value, 16)| <= k
  {
    if value > 0 {
      IsDivMod(value, 16);
      var n: nat := 4 * k;
      assert Pow2(n) == 4 * Pow2(n - 2) && Pow2(n - 2) == 4 * Pow2(n - 4);
      HexDigits(Quot(value, 16), k - 1);
    }
  }

  lemma LowFirstStep(rest: nat, r: nat)
    requires Radix(r) && rest > 0
    ensures rest / r < rest && rest % r < r
    ensures LowFirst(rest, r) == [LOOKUP[rest % r]] + LowFirst(rest / r, r)
  {
    IsDivMod(rest, r);
    QuotHalves(rest, r);
    LookupDigit(rest % r);
  }

  // The loop of itoa, with the NUL after it.
  method WriteDigits(value: nat, buf: array<char>, at: nat, radix: nat, ghost digits: string)
    requires Radix(radix) && digits == LowFirst(value, radix) && at + |digits| < buf.Length
    modifies buf
    ensures forall j :: at <= j < at + |digits| ==> buf[j] == digits[j - at]
    ensures buf[at + |digits|] == '\0'
    ensures forall i :: 0 <= i < buf.Length && !(at <= i <= at + |digits|) ==> buf[i] == old(buf[i])
  {
    var n := 0;
    var rest: nat := value;
    while rest > 0
      invariant 0 <= n <= |digits| && digits[n..] == LowFirst(rest, radix)
      invariant forall j :: at <= j < at + n ==> buf[j] == digits[j - at]
      invariant forall i :: 0 <= i < buf.Length && !(at <= i < at + n) ==> buf[i] == old(buf[i])
      decreases rest
    {
      LowFirstStep(rest, radix);
      var i := rest % radix;
      assert digits[n] == digits[n..][0] && digits[n + 1..] == digits[n..][1..];
      buf[at + n] := LOOKUP[i];
      n := n + 1;
      rest := rest / radix;
    }
    assert n == |digits|;
    buf[at + n] := '\0';
  }

  // itoa
  method Itoa(value: nat, buf: array<char>, at: nat, radix: nat)
    requires Radix(radix) && at + |Render(value, radix)| < buf.Length
    modifies buf
    ensures StringAt(buf, at, Render(value, radix))
    ensures forall i :: 0 <= i < buf.Length && !(at <= i <= at + |Render(value, radix)|) ==> buf[i] == old(buf[i])
  {
    if value == 0 {
      buf[at] := '0';
      buf[at + 1] := '\0';
      return;
    }
    ghost var digits := LowFirst(value, radix);
    ReversedIsRendered(value, radix);
    WriteDigits(value, buf, at, radix, digits);
    StrRev(buf, at, digits);
  }

  // The alternate form of %x in sprintf: itoa at offset 8 of the buffer, then zeros from
  // `starting_index` up to it, so that the string of eight starts there.
  method AlternateHex(value: nat) returns (str: string)
    requires value < 0x1_0000_0000
    ensures |str| == 8 && Digits(str, 16) && Denotes(str, 16) == value
  {
    var convBuf := new char[64](_ => '?');
    ghost var digits := Render(value, 16);
    EightAreEnough(value);
    Itoa(value, convBuf, 8, 16);
    var startingIndex := StrLen(convBuf, 8, digits);
    var i := startingIndex;
    while i < 8
      invariant startingIndex <= i <= 8 && StringAt(convBuf, 8, digits)
      invariant forall j :: startingIndex <= j < i ==> convBuf[j] == '0'
    {
      convBuf[i] := '0';
      i := i + 1;
    }
    ghost var padded := Padded(digits);
    assert StringAt(convBuf, startingIndex, padded);
    var len := StrLen(convBuf, startingIndex, padded);
    str := convBuf[startingIndex..startingIndex + len];
    assert str == padded;
    PaddedDenotes(value);
  }

  function Padded(digits: string): (s: string)
    requires |digits| <= 8
    ensures |s| == 8 && forall i :: 0 <= i < 8 ==>
      s[i] == if i < 8 - |digits| then '0' else digits[i - (8 - |digits|)]
  {
    seq(8 - |digits|, _ => '0') + digits
  }

  lemma PaddedDenotes(value: nat)
    requires |Render(value, 16)| <= 8
    ensures Digits(Padded(Render(value, 16)), 16) && Denotes(Padded(Render(value, 16)), 16) == value
  {
    RenderDenotes(value, 16);
    ZerosDenoteNothing(8 - |Render(value, 16)|, Render(value, 16));
  }

  lemma EightAreEnough(value: nat)
    requires value < 0x1_0000_0000
    ensures |Render(value, 16)| <= 8
  {
    WordPower();
    HexDigits(value, 8);
    if value > 0 { ReversedIsRendered(value, 16); }
  }

  lemma {:induction false} ZerosDenoteNothing(k: nat, digits: string)
    ensures Denotes(seq(k, _ => '0') + digits, 16) == Denotes(digits, 16)
    decreases |digits|, k
  {
    var zeros := seq(k, _ => '0');
    if digits != "" {
      var n := |digits| - 1;
      assert zeros + digits == (zeros + digits[..n]) + [digits[n]] && digits == digits[..n] + [digits[n]];
      OneMoreDigit(zeros + digits[..n], digits[n], 16);
      OneMoreDigit(digits[..n], digits[n], 16);
      ZerosDenoteNothing(k, digits[..n]);
    } else if k > 0 {
      var fewer := seq(k - 1, _ => '0');
      assert zeros + "" == (fewer + "") + ['0'];
      OneMoreDigit(fewer + "", '0', 16);
      ZerosDenoteNothing(k - 1, "");
    } else {
      assert zeros + "" == "";
    }
  }
}
