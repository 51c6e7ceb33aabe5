/**
  Bitmaps packed into 32-bit words: bit i of the map is bit i % 32 of word i / 32.
  Shared by the page-table bitmaps (NeilOS/kernel/memory/page_list.c) and the bitmap of
  mapped pages (NeilOS/kernel/memory/memory.c).
*/
module Bitmaps {
  const WORD_BITS: nat := 32
  const FULL: bv32 := 0xFFFF_FFFF

  // ----- one word -----

  predicate BitAt(w: bv32, k: bv6)
    requires k < 32
  {
    (w >> k) & 1 == 1
  }

  function One(k: bv6): bv32
    requires k < 32
  {
    (1 as bv32) << k
  }

  predicate Bit(w: bv32, k: nat)
    requires k < WORD_BITS
  {
    BitAt(w, k as bv6)
  }

  function Mask(k: nat): bv32
    requires k < WORD_BITS
  {
    One(k as bv6)
  }

  // One lemma for each operation on words: together they overwhelm the bit-vector solver.

  lemma SetAt(w: bv32, k: bv6, j: bv6)
    requires k < 32 && j < 32
    ensures BitAt(w | One(k), j) <==> j == k || BitAt(w, j)
  {
  }

  lemma ClearAt(w: bv32, v: bv32, j: bv6)
    requires j < 32
    ensures BitAt(w & !v, j) <==> BitAt(w, j) && !BitAt(v, j)
  {
  }

  lemma OneAt(k: bv6, j: bv6)
    requires k < 32 && j < 32
    ensures BitAt(One(k), j) <==> j == k
  {
  }

  lemma BelowAt(k: bv6, j: bv6)
    requires k < 32 && j < 32
    ensures BitAt(One(k) - 1, j) <==> j < k
  {
  }

  lemma TestAt(w: bv32, k: bv6)
    requires k < 32
    ensures w & One(k) != 0 <==> BitAt(w, k)
  {
  }

  lemma SameIndex(k: nat, j: nat)
    requires k < WORD_BITS && j < WORD_BITS
    ensures k as bv6 < 32 && j as bv6 < 32
    ensures k as bv6 == j as bv6 <==> k == j
  {
    assert (k as bv6) as nat == k && (j as bv6) as nat == j;
  }

  lemma IndexOrder(k: nat, j: nat)
    requires k < WORD_BITS && j < WORD_BITS
    ensures k as bv6 < 32 && j as bv6 < 32
    ensures (k as bv6) < (j as bv6) <==> k < j
  {
    assert (k as bv6) as nat == k && (j as bv6) as nat == j;
  }

  lemma SetBit(w: bv32, k: nat, j: nat)
    requires k < WORD_BITS && j < WORD_BITS
    ensures Bit(w | Mask(k), j) <==> j == k || Bit(w, j)
  {
    SameIndex(k, j);
    SetAt(w, k as bv6, j as bv6);
  }

  lemma MaskBit(k: nat, j: nat)
    requires k < WORD_BITS && j < WORD_BITS
    ensures Bit(Mask(k), j) <==> j == k
  {
    SameIndex(k, j);
    OneAt(k as bv6, j as bv6);
  }

  lemma ClearBits(w: bv32, v: bv32, j: nat)
    requires j < WORD_BITS
    ensures Bit(w & !v, j) <==> Bit(w, j) && !Bit(v, j)
  {
    ClearAt(w, v, j as bv6);
  }

  lemma ClearBit(w: bv32, k: nat, j: nat)
    requires k < WORD_BITS && j < WORD_BITS
    ensures Bit(w & !Mask(k), j) <==> j != k && Bit(w, j)
  {
    ClearBits(w, Mask(k), j);
    MaskBit(k, j);
  }

  lemma BelowBit(k: nat, j: nat)
    requires k < WORD_BITS && j < WORD_BITS
    ensures Bit(Mask(k) - 1, j) <==> j < k
  {
    IndexOrder(j, k);
    BelowAt(k as bv6, j as bv6);
  }

  lemma AndAt(w: bv32, v: bv32, j: bv6)
    requires j < 32
    ensures BitAt(w & v, j) <==> BitAt(w, j) && BitAt(v, j)
  {
  }

  lemma OrAt(w: bv32, v: bv32, j: bv6)
    requires j < 32
    ensures BitAt(w | v, j) <==> BitAt(w, j) || BitAt(v, j)
  {
  }

  lemma FlipAt(w: bv32, j: bv6)
    requires j < 32
    ensures BitAt(FULL ^ w, j) <==> !BitAt(w, j)
  {
  }

  lemma AndBit(w: bv32, v: bv32, j: nat)
    requires j < WORD_BITS
    ensures Bit(w & v, j) <==> Bit(w, j) && Bit(v, j)
  {
    AndAt(w, v, j as bv6);
  }

  lemma OrBit(w: bv32, v: bv32, j: nat)
    requires j < WORD_BITS
    ensures Bit(w | v, j) <==> Bit(w, j) || Bit(v, j)
  {
    OrAt(w, v, j as bv6);
  }

  lemma FlipBit(w: bv32, j: nat)
    requires j < WORD_BITS
    ensures Bit(FULL ^ w, j) <==> !Bit(w, j)
  {
    FlipAt(w, j as bv6);
  }

  lemma ConstBits(j: nat)
    requires j < WORD_BITS
    ensures !Bit(0, j) && Bit(FULL, j)
  {
  }

  // ----- a map of words -----

  predicate Read(words: seq<bv32>, i: nat)
    requires i < WORD_BITS * |words|
  {
    Bit(words[i / WORD_BITS], i % WORD_BITS)
  }

  function BitsOf(words: seq<bv32>): (bits: seq<bool>)
    ensures |bits| == WORD_BITS * |words|
    ensures forall i: nat :: i < |bits| ==> bits[i] == Read(words, i)
  {
    seq(WORD_BITS * |words|, (i: nat) requires i < WORD_BITS * |words| => Read(words, i))
  }

  // (word >> k) & 1
  method ReadWord(w: bv32, k: nat) returns (r: bool)
    requires k < WORD_BITS
    ensures r == Bit(w, k)
  {
    r := (w >> k as bv6) & 1 == 1;
  }

  // (w & (1 << k)) != 0
  method TestWord(w: bv32, k: nat) returns (r: bool)
    requires k < WORD_BITS
    ensures r == Bit(w, k)
  {
    TestAt(w, k as bv6);
    r := w & Mask(k) != 0;
  }

  // (1 << k) - 1
  method BelowMask(k: nat) returns (r: bv32)
    requires k < WORD_BITS
    ensures forall j: nat :: j < WORD_BITS ==> (Bit(r, j) <==> j < k)
  {
    r := Mask(k) - 1;
    forall j: nat | j < WORD_BITS ensures Bit(r, j) <==> j < k { BelowBit(k, j); }
  }

  // -1 ^ w
  method Flip(w: bv32) returns (r: bv32)
    ensures forall j: nat :: j < WORD_BITS ==> (Bit(r, j) <==> !Bit(w, j))
  {
    r := FULL ^ w;
    forall j: nat | j < WORD_BITS ensures Bit(r, j) <==> !Bit(w, j) { FlipBit(w, j); }
  }

  method And(w: bv32, v: bv32) returns (r: bv32)
    ensures forall j: nat :: j < WORD_BITS ==> (Bit(r, j) <==> Bit(w, j) && Bit(v, j))
  {
    r := w & v;
    forall j: nat | j < WORD_BITS ensures Bit(r, j) <==> Bit(w, j) && Bit(v, j) { AndBit(w, v, j); }
  }

  method Or(w: bv32, v: bv32) returns (r: bv32)
    ensures forall j: nat :: j < WORD_BITS ==> (Bit(r, j) <==> Bit(w, j) || Bit(v, j))
  {
    r := w | v;
    forall j: nat | j < WORD_BITS ensures Bit(r, j) <==> Bit(w, j) || Bit(v, j) { OrBit(w, v, j); }
  }

  // A word that differs in one bit makes a map that differs in one bit.
  lemma WriteWord(words: seq<bv32>, index: nat, w: bv32, value: bool)
    requires index < WORD_BITS * |words|
    requires forall j: nat :: j < WORD_BITS ==>
      (Bit(w, j) <==> if j == index % WORD_BITS then value else Bit(words[index / WORD_BITS], j))
    ensures BitsOf(words[index / WORD_BITS := w]) == BitsOf(words)[index := value]
  {
    var after := words[index / WORD_BITS := w];
    forall i: nat | i < WORD_BITS * |words|
      ensures Read(after, i) == if i == index then value else Read(words, i)
    {
    }
  }

  // Methods, so that callers see the bits and not the bit-vector terms.

  method WithBit(w: bv32, k: nat) returns (r: bv32)
    requires k < WORD_BITS
    ensures forall j: nat :: j < WORD_BITS ==> (Bit(r, j) <==> j == k || Bit(w, j))
  {
    r := w | Mask(k);
    forall j: nat | j < WORD_BITS ensures Bit(r, j) <==> j == k || Bit(w, j) { SetBit(w, k, j); }
  }

  method WithoutBit(w: bv32, k: nat) returns (r: bv32)
    requires k < WORD_BITS
    ensures forall j: nat :: j < WORD_BITS ==> (Bit(r, j) <==> j != k && Bit(w, j))
  {
    r := w & !Mask(k);
    forall j: nat | j < WORD_BITS ensures Bit(r, j) <==> j != k && Bit(w, j) { ClearBit(w, k, j); }
  }

  // page_list_read_bitmap
  method ReadBitmap(bitmap: array<bv32>, index: nat) returns (value: bool)
    requires index < WORD_BITS * bitmap.Length
    ensures value == BitsOf(bitmap[..])[index]
  {
    var page := index / WORD_BITS;
    var offset := index % WORD_BITS;
    value := ReadWord(bitmap[page], offset);
  }

  // page_list_write_bitmap
  method WriteBitmap(bitmap: array<bv32>, index: nat, value: bool)
    requires index < WORD_BITS * bitmap.Length
    modifies bitmap
    ensures BitsOf(bitmap[..]) == old(BitsOf(bitmap[..]))[index := value]
  {
    var page := index / WORD_BITS;
    var offset := index % WORD_BITS;
    ghost var was := bitmap[..];
    var w := bitmap[page];
    if value {
      w := WithBit(w, offset);
    } else {
      w := WithoutBit(w, offset);
    }
    WriteWord(was, index, w, value);
    bitmap[page] := w;
    assert bitmap[..] == was[page := w];
  }
}
