/**
  The bitmap of mapped 4 MB pages (NeilOS/kernel/memory/memory.c): one bit for each of the
  1024 pages of the address space, user pages below 3 GB and kernel pages above.
*/
module VmBitmap {
  import opened Bitmaps

  const FOUR_MB: nat := 0x40_0000
  const WORDS: nat := 32         // VM_BITMAP_SIZE
  const KERNEL_WORD: nat := 24   // VM_KERNEL_START
  const KERNEL_PAGE: nat := 768  // 3 GB
  const NUM_PAGES: nat := 1024

  // ----- runs of free pages -----

  predicate FreeRun(bits: seq<bool>, p: nat, n: nat) {
    p + n <= |bits| && forall k :: p <= k < p + n ==> !bits[k]
  }

  // Where a search may stop: a free run of n pages, starting in a word with a free page.
  predicate Candidate(words: seq<bv32>, p: nat, n: nat)
    requires |words| == WORDS && p < NUM_PAGES
  {
    words[p / WORD_BITS] != FULL && FreeRun(BitsOf(words), p, n)
  }

  // A full word starts no run, so skipping it loses none.
  lemma RunsAreCandidates(words: seq<bv32>, p: nat, n: nat)
    requires |words| == WORDS && p < NUM_PAGES && n > 0
    ensures Candidate(words, p, n) <==> FreeRun(BitsOf(words), p, n)
  {
    if FreeRun(BitsOf(words), p, n) {
      ConstBits(p % WORD_BITS);
      assert !BitsOf(words)[p];
    }
  }

  predicate Lowest(words: seq<bv32>, lo: nat, hi: nat, n: nat, p: nat)
    requires |words| == WORDS && hi <= NUM_PAGES
  {
    lo <= p < hi && Candidate(words, p, n) && forall q: nat :: lo <= q < p ==> !Candidate(words, q, n)
  }

  predicate Highest(words: seq<bv32>, lo: nat, hi: nat, n: nat, p: nat)
    requires |words| == WORDS && hi <= NUM_PAGES
  {
    lo <= p < hi && Candidate(words, p, n) && forall q: nat :: p < q < hi ==> !Candidate(words, q, n)
  }

  predicate NoCandidate(words: seq<bv32>, lo: nat, hi: nat, n: nat)
    requires |words| == WORDS && hi <= NUM_PAGES
  {
    forall q: nat :: lo <= q < hi ==> !Candidate(words, q, n)
  }

  // The pages a search considers.
  function Lo(user: bool): nat { if user then 0 else KERNEL_PAGE }
  function Hi(user: bool): nat { if user then KERNEL_PAGE else NUM_PAGES }

  // ----- reading no word past the array -----

  // A probe of n pages from p on ends, or meets a mapped page, before the array does.
  ghost predicate StaysInside(words: seq<bv32>, p: nat, n: nat)
    requires |words| == WORDS
  {
    p + n <= NUM_PAGES || exists k :: p <= k < NUM_PAGES && BitsOf(words)[k]
  }

  lemma ProbeGoesOn(words: seq<bv32>, p: nat, n: nat, i: nat)
    requires |words| == WORDS && StaysInside(words, p, n) && i < n && p + i <= NUM_PAGES
    requires forall k :: p <= k < p + i ==> !BitsOf(words)[k]
    ensures p + i < NUM_PAGES
  {
    if p + n > NUM_PAGES {
      var k :| p <= k < NUM_PAGES && BitsOf(words)[k];
    }
  }

  // Some page is mapped that every probe of the search would meet.
  ghost predicate Fenced(words: seq<bv32>, user: bool)
    requires |words| == WORDS
  {
    exists k :: Hi(user) - 1 <= k < NUM_PAGES && BitsOf(words)[k]
  }

  ghost predicate ForwardSafe(words: seq<bv32>, user: bool, n: nat)
    requires |words| == WORDS
  {
    Fenced(words, user) || exists p: nat :: Lo(user) <= p < Hi(user) && Candidate(words, p, n)
  }

  ghost predicate BackwardSafe(words: seq<bv32>, user: bool, n: nat)
    requires |words| == WORDS
  {
    Fenced(words, user) || Hi(user) - 1 + n <= NUM_PAGES
  }

  // The searches probe a page of a word that is not full once all before it have failed.
  ghost predicate ForwardProbes(words: seq<bv32>, user: bool, n: nat, p: nat)
    requires |words| == WORDS
  {
    Lo(user) <= p < Hi(user) && words[p / WORD_BITS] != FULL && NoCandidate(words, Lo(user), p, n)
  }

  ghost predicate BackwardProbes(words: seq<bv32>, user: bool, n: nat, p: nat)
    requires |words| == WORDS
  {
    Lo(user) <= p < Hi(user) && words[p / WORD_BITS] != FULL && NoCandidate(words, p + 1, Hi(user), n)
  }

  lemma ProbeStaysInside(words: seq<bv32>, user: bool, n: nat, p: nat)
    requires |words| == WORDS && Lo(user) <= p < Hi(user)
    requires (ForwardSafe(words, user, n) && NoCandidate(words, Lo(user), p, n)) || BackwardSafe(words, user, n)
    ensures StaysInside(words, p, n)
  {
    if Fenced(words, user) {
      var k :| Hi(user) - 1 <= k < NUM_PAGES && BitsOf(words)[k];
    }
  }

  lemma LastPageFree(words: seq<bv32>, user: bool)
    requires |words| == WORDS && !Fenced(words, user)
    ensures words[(Hi(user) - 1) / WORD_BITS] != FULL
    ensures forall k :: Hi(user) - 1 <= k < NUM_PAGES ==> !BitsOf(words)[k]
  {
    ConstBits((Hi(user) - 1) % WORD_BITS);
    assert !BitsOf(words)[Hi(user) - 1];
  }

  /** The inputs on which a search leaves the array, at the last page of its half: nothing is
      mapped from there on, more pages are asked for than are left, and, for the search that
      begins at the front, there is no run to find on the way. */
  lemma LastPageLeaves(words: seq<bv32>, user: bool, n: nat)
    requires |words| == WORDS && !Fenced(words, user) && Hi(user) - 1 + n > NUM_PAGES
    ensures !StaysInside(words, Hi(user) - 1, n)
    ensures BackwardProbes(words, user, n, Hi(user) - 1)
    ensures NoCandidate(words, Lo(user), Hi(user), n) ==> ForwardProbes(words, user, n, Hi(user) - 1)
  {
    LastPageFree(words, user);
  }

  /** One of them, for both: all pages but the last are mapped, and two kernel pages are asked for. */
  lemma OnlyLastPageFree(words: seq<bv32>)
    requires |words| == WORDS && forall p: nat :: p < NUM_PAGES ==> (BitsOf(words)[p] <==> p != NUM_PAGES - 1)
    ensures ForwardProbes(words, false, 2, NUM_PAGES - 1) && BackwardProbes(words, false, 2, NUM_PAGES - 1)
    ensures !StaysInside(words, NUM_PAGES - 1, 2)
  {
    forall q: nat | q < NUM_PAGES ensures !Candidate(words, q, 2) {
      assert q < NUM_PAGES - 1 ==> BitsOf(words)[q];
    }
    LastPageLeaves(words, false, 2);
  }

  /** The search reads no word past the array exactly when there is a run to find, or a mapped
      page that stops every probe; the search from the back exactly when its first probe fits,
      or there is such a page. */
  lemma SafeIffInside(words: seq<bv32>, user: bool, n: nat)
    requires |words| == WORDS
    ensures ForwardSafe(words, user, n) <==>
      forall p: nat :: ForwardProbes(words, user, n, p) ==> StaysInside(words, p, n)
    ensures BackwardSafe(words, user, n) <==>
      forall p: nat :: BackwardProbes(words, user, n, p) ==> StaysInside(words, p, n)
  {
    forall p: nat | Lo(user) <= p < Hi(user)
      ensures ForwardSafe(words, user, n) && NoCandidate(words, Lo(user), p, n) ==> StaysInside(words, p, n)
      ensures BackwardSafe(words, user, n) ==> StaysInside(words, p, n)
    {
      if (ForwardSafe(words, user, n) && NoCandidate(words, Lo(user), p, n)) || BackwardSafe(words, user, n) {
        ProbeStaysInside(words, user, n, p);
      }
    }
    var last: nat := Hi(user) - 1;
    if !Fenced(words, user) {
      if Hi(user) - 1 + n > NUM_PAGES {
        LastPageLeaves(words, user, n);
        assert !ForwardSafe(words, user, n) ==> NoCandidate(words, Lo(user), Hi(user), n);
      } else {
        LastPageFree(words, user);
        assert Candidate(words, last, n);
      }
    }
  }

  class VmMap {
    const bitmap: array<bv32>

    constructor ()
      ensures fresh(bitmap) && bitmap.Length == WORDS
    {
      bitmap := new bv32[WORDS](_ => 0);
    }

    ghost predicate Valid() { bitmap.Length == WORDS }

    ghost function Mapped(): seq<bool>
      reads bitmap
    {
      BitsOf(bitmap[..])
    }

    // The probe loop: are the n pages from bit q of word z on all free?
    method RunIsFree(z: nat, q: nat, n: nat) returns (all: bool)
      requires Valid() && z < WORDS && q < WORD_BITS && StaysInside(bitmap[..], z * WORD_BITS + q, n)
      ensures all == FreeRun(Mapped(), z * WORD_BITS + q, n)
    {
      ghost var p: nat, words := z * WORD_BITS + q, bitmap[..];
      for i := 0 to n
        invariant p + i <= NUM_PAGES
        invariant forall k :: p <= k < p + i ==> !BitsOf(words)[k]
      {
        ProbeGoesOn(words, p, n, i);
        assert (p + i) / WORD_BITS == z + (i + q) / WORD_BITS && (p + i) % WORD_BITS == (i + q) % WORD_BITS;
        var bit := ReadWord(bitmap[z + (i + q) / WORD_BITS], (i + q) % WORD_BITS);
        assert bit == BitsOf(words)[p + i];
        if bit {
          return false;
        }
      }
      return true;
    }

    // vm_get_next_unmapped_pages
    method GetNextUnmappedPages(pages: nat, user: bool) returns (address: nat)
      requires Valid() && ForwardSafe(bitmap[..], user, pages)
      ensures (exists p :: Lowest(bitmap[..], Lo(user), Hi(user), pages, p) && address == FOUR_MB * p)
        || (NoCandidate(bitmap[..], Lo(user), Hi(user), pages) && address == 0)
    {
      var z := if user then 0 else KERNEL_WORD;
      var end := if user then KERNEL_WORD else WORDS;
      ghost var words := bitmap[..];
      while z < end
        invariant Lo(user) <= z * WORD_BITS <= Hi(user)
        invariant forall q: nat :: Lo(user) <= q < z * WORD_BITS ==> !Candidate(words, q, pages)
      {
        if bitmap[z] != FULL {
          for q := 0 to WORD_BITS
            invariant forall p: nat :: Lo(user) <= p < z * WORD_BITS + q ==> !Candidate(words, p, pages)
          {
            ProbeStaysInside(words, user, pages, z * WORD_BITS + q);
            var all := RunIsFree(z, q, pages);
            assert (z * WORD_BITS + q) / WORD_BITS == z;
            if all {
              assert Lowest(words, Lo(user), Hi(user), pages, z * WORD_BITS + q);
              return FOUR_MB * (WORD_BITS * z + q);
            }
          }
        }
        z := z + 1;
      }
      return 0;
    }

    // vm_get_next_unmapped_pages_from_back
    method GetNextUnmappedPagesFromBack(pages: nat, user: bool) returns (address: nat)
      requires Valid() && BackwardSafe(bitmap[..], user, pages)
      ensures (exists p :: Highest(bitmap[..], Lo(user), Hi(user), pages, p) && address == FOUR_MB * p)
        || (NoCandidate(bitmap[..], Lo(user), Hi(user), pages) && address == 0)
    {
      var end := if user then 0 else KERNEL_WORD;
      var z := if user then KERNEL_WORD - 1 else WORDS - 1;
      ghost var words := bitmap[..];
      while z >= end
        invariant end - 1 <= z < WORDS && Lo(user) <= (z + 1) * WORD_BITS <= Hi(user)
        invariant forall p: nat :: (z + 1) * WORD_BITS <= p < Hi(user) ==> !Candidate(words, p, pages)
      {
        if bitmap[z] != FULL {
          var q := WORD_BITS - 1;
          while q >= 0
            invariant -1 <= q < WORD_BITS
            invariant forall p: nat :: z * WORD_BITS + q < p < Hi(user) ==> !Candidate(words, p, pages)
          {
            ProbeStaysInside(words, user, pages, z * WORD_BITS + q);
            var all := RunIsFree(z, q, pages);
            assert (z * WORD_BITS + q) / WORD_BITS == z;
            if all {
              assert Highest(words, Lo(user), Hi(user), pages, z * WORD_BITS + q);
              return FOUR_MB * (WORD_BITS * z + q);
            }
            q := q - 1;
          }
        }
        z := z - 1;
      }
      return 0;
    }

    // The bitmap part of vm_map_page and vm_unmap_page.
    method SetMapped(vaddr: nat, mapped: bool)
      requires Valid() && vaddr < NUM_PAGES * FOUR_MB
      modifies bitmap
      ensures Mapped() == old(Mapped())[vaddr / FOUR_MB := mapped]
    {
      WriteBitmap(bitmap, vaddr / FOUR_MB, mapped);
    }

    // memset(&vm_bitmap[lo], 0, ...)
    method ClearWords(lo: nat, hi: nat)
      requires Valid() && lo <= hi <= WORDS
      modifies bitmap
      ensures forall i :: 0 <= i < WORDS ==> bitmap[i] == if lo <= i < hi then 0 else old(bitmap[i])
    {
      for k := lo to hi
        invariant forall i :: 0 <= i < WORDS ==> bitmap[i] == if lo <= i < k then 0 else old(bitmap[i])
      {
        bitmap[k] := 0;
      }
    }

    // The bitmap part of vm_unmap_pages.
    method UnmapPages(start: nat, end: nat)
      requires Valid() && start <= end < NUM_PAGES * FOUR_MB
      modifies bitmap
      ensures forall p: nat :: p < NUM_PAGES ==>
        Mapped()[p] == (old(Mapped())[p] && !(start / FOUR_MB <= p < end / FOUR_MB))
    {
      var startPage, endPage := start / FOUR_MB, end / FOUR_MB;
      var sp, ep := startPage / WORD_BITS, endPage / WORD_BITS;
      ghost var was := bitmap[..];
      // Masks of the bits of a word to keep: those below the start, those from the end on.
      var below := BelowMask(startPage % WORD_BITS);
      var from := BelowMask(endPage % WORD_BITS);
      from := Flip(from);
      if sp == ep {
        var outside := Or(below, from);
        bitmap[sp] := And(bitmap[sp], outside);
      } else {
        bitmap[sp] := And(bitmap[sp], below);
        bitmap[ep] := And(bitmap[ep], from);
        if ep - sp >= 2 {
          ClearWords(sp + 1, ep);
        }
      }
      forall p: nat | p < NUM_PAGES
        ensures Read(bitmap[..], p) == (Read(was, p) && !(startPage <= p < endPage))
      {
        ConstBits(p % WORD_BITS);
      }
    }
  }

  // ----- what the searches promise their callers -----

  /** While page 0 and the first kernel page are mapped, a search for user pages answers 0
      exactly when no run is free; any other answer starts a free run below 3 GB. */
  lemma UserRunsStayBelowKernel(words: seq<bv32>, n: nat, p: nat)
    requires |words| == WORDS && n > 0 && p < KERNEL_PAGE
    requires BitsOf(words)[0] && BitsOf(words)[KERNEL_PAGE] && Candidate(words, p, n)
    ensures p > 0 && p + n <= KERNEL_PAGE && FreeRun(BitsOf(words), p, n)
  {
  }

  lemma NoneMeansNone(words: seq<bv32>, lo: nat, hi: nat, n: nat)
    requires |words| == WORDS && n > 0 && hi <= NUM_PAGES
    ensures NoCandidate(words, lo, hi, n) <==> forall p: nat :: lo <= p < hi ==> !FreeRun(BitsOf(words), p, n)
  {
    forall p: nat | p < NUM_PAGES ensures Candidate(words, p, n) <==> FreeRun(BitsOf(words), p, n) {
      RunsAreCandidates(words, p, n);
    }
  }

  /** A search for user memory, in set terms: zero means no such run exists; else the answer is
      the lowest address, and with `fromBack` the highest, of a run of n free pages, all below 3 GB. */
  method FindUserPages(m: VmMap, n: nat, fromBack: bool) returns (address: nat)
    requires m.Valid() && n > 0 && m.Mapped()[0] && m.Mapped()[KERNEL_PAGE]
    ensures address % FOUR_MB == 0 && address / FOUR_MB < KERNEL_PAGE
    ensures address == 0 <==> forall p: nat :: p < KERNEL_PAGE ==> !FreeRun(m.Mapped(), p, n)
    ensures address != 0 ==> address / FOUR_MB + n <= KERNEL_PAGE && FreeRun(m.Mapped(), address / FOUR_MB, n)
    ensures address != 0 && !fromBack ==> forall p: nat :: p < address / FOUR_MB ==> !FreeRun(m.Mapped(), p, n)
    ensures address != 0 && fromBack ==>
      forall p: nat :: address / FOUR_MB < p < KERNEL_PAGE ==> !FreeRun(m.Mapped(), p, n)
  {
    ghost var words := m.bitmap[..];
    assert BitsOf(words)[KERNEL_PAGE] && Fenced(words, true);
    if fromBack {
      address := m.GetNextUnmappedPagesFromBack(n, true);
    } else {
      address := m.GetNextUnmappedPages(n, true);
    }
    NoneMeansNone(words, 0, KERNEL_PAGE, n);
    forall p: nat | p < KERNEL_PAGE ensures Candidate(words, p, n) <==> FreeRun(BitsOf(words), p, n) {
      RunsAreCandidates(words, p, n);
    }
    assert m.Mapped() == BitsOf(words);
    if !NoCandidate(words, 0, KERNEL_PAGE, n) {
      var p: nat :| p < KERNEL_PAGE && Candidate(words, p, n) && address == FOUR_MB * p;
      UserRunsStayBelowKernel(words, n, p);
    } else {
      assert address == 0;
      assert forall p: nat :: p < KERNEL_PAGE ==> !FreeRun(BitsOf(words), p, n);
    }
  }

  /** The same for kernel memory: the answer is 0 exactly when no run is free from 3 GB on, else the
      lowest or highest one, wherever the search stays inside the bitmap. */
  method FindKernelPages(m: VmMap, n: nat, fromBack: bool) returns (address: nat)
    requires m.Valid() && n > 0
    requires if fromBack then BackwardSafe(m.bitmap[..], false, n) else ForwardSafe(m.bitmap[..], false, n)
    ensures address % FOUR_MB == 0 && (address == 0 || 0xC000_0000 <= address <= 0x1_0000_0000 - n * FOUR_MB)
    ensures address == 0 <==> forall p: nat :: 768 <= p < NUM_PAGES ==> !FreeRun(m.Mapped(), p, n)
    ensures address != 0 ==> FreeRun(m.Mapped(), address / FOUR_MB, n)
    ensures address != 0 && !fromBack ==> forall p: nat :: 768 <= p < address / FOUR_MB ==> !FreeRun(m.Mapped(), p, n)
    ensures address != 0 && fromBack ==>
      forall p: nat :: address / FOUR_MB < p < NUM_PAGES ==> !FreeRun(m.Mapped(), p, n)
  {
    ghost var words := m.bitmap[..];
    if fromBack {
      address := m.GetNextUnmappedPagesFromBack(n, false);
    } else {
      address := m.GetNextUnmappedPages(n, false);
    }
    NoneMeansNone(words, 768, NUM_PAGES, n);
    forall p: nat | p < NUM_PAGES ensures Candidate(words, p, n) <==> FreeRun(BitsOf(words), p, n) {
      RunsAreCandidates(words, p, n);
    }
    assert m.Mapped() == BitsOf(words);
    if !NoCandidate(words, 768, NUM_PAGES, n) {
      var p: nat :| 768 <= p < NUM_PAGES && Candidate(words, p, n) && address == FOUR_MB * p;
      assert FreeRun(BitsOf(words), p, n);
    } else {
      assert address == 0;
      assert forall p: nat :: 768 <= p < NUM_PAGES ==> !FreeRun(BitsOf(words), p, n);
    }
  }
}
