/**
  The page-list code itself (NeilOS/kernel/memory/page_list.c and the write-fault branch
  of page_fault in NeilOS/kernel/syscalls/interrupt.c), updating page tables, owner bitmaps
  and sharing lists in place.  `PageLists.State()` reads the structures off the heap; every
  method is proved to turn it into what the function of `CowSpec` says.
*/
module CowHeap {
  import opened Wrappers
  import opened Bitmaps
  import opened CowSpec
  import CowProofs

  // page_table_t
  class PageTable {
    const pages: array<Pte>
    const owners: array<bv32>
    const cow: array<bv32>

    constructor (pages: array<Pte>, owners: array<bv32>, cow: array<bv32>)
      ensures this.pages == pages && this.owners == owners && this.cow == cow
    {
      this.pages := pages;
      this.owners := owners;
      this.cow := cow;
    }

    ghost predicate Valid() {
      && pages.Length == PAGES
      && owners.Length == cow.Length == PAGES / WORD_BITS
      && owners != cow
    }

    ghost function Footprint(): set<object> {
      {pages as object, owners, cow}
    }

    ghost function Value(): Table
      requires Valid()
      reads pages, owners, cow
    {
      Table(pages[..], BitsOf(owners[..]), BitsOf(cow[..]))
    }
  }

  // page_list_t, without its list links
  class PageList {
    const vaddr: nat
    const base: Frame
    const permissions: Permissions
    var copyOnWrite: bool
    var owner: bool
    var linked: Option<nat>
    var table: PageTable?

    constructor (vaddr: nat, base: Frame, permissions: Permissions, copyOnWrite: bool, owner: bool,
                 linked: Option<nat>, table: PageTable?)
      ensures this.vaddr == vaddr && this.base == base && this.permissions == permissions
      ensures this.copyOnWrite == copyOnWrite && this.owner == owner
      ensures this.linked == linked && this.table == table
    {
      this.vaddr, this.base, this.permissions := vaddr, base, permissions;
      this.copyOnWrite, this.owner := copyOnWrite, owner;
      this.linked, this.table := linked, table;
    }

    ghost predicate Valid()
      reads this
    {
      table != null ==> table.Valid()
    }

    ghost function Footprint(): set<object>
      reads this
    {
      {this} + if table == null then {} else table.Footprint()
    }

    ghost function Value(): Entry
      requires Valid()
      reads this, Footprint()
    {
      Entry(base, permissions, copyOnWrite, owner, linked,
            if table == null then None else Some(table.Value()))
    }
  }

  lemma ConstBitmaps(words: seq<bv32>, w: bv32)
    requires |words| == PAGES / WORD_BITS && forall i :: 0 <= i < |words| ==> words[i] == w
    ensures w == 0 ==> BitsOf(words) == NoBits()
    ensures w == FULL ==> BitsOf(words) == AllBits()
  {
    forall i: nat | i < PAGES
      ensures (w == 0 ==> !Read(words, i)) && (w == FULL ==> Read(words, i))
    {
      ConstBits(i % WORD_BITS);
    }
  }

  // page_list_set_up_page_table
  method SetUpPageTable(base: Frame, permissions: Permissions) returns (t: PageTable)
    ensures t.Valid() && fresh(t) && fresh(t.Footprint())
    ensures t.Value() == SetUp(base, permissions)
  {
    var blank := Pte(0, permissions);
    var pages := new Pte[PAGES](_ => blank);
    for z := 0 to PAGES
      invariant forall i :: 0 <= i < z ==> pages[i] == Pte(base + i, permissions.ReadOnly())
    {
      pages[z] := Pte(base + z, permissions.ReadOnly());
    }
    var owners := new bv32[PAGES / WORD_BITS](_ => 0);
    var cow := new bv32[PAGES / WORD_BITS](_ => FULL);
    ConstBitmaps(owners[..], 0);
    ConstBitmaps(cow[..], FULL);
    t := new PageTable(pages, owners, cow);
  }

  // page_list_copy_page_table: p's pages lose their write permission, l gets them.
  method CopyPageTable(p: PageTable, permissions: Permissions) returns (l: PageTable)
    requires p.Valid()
    modifies p.pages
    ensures l.Valid() && fresh(l) && fresh(l.Footprint())
    ensures p.Value() == Protect(old(p.Value()), permissions)
    ensures l.Value() == Table(p.Value().pages, NoBits(), p.Value().cow)
  {
    var blank := Pte(0, permissions);
    var pages := new Pte[PAGES](_ => blank);
    ghost var was := p.Value();
    for z := 0 to PAGES
      invariant forall i :: z <= i < PAGES ==> p.pages[i] == was.pages[i]
      invariant forall i :: 0 <= i < z ==> pages[i] == p.pages[i] == Protect(was, permissions).pages[i]
    {
      var shared := ReadBitmap(p.cow, z);
      if shared {
        p.pages[z] := Pte(p.pages[z].frame, permissions.ReadOnly());
      }
      pages[z] := p.pages[z];
    }
    var owners := new bv32[PAGES / WORD_BITS](_ => 0);
    ConstBitmaps(owners[..], 0);
    var cow := new bv32[PAGES / WORD_BITS](i requires 0 <= i < PAGES / WORD_BITS reads p.cow => p.cow[i]);
    assert cow[..] == p.cow[..];
    l := new PageTable(pages, owners, cow);
    assert p.Value().pages == Protect(was, permissions).pages;
  }

  // The search never looks at the entry that moves away.
  lemma {:induction false} FirstSharerSkips(entries: seq<Entry>, members: seq<nat>, e: nat, p: nat, frame: Frame, y: Entry)
    requires p < PAGES && e < |entries| && y.table.Some?
    requires Linkable(entries, members)
    ensures Linkable(entries[e := y], members)
    ensures FirstSharer(entries[e := y], members, e, p, frame) == FirstSharer(entries, members, e, p, frame)
  {
    if members != [] {
      assert members[0] in members && forall m :: m in members[1..] ==> m in members;
      FirstSharerSkips(entries, members[1..], e, p, frame, y);
    }
  }

  ghost function AfterPage(s: State, e: nat, p: nat, copy: Frame): State
    requires Shaped(s) && e < |s.entries| && p < PAGES && s.entries[e].table.Some?
  {
    CowSpec.State(s.entries[e := s.entries[e].WithPage(p, copy)], s.lists, s.mem[copy := s.mem[s.entries[e].FrameOf(p)]])
  }

  // The order of the code: map the copy, hand the old frame over, then own the copy.
  lemma CopyInSteps(s: State, e: nat, p: nat, copy: Frame)
    requires Shaped(s) && e < |s.entries| && p < PAGES && s.entries[e].table.Some?
    ensures var s1 := AfterPage(s, e, p, copy);
      var before := s.entries[e].FrameOf(p);
      && Linkable(s1.entries, Members(s, e))
      && var s2 := if s.entries[e].Owns(p)
           then HandOver(s1, FirstSharer(s1.entries, Members(s, e), e, p, before), p, before) else s1;
         && s2.entries[e] == s1.entries[e]
         && CopyOnWrite(s, e, p, copy) == CowSpec.State(s2.entries[e := s2.entries[e].WithOwner(p)], s2.lists, s2.mem)
  {
    FirstSharerSkips(s.entries, Members(s, e), e, p, s.entries[e].FrameOf(p), s.entries[e].WithPage(p, copy));
    var s1 := AfterPage(s, e, p, copy);
    var found := FirstSharer(s.entries, Members(s, e), e, p, s.entries[e].FrameOf(p));
    if found.Some? {
      var m := found.value;
      assert s1.entries[m] == s.entries[m];
      assert s1.entries[m := s1.entries[m].WithOwner(p)][e := s1.entries[e].WithOwner(p)] ==
             s.entries[e := s1.entries[e].WithOwner(p)][m := s.entries[m].WithOwner(p)];
    }
  }

  function WithTable(x: Entry, t: Table): Entry {
    Entry(x.base, x.perms, x.copyOnWrite, x.owner, x.linked, Some(t))
  }

  function WithList(x: Entry, linked: Option<nat>): Entry {
    Entry(x.base, x.perms, x.copyOnWrite, x.owner, linked, x.table)
  }

  function Opened(x: Entry): Entry {
    Entry(x.base, x.perms, true, x.owner, x.linked,
          Some(if x.table.Some? then x.table.value else SetUp(x.base, x.perms)))
  }

  // The retried store finds its frame.
  lemma CopyLands(s: State, e: nat, p: nat, copy: Frame)
    requires Shaped(s) && e < |s.entries| && p < PAGES && s.entries[e].table.Some? && copy !in s.mem
    ensures CopyOnWrite(s, e, p, copy).entries[e].FrameOf(p) == copy
    ensures copy in CopyOnWrite(s, e, p, copy).mem
  {
    assert s.entries[e].FrameOf(p) in s.mem;
  }

  lemma WriteAtAddress(s: State, t: State, e: nat, z: nat, b: bv8, copy: Option<Frame>, stored: bool)
    requires Shaped(s) && e < |s.entries| && z < PAGES * FRAME_SIZE && (copy.Some? ==> copy.value !in s.mem)
    requires t == CowSpec.Write(s, e, z / FRAME_SIZE, z % FRAME_SIZE, b, copy)
    requires stored == Allowed(s.entries[e], z / FRAME_SIZE, copy)
    ensures CowProofs.Inv(s) ==> CowProofs.Inv(t) && CowProofs.OneByte(s, t, e, z, b, stored)
  {
    if CowProofs.Inv(s) { CowProofs.WriteOneByte(s, e, z, b, copy); }
  }

  // All page-list entries of all tasks, their sharing lists, and physical memory.
  class PageLists {
    var entries: seq<PageList>
    var lists: seq<seq<nat>>
    var mem: map<Frame, Bytes>
    ghost var Repr: set<object>

    // No two entries share an object, so a change to one is invisible in the others.
    ghost predicate Valid()
      reads this, Repr
    {
      && this !in Repr
      && (forall i :: 0 <= i < |entries| ==> entries[i] in Repr && entries[i].Footprint() <= Repr && entries[i].Valid())
      && (forall i, j :: 0 <= i < j < |entries| ==> entries[i].Footprint() !! entries[j].Footprint())
    }

    ghost function Value(i: nat): Entry
      requires Valid() && i < |entries|
      reads this, Repr
    {
      entries[i].Value()
    }

    ghost function State(): State
      requires Valid()
      reads this, Repr
    {
      CowSpec.State(seq(|entries|, (i: nat) requires Valid() && i < |entries| reads this, Repr => Value(i)), lists, mem)
    }

    // Where each entry lies in its task's memory.
    ghost function Addresses(): (r: seq<nat>)
      reads this
      ensures |r| == |entries| && forall i :: 0 <= i < |r| ==> r[i] == entries[i].vaddr
    {
      seq(|entries|, i requires 0 <= i < |entries| reads this => entries[i].vaddr)
    }

    constructor ()
      ensures Valid() && fresh(Repr) && State() == EMPTY
    {
      entries, lists, mem, Repr := [], [], map[], {};
    }

    // page_list_add: the block allocator returns `base`, holding `contents`.
    method Add(vaddr: nat, permissions: Permissions, base: Frame, contents: seq<Bytes>)
      requires Valid() && |contents| == PAGES
      modifies this, Repr
      ensures Valid() && fresh(Repr - old(Repr))
      ensures State() == CowSpec.Add(old(State()), permissions, base, contents)
      ensures Addresses() == old(Addresses()) + [vaddr]
    {
      var t := new PageList(vaddr, base, permissions, false, true, None, null);
      entries := entries + [t];
      mem := Fill(mem, base, contents);
      Repr := Repr + {t};
      assert forall i: nat :: i < |entries| - 1 ==> Value(i) == old(Value(i));
    }

    // (address - list->vaddr) / FOUR_KB_SIZE
    function PageAt(e: nat, address: nat): (p: nat)
      requires e < |entries| && entries[e].vaddr <= address < entries[e].vaddr + PAGES * FRAME_SIZE
      reads this
      ensures p < PAGES
      ensures entries[e].vaddr + p * FRAME_SIZE <= address < entries[e].vaddr + (p + 1) * FRAME_SIZE
    {
      (address - entries[e].vaddr) / FRAME_SIZE
    }

    // Entry e now maps page p to `frame`, with the entry's own permissions.
    method SetPage(e: nat, p: nat, frame: Frame)
      requires Valid() && e < |entries| && entries[e].table != null && p < PAGES
      modifies entries[e].table.pages
      ensures Valid() && State() == CowSpec.State(old(State()).entries[e := old(Value(e)).WithPage(p, frame)], lists, mem)
    {
      var table := entries[e].table;
      ghost var was := State().entries;
      table.pages[p] := Pte(frame, entries[e].permissions);
      assert table.pages[..] == was[e].table.value.pages[p := Pte(frame, entries[e].permissions)];
      assert forall i: nat :: i < |entries| && i != e ==> Value(i) == was[i];
      assert State().entries == was[e := was[e].WithPage(p, frame)];
    }

    // page_list_write_bitmap(entry->page_table->owners, p, true)
    method SetOwner(e: nat, p: nat)
      requires Valid() && e < |entries| && entries[e].table != null && p < PAGES
      modifies entries[e].table.owners
      ensures Valid() && State() == CowSpec.State(old(State()).entries[e := old(Value(e)).WithOwner(p)], lists, mem)
    {
      ghost var was := State().entries;
      WriteBitmap(entries[e].table.owners, p, true);
      assert forall i: nat :: i < |entries| && i != e ==> Value(i) == was[i];
      assert State().entries == was[e := was[e].WithOwner(p)];
    }

    // The walk along the sharing list for an entry that still maps frame `before`.
    method FindSharer(members: seq<nat>, e: nat, p: nat, before: Frame) returns (r: Option<nat>)
      requires Valid() && p < PAGES && Linkable(State().entries, members)
      ensures r == FirstSharer(State().entries, members, e, p, before)
    {
      var t := 0;
      while t < |members|
        invariant 0 <= t <= |members| && Linkable(State().entries, members[t..])
        invariant FirstSharer(State().entries, members, e, p, before) ==
                  FirstSharer(State().entries, members[t..], e, p, before)
      {
        var m := members[t];
        assert m in members[t..] && members[t..][1..] == members[t + 1..];
        assert State().entries[m] == Value(m);
        if m != e && entries[m].table.pages[p].frame == before {
          return Some(m);
        }
        t := t + 1;
      }
      return None;
    }

    // The copy is made and mapped; the bytes are read through the mapping it replaces.
    method MapCopy(e: nat, page: nat, copy: Frame) returns (before: Frame)
      requires Valid() && Shaped(State()) && e < |entries| && entries[e].table != null && page < PAGES
      modifies this`mem, entries[e].table.pages
      ensures Valid() && before == old(Value(e)).FrameOf(page)
      ensures State() == AfterPage(old(State()), e, page, copy)
    {
      ghost var was := State();
      before := entries[e].table.pages[page].frame;
      assert before == was.entries[e].FrameOf(page);
      mem := mem[copy := mem[before]];
      SetPage(e, page, copy);
    }

    // The frame has lost its owner: a sharer takes it over, or it is freed.
    method HandOver(e: nat, p: nat, before: Frame)
      requires Valid() && e < |entries| && p < PAGES
      requires entries[e].linked.Some? ==> entries[e].linked.value < |lists|
      requires Linkable(State().entries, ListAt(lists, entries[e].linked))
      modifies this`mem, Repr
      ensures Valid()
      ensures State() == CowSpec.HandOver(old(State()),
        FirstSharer(old(State()).entries, old(ListAt(lists, entries[e].linked)), e, p, before), p, before)
    {
      ghost var was := State();
      var found := FindSharer(ListAt(lists, entries[e].linked), e, p, before);
      if found.Some? {
        assert was.entries[found.value].table.Some? && Value(found.value) == was.entries[found.value];
        SetOwner(found.value, p);
      } else {
        mem := mem - {before};
      }
    }

    // page_list_copy_on_write once the frame is there.
    method TakeCopy(e: nat, page: nat, copy: Frame)
      requires Valid() && Shaped(State()) && e < |entries| && entries[e].table != null && page < PAGES
      modifies this`mem, Repr
      ensures Valid()
      ensures State() == CowSpec.CopyOnWrite(old(State()), e, page, copy)
    {
      ghost var was := State();
      CopyInSteps(was, e, page, copy);
      var before := MapCopy(e, page, copy);
      ghost var s1 := State();
      var owned := ReadBitmap(entries[e].table.owners, page);
      assert owned == s1.entries[e].Owns(page) == was.entries[e].Owns(page);
      assert entries[e].linked == was.entries[e].linked;
      if owned {
        HandOver(e, page, before);
      }
      assert State().entries[e] == s1.entries[e] == Value(e);
      SetOwner(e, page);
    }

    // page_list_copy_on_write; `copy` is the answer of the frame allocator.
    method CopyOnWrite(e: nat, address: nat, copy: Option<Frame>) returns (ok: bool)
      requires Valid() && Shaped(State()) && e < |entries| && entries[e].table != null
      requires entries[e].vaddr <= address < entries[e].vaddr + PAGES * FRAME_SIZE
      modifies this`mem, Repr
      ensures Valid()
      ensures ok <==> copy.Some? && old(Value(e)).table.value.cow[PageAt(e, address)]
      ensures State() ==
        if ok then CowSpec.CopyOnWrite(old(State()), e, PageAt(e, address), copy.value) else old(State())
    {
      var page := PageAt(e, address);
      var cow := ReadBitmap(entries[e].table.cow, page);
      if !cow || copy.None? {
        return false;
      }
      TakeCopy(e, page, copy.value);
      return true;
    }

    // Entry e becomes copy-on-write, with page table t.
    method SetTable(e: nat, t: PageTable)
      requires Valid() && e < |entries| && t.Valid()
      requires t == entries[e].table || t.Footprint() !! Repr + {this}
      modifies this`Repr, entries[e]
      ensures Valid() && Repr == old(Repr) + t.Footprint()
      ensures entries[e].table == t && entries[e].linked == old(entries[e].linked)
      ensures var x := old(Value(e));
        State() == CowSpec.State(
          old(State()).entries[e := Entry(x.base, x.perms, true, x.owner, x.linked, Some(t.Value()))], lists, mem)
    {
      ghost var was := State().entries;
      entries[e].copyOnWrite, entries[e].table := true, t;
      Repr := Repr + t.Footprint();
      assert Valid() by {
        assert forall i :: 0 <= i < |entries| && i != e ==> entries[i].Footprint() == old(entries[i].Footprint());
        assert entries[e].Footprint() <= old(entries[e].Footprint()) + t.Footprint();
      }
      assert forall i: nat :: i < |entries| && i != e ==> Value(i) == was[i];
    }

    // The parent of a fork gets a table if it has none.
    method OpenTable(e: nat)
      requires Valid() && e < |entries|
      modifies this`Repr, entries[e]
      ensures Valid() && fresh(Repr - old(Repr)) && entries[e].table != null
      ensures entries[e].linked == old(entries[e].linked)
      ensures State() == CowSpec.State(old(State()).entries[e := Opened(old(Value(e)))], lists, mem)
    {
      var p := entries[e];
      var t := p.table;
      if t == null {
        t := SetUpPageTable(p.base, p.permissions);
      }
      SetTable(e, t);
    }

    // The parent's table is protected and copied for the child.
    method CopyTable(e: nat) returns (l: PageTable)
      requires Valid() && e < |entries| && entries[e].table != null
      modifies entries[e].table.pages
      ensures Valid() && l.Valid() && fresh(l) && fresh(l.Footprint())
      ensures var x := old(Value(e));
        var t := Protect(x.table.value, x.perms);
        && State() == CowSpec.State(old(State()).entries[e := WithTable(x, t)], lists, mem)
        && l.Value() == Table(t.pages, NoBits(), t.cow)
    {
      ghost var was := State().entries;
      l := CopyPageTable(entries[e].table, entries[e].permissions);
      assert forall i: nat :: i < |entries| && i != e ==> Value(i) == was[i];
    }

    method SetLinked(e: nat, linked: Option<nat>)
      requires Valid() && e < |entries|
      modifies entries[e]
      ensures Valid() && entries[e].linked == linked && entries[e].table == old(entries[e].table)
      ensures State() == CowSpec.State(old(State()).entries[e := WithList(old(Value(e)), linked)], lists, mem)
    {
      ghost var was := State().entries;
      entries[e].linked := linked;
      assert forall i: nat :: i < |entries| && i != e ==> Value(i) == was[i];
    }

    // page_cow_list_add, once or twice: the parent opens the list, entry n goes to its end.
    method Enlist(e: nat, n: nat)
      requires Valid() && e < |entries|
      requires entries[e].linked.Some? ==> entries[e].linked.value < |lists|
      modifies this`lists, entries[e]
      ensures Valid() && entries[e].linked == Some(ForkList(old(State()), e))
      ensures var x := old(Value(e));
        State() == CowSpec.State(
          old(State()).entries[e := WithList(x, entries[e].linked)], Record(old(lists), x.linked, e, n), mem)
    {
      ghost var was := State();
      ghost var x := Value(e);
      if x.linked.Some? { assert was.entries[e := WithList(x, x.linked)] == was.entries; }
      if entries[e].linked.None? {
        SetLinked(e, Some(|lists|));
        lists := lists + [[e]];
      }
      var k := entries[e].linked.value;
      lists := lists[k := lists[k] + [n]];
      assert [e] + [n] == [e, n];
      assert lists == Record(was.lists, x.linked, e, n);
    }

    method Push(l: PageList)
      requires Valid() && l.Valid() && l.Footprint() !! Repr && this !in l.Footprint()
      modifies this`entries, this`Repr
      ensures Valid() && Repr == old(Repr) + l.Footprint() && entries == old(entries) + [l]
      ensures State() == CowSpec.State(old(State()).entries + [l.Value()], lists, mem)
    {
      ghost var was := State().entries;
      entries := entries + [l];
      Repr := Repr + l.Footprint();
      assert forall i: nat :: i < |entries| - 1 ==> Value(i) == was[i];
    }

    // A fork of a writable entry, up to the child: the parent shares its table.
    method Share(e: nat) returns (l: PageTable)
      requires Valid() && e < |entries|
      requires entries[e].linked.Some? ==> entries[e].linked.value < |lists|
      modifies this`lists, this`Repr, Repr
      ensures Valid() && fresh(Repr - old(Repr)) && entries[e].linked == Some(ForkList(old(State()), e))
      ensures l.Valid() && fresh(l) && fresh(l.Footprint()) && l.Footprint() !! Repr
      ensures var x := old(Value(e));
        && State() == CowSpec.State(old(State()).entries[e := ForkParent(x, ForkList(old(State()), e))],
                                    Record(old(lists), x.linked, e, |entries|), mem)
        && l.Value() == Table(ForkTable(x).pages, NoBits(), ForkTable(x).cow)
    {
      ghost var x := Value(e);
      OpenTable(e);
      assert Value(e) == State().entries[e] == Opened(x);
      l := CopyTable(e);
      assert Value(e) == State().entries[e] == WithTable(Opened(x), ForkTable(x));
      Enlist(e, |entries|);
    }

    // page_list_add_copy
    method Fork(e: nat)
      requires Valid() && e < |entries|
      requires entries[e].linked.Some? ==> entries[e].linked.value < |lists|
      modifies this, Repr
      ensures Valid() && fresh(Repr - old(Repr))
      ensures State() == CowSpec.Fork(old(State()), e)
      ensures Addresses() == old(Addresses()) + [old(Addresses())[e]]
    {
      var p := entries[e];
      var l;
      if p.permissions.write {
        var t := Share(e);
        l := new PageList(p.vaddr, p.base, p.permissions, true, false, p.linked, t);
      } else {
        l := new PageList(p.vaddr, p.base, p.permissions, p.copyOnWrite, false, None, null);
      }
      Push(l);
    }

    // The processor's store, through the mapping of entry e.
    method Store(e: nat, p: nat, off: nat, b: bv8)
      requires Valid() && e < |entries| && p < PAGES && Value(e).FrameOf(p) in mem && off < FRAME_SIZE
      modifies this`mem
      ensures Valid() && State() == CowSpec.Store(old(State()), e, p, off, b)
    {
      var f := if entries[e].table == null then entries[e].base + p else entries[e].table.pages[p].frame;
      assert f == Value(e).FrameOf(p);
      mem := mem[f := mem[f][off := b]];
    }

    method MayStore(e: nat, p: nat) returns (r: bool)
      requires Valid() && e < |entries| && p < PAGES
      ensures r == Value(e).Writable(p)
    {
      var t := entries[e].table;
      r := entries[e].permissions.write &&
           if t == null then !entries[e].copyOnWrite else t.pages[p].flags.write;
    }

    // The write-fault branch of page_fault: copy the page, then let the processor try again.
    method Fault(e: nat, address: nat, off: nat, b: bv8, copy: Option<Frame>) returns (stored: bool)
      requires Valid() && Shaped(State()) && e < |entries| && entries[e].table != null && off < FRAME_SIZE
      requires entries[e].vaddr <= address < entries[e].vaddr + PAGES * FRAME_SIZE
      requires copy.Some? ==> copy.value !in mem
      requires !Value(e).Writable(PageAt(e, address)) && entries[e].copyOnWrite
      modifies this`mem, Repr
      ensures Valid() && stored == Allowed(old(Value(e)), PageAt(e, address), copy)
      ensures State() == CowSpec.Write(old(State()), e, PageAt(e, address), off, b, copy)
    {
      ghost var was := State();
      var page := PageAt(e, address);
      assert Value(e) == was.entries[e];
      stored := CopyOnWrite(e, address, copy);
      if stored { CopyLands(was, e, page, copy.value); }
      stored := stored && entries[e].permissions.write;
      if stored {
        assert Value(e) == State().entries[e];
        Store(e, page, off, b);
      }
    }

    /** A store by the task that owns entry e; refused, the task gets SIGSEGV.  Stored, it changes
        the byte at its address, as that entry sees it, and no byte that any entry sees besides. */
    method Write(e: nat, address: nat, b: bv8, copy: Option<Frame>) returns (stored: bool)
      requires Valid() && Shaped(State()) && e < |entries|
      requires entries[e].copyOnWrite ==> entries[e].table != null
      requires entries[e].vaddr <= address < entries[e].vaddr + PAGES * FRAME_SIZE
      requires copy.Some? ==> copy.value !in mem
      modifies this`mem, Repr
      ensures Valid() && stored == Allowed(old(Value(e)), PageAt(e, address), copy)
      ensures State() == CowSpec.Write(old(State()), e, PageAt(e, address),
                                       (address - entries[e].vaddr) % FRAME_SIZE, b, copy)
      ensures old(CowProofs.Inv(State())) ==>
        && CowProofs.Inv(State())
        && CowProofs.OneByte(old(State()), State(), e, address - entries[e].vaddr, b, stored)
    {
      ghost var was, z := State(), address - entries[e].vaddr;
      assert was.entries[e] == Value(e);
      stored := Dispatch(e, address, b, copy);
      WriteAtAddress(was, State(), e, z, b, copy, stored);
    }

    // The page is writable, or the fault handler is asked.
    method Dispatch(e: nat, address: nat, b: bv8, copy: Option<Frame>) returns (stored: bool)
      requires Valid() && Shaped(State()) && e < |entries|
      requires entries[e].copyOnWrite ==> entries[e].table != null
      requires entries[e].vaddr <= address < entries[e].vaddr + PAGES * FRAME_SIZE
      requires copy.Some? ==> copy.value !in mem
      modifies this`mem, Repr
      ensures Valid() && stored == Allowed(old(Value(e)), PageAt(e, address), copy)
      ensures State() == CowSpec.Write(old(State()), e, PageAt(e, address),
                                       (address - entries[e].vaddr) % FRAME_SIZE, b, copy)
    {
      var page := PageAt(e, address);
      var off := (address - entries[e].vaddr) % FRAME_SIZE;
      assert State().entries[e] == Value(e);
      stored := MayStore(e, page);
      if stored {
        Store(e, page, off, b);
      } else if entries[e].copyOnWrite {
        stored := Fault(e, address, off, b, copy);
      }
    }
  }
}
