/**
  Copy-on-write page sharing (NeilOS/kernel/memory/page_list.c), as a state machine
  over values.  An entry is a 4 MB mapping of one task; its page table, once a fork
  has created it, maps 1024 frames of 4 KB.  Entries and sharing lists are named by
  their index in the state (the pointers of the C code).

  `CowHeap` proves the in-place code against the functions of this module;
  `CowProofs` proves that they cannot be told apart from eager copying.
*/
module CowSpec {
  import opened Wrappers

  const PAGES: nat := 1024        // NUM_PAGE_TABLE_ENTRIES
  const FRAME_SIZE: nat := 4096   // FOUR_KB_SIZE

  // A physical frame of 4 KB, by number; page tables hold it shifted left by 12.
  type Frame = nat
  type Bytes = b: seq<bv8> | |b| == FRAME_SIZE witness seq(FRAME_SIZE, _ => 0)

  datatype Permissions = Permissions(read: bool, write: bool, kernel: bool)
  {
    // permissions & ~MEMORY_WRITE
    function ReadOnly(): Permissions { this.(write := false) }
  }

  // vm_create_page_table_entry: the frame with its permission bits.
  datatype Pte = Pte(frame: Frame, flags: Permissions)

  // The arrays of page_table_t.
  type Ptes = p: seq<Pte> | |p| == PAGES witness seq(PAGES, _ => Pte(0, Permissions(false, false, false)))
  type Bits = b: seq<bool> | |b| == PAGES witness seq(PAGES, _ => false)

  datatype Table = Table(pages: Ptes, owners: Bits, cow: Bits)

  datatype Entry = Entry(base: Frame, perms: Permissions, copyOnWrite: bool, owner: bool,
                         linked: Option<nat>, table: Option<Table>)
  {
    // The frame the hardware reaches for page p (page_list_map_internal).
    function FrameOf(p: nat): Frame
      requires p < PAGES
    {
      if table.Some? then table.value.pages[p].frame else base + p
    }

    // Whether a store to page p goes through without a fault.
    predicate Writable(p: nat)
      requires p < PAGES
    {
      if table.Some? then perms.write && table.value.pages[p].flags.write
      else perms.write && !copyOnWrite
    }

    predicate Owns(p: nat)
      requires p < PAGES
    {
      table.Some? && table.value.owners[p]
    }

    function WithOwner(p: nat): Entry
      requires p < PAGES && table.Some?
    {
      var t := table.value;
      Entry(base, perms, copyOnWrite, owner, linked, Some(Table(t.pages, t.owners[p := true], t.cow)))
    }

    function WithPage(p: nat, copy: Frame): Entry
      requires p < PAGES && table.Some?
    {
      var t := table.value;
      Entry(base, perms, copyOnWrite, owner, linked, Some(Table(t.pages[p := Pte(copy, perms)], t.owners, t.cow)))
    }
  }

  datatype State = State(entries: seq<Entry>, lists: seq<seq<nat>>, mem: map<Frame, Bytes>)

  // Every entry on a list exists and has a page table.
  ghost predicate Linkable(entries: seq<Entry>, members: seq<nat>) {
    forall m :: m in members ==> m < |entries| && entries[m].table.Some?
  }

  // Pointers lead somewhere: into the lists, into the entries, to an allocated frame.
  ghost predicate Shaped(s: State) {
    && (forall e :: 0 <= e < |s.entries| && s.entries[e].linked.Some? ==>
          s.entries[e].linked.value < |s.lists|)
    && (forall k :: 0 <= k < |s.lists| ==> Linkable(s.entries, s.lists[k]))
    && (forall e, p :: 0 <= e < |s.entries| && 0 <= p < PAGES ==> s.entries[e].FrameOf(p) in s.mem)
  }

  const EMPTY := State([], [], map[])

  // ----- page_list_add -----

  // The block's frames, with whatever contents they come with.
  function Fill(mem: map<Frame, Bytes>, base: Frame, contents: seq<Bytes>): (r: map<Frame, Bytes>)
    ensures forall f: Frame :: f in r <==> f in mem || base <= f < base + |contents|
    ensures forall f: Frame :: f in r ==>
      r[f] == if base <= f < base + |contents| then contents[f - base] else mem[f]
  {
    if contents == [] then mem
    else
      var n := |contents| - 1;
      Fill(mem, base, contents[..n])[base + n := contents[n]]
  }

  // A new entry that owns a new 4 MB block, whatever that block holds.
  function Add(s: State, perms: Permissions, base: Frame, contents: seq<Bytes>): State
    requires |contents| == PAGES
  {
    State(s.entries + [Entry(base, perms, false, true, None, None)], s.lists, Fill(s.mem, base, contents))
  }

  // ----- page_list_add_copy -----

  function NoBits(): Bits { seq(PAGES, _ => false) }
  function AllBits(): Bits { seq(PAGES, _ => true) }

  // page_list_set_up_page_table: the 4 MB block, read-only, frame by frame.
  function SetUp(base: Frame, perms: Permissions): Table {
    var pages: seq<Pte> := seq(PAGES, (z: nat) => Pte(base + z, perms.ReadOnly()));
    Table(pages, NoBits(), AllBits())
  }

  // The loop of page_list_copy_page_table on the parent's entries.
  function Protect(t: Table, perms: Permissions): Table {
    Table(seq(PAGES, z requires 0 <= z < PAGES =>
            if t.cow[z] then Pte(t.pages[z].frame, perms.ReadOnly()) else t.pages[z]),
          t.owners, t.cow)
  }

  function ForkTable(p: Entry): Table {
    Protect(if p.table.Some? then p.table.value else SetUp(p.base, p.perms), p.perms)
  }

  function ForkParent(p: Entry, list: nat): Entry {
    Entry(p.base, p.perms, true, p.owner, Some(list), Some(ForkTable(p)))
  }

  // A writable entry's copy: the parent's table, owning nothing.
  function ForkChild(p: Entry, list: nat): Entry {
    Entry(p.base, p.perms, true, false, Some(list), Some(Table(ForkTable(p).pages, NoBits(), ForkTable(p).cow)))
  }

  // page_cow_list_add: the parent opens the list, the child goes to its end.
  function Record(lists: seq<seq<nat>>, linked: Option<nat>, e: nat, child: nat): seq<seq<nat>>
    requires linked.Some? ==> linked.value < |lists|
  {
    if linked.Some? then lists[linked.value := lists[linked.value] + [child]] else lists + [[e, child]]
  }

  function ForkList(s: State, e: nat): nat
    requires e < |s.entries|
  {
    if s.entries[e].linked.Some? then s.entries[e].linked.value else |s.lists|
  }

  function Fork(s: State, e: nat): State
    requires e < |s.entries|
    requires s.entries[e].linked.Some? ==> s.entries[e].linked.value < |s.lists|
  {
    var p := s.entries[e];
    if p.perms.write then
      State(s.entries[e := ForkParent(p, ForkList(s, e))] + [ForkChild(p, ForkList(s, e))],
            Record(s.lists, p.linked, e, |s.entries|), s.mem)
    else
      State(s.entries + [Entry(p.base, p.perms, p.copyOnWrite, false, None, None)], s.lists, s.mem)
  }

  // ----- page_list_copy_on_write -----

  // The first entry of the list, other than e, that still maps the frame at page p.
  function FirstSharer(entries: seq<Entry>, members: seq<nat>, e: nat, p: nat, frame: Frame): (r: Option<nat>)
    requires p < PAGES
    requires Linkable(entries, members)
    ensures r.Some? ==> r.value in members && r.value != e && entries[r.value].FrameOf(p) == frame
    ensures r.None? ==> forall m :: m in members && m != e ==> entries[m].FrameOf(p) != frame
  {
    if members == [] then None
    else
      assert members[0] in members && forall m :: m in members[1..] ==> m in members;
      if members[0] != e && entries[members[0]].FrameOf(p) == frame then Some(members[0])
      else FirstSharer(entries, members[1..], e, p, frame)
  }

  function ListAt(lists: seq<seq<nat>>, linked: Option<nat>): seq<nat>
    requires linked.Some? ==> linked.value < |lists|
  {
    if linked.Some? then lists[linked.value] else []
  }

  function Members(s: State, e: nat): (r: seq<nat>)
    requires Shaped(s) && e < |s.entries|
    ensures Linkable(s.entries, r)
  {
    ListAt(s.lists, s.entries[e].linked)
  }

  // The old frame has lost its owner: the first sharer takes it over, or it is freed.
  function HandOver(s: State, sharer: Option<nat>, p: nat, before: Frame): State
    requires p < PAGES
    requires sharer.Some? ==> sharer.value < |s.entries| && s.entries[sharer.value].table.Some?
  {
    if sharer.Some? then
      State(s.entries[sharer.value := s.entries[sharer.value].WithOwner(p)], s.lists, s.mem)
    else
      State(s.entries, s.lists, s.mem - {before})
  }

  function CopyOnWrite(s: State, e: nat, p: nat, copy: Frame): State
    requires Shaped(s) && e < |s.entries| && p < PAGES && s.entries[e].table.Some?
  {
    var x := s.entries[e];
    var before := x.FrameOf(p);
    var moved := State(s.entries[e := x.WithPage(p, copy).WithOwner(p)], s.lists, s.mem[copy := s.mem[before]]);
    if x.Owns(p)
    then HandOver(moved, FirstSharer(s.entries, Members(s, e), e, p, before), p, before)
    else moved
  }

  // ----- a store by the task, with the dispatch of page_fault -----

  function Store(s: State, e: nat, p: nat, off: nat, b: bv8): State
    requires e < |s.entries| && p < PAGES && s.entries[e].FrameOf(p) in s.mem && off < FRAME_SIZE
  {
    var f := s.entries[e].FrameOf(p);
    State(s.entries, s.lists, s.mem[f := s.mem[f][off := b]])
  }

  // The fault handler takes a copy; `copy` is what the frame allocator would return.
  predicate TakesCopy(x: Entry, p: nat, copy: Option<Frame>)
    requires p < PAGES
  {
    !x.Writable(p) && x.copyOnWrite && x.table.Some? && x.table.value.cow[p] && copy.Some?
  }

  // The store goes through: at once, or after a copy.  Otherwise the task gets SIGSEGV.
  predicate Allowed(x: Entry, p: nat, copy: Option<Frame>)
    requires p < PAGES
  {
    x.Writable(p) || (TakesCopy(x, p, copy) && x.perms.write)
  }

  predicate Writing(s: State, e: nat, p: nat, off: nat, copy: Option<Frame>) {
    && e < |s.entries| && p < PAGES && off < FRAME_SIZE
    && (copy.Some? ==> copy.value !in s.mem)
  }

  // A faulting store is retried once the handler has made its copy.
  function Write(s: State, e: nat, p: nat, off: nat, b: bv8, copy: Option<Frame>): State
    requires Shaped(s) && Writing(s, e, p, off, copy)
  {
    if s.entries[e].Writable(p) then Store(s, e, p, off, b)
    else if TakesCopy(s.entries[e], p, copy) then
      var t := CopyOnWrite(s, e, p, copy.value);
      if s.entries[e].perms.write then Store(t, e, p, off, b) else t
    else s
  }
}
