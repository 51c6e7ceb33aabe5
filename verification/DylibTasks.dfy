/**
  The libraries of all tasks (NeilOS/kernel/program/dylib.c): each task's list, the
  libraries in memory, and how many list nodes point to each, over reads, loads, forks and
  exits.
*/
module DylibTasks {
  import opened Wrappers
  import opened DylibLoad
  import opened DylibRead
  import opened DylibOrder

  // dylib_list_t: which library, and where this task has it
  datatype Node = Node(lib: Name, offset: nat)

  function Names(list: seq<Node>): (r: seq<Name>)
    ensures |r| == |list| && forall i :: 0 <= i < |r| ==> r[i] == list[i].lib
  {
    seq(|list|, i requires 0 <= i < |list| => list[i].lib)
  }

  // dylib_get_real_name
  function RealName(name: Name): Name {
    if name != "" && name[0] == '/' then name else "/usr/lib/" + name
  }

  /** Every library has one name: an absolute path is kept, and any other name is that of a file
      under /usr/lib, different names of different files. */
  lemma RealNameIsPath(name: Name, other: Name)
    ensures RealName(name) != "" && RealName(name)[0] == '/' && RealName(RealName(name)) == RealName(name)
    ensures if "/" <= name then RealName(name) == name
      else "/usr/lib/" <= RealName(name) && RealName(name)[9..] == name
    ensures RealName(name) == RealName(other) && !("/" <= name) && !("/" <= other) ==> name == other
  {
    assert !("/" <= name) ==> RealName(name)[9..] == name;
    assert !("/" <= other) ==> RealName(other)[9..] == other;
  }

  // ----- how often a library is listed -----

  function Occurs(list: seq<Node>, x: Name): nat {
    if list == [] then 0 else (if list[0].lib == x then 1 else 0) + Occurs(list[1..], x)
  }

  function Total(tasks: seq<seq<Node>>, x: Name): nat {
    if tasks == [] then 0 else Occurs(tasks[0], x) + Total(tasks[1..], x)
  }

  lemma {:induction false} OccursAppend(list: seq<Node>, n: Node, x: Name)
    ensures Occurs(list + [n], x) == Occurs(list, x) + if n.lib == x then 1 else 0
  {
    if list != [] {
      assert (list + [n])[1..] == list[1..] + [n];
      OccursAppend(list[1..], n, x);
    }
  }

  lemma {:induction false} OccursListed(list: seq<Node>, x: Name)
    ensures Occurs(list, x) > 0 <==> x in Names(list)
  {
    if list != [] {
      OccursListed(list[1..], x);
      assert Names(list) == [list[0].lib] + Names(list[1..]);
    }
  }

  lemma {:induction false} TotalUpdate(tasks: seq<seq<Node>>, i: nat, list: seq<Node>, x: Name)
    requires i < |tasks|
    ensures Total(tasks[i := list], x) + Occurs(tasks[i], x) == Total(tasks, x) + Occurs(list, x)
  {
    if i > 0 {
      assert tasks[i := list][1..] == tasks[1..][i - 1 := list];
      TotalUpdate(tasks[1..], i - 1, list, x);
    } else {
      assert tasks[i := list][1..] == tasks[1..];
    }
  }

  lemma {:induction false} TotalAppend(tasks: seq<seq<Node>>, list: seq<Node>, x: Name)
    ensures Total(tasks + [list], x) == Total(tasks, x) + Occurs(list, x)
  {
    if tasks != [] {
      assert (tasks + [list])[1..] == tasks[1..] + [list];
      TotalAppend(tasks[1..], list, x);
    }
  }

  lemma {:induction false} TotalListed(tasks: seq<seq<Node>>, i: nat, x: Name)
    requires i < |tasks| && x in Names(tasks[i])
    ensures Total(tasks, x) > 0
  {
    if i > 0 { TotalListed(tasks[1..], i - 1, x); } else { OccursListed(tasks[0], x); }
  }

  lemma {:induction false} ListedSomewhere(tasks: seq<seq<Node>>, x: Name)
    ensures Total(tasks, x) > 0 <==> exists j :: 0 <= j < |tasks| && x in Names(tasks[j])
  {
    if tasks != [] {
      OccursListed(tasks[0], x);
      ListedSomewhere(tasks[1..], x);
      if Total(tasks[1..], x) > 0 {
        var j :| 0 <= j < |tasks[1..]| && x in Names(tasks[1..][j]);
        assert tasks[1..][j] == tasks[j + 1];
      }
      if j :| 0 <= j < |tasks| && x in Names(tasks[j]) {
        if j > 0 { assert tasks[1..][j - 1] == tasks[j]; }
      }
    }
  }

  lemma StillListed(was: seq<seq<Node>>, now: seq<seq<Node>>, x: Name)
    requires |was| == |now| && forall j :: 0 <= j < |was| ==> was[j] <= now[j]
    requires Total(was, x) > 0
    ensures Total(now, x) > 0
  {
    ListedSomewhere(was, x);
    var j :| 0 <= j < |was| && x in Names(was[j]);
    var k :| 0 <= k < |was[j]| && was[j][k].lib == x;
    assert Names(now[j])[k] == x;
    ListedSomewhere(now, x);
  }

  lemma NoMoreLeft(mem: set<Name>, names: seq<Name>, more: seq<Name>)
    requires names <= more
    ensures mem - NameSet(more) <= mem - NameSet(names)
  {
    forall x | x in names ensures x in more {
      var k :| 0 <= k < |names| && names[k] == x;
      assert more[k] == x;
    }
  }

  // What the files in memory need.
  function Loaded(files: Graph, mem: set<Name>): Graph { map x | x in files && x in mem :: files[x] }

  lemma LoadedIsComplete(files: Graph, mem: set<Name>)
    requires Whole(files, mem)
    ensures Complete(Loaded(files, mem)) && Loaded(files, mem).Keys == mem
  {
  }

  lemma {:induction false} SameReach(files: Graph, mem: set<Name>, a: Name, b: Name, n: nat)
    requires Whole(files, mem) && a in mem
    ensures ReachesIn(Loaded(files, mem), a, b, n) <==> ReachesIn(files, a, b, n)
    decreases n
  {
    if n > 0 {
      forall c | c in files[a] ensures ReachesIn(Loaded(files, mem), c, b, n - 1) <==> ReachesIn(files, c, b, n - 1) {
        SameReach(files, mem, c, b, n - 1);
      }
    }
  }

  lemma {:induction false} SameUnreadReach(files: Graph, mem: set<Name>, names: set<Name>, a: Name, b: Name, n: nat)
    requires Whole(files, mem) && a in mem && ReachesIn(Unread(files, names), a, b, n)
    ensures ReachesIn(Unread(Loaded(files, mem), names), a, b, n)
    decreases n
  {
    if n > 0 {
      var c :| c in Unread(files, names)[a] && ReachesIn(Unread(files, names), c, b, n - 1);
      assert Unread(Loaded(files, mem), names)[a] == files[a] == Unread(files, names)[a];
      SameUnreadReach(files, mem, names, c, b, n - 1);
    }
  }

  lemma SameBrought(files: Graph, mem: set<Name>, names: seq<Name>, needed: seq<Name>, n: nat, x: Name)
    requires Whole(files, mem) && (forall d :: d in needed ==> d in mem) && Brought(files, names, needed, n, x)
    ensures Brought(Loaded(files, mem), names, needed, n, x)
  {
    var k :| 0 <= k < n && k < |needed| && Brings(files, names, needed[k], x);
    var m: nat :| ReachesIn(Unread(files, NameSet(names)), needed[k], x, m);
    SameUnreadReach(files, mem, NameSet(names), needed[k], x, m);
    assert Brings(Loaded(files, mem), names, needed[k], x);
  }

  lemma SameFromNeeds(files: Graph, mem: set<Name>, needed: seq<Name>, n: nat, x: Name)
    requires Whole(files, mem) && (forall d :: d in needed ==> d in mem) && FromNeeds(Loaded(files, mem), needed, n, x)
    ensures FromNeeds(files, needed, n, x)
  {
    var k :| 0 <= k < n && k < |needed| && Reaches(Loaded(files, mem), needed[k], x);
    var m: nat :| ReachesIn(Loaded(files, mem), needed[k], x, m);
    SameReach(files, mem, needed[k], x, m);
  }

  // Depth first among the libraries in memory is depth first among all.
  lemma SameOrder(files: Graph, mem: set<Name>, names: seq<Name>, needed: seq<Name>, r: seq<Name>)
    requires Whole(files, mem) && forall d :: d in needed ==> d in mem
    requires DepthFirst(Loaded(files, mem), names, needed, r)
    ensures DepthFirst(files, names, needed, r)
  {
    var g := Loaded(files, mem);
    forall i: nat, a: nat, b: nat | a < b < |r| && i < |needed| && r[b] == needed[i] && r[a] !in names && r[b] !in names
      ensures FromNeeds(files, needed, i, r[a])
    {
      SameFromNeeds(files, mem, needed, i, r[a]);
    }
    forall n: nat, a: nat, b: nat | n <= |needed| && a < |r| && b < |r| && Brought(files, names, needed, n, r[a])
      ensures r[b] in names || FromNeeds(files, needed, n, r[b]) || a < b
    {
      SameBrought(files, mem, names, needed, n, r[a]);
      if FromNeeds(g, needed, n, r[b]) { SameFromNeeds(files, mem, needed, n, r[b]); }
    }
  }

  class Dylibs {
    const files: Graph
    var tasks: seq<seq<Node>>
    // num_instances of every library in memory (the global list `dylibs`)
    var instances: map<Name, nat>

    constructor (files: Graph)
      ensures this.files == files && Valid() && Busy() && tasks == [] && instances == map[]
    {
      this.files := files;
      tasks, instances := [], map[];
    }

    ghost function Count(x: Name): nat
      reads this
    {
      if x in instances then instances[x] else 0
    }

    // The instance counts are exactly the list nodes of all tasks.
    ghost predicate Exact()
      reads this
    {
      instances.Keys <= files.Keys && forall x :: Count(x) == Total(tasks, x)
    }

    // Tasks list a library once, and with it all it needs.
    ghost predicate Sound()
      reads this
    {
      Exact() && forall i :: 0 <= i < |tasks| ==>
        NoDuplicates(Names(tasks[i])) && Closed(files, Names(tasks[i]))
    }

    // What a library in memory needs is in memory (it is pointed to), and needs no loop.
    ghost predicate Linked()
      reads this
    {
      Whole(files, instances.Keys) && LoopFree(files, instances.Keys)
    }

    ghost predicate Valid()
      reads this
    {
      Sound() && Linked()
    }

    // Every library in memory is listed by some task.
    ghost predicate Busy()
      reads this
    {
      forall x :: x in instances ==> instances[x] > 0
    }

    // dylib_get with allocate, and the reading of files below it: a library comes into memory
    // after all it needs, with no instance.  If one of them cannot be had, those before it stay.
    method Get(lib: Name, ghost depth: nat) returns (found: bool)
      requires Exact() && ReadIn(files, instances.Keys, lib, depth).Some?
      modifies this`instances
      ensures Exact()
      ensures var r := ReadIn(files, old(instances.Keys), lib, depth).value;
        found == r.ok && instances.Keys == r.mem
      ensures forall x :: x in old(instances) ==> x in instances && instances[x] == old(instances)[x]
      ensures forall x :: x in instances && x !in old(instances) ==> instances[x] == 0
      decreases depth
    {
      if lib in instances {
        return true;
      }
      if lib !in files {
        return false;
      }
      ghost var mem := instances.Keys;
      var needed := files[lib];
      assert needed[0..] == needed;
      for d := 0 to |needed|
        invariant Exact()
        invariant ReadAllIn(files, instances.Keys, needed[d..], depth - 1) == ReadAllIn(files, mem, needed, depth - 1)
        invariant forall x :: x in old(instances) ==> x in instances && instances[x] == old(instances)[x]
        invariant forall x :: x in instances && x !in old(instances) ==> instances[x] == 0
      {
        assert needed[d..][0] == needed[d] && needed[d..][1..] == needed[d + 1..];
        var ok := Get(needed[d], depth - 1);
        if !ok {
          return false;
        }
      }
      if lib !in instances {
        instances := instances[lib := 0];
      }
      return true;
    }

    // dylib_task_contains_dylib_by_name
    method Contains(lib: Name, i: nat) returns (r: bool)
      requires i < |tasks|
      ensures r == (lib in Names(tasks[i]))
    {
      for z := 0 to |tasks[i]|
        invariant forall k :: 0 <= k < z ==> tasks[i][k].lib != lib
      {
        if tasks[i][z].lib == lib {
          assert Names(tasks[i])[z] == lib;
          return true;
        }
      }
      return false;
    }

    // A node goes to the end of task i's list, and is counted.
    method PushBack(i: nat, n: Node)
      requires Exact() && i < |tasks| && n.lib in instances
      modifies this
      ensures Exact() && tasks == old(tasks)[i := old(tasks[i]) + [n]] && instances.Keys == old(instances.Keys)
    {
      forall x
        ensures Total(tasks[i := tasks[i] + [n]], x) == Total(tasks, x) + if n.lib == x then 1 else 0
      {
        TotalUpdate(tasks, i, tasks[i] + [n], x);
        OccursAppend(tasks[i], n, x);
      }
      tasks := tasks[i := tasks[i] + [n]];
      instances := instances[n.lib := instances[n.lib] + 1];
      forall x ensures Count(x) == Total(tasks, x) {
        assert old(Count(x)) == Total(old(tasks), x);
      }
    }

    // dylib_load_for_task; the address is whatever the page allocator finds.
    method LoadForTask(lib: Name, i: nat)
      requires Exact() && Whole(files, instances.Keys)
      requires i < |tasks| && lib in instances && lib !in Names(tasks[i])
      modifies this
      ensures Exact() && |tasks| == old(|tasks|) && old(tasks[i]) <= tasks[i]
      ensures instances.Keys == old(instances.Keys)
      ensures Complete(Loaded(files, instances.Keys)) && lib in Loaded(files, instances.Keys)
      ensures Names(tasks[i]) == Load(Loaded(files, instances.Keys), old(Names(tasks[i])), lib)
      ensures old(Names(tasks[i])) + [lib] <= Names(tasks[i])
      ensures NoDuplicates(old(Names(tasks[i]))) ==>
        DepthFirst(files, old(Names(tasks[i])) + [lib], files[lib], Names(tasks[i]))
      ensures forall j :: 0 <= j < |tasks| && j != i ==> tasks[j] == old(tasks[j])
      decreases instances.Keys - NameSet(Names(tasks[i])), 0
    {
      ghost var names, g := Names(tasks[i]), Loaded(files, instances.Keys);
      LoadedIsComplete(files, instances.Keys);
      var offset: nat := *;
      PushBack(i, Node(lib, offset));
      assert Names(tasks[i]) == names + [lib];
      FewerLeft(g, names, lib, names + [lib]);
      assert g[lib] == files[lib];
      LoadNeeded(files[lib], i);
      if NoDuplicates(names) {
        LoadIsDepthFirst(g, names, lib);
        SameOrder(files, instances.Keys, names + [lib], files[lib], Names(tasks[i]));
      }
    }

    // Its loop over the libraries needed.
    method LoadNeeded(needed: seq<Name>, i: nat)
      requires Exact() && Whole(files, instances.Keys)
      requires i < |tasks| && forall d :: d in needed ==> d in instances
      modifies this
      ensures Exact() && |tasks| == old(|tasks|) && old(tasks[i]) <= tasks[i]
      ensures instances.Keys == old(instances.Keys)
      ensures Complete(Loaded(files, instances.Keys)) && forall d :: d in needed ==> d in Loaded(files, instances.Keys)
      ensures Names(tasks[i]) == LoadAll(Loaded(files, instances.Keys), old(Names(tasks[i])), needed)
      ensures forall j :: 0 <= j < |tasks| && j != i ==> tasks[j] == old(tasks[j])
      decreases instances.Keys - NameSet(Names(tasks[i])), 1
    {
      ghost var names, mem := Names(tasks[i]), instances.Keys;
      ghost var g := Loaded(files, mem);
      LoadedIsComplete(files, mem);
      assert needed[0..] == needed;
      for d := 0 to |needed|
        invariant Exact() && |tasks| == old(|tasks|) && instances.Keys == mem
        invariant old(tasks[i]) <= tasks[i]
        invariant LoadAll(g, Names(tasks[i]), needed[d..]) == LoadAll(g, names, needed)
        invariant forall j :: 0 <= j < |tasks| && j != i ==> tasks[j] == old(tasks[j])
      {
        assert needed[d..][0] == needed[d] && needed[d..][1..] == needed[d + 1..];
        var there := Contains(needed[d], i);
        if !there {
          var found := Get(needed[d], 0);
          NoMoreLeft(mem, names, Names(tasks[i]));
          LoadForTask(needed[d], i);
        }
      }
    }

    // Once the library is in memory.
    method LoadRead(lib: Name, i: nat)
      requires Valid() && i < |tasks| && lib in instances && lib !in Names(tasks[i])
      modifies this
      ensures Valid() && |tasks| == old(|tasks|) && old(tasks[i]) <= tasks[i]
      ensures forall j :: 0 <= j < |tasks| && j != i ==> tasks[j] == old(tasks[j])
      ensures forall x :: x in Names(tasks[i]) <==> x in old(Names(tasks[i])) || Reaches(files, lib, x)
      ensures old(Names(tasks[i])) + [lib] <= Names(tasks[i])
      ensures DepthFirst(files, old(Names(tasks[i])) + [lib], files[lib], Names(tasks[i]))
      ensures instances.Keys == old(instances.Keys)
    {
      ghost var names, mem := Names(tasks[i]), instances.Keys;
      ghost var g := Loaded(files, mem);
      LoadedIsComplete(files, mem);
      ListedAreLoaded(i);
      assert Closed(g, names);
      LoadReachesExactly(g, names, lib);
      forall x ensures Reaches(g, lib, x) <==> Reaches(files, lib, x) {
        forall n: nat ensures ReachesIn(g, lib, x, n) <==> ReachesIn(files, lib, x, n) {
          SameReach(files, mem, lib, x, n);
        }
      }
      LoadForTask(lib, i);
      forall x | x in Names(tasks[i]) ensures x in mem {
        if x !in names {
          var n: nat :| ReachesIn(files, lib, x, n);
          WholeHoldsReachable(files, mem, lib, x, n);
        }
      }
    }

    lemma ListedAreLoaded(i: nat)
      requires Exact() && i < |tasks|
      ensures forall x :: x in Names(tasks[i]) ==> x in instances && instances[x] > 0
    {
      forall x | x in Names(tasks[i]) ensures x in instances && instances[x] > 0 {
        TotalListed(tasks, i, x);
        assert Count(x) == Total(tasks, x);
      }
    }

    /** Loading by name, as the program loader does: nothing if the library is there; else its
        file is read, if that ends, and the task lists it and all it leads to.  It fails exactly
        when a library it leads to has no file. */
    method LoadByName(name: Name, i: nat) returns (ok: bool)
      requires Valid() && i < |tasks| && Ends(files, instances.Keys, RealName(name))
      modifies this
      ensures Valid() && |tasks| == old(|tasks|) && old(tasks[i]) <= tasks[i]
      ensures forall j :: 0 <= j < |tasks| && j != i ==> tasks[j] == old(tasks[j])
      ensures forall n :: ReadIn(files, old(instances.Keys), RealName(name), n).Some? ==>
        instances.Keys == ReadIn(files, old(instances.Keys), RealName(name), n).value.mem
      ensures ok <==> !Looping(files, old(instances.Keys), RealName(name))
                      && !Missing(files, old(instances.Keys), RealName(name))
      ensures ok ==> forall x :: x in Names(tasks[i]) <==>
        x in old(Names(tasks[i])) || Reaches(files, RealName(name), x)
      ensures ok ==> RealName(name) in instances && RealName(name) in files
      ensures ok && RealName(name) !in old(Names(tasks[i])) ==>
        && old(Names(tasks[i])) + [RealName(name)] <= Names(tasks[i])
        && DepthFirst(files, old(Names(tasks[i])) + [RealName(name)], files[RealName(name)], Names(tasks[i]))
      ensures ok && old(Busy()) ==> Busy()
      ensures !ok ==> tasks == old(tasks)
    {
      var lib := RealName(name);
      ghost var was, mem := tasks, instances.Keys;
      SucceedsIff(files, mem, lib);
      var there := Contains(lib, i);
      if there {
        ListedAreLoaded(i);
        assert Succeeded(ReadIn(files, mem, lib, 0));
        forall x | Reaches(files, lib, x) ensures x in Names(tasks[i]) {
          var n: nat :| ReachesIn(files, lib, x, n);
          ClosedHoldsReachable(files, Names(tasks[i]), lib, x, n);
        }
        return true;
      }
      ghost var depth: nat :| ReadIn(files, mem, lib, depth).Some?;
      SameAnswer(files, mem, lib, depth);
      ReadKeepsWhole(files, mem, lib, depth);
      var found := Get(lib, depth);
      if !found {
        return false;
      }
      ReadFills(files, mem, mem, lib, depth);
      LoadRead(lib, i);
      if old(Busy()) { AllBusy(was, mem, lib, i, depth); }
      return true;
    }

    // A read that was needed leaves nothing idle once the library is listed.
    lemma AllBusy(was: seq<seq<Node>>, mem: set<Name>, lib: Name, i: nat, depth: nat)
      requires Exact() && i < |tasks| && Succeeded(ReadIn(files, mem, lib, depth))
      requires instances.Keys == ReadIn(files, mem, lib, depth).value.mem
      requires |was| == |tasks| && forall j :: 0 <= j < |was| ==> was[j] <= tasks[j]
      requires forall x :: x in mem ==> Total(was, x) > 0
      requires forall x :: Reaches(files, lib, x) ==> x in Names(tasks[i])
      ensures Busy()
    {
      ListedAreLoaded(i);
      ReadFills(files, mem, mem, lib, depth);
      forall x | x in instances ensures instances[x] > 0 {
        if x !in mem {
          var n: nat :| ReachesIn(Unread(files, mem), lib, x, n);
          UnreadReaches(files, mem, lib, x, n);
        } else {
          StillListed(was, tasks, x);
          assert Count(x) == Total(tasks, x);
        }
      }
    }

    // A task with no libraries.
    method NewTask() returns (i: nat)
      requires Exact()
      modifies this`tasks
      ensures Exact() && i == old(|tasks|) && tasks == old(tasks) + [[]]
      ensures old(Valid()) ==> Valid()
    {
      forall x ensures Total(tasks + [[]], x) == Total(tasks, x) { TotalAppend(tasks, [], x); }
      i := |tasks|;
      tasks := tasks + [[]];
    }

    /** A fork lists the parent's libraries at the parent's addresses, in the same order. */
    method Fork(i: nat)
      requires Sound() && i < |tasks|
      modifies this
      ensures Sound() && tasks == old(tasks) + [old(tasks[i])] && instances.Keys == old(instances.Keys)
      ensures old(Busy()) ==> Busy()
    {
      ghost var was := tasks;
      var list := tasks[i];
      var n := NewTask();
      for z := 0 to |list|
        invariant Exact() && |tasks| == n + 1 && tasks[..n] == was && tasks[n] == list[..z]
        invariant instances.Keys == old(instances.Keys)
      {
        assert tasks[i] == tasks[..n][i] == list;
        assert Names(list)[z] == list[z].lib;
        TotalListed(tasks, i, list[z].lib);
        PushBack(n, list[z]);
        assert list[..z] + [list[z]] == list[..z + 1];
      }
      assert list[..|list|] == list;
      assert tasks == tasks[..n] + [tasks[n]] == was + [list];
      forall x | x in instances && old(Busy()) ensures instances[x] > 0 {
        TotalAppend(was, list, x);
        assert Count(x) == Total(tasks, x) && old(Count(x)) == Total(was, x);
      }
    }

    // dylib_unload_for_task, for the first node of task i's list, which goes.
    method DropFirst(i: nat)
      requires Exact() && i < |tasks| && tasks[i] != []
      modifies this
      ensures Exact() && tasks == old(tasks)[i := old(tasks[i])[1..]]
      ensures var lib := old(tasks[i])[0].lib;
        instances.Keys == if Total(tasks, lib) > 0 then old(instances.Keys) else old(instances.Keys) - {lib}
    {
      var lib := tasks[i][0].lib;
      assert Names(tasks[i])[0] == lib;
      TotalListed(tasks, i, lib);
      forall x
        ensures Total(tasks, x) == Total(tasks[i := tasks[i][1..]], x) + if lib == x then 1 else 0
      {
        TotalUpdate(tasks, i, tasks[i][1..], x);
      }
      tasks := tasks[i := tasks[i][1..]];
      instances := instances[lib := instances[lib] - 1];
      if instances[lib] == 0 {
        instances := instances - {lib};
      }
      forall x ensures Count(x) == Total(tasks, x) {
        assert old(Count(x)) == Total(old(tasks), x);
      }
    }

    /** When a task ends, a library leaves memory exactly when it was listed by that task and
        by no other. */
    method Exit(i: nat)
      requires Sound() && i < |tasks|
      modifies this
      ensures Sound() && tasks == old(tasks)[i := []]
      ensures forall x :: x in instances <==>
        x in old(instances) && (x in old(Names(tasks[i])) ==> Total(tasks, x) > 0)
    {
      ghost var was := tasks;
      ghost var list := tasks[i];
      ghost var z := 0;
      while tasks[i] != []
        invariant Exact() && z <= |list| && tasks == was[i := list[z..]]
        invariant forall x :: x in instances <==>
          x in old(instances) && (x in Names(list)[..z] ==> Total(tasks, x) > 0)
        decreases |tasks[i]|
      {
        ghost var now := tasks;
        assert Names(list)[..z + 1] == Names(list)[..z] + [list[z].lib];
        DropFirst(i);
        forall x ensures Total(tasks, x) == Total(now, x) - if x == list[z].lib then 1 else 0 {
          TotalUpdate(now, i, now[i][1..], x);
        }
        z := z + 1;
      }
      assert Names(list)[..z] == Names(list);
    }

    // A library that stays needs one only task i lists, and no task lists it itself: a failed
    // read left it behind.
    ghost predicate Strands(i: nat, x: Name, d: Name)
      requires i < |tasks|
      reads this
    {
      && x in instances && instances[x] == 0 && x in files && d in files[x]
      && d in Names(tasks[i]) && forall j :: 0 <= j < |tasks| && j != i ==> d !in Names(tasks[j])
    }

    /** The libraries in memory keep all they point to through the end of a task exactly when no
        idle one needs a library that only this task lists.  Where none is idle they do. */
    method ExitLinked(i: nat)
      requires Valid() && i < |tasks|
      modifies this
      ensures Sound() && tasks == old(tasks)[i := []]
      ensures forall x :: x in instances <==>
        x in old(instances) && (x in old(Names(tasks[i])) ==> Total(tasks, x) > 0)
      ensures Linked() <==> forall x, d :: !old(Strands(i, x, d))
      ensures old(Busy()) ==> Linked() && Busy()
    {
      ghost var was, before := tasks, instances;
      Exit(i);
      forall x
        ensures Total(was, x) == Total(tasks, x) + Occurs(was[i], x)
        ensures Occurs(was[i], x) > 0 <==> x in Names(was[i])
        ensures x in before ==> before[x] == Total(was, x)
        ensures x in instances ==> instances[x] == Total(tasks, x)
      {
        TotalUpdate(was, i, [], x);
        OccursListed(was[i], x);
        assert old(Count(x)) == Total(was, x) && Count(x) == Total(tasks, x);
      }
      forall x, d | x in before && x in files && d in files[x] && x in instances && d !in instances
        ensures old(Strands(i, x, d))
      {
        assert d in before && d in Names(was[i]);
        ListedSomewhere(tasks, d);
        ListedSomewhere(tasks, x);
        forall j | 0 <= j < |was| && j != i ensures d !in Names(was[j]) { assert tasks[j] == was[j]; }
      }
      forall x, d | old(Strands(i, x, d)) ensures x in instances && d !in instances {
        ListedSomewhere(tasks, d);
        assert forall j :: 0 <= j < |tasks| ==> d !in Names(tasks[j]);
      }
    }
  }

  /** Counts keep what is pointed to in memory: what any listed library needs is listed by the
      same task, so it is in memory and counted. */
  lemma NeededStaysLoaded(d: Dylibs, i: nat, x: Name, needed: Name)
    requires d.Sound() && i < |d.tasks| && x in Names(d.tasks[i])
    requires x in d.files && needed in d.files[x]
    ensures needed in d.instances && d.instances[needed] > 0
  {
    TotalListed(d.tasks, i, needed);
    assert d.Count(needed) == Total(d.tasks, needed);
  }

  lemma {:induction false} UnreadReaches(g: Graph, mem: set<Name>, a: Name, x: Name, n: nat)
    requires ReachesIn(Unread(g, mem), a, x, n)
    ensures ReachesIn(g, a, x, n)
    decreases n
  {
    if n > 0 {
      var c :| c in g[a] && ReachesIn(Unread(g, mem), c, x, n - 1);
      UnreadReaches(g, mem, c, x, n - 1);
    }
  }

  lemma SameAnswer(g: Graph, mem: set<Name>, lib: Name, n: nat)
    requires ReadIn(g, mem, lib, n).Some?
    ensures forall m :: ReadIn(g, mem, lib, m).Some? ==> ReadIn(g, mem, lib, m) == ReadIn(g, mem, lib, n)
  {
    forall m: nat | ReadIn(g, mem, lib, m).Some? ensures ReadIn(g, mem, lib, m) == ReadIn(g, mem, lib, n) {
      if m <= n { Deeper(g, mem, lib, m, n); } else { Deeper(g, mem, lib, n, m); }
    }
  }

  // "/m" has no file.
  function HalfThere(): Graph { map["/x" := ["/a", "/m"], "/a" := ["/b"], "/b" := []] }

  /** The input on which it fails: loading "/x" fails for want of "/m" and leaves "/a" and "/b"
      idle; a task that lists only "/b" ends, and "/a" needs a library that is gone. */
  method FailedReadStrands() returns (d: Dylibs)
    ensures fresh(d) && d.Sound() && !d.Linked()
    ensures "/a" in d.instances && d.files == HalfThere() && "/b" in d.files["/a"] && "/b" !in d.instances
  {
    d := ListedAlone();
    ListedSomewhere(d.tasks, "/a");
    assert d.Count("/a") == Total(d.tasks, "/a") == 0;
    assert d.Strands(0, "/a", "/b");
    d.ExitLinked(0);
    ListedSomewhere(d.tasks, "/b");
  }

  method ListedAlone() returns (d: Dylibs)
    ensures fresh(d) && d.Valid() && d.files == HalfThere() && |d.tasks| == 1
    ensures "/b" in Names(d.tasks[0]) && "/a" !in Names(d.tasks[0]) && "/a" in d.instances
  {
    d := FailedRead();
    assert ReadIn(HalfThere(), {"/a", "/b"}, "/b", 0) == Some(Outcome(true, {"/a", "/b"}));
    SucceedsIff(HalfThere(), {"/a", "/b"}, "/b");
    OnlyItself();
    var ok := d.LoadByName("/b", 0);
  }

  lemma OnlyItself()
    ensures forall x :: Reaches(HalfThere(), "/b", x) <==> x == "/b"
  {
    assert ReachesIn(HalfThere(), "/b", "/b", 0);
    forall x | Reaches(HalfThere(), "/b", x) ensures x == "/b" {
      var n: nat :| ReachesIn(HalfThere(), "/b", x, n);
    }
  }

  method FailedRead() returns (d: Dylibs)
    ensures fresh(d) && d.Valid() && d.files == HalfThere()
    ensures d.tasks == [[]] && d.instances.Keys == {"/a", "/b"}
  {
    d := new Dylibs(HalfThere());
    var i := d.NewTask();
    HalfRead(HalfThere());
    HalfFails();
    assert d.instances.Keys == {};
    var ok := d.LoadByName("/x", i);
    assert !ok;
  }

  lemma HalfFails()
    ensures Looping(HalfThere(), {}, "/x") || Missing(HalfThere(), {}, "/x")
  {
    HalfRead(HalfThere());
    SameAnswer(HalfThere(), {}, "/x", 3);
    SucceedsIff(HalfThere(), {}, "/x");
  }

  lemma HalfRead(files: Graph)
    requires files == HalfThere()
    ensures ReadIn(files, {}, "/x", 3) == Some(Outcome(false, {"/a", "/b"}))
  {
    assert files["/a"][1..] == [] && files["/x"][1..] == ["/m"];
    assert {} + {"/b"} == {"/b"} && {"/b"} + {"/a"} == {"/a", "/b"};
    assert ReadAllIn(files, {}, [], 0) == Some(Outcome(true, {}));
    assert ReadIn(files, {}, "/b", 1) == Some(Outcome(true, {"/b"}));
    assert ReadAllIn(files, {"/b"}, [], 1) == Some(Outcome(true, {"/b"}));
    assert ReadAllIn(files, {}, files["/a"], 1) == Some(Outcome(true, {"/b"}));
    assert ReadIn(files, {}, "/a", 2) == Some(Outcome(true, {"/a", "/b"}));
    assert ReadIn(files, {"/a", "/b"}, "/m", 2) == Some(Outcome(false, {"/a", "/b"}));
    assert ReadAllIn(files, {"/a", "/b"}, files["/x"][1..], 2) == Some(Outcome(false, {"/a", "/b"}));
    assert ReadAllIn(files, {}, files["/x"], 2) == Some(Outcome(false, {"/a", "/b"}));
  }
}
