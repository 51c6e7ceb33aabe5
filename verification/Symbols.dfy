/**
  Symbol lookup in a library and along a task's list (NeilOS/kernel/program/dylib.c): the
  linear search, the hash index (System V ABI, chapter 5, "Hash Table"), and first match.
*/
module Symbols {
  import opened Wrappers
  import opened DylibLoad
  import opened DylibTasks

  datatype Symbol = Symbol(name: string, addr: nat, valid: bool)
  {
    predicate Matches(wanted: string) { valid && name == wanted }
  }

  // dylib_t: the symbol table and its hash section; chains run beside the symbols.
  datatype Table = Table(symbols: seq<Symbol>, buckets: seq<nat>, chains: seq<nat>)

  // ----- the two searches -----

  function FindFrom(t: Table, z: nat, name: string): Option<nat>
    decreases |t.symbols| - z
  {
    if z >= |t.symbols| then None
    else if t.symbols[z].Matches(name) then Some(t.symbols[z].addr)
    else FindFrom(t, z + 1, name)
  }

  // A rank that falls along every chain link, so that no chain loops.
  ghost predicate Ranked(t: Table, rank: nat -> nat) {
    forall i :: 0 < i < |t.symbols| && i < |t.chains| ==> t.chains[i] == 0 || rank(t.chains[i]) < rank(i)
  }

  ghost function Chase(t: Table, rank: nat -> nat, index: nat, name: string): Option<nat>
    requires Ranked(t, rank)
    decreases rank(index)
  {
    if index == 0 || index >= |t.symbols| || index >= |t.chains| then None
    else if t.symbols[index].Matches(name) then Some(t.symbols[index].addr)
    else if t.chains[index] == 0 then None
    else Chase(t, rank, t.chains[index], name)
  }

  // dylib_get_symbol_address_name
  method GetSymbolAddressName(t: Table, name: string) returns (r: Option<nat>)
    ensures r == FindFrom(t, 0, name)
  {
    for z := 0 to |t.symbols|
      invariant FindFrom(t, 0, name) == FindFrom(t, z, name)
    {
      if t.symbols[z].valid && t.symbols[z].name == name {
        return Some(t.symbols[z].addr);
      }
    }
    return None;
  }

  // dylib_get_symbol_address_hash
  method GetSymbolAddressHash(t: Table, hash: nat, name: string, ghost rank: nat -> nat) returns (r: Option<nat>)
    requires |t.buckets| > 0 && Ranked(t, rank)
    ensures r == Chase(t, rank, t.buckets[hash % |t.buckets|], name)
  {
    var index: nat := t.buckets[hash % |t.buckets|];
    while index != 0
      invariant Chase(t, rank, t.buckets[hash % |t.buckets|], name) == Chase(t, rank, index, name)
      decreases index != 0, rank(index)
    {
      if index >= |t.symbols| || index >= |t.chains| {
        break;
      }
      if t.symbols[index].valid && t.symbols[index].name == name {
        return Some(t.symbols[index].addr);
      }
      index := t.chains[index];
    }
    return None;
  }

  // ----- when the index is sound -----

  ghost predicate OnChain(t: Table, rank: nat -> nat, from: nat, i: nat)
    requires Ranked(t, rank)
    decreases rank(from)
  {
    && 0 < from < |t.symbols| && from < |t.chains|
    && (from == i || (t.chains[from] != 0 && OnChain(t, rank, t.chains[from], i)))
  }

  // Every valid symbol is on the chain of its own bucket; symbol 0 stands for none.
  ghost predicate Indexed(t: Table, hash: string -> nat, rank: nat -> nat) {
    && |t.buckets| > 0 && |t.chains| == |t.symbols| && Ranked(t, rank)
    && (forall i: nat :: i < |t.symbols| && t.symbols[i].valid ==>
          OnChain(t, rank, t.buckets[hash(t.symbols[i].name) % |t.buckets|], i))
  }

  lemma {:induction false} FindFromFirst(t: Table, z: nat, name: string)
    ensures FindFrom(t, z, name).Some? <==> exists i :: z <= i < |t.symbols| && t.symbols[i].Matches(name)
    ensures FindFrom(t, z, name).Some? ==>
      exists i :: z <= i < |t.symbols| && t.symbols[i].Matches(name) && FindFrom(t, z, name).value == t.symbols[i].addr
                  && forall j :: z <= j < i ==> !t.symbols[j].Matches(name)
    decreases |t.symbols| - z
  {
    if z < |t.symbols| && !t.symbols[z].Matches(name) {
      FindFromFirst(t, z + 1, name);
    }
  }

  // Symbol i is the first on its chain, from symbol `from` on, to match.
  ghost predicate FirstOnChain(t: Table, rank: nat -> nat, from: nat, i: nat, name: string)
    requires Ranked(t, rank)
  {
    && i < |t.symbols| && OnChain(t, rank, from, i) && t.symbols[i].Matches(name)
    && forall j: nat :: j < |t.symbols| && j != i && OnChain(t, rank, from, j) && OnChain(t, rank, j, i) ==>
         !t.symbols[j].Matches(name)
  }

  lemma {:induction false} RankFalls(t: Table, rank: nat -> nat, from: nat, i: nat)
    requires Ranked(t, rank) && OnChain(t, rank, from, i)
    ensures rank(i) <= rank(from) && (i != from ==> rank(i) < rank(from))
    decreases rank(from)
  {
    if from != i { RankFalls(t, rank, t.chains[from], i); }
  }

  lemma {:induction false} ChaseFinds(t: Table, rank: nat -> nat, from: nat, name: string)
    requires Ranked(t, rank)
    ensures Chase(t, rank, from, name).Some? <==>
      exists i :: 0 <= i < |t.symbols| && OnChain(t, rank, from, i) && t.symbols[i].Matches(name)
    ensures Chase(t, rank, from, name).Some? ==>
      exists i: nat :: FirstOnChain(t, rank, from, i, name) && Chase(t, rank, from, name).value == t.symbols[i].addr
    decreases rank(from)
  {
    if 0 < from < |t.symbols| && from < |t.chains| {
      assert OnChain(t, rank, from, from);
      if t.symbols[from].Matches(name) {
        forall j: nat | j < |t.symbols| && j != from && OnChain(t, rank, from, j) ensures !OnChain(t, rank, j, from) {
          RankFalls(t, rank, from, j);
          if OnChain(t, rank, j, from) { RankFalls(t, rank, j, from); }
        }
        assert FirstOnChain(t, rank, from, from, name);
      } else if t.chains[from] != 0 {
        var next := t.chains[from];
        ChaseFinds(t, rank, next, name);
        if Chase(t, rank, next, name).Some? {
          var i: nat :| FirstOnChain(t, rank, next, i, name) && Chase(t, rank, next, name).value == t.symbols[i].addr;
          assert FirstOnChain(t, rank, from, i, name);
        }
      }
    }
  }

  /** The hash index agrees with the linear search: both find the name or neither does, and
      where a name has one valid symbol both give its address. */
  lemma HashAgreesWithSearch(t: Table, hash: string -> nat, rank: nat -> nat, name: string)
    requires Indexed(t, hash, rank)
    ensures var byHash := Chase(t, rank, t.buckets[hash(name) % |t.buckets|], name);
      && (byHash.Some? <==> FindFrom(t, 0, name).Some?)
      && ((forall i, j :: 0 <= i < j < |t.symbols| ==> !(t.symbols[i].Matches(name) && t.symbols[j].Matches(name))) ==>
            byHash == FindFrom(t, 0, name))
  {
    FindFromFirst(t, 0, name);
    ChaseFinds(t, rank, t.buckets[hash(name) % |t.buckets|], name);
    assert forall i: nat :: i < |t.symbols| && t.symbols[i].Matches(name) ==>
      OnChain(t, rank, t.buckets[hash(name) % |t.buckets|], i);
  }

  // ----- along a task's list -----

  ghost predicate Searchable(libs: map<Name, Table>, rank: Name -> nat -> nat, list: seq<Node>) {
    forall n :: n in list ==> n.lib in libs && Ranked(libs[n.lib], rank(n.lib))
  }

  ghost function Answer(t: Table, rank: nat -> nat, hash: nat, name: string): Option<nat>
    requires Ranked(t, rank)
  {
    if |t.buckets| != 0 then Chase(t, rank, t.buckets[hash % |t.buckets|], name) else FindFrom(t, 0, name)
  }

  // The first library of the list that defines the name decides.
  ghost function Resolve(libs: map<Name, Table>, rank: Name -> nat -> nat, hash: string -> nat,
                         list: seq<Node>, name: string): Option<nat>
    requires Searchable(libs, rank, list)
  {
    if list == [] then None
    else
      var n := list[0];
      assert n in list;
      var found := Answer(libs[n.lib], rank(n.lib), hash(name), name);
      if found.Some? then Some((found.value + n.offset) % 0x1_0000_0000)
      else Resolve(libs, rank, hash, list[1..], name)
  }

  ghost predicate Defines(t: Table, name: string) {
    exists i :: 0 <= i < |t.symbols| && t.symbols[i].Matches(name)
  }

  // Searchable, and every hash section indexes its table.
  ghost predicate WellFormed(libs: map<Name, Table>, rank: Name -> nat -> nat, hash: string -> nat, list: seq<Node>) {
    && Searchable(libs, rank, list)
    && forall n :: n in list && |libs[n.lib].buckets| != 0 ==> Indexed(libs[n.lib], hash, rank(n.lib))
  }

  // v is where the library of node n has a symbol of this name.
  ghost predicate Lies(libs: map<Name, Table>, n: Node, name: string, v: nat) {
    && n.lib in libs
    && var symbols := libs[n.lib].symbols;
       exists i :: 0 <= i < |symbols| && symbols[i].Matches(name) && v == (symbols[i].addr + n.offset) % 0x1_0000_0000
  }

  // Node z is the first of the list whose library defines the name.
  ghost predicate FirstDefiner(libs: map<Name, Table>, list: seq<Node>, name: string, z: nat)
    requires forall n :: n in list ==> n.lib in libs
  {
    z < |list| && Defines(libs[list[z].lib], name) && forall y :: 0 <= y < z ==> !Defines(libs[list[y].lib], name)
  }

  lemma AnswerIsSymbol(t: Table, rank: nat -> nat, hash: nat, name: string)
    requires Ranked(t, rank)
    ensures Answer(t, rank, hash, name).Some? ==>
      exists i :: 0 <= i < |t.symbols| && t.symbols[i].Matches(name) && Answer(t, rank, hash, name).value == t.symbols[i].addr
  {
    FindFromFirst(t, 0, name);
    if |t.buckets| != 0 { ChaseFinds(t, rank, t.buckets[hash % |t.buckets|], name); }
  }

  lemma AnswerIffDefined(t: Table, rank: nat -> nat, hash: string -> nat, name: string)
    requires Ranked(t, rank) && (|t.buckets| != 0 ==> Indexed(t, hash, rank))
    ensures Answer(t, rank, hash(name), name).Some? <==> Defines(t, name)
  {
    FindFromFirst(t, 0, name);
    if |t.buckets| != 0 { HashAgreesWithSearch(t, hash, rank, name); }
  }

  /** What is resolved is the address of a symbol of that name in some library of the list, where
      this task has that library. */
  lemma {:induction false} ResolvedLies(libs: map<Name, Table>, rank: Name -> nat -> nat, hash: string -> nat,
                                        list: seq<Node>, name: string)
    requires Searchable(libs, rank, list) && Resolve(libs, rank, hash, list, name).Some?
    ensures exists n :: n in list && Lies(libs, n, name, Resolve(libs, rank, hash, list, name).value)
  {
    var n := list[0];
    assert n in list;
    if Answer(libs[n.lib], rank(n.lib), hash(name), name).Some? {
      AnswerIsSymbol(libs[n.lib], rank(n.lib), hash(name), name);
    } else {
      ResolvedLies(libs, rank, hash, list[1..], name);
      var m :| m in list[1..] && Lies(libs, m, name, Resolve(libs, rank, hash, list, name).value);
      assert m in list;
    }
  }

  /** With well-formed tables the first library of the list that defines the name decides, and
      nothing is resolved exactly when none does. */
  lemma {:induction false} FirstDefinerDecides(libs: map<Name, Table>, rank: Name -> nat -> nat, hash: string -> nat,
                                               list: seq<Node>, name: string)
    requires WellFormed(libs, rank, hash, list)
    ensures Resolve(libs, rank, hash, list, name).None? <==> forall n :: n in list ==> !Defines(libs[n.lib], name)
    ensures Resolve(libs, rank, hash, list, name).Some? ==>
      exists z: nat :: FirstDefiner(libs, list, name, z)
                       && Lies(libs, list[z], name, Resolve(libs, rank, hash, list, name).value)
  {
    if list != [] {
      var n := list[0];
      assert n in list;
      AnswerIffDefined(libs[n.lib], rank(n.lib), hash, name);
      if Defines(libs[n.lib], name) {
        AnswerIsSymbol(libs[n.lib], rank(n.lib), hash(name), name);
        assert FirstDefiner(libs, list, name, 0);
      } else {
        FirstDefinerDecides(libs, rank, hash, list[1..], name);
        assert list == [n] + list[1..];
        if Resolve(libs, rank, hash, list[1..], name).Some? {
          DefinedLater(libs, list, name, Resolve(libs, rank, hash, list, name).value);
        }
      }
    }
  }

  lemma DefinedLater(libs: map<Name, Table>, list: seq<Node>, name: string, v: nat)
    requires list != [] && (forall n :: n in list ==> n.lib in libs) && !Defines(libs[list[0].lib], name)
    requires exists z: nat :: FirstDefiner(libs, list[1..], name, z) && Lies(libs, list[1..][z], name, v)
    ensures exists z: nat :: FirstDefiner(libs, list, name, z) && Lies(libs, list[z], name, v)
  {
    var z: nat :| FirstDefiner(libs, list[1..], name, z) && Lies(libs, list[1..][z], name, v);
    assert list[z + 1] == list[1..][z];
    forall y | 0 <= y < z + 1 ensures !Defines(libs[list[y].lib], name) {
      if y > 0 { assert list[y] == list[1..][y - 1]; }
    }
    assert FirstDefiner(libs, list, name, z + 1);
  }

  // dylib_get_symbol_address_list
  method GetSymbolAddressList(libs: map<Name, Table>, ghost rank: Name -> nat -> nat, hash: string -> nat,
                              list: seq<Node>, name: string) returns (r: Option<nat>)
    requires Searchable(libs, rank, list)
    ensures r == Resolve(libs, rank, hash, list, name)
    ensures r.Some? ==> exists n :: n in list && Lies(libs, n, name, r.value)
    ensures WellFormed(libs, rank, hash, list) ==>
      && (r.None? <==> forall n :: n in list ==> !Defines(libs[n.lib], name))
      && (r.Some? ==> exists z: nat :: FirstDefiner(libs, list, name, z) && Lies(libs, list[z], name, r.value))
  {
    if Resolve(libs, rank, hash, list, name).Some? { ResolvedLies(libs, rank, hash, list, name); }
    if WellFormed(libs, rank, hash, list) { FirstDefinerDecides(libs, rank, hash, list, name); }
    var h := hash(name);
    for z := 0 to |list|
      invariant Searchable(libs, rank, list[z..])
      invariant Resolve(libs, rank, hash, list, name) == Resolve(libs, rank, hash, list[z..], name)
    {
      assert list[z] in list && list[z..][0] == list[z] && list[z..][1..] == list[z + 1..];
      var t := libs[list[z].lib];
      var found;
      if |t.buckets| != 0 {
        found := GetSymbolAddressHash(t, h, name, rank(list[z].lib));
      } else {
        found := GetSymbolAddressName(t, name);
      }
      if found.Some? {
        return Some((found.value + list[z].offset) % 0x1_0000_0000);
      }
    }
    return None;
  }

  /** A list that only grows at its end keeps every symbol it could resolve: loads
      (`Dylibs.LoadByName`) never move a symbol of a task, and a fork resolves as its parent. */
  lemma {:induction false} ResolutionIsStable(libs: map<Name, Table>, rank: Name -> nat -> nat, hash: string -> nat,
                                              list: seq<Node>, more: seq<Node>, name: string)
    requires Searchable(libs, rank, list) && Searchable(libs, rank, more) && list <= more
    ensures Resolve(libs, rank, hash, list, name).Some? ==>
      Resolve(libs, rank, hash, more, name) == Resolve(libs, rank, hash, list, name)
  {
    if list != [] {
      ResolutionIsStable(libs, rank, hash, list[1..], more[1..], name);
    }
  }
}
