/**
  Nested signal delivery (NeilOS/kernel/program/signal.c) as moves between states: which
  masks keep the promise that every return restores the mask in force before the delivery.
*/
module SignalRuns {
  import opened Bitmaps

  const NUMBER_OF_SIGNALS: nat := 27
  const SIGKILL: nat := 9
  const SIGSTOP: nat := 17

  // sigaction_t with a handler; `flags` play no part here
  datatype Handler = Handler(mask: bv32)
  type Handlers = map<nat, Handler>

  predicate Signal(s: nat) { 1 <= s < NUMBER_OF_SIGNALS }

  // SIGKILL and SIGSTOP cannot be caught or blocked.
  predicate Catchable(s: nat) { s != SIGKILL && s != SIGSTOP }

  // A handler that has not returned: its signal, and the mask in force before delivery.
  datatype Active = Active(signum: nat, before: bv32)

  // signal_save_mask, a slot for each signal
  type Slots = s: seq<bv32> | |s| == NUMBER_OF_SIGNALS witness seq(NUMBER_OF_SIGNALS, _ => 0)

  ghost predicate Signals(active: seq<Active>) {
    forall i :: 0 <= i < |active| ==> Signal(active[i].signum)
  }

  // The slot of every active handler holds the mask to return to.
  ghost predicate Kept(active: seq<Active>, saved: Slots)
    requires Signals(active)
  {
    forall i :: 0 <= i < |active| ==> saved[active[i].signum] == active[i].before
  }

  // Handlers entered one inside the other, innermost last: their signals are blocked, from
  // inside each the outer ones were, and every slot still holds the mask to return to.
  ghost predicate WellNested(active: seq<Active>, mask: bv32, saved: Slots) {
    && Signals(active) && Kept(active, saved)
    && (forall i :: 0 <= i < |active| ==>
      && Catchable(active[i].signum)
      && Bit(mask, active[i].signum)
      && !Bit(active[i].before, active[i].signum))
    && (forall i, j :: 0 <= i < j < |active| ==> Bit(active[j].before, active[i].signum))
  }

  /** Active caught signals are distinct, so no two share a slot. */
  lemma ActiveAreDistinct(active: seq<Active>, mask: bv32, saved: Slots, i: nat, j: nat)
    requires WellNested(active, mask, saved)
    requires i < j < |active|
    ensures active[i].signum != active[j].signum
  {
  }

  // ----- deliveries and returns -----

  datatype State = State(active: seq<Active>, mask: bv32, saved: Slots)

  // A caught signal is delivered: the old mask goes to its slot, and the new one blocks all
  // the old one did, what the handler asks for, and the signal itself.
  ghost predicate Delivers(h: Handlers, a: State, s: nat, b: State) {
    && Signal(s) && s in h && !Bit(a.mask, s)
    && b.active == a.active + [Active(s, a.mask)] && b.saved == a.saved[s := a.mask]
    && forall t: nat :: t < WORD_BITS ==> (Bit(b.mask, t) <==> t == s || Bit(a.mask, t) || Bit(h[s].mask, t))
  }

  // The innermost handler returns.
  ghost predicate Returns(a: State, b: State) {
    && a.active != [] && Signal(a.active[|a.active| - 1].signum)
    && b == State(a.active[..|a.active| - 1], a.saved[a.active[|a.active| - 1].signum], a.saved)
  }

  ghost predicate Moves(h: Handlers, a: State, b: State) {
    Returns(a, b) || exists s :: Delivers(h, a, s, b)
  }

  ghost predicate IsRun(h: Handlers, run: seq<State>) {
    |run| > 0 && forall k :: 0 <= k < |run| - 1 ==> Moves(h, run[k], run[k + 1])
  }

  ghost predicate KeepsSlots(a: State) {
    Signals(a.active) && Kept(a.active, a.saved)
  }

  // However signals arrive from here on, every return restores the right mask.
  ghost predicate AlwaysRestores(h: Handlers, a: State) {
    forall run :: IsRun(h, run) && run[0] == a ==> KeepsSlots(run[|run| - 1])
  }

  // An active signal that can be delivered again finds the very mask its slot holds, and so it
  // does after any other delivery, since that one blocks it.
  ghost predicate Safe(h: Handlers, active: seq<Active>, m: bv32)
    requires Signals(active)
  {
    forall i :: 0 <= i < |active| && active[i].signum in h && !Bit(m, active[i].signum) ==>
      && m == active[i].before
      && forall t: nat :: Signal(t) && t in h && t != active[i].signum && !Bit(m, t) ==>
           Bit(h[t].mask, active[i].signum)
  }

  // From inside each handler the outer ones are safe, and now all are.
  ghost predicate SafeThroughout(h: Handlers, a: State) {
    && KeepsSlots(a) && Safe(h, a.active, a.mask)
    && forall j :: 0 <= j < |a.active| ==> Safe(h, a.active[..j], a.active[j].before)
  }

  lemma DeliveryStaysSafe(h: Handlers, a: State, s: nat, b: State)
    requires SafeThroughout(h, a) && Delivers(h, a, s, b)
    ensures SafeThroughout(h, b)
  {
    var n := |a.active|;
    assert b.active[..n] == a.active;
    forall j | 0 <= j < n ensures Safe(h, b.active[..j], b.active[j].before) {
      assert b.active[..j] == a.active[..j];
    }
    forall i | 0 <= i < |b.active| && b.active[i].signum in h ensures Bit(b.mask, b.active[i].signum) {
      if i < n { assert b.active[i] == a.active[i]; }
    }
  }

  // A delivery nests: it takes an unblocked signal, which none of the active ones is.
  lemma DeliveryNests(h: Handlers, a: State, s: nat, b: State)
    requires WellNested(a.active, a.mask, a.saved) && Delivers(h, a, s, b) && Catchable(s)
    ensures WellNested(b.active, b.mask, b.saved)
  {
    forall i | 0 <= i < |a.active| ensures b.active[i] == a.active[i] {}
  }

  lemma ReturnStaysSafe(h: Handlers, a: State, b: State)
    requires SafeThroughout(h, a) && Returns(a, b)
    ensures SafeThroughout(h, b)
  {
    forall j | 0 <= j < |b.active| ensures Safe(h, b.active[..j], b.active[j].before) {
      assert b.active[..j] == a.active[..j];
    }
  }

  lemma {:induction false} RunStaysSafe(h: Handlers, run: seq<State>)
    requires IsRun(h, run) && SafeThroughout(h, run[0])
    ensures SafeThroughout(h, run[|run| - 1])
    decreases |run|
  {
    if |run| > 1 {
      assert Moves(h, run[0], run[1]);
      if Returns(run[0], run[1]) {
        ReturnStaysSafe(h, run[0], run[1]);
      } else {
        var s :| Delivers(h, run[0], s, run[1]);
        DeliveryStaysSafe(h, run[0], s, run[1]);
      }
      var rest := run[1..];
      forall k | 0 <= k < |rest| - 1 ensures Moves(h, rest[k], rest[k + 1]) { assert Moves(h, run[k + 1], run[k + 2]); }
      RunStaysSafe(h, rest);
    }
  }

  lemma Union(w: bv32, v: bv32) returns (r: bv32)
    ensures forall t: nat :: t < WORD_BITS ==> (Bit(r, t) <==> Bit(w, t) || Bit(v, t))
  {
    r := w | v;
    forall t: nat | t < WORD_BITS ensures Bit(r, t) <==> Bit(w, t) || Bit(v, t) { OrBit(w, v, t); }
  }

  lemma Including(w: bv32, s: nat) returns (r: bv32)
    requires s < WORD_BITS
    ensures forall t: nat :: t < WORD_BITS ==> (Bit(r, t) <==> t == s || Bit(w, t))
  {
    r := w | Mask(s);
    forall t: nat | t < WORD_BITS ensures Bit(r, t) <==> t == s || Bit(w, t) { SetBit(w, s, t); }
  }

  lemma Deliver(h: Handlers, a: State, s: nat) returns (b: State)
    requires Signal(s) && s in h && !Bit(a.mask, s)
    ensures Delivers(h, a, s, b)
  {
    var mask := Union(a.mask, h[s].mask);
    mask := Including(mask, s);
    b := State(a.active + [Active(s, a.mask)], mask, a.saved[s := a.mask]);
  }

  // Delivered again with another mask, an active signal overwrites its own slot.
  lemma Overwrites(h: Handlers, a: State, i: nat, b: State)
    requires Signals(a.active) && i < |a.active| && Delivers(h, a, a.active[i].signum, b)
    requires a.mask != a.active[i].before
    ensures !KeepsSlots(b)
  {
    assert b.active[i] == a.active[i];
  }

  lemma RunOfTwo(h: Handlers, a: State, b: State)
    requires AlwaysRestores(h, a) && Moves(h, a, b)
    ensures KeepsSlots(b)
  {
    assert IsRun(h, [a, b]);
    assert [a, b][0] == a && [a, b][|[a, b]| - 1] == b;
  }

  lemma RunOfThree(h: Handlers, a: State, b: State, c: State)
    requires AlwaysRestores(h, a) && Moves(h, a, b) && Moves(h, b, c)
    ensures KeepsSlots(c)
  {
    assert IsRun(h, [a, b, c]);
    assert [a, b, c][0] == a && [a, b, c][|[a, b, c]| - 1] == c;
  }

  /** In any well-nested state the mask may be set to m, and every return from then on, in every
      run of deliveries and returns, restores the mask in force before its delivery, exactly
      when m is safe. */
  lemma RestoresIff(h: Handlers, active: seq<Active>, mask: bv32, saved: Slots, m: bv32)
    requires WellNested(active, mask, saved)
    ensures AlwaysRestores(h, State(active, m, saved)) <==> Safe(h, active, m)
  {
    var a := State(active, m, saved);
    if Safe(h, active, m) {
      assert SafeThroughout(h, a);
      forall run | IsRun(h, run) && run[0] == a ensures KeepsSlots(run[|run| - 1]) { RunStaysSafe(h, run); }
    }
    if AlwaysRestores(h, a) {
      forall i | 0 <= i < |active| && active[i].signum in h && !Bit(m, active[i].signum)
        ensures m == active[i].before
        ensures forall t: nat :: Signal(t) && t in h && t != active[i].signum && !Bit(m, t) ==>
          Bit(h[t].mask, active[i].signum)
      {
        UnsafeShows(h, a, i);
      }
    }
  }

  lemma UnsafeShows(h: Handlers, a: State, i: nat)
    requires Signals(a.active) && AlwaysRestores(h, a)
    requires i < |a.active| && a.active[i].signum in h && !Bit(a.mask, a.active[i].signum)
    ensures a.mask == a.active[i].before
    ensures forall t: nat :: Signal(t) && t in h && t != a.active[i].signum && !Bit(a.mask, t) ==>
      Bit(h[t].mask, a.active[i].signum)
  {
    var s := a.active[i].signum;
    var b := Deliver(h, a, s);
    RunOfTwo(h, a, b);
    if a.mask != a.active[i].before { Overwrites(h, a, i, b); }
    forall t: nat | Signal(t) && t in h && t != s && !Bit(a.mask, t) ensures Bit(h[t].mask, s) {
      if !Bit(h[t].mask, s) {
        var c := Deliver(h, a, t);
        var d := Deliver(h, c, s);
        RunOfThree(h, a, c, d);
        assert c.active[i] == a.active[i] && Bit(c.mask, t);
        Overwrites(h, c, i, d);
      }
    }
  }

  /** The next delivery alone overwrites no slot in use exactly when each active caught signal is
      blocked, or its slot holds the mask that would be saved again. */
  lemma NextDeliveryKeepsIff(h: Handlers, active: seq<Active>, mask: bv32, saved: Slots, m: bv32)
    requires WellNested(active, mask, saved)
    ensures (forall s, b :: Delivers(h, State(active, m, saved), s, b) ==> KeepsSlots(b)) <==>
      forall i :: 0 <= i < |active| && active[i].signum in h ==> Bit(m, active[i].signum) || m == active[i].before
  {
    var a := State(active, m, saved);
    if forall s, b :: Delivers(h, a, s, b) ==> KeepsSlots(b) {
      forall i | 0 <= i < |active| && active[i].signum in h && !Bit(m, active[i].signum) ensures m == active[i].before {
        var b := Deliver(h, a, active[i].signum);
        if m != active[i].before { Overwrites(h, a, i, b); }
      }
    }
    if forall i :: 0 <= i < |active| && active[i].signum in h ==> Bit(m, active[i].signum) || m == active[i].before {
      forall s, b | Delivers(h, a, s, b) ensures KeepsSlots(b) {
        forall i | 0 <= i < |b.active| ensures Signal(b.active[i].signum) && b.saved[b.active[i].signum] == b.active[i].before {
          if i < |active| { assert b.active[i] == active[i]; }
        }
      }
    }
  }

  /** The input on which the promise fails: in the handler of signal 1, entered from a task that
      blocks nothing, the mask is set to block signal 2 only.  The state before is well nested,
      and a run from the one after ends with the slot of signal 1 overwritten. */
  lemma UnblockedOverwrites(h: Handlers, a: State, b: State, m: bv32)
    requires h == map[1 := Handler(0)] && a.active == [] && a.mask == 0 && Delivers(h, a, 1, b)
    requires Bit(m, 2) && !Bit(m, 1)
    ensures WellNested(b.active, b.mask, b.saved)
    ensures exists c, d :: Delivers(h, State(b.active, m, b.saved), 1, c) && Returns(c, d)
                           && d.active == b.active && d.saved[1] != 0 == d.active[0].before
    ensures !AlwaysRestores(h, State(b.active, m, b.saved))
  {
    ConstBits(2);
    DeliveryNests(h, a, 1, b);
    var inside := State(b.active, m, b.saved);
    var c := Deliver(h, inside, 1);
    var d := State(c.active[..1], c.saved[1], c.saved);
    assert d.active == b.active && Returns(c, d);
    RestoresIff(h, b.active, b.mask, b.saved, m);
    assert b.active[0] == Active(1, 0) && !Bit(m, 1) && m != 0;
  }
}
