/**
  Signal delivery and return (NeilOS/kernel/program/signal.c): pending and blocked signals
  are bits of a word, and each delivery to a handler saves the mask in the signal's slot.
*/
module Signals {
  import opened Wrappers
  import opened Bitmaps
  import opened SignalRuns

  // The signal signal_handle would pick.
  predicate Deliverable(pending: bv32, mask: bv32, s: nat)
    requires Signal(s)
  {
    Bit(pending, s) && !Bit(mask, s)
  }

  predicate Picks(pending: bv32, mask: bv32, s: nat) {
    && Signal(s) && Deliverable(pending, mask, s)
    && forall t: nat :: 1 <= t < s ==> !Deliverable(pending, mask, t)
  }

  // The signal part of pcb_t, and `active`, the handler frames on the task's own stack.
  class Pcb {
    var pending: bv32
    var mask: bv32
    const saveMask: array<bv32>
    var handlers: map<nat, Handler>
    var active: seq<Active>

    constructor ()
      ensures Valid() && fresh(saveMask) && active == [] && mask == 0 && pending == 0 && handlers == map[]
    {
      pending, mask, handlers, active := 0, 0, map[], [];
      saveMask := new bv32[NUMBER_OF_SIGNALS](_ => 0);
    }

    // A slot for every signal, and handlers that may be there.
    ghost predicate Shaped()
      reads this, saveMask
    {
      && saveMask.Length == NUMBER_OF_SIGNALS
      && (forall s :: s in handlers ==> Catchable(s))
      && Signals(active)
    }

    ghost function Now(): State
      requires Shaped()
      reads this, saveMask
    {
      State(active, mask, saveMask[..])
    }

    ghost predicate Valid()
      reads this, saveMask
    {
      Shaped() && WellNested(active, mask, saveMask[..])
    }

    // signal_set_handler
    method SetHandler(s: nat, h: Option<Handler>)
      requires Valid() && Signal(s)
      modifies this`handlers
      ensures Valid()
      ensures handlers ==
        if !Catchable(s) then old(handlers) else if h.Some? then old(handlers)[s := h.value] else old(handlers) - {s}
    {
      if s == SIGKILL || s == SIGSTOP {
        return;
      }
      handlers := if h.Some? then handlers[s := h.value] else handlers - {s};
    }

    // signal_send, or signal_set_pending
    method SetPending(s: nat, on: bool)
      requires Signal(s)
      modifies this`pending
      ensures forall t: nat :: t < WORD_BITS ==> (Bit(pending, t) <==> if t == s then on else Bit(old(pending), t))
    {
      if on {
        pending := WithBit(pending, s);
      } else {
        pending := WithoutBit(pending, s);
      }
    }

    // signal_set_masked
    method SetMasked(s: nat, on: bool)
      requires Signal(s)
      modifies this`mask
      ensures forall t: nat :: t < WORD_BITS ==>
        (Bit(mask, t) <==> if t == s && Catchable(s) then on else Bit(old(mask), t))
    {
      if s == SIGKILL || s == SIGSTOP {
        return;
      }
      if on {
        mask := WithBit(mask, s);
      } else {
        mask := WithoutBit(mask, s);
      }
    }

    /** signal_set_mask, also from inside handlers.  The nesting survives exactly when no active
        signal is unblocked; the promise itself, that every return from now on restores the mask
        in force before its delivery, exactly when the mask is safe. */
    method SetMask(m: bv32)
      requires Valid()
      modifies this`mask
      ensures Shaped() && mask == m
      ensures Valid() <==> forall i :: 0 <= i < |active| ==> Bit(m, active[i].signum)
      ensures AlwaysRestores(handlers, Now()) <==> Safe(handlers, active, m)
    {
      RestoresIff(handlers, active, mask, saveMask[..], m);
      mask := m;
    }

    // The search of signal_handle.
    method Pick() returns (r: Option<nat>)
      ensures r.Some? ==> Picks(pending, mask, r.value)
      ensures r.None? ==> forall t :: Signal(t) ==> !Deliverable(pending, mask, t)
    {
      for s := 1 to NUMBER_OF_SIGNALS
        invariant forall t :: 1 <= t < s ==> !Deliverable(pending, mask, t)
      {
        var isPending := TestWord(pending, s);
        var isMasked := TestWord(mask, s);
        if isPending && !isMasked {
          return Some(s);
        }
      }
      return None;
    }

    /** signal_handle, when some pending signal is not blocked: the lowest such signal stops
        being pending.  If it is caught its handler is entered; otherwise the default action
        runs and the mask stays.  Of well-nested handlers no slot in use is touched. */
    method Handle() returns (s: nat)
      requires Shaped() && exists t :: Signal(t) && Deliverable(pending, mask, t)
      modifies this`pending, this`mask, this`active, saveMask
      ensures Shaped() && Picks(old(pending), old(mask), s)
      ensures old(Valid()) ==> Valid()
      ensures forall t: nat :: t < WORD_BITS ==> (Bit(pending, t) <==> t != s && Bit(old(pending), t))
      ensures if s in handlers then Delivers(handlers, old(Now()), s, Now()) else Now() == old(Now())
    {
      var picked: Option<nat> := Pick();
      s := picked.value;
      SetPending(s, false);
      if s in handlers {
        Enter(s);
      }
    }

    // The second half of signal_handle, up to the jump to the handler.
    method Enter(s: nat)
      requires Shaped() && Signal(s) && s in handlers && !Bit(mask, s)
      modifies this`mask, this`active, saveMask
      ensures Shaped() && Delivers(handlers, old(Now()), s, Now())
      ensures old(Valid()) ==> Valid()
    {
      saveMask[s] := mask;
      active := active + [Active(s, mask)];
      mask := Or(mask, handlers[s].mask);
      SetMasked(s, true);
      assert Delivers(handlers, old(Now()), s, Now());
      if old(Valid()) { DeliveryNests(handlers, old(Now()), s, Now()); }
    }

    /** sigreturn, from the innermost handler: the mask is that of its signal's slot, which for
        well-nested handlers is what it was before that delivery. */
    method SigReturn(s: nat)
      requires Shaped() && active != [] && s == active[|active| - 1].signum
      modifies this`mask, this`active
      ensures Shaped() && Returns(old(Now()), Now())
      ensures old(Valid()) ==> Valid() && mask == old(active[|active| - 1].before)
    {
      mask := saveMask[s];
      active := active[..|active| - 1];
    }

    /** Every well-nested run: signals arrive, actions are set, masks change without unblocking
        an active signal, handlers are entered, run in the same way, and return.  However deep it goes,
        the handlers that were active are active again, with their slots untouched. */
    method NestedRun(budget: nat)
      requires Valid()
      modifies this`pending, this`mask, this`active, this`handlers, saveMask
      ensures Valid() && active == old(active)
      decreases budget, 0
    {
      var steps := budget;
      while steps > 0
        invariant Valid() && active == old(active)
        decreases steps
      {
        steps := steps - 1;
        Happen(steps);
      }
    }

    // What happens next is anybody's choice.
    method Happen(budget: nat)
      requires Valid()
      modifies this`pending, this`mask, this`active, this`handlers, saveMask
      ensures Valid() && active == old(active)
      decreases budget, 2
    {
      var choice: nat, s: nat, m: bv32, h: Option<Handler> := *, *, *, *;
      if choice == 0 && Signal(s) {
        SetPending(s, true);
      } else if choice == 1 {
        var keeps := KeepsActive(m);
        if keeps {
          SetMask(m);
        }
      } else if choice == 2 && Signal(s) {
        SetHandler(s, h);
      } else {
        var picked := Pick();
        if picked.Some? {
          RunHandler(budget);
        }
      }
    }

    // One delivery and, if it enters a handler, all that happens up to its return.
    method RunHandler(budget: nat)
      requires Valid() && exists t :: Signal(t) && Deliverable(pending, mask, t)
      modifies this`pending, this`mask, this`active, this`handlers, saveMask
      ensures Valid() && active == old(active) && mask == old(mask)
      decreases budget, 1
    {
      var s := Handle();
      if s in handlers {
        NestedRun(budget);
        SigReturn(s);
      }
    }

    // Whether a mask blocks every active signal.
    method KeepsActive(m: bv32) returns (r: bool)
      requires Valid()
      ensures r <==> forall i :: 0 <= i < |active| ==> Bit(m, active[i].signum)
    {
      for i := 0 to |active|
        invariant forall k :: 0 <= k < i ==> Bit(m, active[k].signum)
      {
        var blocked := ReadWord(m, active[i].signum);
        if !blocked {
          return false;
        }
      }
      return true;
    }
  }

  /** The same on a task: the handler of signal 1 unblocks it and blocks signal 2; signal 1
      comes again, both handlers return, and signal 2 stays blocked. */
  method UnblockedInHandler(p: Pcb)
    requires p.Valid() && p.active == [] && p.mask == 0 && p.handlers == map[1 := Handler(0)] && NonePending(p)
    modifies p`pending, p`mask, p`active, p.saveMask
    ensures p.Shaped() && p.active == [] && Bit(p.mask, 2)
  {
    Unblocks(p);
    SignalOne(p);
    p.SigReturn(1);
    p.SigReturn(1);
  }

  // Up to the change of the mask.
  method Unblocks(p: Pcb)
    requires p.Valid() && p.active == [] && p.mask == 0 && p.handlers == map[1 := Handler(0)] && NonePending(p)
    modifies p`pending, p`mask, p`active, p.saveMask
    ensures p.Shaped() && p.active == [Active(1, 0)] && NonePending(p)
    ensures Bit(p.mask, 2) && !Bit(p.mask, 1)
  {
    forall t: nat | t < WORD_BITS ensures !Bit(0, t) { ConstBits(t); }
    SignalOne(p);
    p.SetMasked(2, true);
    p.SetMasked(1, false);
  }

  ghost predicate NonePending(p: Pcb)
    reads p
  {
    forall t: nat :: t < WORD_BITS ==> !Bit(p.pending, t)
  }

  // Signal 1 arrives, the only one pending, and its handler is entered.
  method SignalOne(p: Pcb)
    requires p.Shaped() && NonePending(p) && 1 in p.handlers && !Bit(p.mask, 1)
    modifies p`pending, p`mask, p`active, p.saveMask
    ensures p.Shaped() && NonePending(p)
    ensures Delivers(p.handlers, old(p.Now()), 1, p.Now())
  {
    p.SetPending(1, true);
    assert Deliverable(p.pending, p.mask, 1);
    var s := p.Handle();
    assert s == 1;
  }
}
