/**
  The scheduler itself (NeilOS/kernel/program/task.c): the walk for the next runnable
  thread, and the switch, which sets thread and task states in place.  `Scheduler.Snapshot()`
  is the list `SchedulerSpec` reasons about.
*/
module SchedulerHeap {
  import opened Wrappers
  import opened SchedulerSpec

  class Thread {
    var state: ThreadState

    constructor (state: ThreadState)
      ensures this.state == state
    {
      this.state := state;
    }
  }

  class Pcb {
    var state: ThreadState
    const threads: seq<Thread>

    constructor (state: ThreadState, threads: seq<Thread>)
      ensures this.state == state && this.threads == threads
    {
      this.state, this.threads := state, threads;
    }

    ghost function Value(): Task
      reads this, threads
    {
      Task(state, seq(|threads|, j requires 0 <= j < |threads| reads this, threads => threads[j].state))
    }
  }

  class Scheduler {
    const tasks: seq<Pcb>
    var current: Position

    constructor (tasks: seq<Pcb>, current: Position)
      ensures this.tasks == tasks && this.current == current
    {
      this.tasks, this.current := tasks, current;
    }

    ghost function Objects(): set<object>
      reads tasks
    {
      (set i | 0 <= i < |tasks| :: tasks[i] as object)
      + (set i, j | 0 <= i < |tasks| && 0 <= j < |tasks[i].threads| :: tasks[i].threads[j] as object)
    }

    // Every pcb and every thread is listed once.
    ghost predicate Valid()
      reads this, Objects()
    {
      && (forall i, k :: 0 <= i < k < |tasks| ==> tasks[i] != tasks[k])
      && (forall i, j, k, l ::
            (0 <= i < |tasks| && 0 <= j < |tasks[i].threads| && 0 <= k < |tasks| && 0 <= l < |tasks[k].threads|
             && tasks[i].threads[j] == tasks[k].threads[l]) ==> i == k && j == l)
      && this as object !in Objects()
    }

    ghost function Snapshot(): seq<Task>
      reads this, Objects()
    {
      seq(|tasks|, i requires 0 <= i < |tasks| reads this, Objects() => tasks[i].Value())
    }

    // t = t->next, and at the end of a task's threads on to the next task that has any,
    // or back to the head of the list.
    method Advance(t: Position) returns (q: Position)
      requires Ring(Snapshot()) && At(Snapshot(), t)
      ensures q == Next(Snapshot(), t)
    {
      assert Snapshot()[t.0] == tasks[t.0].Value();
      if t.1 + 1 < |tasks[t.0].threads| {
        return (t.0, t.1 + 1);
      }
      var k := t.0 + 1;
      while k < |tasks| && |tasks[k].threads| == 0
        invariant t.0 < k <= |tasks|
        invariant FirstFrom(Snapshot(), t.0 + 1) == FirstFrom(Snapshot(), k)
      {
        assert Snapshot()[k] == tasks[k].Value();
        k := k + 1;
      }
      if k < |tasks| {
        assert Snapshot()[k] == tasks[k].Value();
        return (k, 0);
      }
      return (0, 0);
    }

    // get_next_runnable_thread; the hint is a thread of a listed task, or nothing.
    method GetNextRunnableThread(hint: Option<Position>) returns (r: Option<Position>)
      requires hint.Some? ==> Ring(Snapshot()) && At(Snapshot(), hint.value)
      ensures !Ring(Snapshot()) ==> r == None
      ensures Ring(Snapshot()) ==> IsNextRunnable(Snapshot(), if hint.Some? then hint.value else (0, 0), r)
    {
      ghost var s := Snapshot();
      assert |s| > 0 ==> s[0] == tasks[0].Value();
      if hint.None? && (|tasks| == 0 || |tasks[0].threads| == 0) {
        return None;
      }
      var start: Position := if hint.Some? then hint.value else (0, 0);
      var t: Position := start;
      ghost var n := 0;
      NoneNearerThanHere(s, start);
      while true
        invariant s == Snapshot() && At(s, t) && n == Distance(s, start, t)
        invariant NoneNearer(s, start, n)
        decreases Size(s) - n
      {
        assert s[t.0] == tasks[t.0].Value();
        WalkOn(s, start, t);
        if tasks[t.0].threads[t.1].state == READY && Live(tasks[t.0].state) {
          assert At(s, t) && Runnable(s, t);
          return Some(t);
        }
        PassBy(s, start, t);
        ghost var prev := t;
        t := Advance(t);
        assert s == Snapshot();
        assert t == Next(s, prev);
        n := n + 1;
        if t == start {
          break;
        }
      }
      NoneAtAll(s, start);
      assert s[t.0] == tasks[t.0].Value() && !Runnable(s, start);
      if Live(tasks[t.0].threads[t.1].state) && Live(tasks[t.0].state) {
        return Some(t);
      }
      return None;
    }

    method SetStates(p: Position, thread: ThreadState, task: ThreadState)
      requires Valid() && At(Snapshot(), p)
      modifies tasks[p.0], tasks[p.0].threads[p.1]
      ensures Valid() && Snapshot() == SetThread(old(Snapshot()), p, thread, task)
    {
      ghost var was := Snapshot();
      assert was[p.0] == tasks[p.0].Value();
      tasks[p.0].state := task;
      tasks[p.0].threads[p.1].state := thread;
      forall i | 0 <= i < |tasks| ensures Snapshot()[i] == SetThread(was, p, thread, task)[i] {
        assert Snapshot()[i] == tasks[i].Value();
        assert was[i] == old(tasks[i].Value());
      }
    }

    // context_switch, without the registers
    method ContextSwitch(to: Position)
      requires Valid() && At(Snapshot(), current) && At(Snapshot(), to)
      modifies this`current, Objects()
      ensures Valid() && current == to
      ensures Snapshot() == if old(current) == to then old(Snapshot()) else Switch(old(Snapshot()), old(current), to)
      ensures old(current) != to && Runnable(old(Snapshot()), to) ==>
        Passed(old(Snapshot()), old(current), Snapshot(), to)
    {
      ghost var was := Snapshot();
      var from := current;
      if from == to {
        return;
      }
      current := to;
      assert Snapshot()[from.0] == tasks[from.0].Value();
      SetStates(from, if tasks[from.0].threads[from.1].state == FINISHED then FINISHED else READY, READY);
      assert Snapshot()[to.0] == tasks[to.0].Value();
      if tasks[to.0].threads[to.1].state != UNLOADED {
        SetStates(to, RUNNING, RUNNING);
      }
      if Runnable(was, to) { SwitchLosesNobody(was, from, to); }
    }

    // schedule, on a timer tick with no signal pending
    method Schedule()
      requires Valid() && Ring(Snapshot()) && At(Snapshot(), current)
      modifies this`current, Objects()
      ensures Valid()
      ensures At(Snapshot(), current)
      ensures Ticks(Moment(old(Snapshot()), old(current)), Moment(Snapshot(), current))
      ensures current != old(current) ==>
        && Snapshot() == Switch(old(Snapshot()), old(current), current)
        && Snapshot()[current.0].threads[current.1] == RUNNING
        && Passed(old(Snapshot()), old(current), Snapshot(), current)
      ensures current == old(current) ==> Snapshot() == old(Snapshot())
      ensures !Runnable(old(Snapshot()), old(current)) ==> !Runnable(Snapshot(), current)
    {
      var next := GetNextRunnableThread(Some(current));
      if next.Some? && next.value != current {
        ContextSwitch(next.value);
      }
    }
  }
}
