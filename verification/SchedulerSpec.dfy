/**
  The round-robin scheduler (NeilOS/kernel/program/task.c) on snapshots of the task list:
  the ring of threads, the choice of the next thread, and why no ready thread starves.
*/
module SchedulerSpec {
  import opened Wrappers

  datatype ThreadState = UNLOADED | SUSPENDED | READY | RUNNING | FINISHED

  // A listed task: the state of its pcb and of its threads, in list order.
  datatype Task = Task(state: ThreadState, threads: seq<ThreadState>)

  // Thread j of task i.
  type Position = (nat, nat)

  predicate At(tasks: seq<Task>, p: Position) {
    p.0 < |tasks| && p.1 < |tasks[p.0].threads|
  }

  // The walk restarts at the head of the list, so the head task must have a thread.
  predicate Ring(tasks: seq<Task>) {
    |tasks| > 0 && |tasks[0].threads| > 0
  }

  // ----- the order of the walk -----

  // The first thread of task k or of the next one that has any, else the head of the list.
  function FirstFrom(tasks: seq<Task>, k: nat): (p: Position)
    requires Ring(tasks) && k <= |tasks|
    ensures At(tasks, p)
    decreases |tasks| - k
  {
    if k == |tasks| then (0, 0)
    else if |tasks[k].threads| > 0 then (k, 0)
    else FirstFrom(tasks, k + 1)
  }

  function Next(tasks: seq<Task>, p: Position): (q: Position)
    requires Ring(tasks) && At(tasks, p)
    ensures At(tasks, q)
  {
    if p.1 + 1 < |tasks[p.0].threads| then (p.0, p.1 + 1) else FirstFrom(tasks, p.0 + 1)
  }

  // Threads of the tasks before task k.
  function Before(tasks: seq<Task>, k: nat): nat
    requires k <= |tasks|
  {
    if k == 0 then 0 else Before(tasks, k - 1) + |tasks[k - 1].threads|
  }

  function Size(tasks: seq<Task>): nat { Before(tasks, |tasks|) }

  // The number of a thread in the ring.
  function Number(tasks: seq<Task>, p: Position): nat
    requires At(tasks, p)
  {
    Before(tasks, p.0) + p.1
  }

  // Steps of the walk from a to b.
  function Distance(tasks: seq<Task>, a: Position, b: Position): int
    requires At(tasks, a) && At(tasks, b)
  {
    if Number(tasks, a) <= Number(tasks, b) then Number(tasks, b) - Number(tasks, a)
    else Number(tasks, b) - Number(tasks, a) + Size(tasks)
  }

  lemma {:induction false} BeforeGrows(tasks: seq<Task>, i: nat, k: nat)
    requires i <= k <= |tasks|
    ensures Before(tasks, i) <= Before(tasks, k)
  {
    if i < k { BeforeGrows(tasks, i, k - 1); }
  }

  lemma NumberInRange(tasks: seq<Task>, p: Position)
    requires At(tasks, p)
    ensures Number(tasks, p) < Size(tasks)
  {
    BeforeGrows(tasks, p.0 + 1, |tasks|);
  }

  // Every thread has its own number.
  lemma NumberIsUnique(tasks: seq<Task>, p: Position, q: Position)
    requires At(tasks, p) && At(tasks, q) && Number(tasks, p) == Number(tasks, q)
    ensures p == q
  {
    if p.0 < q.0 { BeforeGrows(tasks, p.0 + 1, q.0); }
    if q.0 < p.0 { BeforeGrows(tasks, q.0 + 1, p.0); }
  }

  lemma {:induction false} FirstFromNumber(tasks: seq<Task>, k: nat)
    requires Ring(tasks) && k <= |tasks|
    ensures Number(tasks, FirstFrom(tasks, k)) == if Before(tasks, k) == Size(tasks) then 0 else Before(tasks, k)
    decreases |tasks| - k
  {
    if k < |tasks| {
      if |tasks[k].threads| > 0 {
        BeforeGrows(tasks, k + 1, |tasks|);
      } else {
        FirstFromNumber(tasks, k + 1);
      }
    }
  }

  // The walk counts round the ring.
  lemma NextNumber(tasks: seq<Task>, p: Position)
    requires Ring(tasks) && At(tasks, p)
    ensures Number(tasks, Next(tasks, p)) ==
      if Number(tasks, p) + 1 == Size(tasks) then 0 else Number(tasks, p) + 1
  {
    NumberInRange(tasks, p);
    if p.1 + 1 < |tasks[p.0].threads| {
      NumberInRange(tasks, Next(tasks, p));
    } else {
      FirstFromNumber(tasks, p.0 + 1);
    }
  }

  // One step from a is one step nearer to everything but a.
  lemma NextIsNearer(tasks: seq<Task>, a: Position, b: Position)
    requires Ring(tasks) && At(tasks, a) && At(tasks, b)
    ensures 0 <= Distance(tasks, a, b) < Size(tasks)
    ensures Distance(tasks, a, b) == 0 <==> a == b
    ensures a != b ==> Distance(tasks, Next(tasks, a), b) == Distance(tasks, a, b) - 1
    ensures a == b ==> Distance(tasks, Next(tasks, a), b) == Size(tasks) - 1
  {
    NextNumber(tasks, a);
    NumberInRange(tasks, a);
    NumberInRange(tasks, b);
    if Number(tasks, a) == Number(tasks, b) { NumberIsUnique(tasks, a, b); }
  }

  // One step on is one step further from where the walk began, until it is back there.
  lemma WalkOn(tasks: seq<Task>, start: Position, t: Position)
    requires Ring(tasks) && At(tasks, start) && At(tasks, t)
    ensures 0 <= Distance(tasks, start, t) < Size(tasks)
    ensures Next(tasks, t) == start ==> Distance(tasks, start, t) == Size(tasks) - 1
    ensures Next(tasks, t) != start ==> Distance(tasks, start, Next(tasks, t)) == Distance(tasks, start, t) + 1
  {
    NextNumber(tasks, t);
    NumberInRange(tasks, start);
    NumberInRange(tasks, t);
    if Number(tasks, Next(tasks, t)) == Number(tasks, start) { NumberIsUnique(tasks, Next(tasks, t), start); }
  }

  // ----- the choice -----

  predicate Live(s: ThreadState) { s == READY || s == RUNNING }

  predicate Runnable(tasks: seq<Task>, p: Position)
    requires At(tasks, p)
  {
    tasks[p.0].threads[p.1] == READY && Live(tasks[p.0].state)
  }

  lemma DistanceIsUnique(tasks: seq<Task>, start: Position, p: Position, q: Position)
    requires At(tasks, start) && At(tasks, p) && At(tasks, q)
    requires Distance(tasks, start, p) == Distance(tasks, start, q)
    ensures p == q
  {
    NumberInRange(tasks, p);
    NumberInRange(tasks, q);
    NumberInRange(tasks, start);
    NumberIsUnique(tasks, p, q);
  }

  // No runnable thread is nearer than n steps.
  ghost predicate NoneNearer(tasks: seq<Task>, start: Position, n: int)
    requires At(tasks, start)
  {
    forall q :: At(tasks, q) && Runnable(tasks, q) ==> n <= Distance(tasks, start, q)
  }

  lemma NoneNearerThanHere(tasks: seq<Task>, start: Position)
    requires At(tasks, start)
    ensures NoneNearer(tasks, start, 0)
  {
    forall q | At(tasks, q) ensures 0 <= Distance(tasks, start, q) { NumberInRange(tasks, start); }
  }

  lemma PassBy(tasks: seq<Task>, start: Position, t: Position)
    requires At(tasks, start) && At(tasks, t) && !Runnable(tasks, t)
    requires NoneNearer(tasks, start, Distance(tasks, start, t))
    ensures NoneNearer(tasks, start, Distance(tasks, start, t) + 1)
  {
    forall q | At(tasks, q) && Runnable(tasks, q) ensures Distance(tasks, start, t) + 1 <= Distance(tasks, start, q) {
      if Distance(tasks, start, q) == Distance(tasks, start, t) { DistanceIsUnique(tasks, start, q, t); }
    }
  }

  lemma NoneAtAll(tasks: seq<Task>, start: Position)
    requires Ring(tasks) && At(tasks, start) && NoneNearer(tasks, start, Size(tasks))
    ensures forall q :: At(tasks, q) ==> !Runnable(tasks, q)
  {
    forall q | At(tasks, q) ensures !Runnable(tasks, q) { WalkOn(tasks, start, q); }
  }

  // The answer of get_next_runnable_thread for a walk from `start`: the nearest runnable
  // thread, or else the start itself if it is the one running.
  ghost predicate IsNextRunnable(tasks: seq<Task>, start: Position, r: Option<Position>)
    requires At(tasks, start)
  {
    if exists q :: At(tasks, q) && Runnable(tasks, q) then
      && r.Some? && At(tasks, r.value) && Runnable(tasks, r.value)
      && forall q :: At(tasks, q) && Runnable(tasks, q) ==>
           Distance(tasks, start, r.value) <= Distance(tasks, start, q)
    else
      r == if tasks[start.0].threads[start.1] == RUNNING && Live(tasks[start.0].state) then Some(start) else None
  }

  // The walk starts at the current thread itself, so one that is runnable is chosen again.
  lemma ReadyCurrentKeepsTheProcessor(tasks: seq<Task>, start: Position, r: Option<Position>)
    requires Ring(tasks) && At(tasks, start) && Runnable(tasks, start) && IsNextRunnable(tasks, start, r)
    ensures r == Some(start)
  {
    NextIsNearer(tasks, start, start);
    NextIsNearer(tasks, start, r.value);
  }

  // context_switch, for the states
  function Switch(tasks: seq<Task>, from: Position, to: Position): seq<Task>
    requires At(tasks, from) && At(tasks, to)
  {
    var left := SetThread(tasks, from, if tasks[from.0].threads[from.1] == FINISHED then FINISHED else READY, READY);
    if left[to.0].threads[to.1] == UNLOADED then left else SetThread(left, to, RUNNING, RUNNING)
  }

  function SetThread(tasks: seq<Task>, p: Position, thread: ThreadState, task: ThreadState): (r: seq<Task>)
    requires At(tasks, p)
    ensures |r| == |tasks| && forall i :: 0 <= i < |r| ==> |r[i].threads| == |tasks[i].threads|
  {
    tasks[p.0 := Task(task, tasks[p.0].threads[p.1 := thread])]
  }

  // ----- what a switch does to the threads -----

  predicate CanRun(tasks: seq<Task>, p: Position)
    requires At(tasks, p)
  {
    Live(tasks[p.0].threads[p.1]) && Live(tasks[p.0].state)
  }

  // The same threads can run in both.
  ghost predicate SameCanRun(a: seq<Task>, b: seq<Task>) {
    forall p: Position :: At(a, p) && At(b, p) ==> (CanRun(a, p) <==> CanRun(b, p))
  }

  // Some other thread of its task is READY or RUNNING.
  ghost predicate HasLiveSibling(tasks: seq<Task>, p: Position)
    requires At(tasks, p)
  {
    exists j :: 0 <= j < |tasks[p.0].threads| && j != p.1 && Live(tasks[p.0].threads[j])
  }

  // Thread by thread: what the two threads of a switch and their tasks become.
  lemma SwitchStates(tasks: seq<Task>, from: Position, to: Position, p: Position)
    requires At(tasks, from) && At(tasks, to) && from != to && At(tasks, p)
    ensures SameRing(tasks, Switch(tasks, from, to)) && At(Switch(tasks, from, to), p)
    ensures var loaded := tasks[to.0].threads[to.1] != UNLOADED;
      && Switch(tasks, from, to)[p.0].threads[p.1] ==
         (if p == to && loaded then RUNNING
          else if p == from && tasks[p.0].threads[p.1] != FINISHED then READY
          else tasks[p.0].threads[p.1])
      && Switch(tasks, from, to)[p.0].state ==
         (if p.0 == to.0 && loaded then RUNNING else if p.0 == from.0 then READY else tasks[p.0].state)
  {
  }

  // The processor went from one thread to another: if the first can run, the same threads can run
  // as before; just the other one starts running, and only the first stops; no thread that has
  // finished comes back.
  ghost predicate Passed(a: seq<Task>, from: Position, b: seq<Task>, to: Position)
    requires At(a, from)
  {
    && SameRing(a, b) && (CanRun(a, from) ==> SameCanRun(a, b))
    && (forall p: Position :: At(a, p) && At(b, p) ==>
      && (b[p.0].threads[p.1] == RUNNING <==> p == to || (a[p.0].threads[p.1] == RUNNING && p != from))
      && (a[p.0].threads[p.1] == FINISHED ==> b[p.0].threads[p.1] == FINISHED))
  }

  /** A switch to a runnable thread loses nobody and revives nobody, if the thread it leaves can
      run; in any case just one thread starts and at most one stops running. */
  lemma SwitchLosesNobody(tasks: seq<Task>, from: Position, to: Position)
    requires At(tasks, from) && At(tasks, to) && from != to && Runnable(tasks, to)
    ensures Passed(tasks, from, Switch(tasks, from, to), to)
  {
    var after := Switch(tasks, from, to);
    forall p: Position | At(tasks, p)
      ensures At(after, p) && (CanRun(tasks, from) ==> (CanRun(after, p) <==> CanRun(tasks, p)))
      ensures after[p.0].threads[p.1] == RUNNING <==> p == to || (tasks[p.0].threads[p.1] == RUNNING && p != from)
      ensures tasks[p.0].threads[p.1] == FINISHED ==> after[p.0].threads[p.1] == FINISHED
    {
      SwitchStates(tasks, from, to, p);
    }
    SwitchStates(tasks, from, to, to);
  }

  /** Exactly when a switch keeps who can run: the thread it leaves can run or has finished, and
      the task it leaves is live, or has no other thread that is. */
  lemma SwitchKeepsIff(tasks: seq<Task>, from: Position, to: Position)
    requires At(tasks, from) && At(tasks, to) && from != to && Runnable(tasks, to)
    ensures SameCanRun(tasks, Switch(tasks, from, to)) <==>
      && (CanRun(tasks, from) || tasks[from.0].threads[from.1] == FINISHED)
      && (Live(tasks[from.0].state) || !HasLiveSibling(tasks, from))
  {
    var after, task := Switch(tasks, from, to), tasks[from.0];
    forall p: Position | At(tasks, p) ensures At(after, p) && (CanRun(after, p) <==> CanRunAfter(tasks, from, p)) {
      SwitchStates(tasks, from, to, p);
    }
    assert CanRun(after, from) <==> task.threads[from.1] != FINISHED;
    if j :| 0 <= j < |task.threads| && j != from.1 && Live(task.threads[j]) {
      assert At(tasks, (from.0, j)) && CanRun(after, (from.0, j));
      assert CanRun(tasks, (from.0, j)) <==> Live(task.state);
    }
  }

  // Whether a thread can run after the switch.
  predicate CanRunAfter(tasks: seq<Task>, from: Position, p: Position)
    requires At(tasks, from) && At(tasks, p)
  {
    if p == from then tasks[p.0].threads[p.1] != FINISHED
    else if p.0 == from.0 then Live(tasks[p.0].threads[p.1])
    else CanRun(tasks, p)
  }

  /** The input on which it fails: a task stops itself, by the default action of a signal, and the
      next tick, which finds another task to run, makes it runnable again. */
  lemma StoppedTaskGoesOn(other: seq<ThreadState>)
    ensures var tasks := [Task(SUSPENDED, [RUNNING]), Task(READY, [READY] + other)];
      var after := Switch(tasks, (0, 0), (1, 0));
      && Ring(tasks) && IsNextRunnable(tasks, (0, 0), Some((1, 0)))
      && !CanRun(tasks, (0, 0)) && Runnable(after, (0, 0))
  {
    var tasks := [Task(SUSPENDED, [RUNNING]), Task(READY, [READY] + other)];
    assert Runnable(tasks, (1, 0));
    SwitchStates(tasks, (0, 0), (1, 0), (0, 0));
    assert Before(tasks, 1) == 1 && Before(tasks, 0) == 0;
    forall q: Position | At(tasks, q) && Runnable(tasks, q) ensures Distance(tasks, (0, 0), (1, 0)) <= Distance(tasks, (0, 0), q) {
      assert q.0 == 1;
      NumberInRange(tasks, q);
    }
  }

  // ----- no starvation -----

  // What the scheduler sees at a tick: the list, and the current thread.
  datatype Moment = Moment(tasks: seq<Task>, current: Position)

  predicate SameRing(a: seq<Task>, b: seq<Task>) {
    |a| == |b| && forall i :: 0 <= i < |a| ==> |a[i].threads| == |b[i].threads|
  }

  // From one tick to the next the scheduler has chosen; meanwhile any state may have
  // changed, by the switch, by the threads that ran, or by interrupts.
  ghost predicate Ticks(m: Moment, n: Moment)
    requires At(m.tasks, m.current)
  {
    && SameRing(m.tasks, n.tasks)
    && (IsNextRunnable(m.tasks, m.current, Some(n.current))
        || (IsNextRunnable(m.tasks, m.current, None) && n.current == m.current))
  }

  lemma {:induction false} SameNumbers(a: seq<Task>, b: seq<Task>, k: nat)
    requires SameRing(a, b) && k <= |a|
    ensures Before(a, k) == Before(b, k)
  {
    if k > 0 { SameNumbers(a, b, k - 1); }
  }

  // The walk passes no runnable thread.
  lemma NearestLiesBetween(tasks: seq<Task>, a: Position, r: Position, u: Position)
    requires At(tasks, a) && At(tasks, r) && At(tasks, u)
    requires Distance(tasks, a, r) <= Distance(tasks, a, u)
    ensures Distance(tasks, r, u) == Distance(tasks, a, u) - Distance(tasks, a, r)
  {
    NumberInRange(tasks, a);
    NumberInRange(tasks, r);
    NumberInRange(tasks, u);
  }

  /** A tick brings the processor nearer to a waiting thread exactly when the current thread is
      not itself runnable. */
  lemma TickComesNearer(m: Moment, n: Moment, u: Position)
    requires Ring(m.tasks) && At(m.tasks, m.current) && At(m.tasks, u) && Ticks(m, n)
    requires Runnable(m.tasks, u) && u != m.current
    ensures At(n.tasks, n.current) && At(n.tasks, u)
    ensures Distance(n.tasks, n.current, u) < Distance(m.tasks, m.current, u) <==> !Runnable(m.tasks, m.current)
  {
    var r := n.current;
    assert IsNextRunnable(m.tasks, m.current, Some(r));
    SameNumbers(m.tasks, n.tasks, u.0);
    SameNumbers(m.tasks, n.tasks, r.0);
    SameNumbers(m.tasks, n.tasks, |m.tasks|);
    if Runnable(m.tasks, m.current) {
      ReadyCurrentKeepsTheProcessor(m.tasks, m.current, Some(r));
    } else {
      assert r != m.current;
      NearestLiesBetween(m.tasks, m.current, r, u);
      NextIsNearer(m.tasks, m.current, r);
    }
  }

  /** A current thread that stays runnable starves all others: for any number of ticks this is a
      run in which every other runnable thread waits. */
  lemma RunnableCurrentStarves(m: Moment, n: nat, u: Position)
    requires Ring(m.tasks) && At(m.tasks, m.current) && Runnable(m.tasks, m.current)
    requires At(m.tasks, u) && Runnable(m.tasks, u) && u != m.current
    ensures var run := seq(n, _ => m);
      && (forall k :: 0 <= k < n - 1 ==> Ticks(run[k], run[k + 1]))
      && (forall k :: 0 <= k < n ==> Runnable(run[k].tasks, u) && run[k].current != u)
  {
    var c := m.current;
    forall q | At(m.tasks, q) ensures Distance(m.tasks, c, c) <= Distance(m.tasks, c, q) {
      NextIsNearer(m.tasks, c, c);
      NextIsNearer(m.tasks, c, q);
    }
    assert IsNextRunnable(m.tasks, c, Some(c));
  }

  // ----- runs in which threads also come and go -----

  // Between these ticks nothing was listed or unlisted: the thread we follow is where it was,
  // and the scheduler chose.
  ghost predicate Quiet(run: seq<Moment>, us: seq<Position>, k: nat)
    requires k + 1 < |run| == |us|
  {
    At(run[k].tasks, run[k].current) && Ticks(run[k], run[k + 1]) && us[k + 1] == us[k]
  }

  // The scheduler's moments, and where the thread we follow is in each.  No current thread is
  // runnable besides running, and while ours is not current it is runnable.
  ghost predicate Waits(run: seq<Moment>, us: seq<Position>) {
    && |run| == |us|
    && (forall k :: 0 <= k < |run| ==>
      && Ring(run[k].tasks) && At(run[k].tasks, run[k].current) && At(run[k].tasks, us[k])
      && !Runnable(run[k].tasks, run[k].current)
      && (run[k].current != us[k] ==>
        var task := run[k].tasks[us[k].0];
        task.threads[us[k].1] == READY && (task.state == READY || task.state == RUNNING)))
  }

  // How often the list changed: a thread or task was listed or ended, or a thread was switched
  // to directly.  Anything may have happened then to the list and the current thread.
  ghost function Changes(run: seq<Moment>, us: seq<Position>): nat
    requires |run| == |us|
  {
    if |run| <= 1 then 0 else (if Quiet(run, us, 0) then 0 else 1) + Changes(run[1..], us[1..])
  }

  // A moment later it is one tick nearer, or the list changed.
  lemma TickOrChange(run: seq<Moment>, us: seq<Position>, size: nat)
    requires Waits(run, us) && |run| > 1 && run[0].current != us[0]
    requires forall k :: 0 <= k < |run| ==> Size(run[k].tasks) <= size
    ensures var now, next := Distance(run[0].tasks, run[0].current, us[0]), Distance(run[1].tasks, run[1].current, us[1]);
      && 0 <= next
      && next + Changes(run[1..], us[1..]) * size < now + Changes(run, us) * size
  {
    NextIsNearer(run[0].tasks, run[0].current, us[0]);
    NextIsNearer(run[1].tasks, run[1].current, us[1]);
    OneChange(Changes(run, us), Changes(run[1..], us[1..]), size, Quiet(run, us, 0));
    if Quiet(run, us, 0) { TickComesNearer(run[0], run[1], us[0]); }
  }

  // The thread we follow is the current one within n ticks.
  ghost predicate HasTurn(run: seq<Moment>, us: seq<Position>, n: int)
    requires |run| == |us|
  {
    exists k :: 0 <= k <= n && k < |run| && run[k].current == us[k]
  }

  lemma TurnLater(run: seq<Moment>, us: seq<Position>, m: int, n: int)
    requires |run| == |us| > 0 && HasTurn(run[1..], us[1..], m) && m < n
    ensures HasTurn(run, us, n)
  {
    var k :| 0 <= k <= m && k < |run[1..]| && run[1..][k].current == us[1..][k];
    assert run[k + 1].current == us[k + 1];
  }

  /** Within its distance in the ring, and one turn of the ring for every change of the list. */
  lemma {:induction false} RunsWithin(run: seq<Moment>, us: seq<Position>, size: nat)
    requires Waits(run, us) && forall k :: 0 <= k < |run| ==> Size(run[k].tasks) <= size
    requires |run| > 0 && |run| > Distance(run[0].tasks, run[0].current, us[0]) + Changes(run, us) * size
    ensures HasTurn(run, us, Distance(run[0].tasks, run[0].current, us[0]) + Changes(run, us) * size)
    decreases |run|
  {
    NextIsNearer(run[0].tasks, run[0].current, us[0]);
    if run[0].current != us[0] {
      Later(run, us);
      TickOrChange(run, us, size);
      RunsWithin(run[1..], us[1..], size);
      TurnLater(run, us, Distance(run[1].tasks, run[1].current, us[1]) + Changes(run[1..], us[1..]) * size,
                Distance(run[0].tasks, run[0].current, us[0]) + Changes(run, us) * size);
    }
  }

  lemma Later(run: seq<Moment>, us: seq<Position>)
    requires Waits(run, us) && |run| > 0
    ensures Waits(run[1..], us[1..])
  {
  }

  // A change costs one turn of the ring.
  lemma OneChange(all: nat, rest: nat, size: nat, quiet: bool)
    requires all == (if quiet then 0 else 1) + rest
    ensures all * size == rest * size + if quiet then 0 else size
  {
  }

  /** Round robin starves nobody: a thread that stays READY in a live task until its turn is
      the current thread within as many ticks as there are threads, and as many more for every
      change of the list, whatever else happens to any thread's state. */
  lemma NoStarvation(run: seq<Moment>, us: seq<Position>, size: nat)
    requires Waits(run, us) && forall k :: 0 <= k < |run| ==> Size(run[k].tasks) <= size
    requires |run| > 0 && |run| >= (Changes(run, us) + 1) * size
    ensures HasTurn(run, us, (Changes(run, us) + 1) * size - 1)
  {
    NextIsNearer(run[0].tasks, run[0].current, us[0]);
    OneChange(Changes(run, us) + 1, Changes(run, us), size, false);
    RunsWithin(run, us, size);
  }

  lemma {:induction false} UnchangedNoChanges(run: seq<Moment>, us: seq<Position>)
    requires Waits(run, us)
    requires forall k: nat :: k + 1 < |run| ==> Quiet(run, us, k)
    ensures Changes(run, us) == 0
    decreases |run|
  {
    if |run| > 1 {
      var rest, vs := run[1..], us[1..];
      forall k: nat | k + 1 < |rest| ensures Quiet(rest, vs, k) { assert Quiet(run, us, k + 1); }
      assert Quiet(run, us, 0);
      UnchangedNoChanges(rest, vs);
    }
  }

  /** In particular, while nothing is listed or unlisted, within as many ticks as there are
      threads. */
  lemma TurnInOneRound(run: seq<Moment>, u: Position)
    requires |run| > 0 && Waits(run, seq(|run|, _ => u)) && |run| >= Size(run[0].tasks)
    requires forall k :: 0 <= k < |run| - 1 ==> Ticks(run[k], run[k + 1])
    ensures exists k :: 0 <= k < Size(run[0].tasks) && k < |run| && run[k].current == u
  {
    var us: seq<Position> := seq(|run|, _ => u);
    forall k: nat | k + 1 < |run| ensures Quiet(run, us, k) { assert Ticks(run[k], run[k + 1]); }
    UnchangedNoChanges(run, us);
    SameSizes(run, |run| - 1);
    var size := Size(run[0].tasks);
    assert Changes(run, us) == 0;
    NextIsNearer(run[0].tasks, run[0].current, us[0]);
    RunsWithin(run, us, size);
    var k :| 0 <= k <= size - 1 && k < |run| && run[k].current == us[k];
  }

  lemma {:induction false} SameSizes(run: seq<Moment>, n: nat)
    requires n < |run| && forall k :: 0 <= k < |run| ==> At(run[k].tasks, run[k].current)
    requires forall k :: 0 <= k < |run| - 1 ==> Ticks(run[k], run[k + 1])
    ensures forall k :: 0 <= k <= n ==> Size(run[k].tasks) == Size(run[0].tasks)
  {
    if n > 0 {
      SameSizes(run, n - 1);
      assert Ticks(run[n - 1], run[n]);
      SameNumbers(run[n - 1].tasks, run[n].tasks, |run[n].tasks|);
    }
  }
}
