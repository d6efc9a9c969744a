/** The FreeRTOS scheduler: ready lists, the two delay lists around the wrap of the tick counter, the
    pending ready list, and the ticks and yields that come while it is suspended. */
module RtosScheduler {
  import opened RtosList
  import opened RtosTables
  import opened RtosTheory
  import opened RtosWakeTime

  class Scheduler {
    const canSuspend: bool         // INCLUDE_vTaskSuspend: a wait of the largest value is unlimited
    const idle: Task

    var gen: Generic               // the lists of xGenericListItem
    var ev: Events                 // the lists of xEventListItem
    var prio: map<Task, nat>       // uxPriority
    var base: map<Task, nat>       // uxBasePriority
    var wake: map<Task, Tick>      // xItemValue of xGenericListItem
    var evValue: map<Task, Tick>   // xItemValue of xEventListItem
    var current: Task
    var topReady: nat
    var tick: Tick
    var numOverflows: Tick
    var delayFirst: bool           // pxDelayedTaskList points to the first delay list
    var suspended: nat
    var missedTicks: nat
    var missedYield: bool
    var numTasks: nat
    var tasksDeleted: nat
    var yieldPending: bool         // a context switch interrupt is pending

    ghost var epoch: nat           // unbounded number of tick counter wraps
    ghost var wakeAt: map<Task, nat>
    ghost var disturbed: set<nat>  // event lists in which a task did not get the place of its priority, or changed it since
    ghost var owed: bool           // a yield has been asked for, and no switch has been made since
    ghost var mustYield: bool      // the code that called the scheduler has yet to ask for a yield

    /** The number of ticks counted so far. */
    ghost function Now(): nat
      reads this`epoch, this`tick
    {
      epoch * WRAP + tick
    }

    /** What decides about waking. */
    ghost function Snapshot(): Moment
      reads this`gen, this`ev, this`prio, this`wakeAt, this`epoch, this`tick, this`missedTicks
    {
      Moment(gen, ev, prio, wakeAt, Now(), missedTicks)
    }

    ghost predicate Valid()
      reads this
    {
      Core() && Tcbs() && Counted() && Clocked() && Yields() && Preempted() && Queued()
    }

    ghost predicate Core()
      reads this`gen, this`ev, this`prio, this`topReady, this`wake, this`suspended
    {
      && CoreOk(gen, ev, prio, topReady, wake)
      && (suspended == 0 ==> NonePending(ev))
    }

    ghost predicate Tcbs()
      reads this`gen, this`base, this`evValue, this`current
    {
      TcbsOk(gen.at, base, evValue, idle, current)
    }

    ghost predicate Queued()
      reads this`ev, this`prio, this`base, this`evValue, this`disturbed
    {
      QueuesOk(ev, prio, base, evValue, disturbed)
    }

    ghost predicate Counted()
      reads this`gen, this`numTasks, this`tasksDeleted
    {
      CountedOk(gen, numTasks, tasksDeleted)
    }

    ghost predicate Clocked()
      reads this`gen, this`delayFirst, this`wake, this`wakeAt, this`epoch, this`tick, this`numOverflows
    {
      ClockOk(gen.at, delayFirst, wake, wakeAt, epoch, tick, 0) && numOverflows == epoch % WRAP
    }

    /** A yield that was asked for is pending, or waits for the scheduler to be resumed, and so do ticks. */
    ghost predicate Yields()
      reads this`owed, this`yieldPending, this`missedYield, this`suspended, this`missedTicks
    {
      (owed ==> yieldPending || missedYield) && (missedYield || missedTicks > 0 ==> suspended > 0)
    }

    /** Unless a switch is on its way, the running task is ready and of maximal priority. */
    ghost predicate Preempted()
      reads this`gen, this`prio, this`current, this`yieldPending, this`missedYield, this`mustYield
    {
      yieldPending || missedYield || mustYield || IsTop(gen.at, prio, current)
    }

    /** The scheduler as vTaskStartScheduler starts it with no task but the idle task. */
    constructor (idle: Task, canSuspend: bool)
      ensures Valid() && this.canSuspend == canSuspend && this.idle == idle && current == idle && suspended == 0 && Now() == 0 && numTasks == 1
      ensures !yieldPending && !missedYield && missedTicks == 0 && tick == 0
      ensures prio == map[idle := 0] && evValue == map[idle := EventValue(0)] && disturbed == {}
    {
      hide QueuesOk, CoreOk, CountedOk, TcbsOk, ClockOk, IsTop, NonePending, FirstLists;
      this.canSuspend, this.idle, current := canSuspend, idle, idle;
      gen := FirstLists(idle);
      ev := Table(map[Pending := TaskList([], 0)], map[]);
      prio, base, wake, evValue := map[idle := 0], map[idle := 0], map[idle := 0], map[idle := MAX_PRIORITIES];
      topReady, tick, numOverflows, delayFirst := 0, 0, 0, true;
      suspended, missedTicks, missedYield, numTasks, tasksDeleted, yieldPending := 0, 0, false, 1, 0, false;
      epoch, wakeAt, owed, mustYield, disturbed := 0, map[], false, false, {};
      new;
      FirstListsOk(idle);
      FirstTaskOk(idle);
      FirstQueues(idle);
    }

    /** In every state a task is on exactly the list it records, a ready task on the list of its priority and
        waiting for nothing, and the tasks are as many as the lists are long. */
    lemma WhatValidMeans()
      requires Valid()
      ensures forall t, p :: t in gen.at && p in gen.on ==> (t in gen.on[p].items <==> gen.at[t] == p)
      ensures forall t :: t in gen.at && gen.at[t].Ready? ==> t in prio && gen.at[t] == Ready(prio[t]) && t !in ev.at && prio[t] <= topReady
      ensures suspended == 0 ==> forall t :: t in ev.at ==> ev.at[t] != Pending
      ensures forall p :: p in AllPlaces() ==> p in gen.on
      ensures numTasks == SumLengths(gen.on, AllPlaces())
    {
      hide AllPlaces, SumLengths;
      CountIsSum(gen, numTasks, tasksDeleted);
    }

    /** A delayed task's wake time lies ahead. */
    lemma DelayedWait(t: Task)
      requires Valid() && t in gen.at && gen.at[t].Delay?
      ensures t in wakeAt && wakeAt[t] > Now()
    {
      NothingDue(gen.at, delayFirst, wake, wakeAt, epoch, tick);
      assert t !in DueBy(gen.at, wakeAt, Now());
    }

    /** prvAddTaskToReadyQueue */
    method AddToReady(t: Task)
      requires t in prio && Ready(prio[t]) in gen.on && gen.on[Ready(prio[t])].pos <= |gen.on[Ready(prio[t])].items|
      modifies this`gen, this`topReady
      ensures gen == JoinEnd(old(gen), t, Ready(prio[t])) && topReady == Max(old(topReady), prio[t])
    {
      if prio[t] > topReady {
        topReady := prio[t];
      }
      gen := JoinEnd(gen, t, Ready(prio[t]));
    }

    /** portYIELD_WITHIN_API: asks for a context switch. */
    method Yield()
      modifies this`yieldPending, this`owed, this`mustYield
      ensures yieldPending && owed && !mustYield
    {
      yieldPending, owed, mustYield := true, true, false;
    }

    /** A ready list has been turned to a task of maximal priority. */
    ghost predicate Switched(gen0: Generic, t: Task)
      reads this`gen, this`prio
    {
      IsTop(gen.at, prio, t) && Turned(gen0, gen, prio, t)
    }

    /** vTaskSwitchContext, entered from the context switch interrupt. */
    method SwitchContext()
      requires Valid()
      modifies this`yieldPending, this`missedYield, this`owed, this`mustYield, this`topReady, this`gen, this`current
      ensures Valid() && !yieldPending && gen.at == old(gen.at)
      ensures suspended > 0 ==> missedYield && current == old(current) && gen == old(gen)
      ensures suspended == 0 ==> !owed && Switched(old(gen), current)
      ensures Others(old(Snapshot()), Snapshot(), {})
    {
      hide Queued, Others, Core, Tcbs, Counted, ClockOk, IsTop, Rotated;
      yieldPending := false;
      if suspended != 0 {
        missedYield := true;
      } else {
        SelectTask();
      }
      NobodyMoved(old(Snapshot()), Snapshot());
    }

    /** The part of vTaskSwitchContext for a scheduler that is not suspended. */
    method SelectTask()
      requires Core() && Tcbs() && Counted() && suspended == 0
      modifies this`owed, this`mustYield, this`topReady, this`gen, this`current
      ensures Core() && Tcbs() && Counted() && gen.at == old(gen.at) && !owed && IsTop(gen.at, prio, current)
      ensures Switched(old(gen), current)
    {
      hide Turned, QueuesOk, CoreOk, IsTop, Rotated, NonePending;
      LowerTopReady();
      RotatedOk(gen, ev, prio, topReady, wake);
      RotatedTurns(gen, prio, topReady);
      gen := Rotated(gen, Ready(topReady));
      current := gen.on[Ready(topReady)].items[gen.on[Ready(topReady)].pos - 1];
      owed, mustYield := false, false;
    }

    /** The search loop of vTaskSwitchContext; the idle task, which is always ready, stops it. */
    method LowerTopReady()
      requires CoreOk(gen, ev, prio, topReady, wake) && Tcbs()
      modifies this`topReady
      ensures CoreOk(gen, ev, prio, topReady, wake) && Ready(topReady) in gen.on && gen.on[Ready(topReady)].items != []
    {
      hide QueuesOk, CoreOk;
      LowerTop(gen, ev, prio, topReady, wake, idle);
      while |gen.on[Ready(topReady)].items| == 0
        invariant CoreOk(gen, ev, prio, topReady, wake) && Ready(topReady) in gen.on
        decreases topReady
      {
        LowerTop(gen, ev, prio, topReady, wake, idle);
        topReady := topReady - 1;
        LowerTop(gen, ev, prio, topReady, wake, idle);
      }
    }

    // ---------- ticks ----------

    /** Takes a task off its list and off the event list it may wait on, and makes it ready. */
    method WakeTask(t: Task)
      requires CoreOk(gen, ev, prio, topReady, wake) && t in gen.at && !gen.at[t].TerminationList?
      requires Queued()
      modifies this`gen, this`ev, this`topReady
      ensures CoreOk(gen, ev, prio, topReady, wake) && Awoken(old(gen), old(ev), gen, ev, prio, {t})
      ensures !old(gen).at[t].Ready? ==> ListShrank(old(gen), gen, t)
      ensures t in old(ev).at ==> ListShrank(old(ev), ev, t)
      ensures Queued()
    {
      hide QueuesOk, CoreOk, JoinEnd, Leave, Consistent, Awoken;
      FactsOf(gen, ev, prio, topReady, wake);
      ReadiedOk(gen, ev, prio, topReady, wake, t);
      ReadiedAt(gen, prio, t);
      AwokenOne(gen, ev, prio, t);
      if t in ev.at {
        LeaveOk(ev, t);
        QueuesLeft(ev, prio, base, evValue, disturbed, t);
        ev := Leave(ev, t);
      }
      gen := Leave(gen, t);
      AddToReady(t);
    }

    /** prvCheckDelayedTasks: readies exactly the tasks whose wake value the counter has reached. */
    method CheckDelayedTasks()
      requires Core() && ClockOk(gen.at, delayFirst, wake, wakeAt, epoch, tick, -1)
      requires Queued()
      modifies this`gen, this`ev, this`topReady
      ensures Core() && ClockOk(gen.at, delayFirst, wake, wakeAt, epoch, tick, 0)
      ensures Awoken(old(gen), old(ev), gen, ev, prio, Due(old(gen.at), delayFirst, wake, tick))
      ensures Queued()
    {
      hide QueuesOk, CoreOk, ClockOk, NonePending, Consistent, ReadyAll, Due, Awoken;
      ghost var gen0, ev0, done := gen, ev, {};
      AwokenNone(gen, ev, prio, topReady, wake);
      while true
        invariant Core() && Queued() && Awoken(gen0, ev0, gen, ev, prio, done)
        invariant done <= Due(gen0.at, delayFirst, wake, tick)
        decreases if Delay(delayFirst) in gen.on then |gen.on[Delay(delayFirst)].items| else 0
      {
        HeadDecides(gen, ev, prio, topReady, wake, delayFirst, tick);
        if |gen.on[Delay(delayFirst)].items| == 0 { break; }
        var t := gen.on[Delay(delayFirst)].items[0];
        if tick < wake[t] { break; }
        AwokenKeys(gen0, ev0, gen, ev, prio, done);
        DueMember(gen0.at, prio, done, delayFirst, wake, tick, t);
        ghost var gen1, ev1 := gen, ev;
        WakeTask(t);
        AwokenKeys(gen1, ev1, gen, ev, prio, {t});
        AwokenTwice(gen0, ev0, gen1, ev1, gen, ev, prio, done, {t});
        done := done + {t};
      }
      AwokenKeys(gen0, ev0, gen, ev, prio, done);
      AllDueDone(gen0.at, prio, done, delayFirst, wake, tick);
      ClockCaughtUp(gen0.at, prio, done, delayFirst, wake, wakeAt, epoch, tick);
    }

    /** One tick has been counted since the lists were gen0 and ev0 and the time was now0; it has readied
        exactly the tasks that were to wake at it. */
    ghost predicate Ticked(gen0: Generic, ev0: Events, now0: nat)
      reads this`gen, this`ev, this`prio, this`wakeAt, this`epoch, this`tick
    {
      Now() == now0 + 1 && Awoken(gen0, ev0, gen, ev, prio, DueBy(gen0.at, wakeAt, Now()))
    }

    /** vTaskIncrementTick: counts a tick, or notes it down while the scheduler is suspended. */
    method IncrementTick()
      requires Core() && Tcbs() && Counted() && Clocked()
      requires Queued()
      modifies this`gen, this`ev, this`topReady, this`tick, this`epoch, this`numOverflows, this`delayFirst
      modifies this`missedTicks, this`mustYield
      ensures Core() && Tcbs() && Counted() && Clocked()
      ensures suspended > 0 ==> missedTicks == old(missedTicks) + 1 && gen == old(gen) && ev == old(ev) && Now() == old(Now())
      ensures suspended > 0 ==> mustYield == old(mustYield)
      ensures suspended == 0 ==> missedTicks == old(missedTicks) && mustYield && Ticked(old(gen), old(ev), old(Now()))
      ensures Queued()
    {
      hide Queued, Core, Tcbs, Counted, Clocked, Ticked;
      if suspended == 0 {
        CountTick();
      } else {
        missedTicks := missedTicks + 1;
      }
    }

    /** vTaskIncrementTick while the scheduler is not suspended. */
    method CountTick()
      requires Core() && Tcbs() && Counted() && Clocked()
      requires Queued()
      modifies this`gen, this`ev, this`topReady, this`tick, this`epoch, this`numOverflows, this`delayFirst, this`mustYield
      ensures Core() && Tcbs() && Counted() && Clocked() && mustYield
      ensures Ticked(old(gen), old(ev), old(Now()))
      ensures Queued()
    {
      hide QueuesOk, CoreOk, ClockOk, TcbsOk, CountedOk, NonePending, Awoken, DueBy, Due, ReadyAll;
      ghost var gen0, ev0 := gen, ev;
      AdvanceCounter();
      CheckDelayedTasks();
      DueIsNow(gen0.at, delayFirst, wake, wakeAt, epoch, tick);
      AwokenKeepsTasks(gen0, ev0, gen, ev, prio, DueBy(gen0.at, wakeAt, Now()), base, evValue, idle, current, numTasks, tasksDeleted);
      mustYield := true;
    }

    /** The counting part of vTaskIncrementTick. When the counter wraps the current delay list is empty,
        and the two lists swap. */
    method AdvanceCounter()
      requires Core() && Clocked()
      modifies this`tick, this`epoch, this`numOverflows, this`delayFirst
      ensures ClockOk(gen.at, delayFirst, wake, wakeAt, epoch, tick, -1) && numOverflows == epoch % WRAP
      ensures Now() == old(Now()) + 1 && tick == (if old(tick) == 0xFFFF_FFFF then 0 else old(tick) + 1)
      ensures Delay(old(delayFirst)) in gen.on
      ensures tick == 0 ==> delayFirst != old(delayFirst) && gen.on[Delay(old(delayFirst))].items == []
      ensures tick != 0 ==> delayFirst == old(delayFirst)
    {
      hide QueuesOk, CoreOk, ClockOk, NonePending, Consistent;
      FactsOf(gen, ev, prio, topReady, wake);
      if tick == 0xFFFF_FFFF {
        TickWrap(gen, delayFirst, wake, wakeAt, epoch, tick);
      } else {
        TickNoWrap(gen.at, delayFirst, wake, wakeAt, epoch, tick);
      }
      tick := if tick == 0xFFFF_FFFF then 0 else tick + 1;
      if tick == 0 {
        delayFirst := !delayFirst;
        numOverflows := if numOverflows == 0xFFFF_FFFF then 0 else numOverflows + 1;
        epoch := epoch + 1;
      }
    }

    /** The number of ticks delivered so far, counted or noted down. */
    ghost function Delivered(): nat
      reads this`epoch, this`tick, this`missedTicks
    {
      Now() + missedTicks
    }

    /** The tick interrupt of the port: a tick, and a context switch after it. */
    method TickInterrupt()
      requires Valid()
      modifies this`gen, this`ev, this`topReady, this`tick, this`epoch, this`numOverflows, this`delayFirst
      modifies this`missedTicks, this`mustYield, this`yieldPending, this`owed
      ensures Valid() && Delivered() == old(Delivered()) + 1 && yieldPending && mustYield == old(mustYield)
      ensures if suspended > 0 then NotedStep(old(Snapshot()), Snapshot()) else TickStep(old(Snapshot()), Snapshot())
    {
      hide Queued, Core, Tcbs, Counted, Clocked, Awoken, IsTop, DueBy;
      ghost var m := mustYield;
      Yield();
      IncrementTick();
      mustYield := m;
    }

    // ---------- suspending the scheduler ----------

    /** vTaskSuspendAll */
    method SuspendAll()
      requires Valid()
      modifies this`suspended
      ensures Valid() && suspended == old(suspended) + 1
      ensures Snapshot() == old(Snapshot())
    {
      hide QueuesOk, CoreOk, TcbsOk, CountedOk, ClockOk, IsTop, NonePending;
      suspended := suspended + 1;
    }

    /** xTaskResumeAll: when the last suspension ends, the tasks readied meanwhile and the ticks noted down
        meanwhile are made up for, and a switch is asked for if either needs one or one was asked for
        meanwhile. */
    method ResumeAll() returns (already: bool)
      requires Valid() && suspended > 0
      modifies this`gen, this`ev, this`topReady, this`tick, this`epoch, this`numOverflows, this`delayFirst
      modifies this`suspended, this`missedTicks, this`missedYield, this`mustYield, this`yieldPending, this`owed
      ensures Valid() && suspended == old(suspended) - 1 && Delivered() == old(Delivered())
      ensures suspended > 0 ==> !already && Snapshot() == old(Snapshot())
      ensures suspended == 0 ==> !missedYield && ResumeStep(old(Snapshot()), Snapshot())
      ensures suspended == 0 ==>
                (already <==> old(missedYield) || old(missedTicks) > 0 || SomeRanks(PendingTasks(old(ev)), prio, current))
      ensures if already then yieldPending && !mustYield else yieldPending == old(yieldPending)
    {
      hide SomeRanks, QueuesOk, CoreOk, TcbsOk, CountedOk, ClockOk, IsTop, NonePending, Awoken, DueBy;
      suspended := suspended - 1;
      already := false;
      if suspended == 0 {
        HasTasks(gen, base, evValue, idle, current, numTasks, tasksDeleted);
        if numTasks > 0 {
          already := CatchUp();
        }
      }
    }

    /** Since the lists were gen0 and ev0, exactly the pending tasks and the tasks that were to wake by now
        have become ready. */
    ghost predicate Resumed(gen0: Generic, ev0: Events)
      reads this`gen, this`ev, this`prio, this`wakeAt, this`epoch, this`tick
    {
      Awoken(gen0, ev0, gen, ev, prio, PendingTasks(ev0) + DueBy(gen0.at, wakeAt, Now()))
    }

    /** The part of xTaskResumeAll that runs when the scheduler is no longer suspended. */
    method CatchUp() returns (already: bool)
      requires CoreOk(gen, ev, prio, topReady, wake) && Tcbs() && Counted() && Clocked() && suspended == 0
      requires owed ==> yieldPending || missedYield
      requires Preempted()
      requires Queued()
      modifies this`gen, this`ev, this`topReady, this`tick, this`epoch, this`numOverflows, this`delayFirst
      modifies this`missedTicks, this`missedYield, this`mustYield, this`yieldPending, this`owed
      ensures Valid() && missedTicks == 0 && Delivered() == old(Delivered()) && !missedYield
      ensures Resumed(old(gen), old(ev))
      ensures already <==> old(missedYield) || old(missedTicks) > 0 || SomeRanks(PendingTasks(old(ev)), prio, current)
      ensures if already then yieldPending && !mustYield else yieldPending == old(yieldPending)
    {
      hide SomeRanks, Queued, Core, CoreOk, Tcbs, Counted, Clocked, IsTop, Awoken, DueBy, PendingTasks, ReadyAll;
      ghost var gen0, ev0 := gen, ev;
      already := false;
      var yieldRequired := DrainPending();
      ghost var gen1, ev1 := gen, ev;
      if missedTicks > 0 {
        yieldRequired := true;
      }
      ReplayTicks();
      PendingThenDue(gen0, ev0, gen1, ev1, gen, ev, prio, wakeAt, Now());
      if yieldRequired || missedYield {
        already := true;
        missedYield := false;
        Yield();
      }
    }

    /** Moves the pending tasks to their ready lists; tells whether one of them should run. */
    method DrainPending() returns (yieldRequired: bool)
      requires CoreOk(gen, ev, prio, topReady, wake) && Tcbs() && Counted() && Clocked()
      requires Preempted()
      requires Queued()
      modifies this`gen, this`ev, this`topReady
      ensures Core() && Tcbs() && Counted() && Clocked()
      ensures Preempted() || yieldRequired
      ensures yieldRequired <==> SomeRanks(PendingTasks(old(ev)), prio, current)
      ensures Awoken(old(gen), old(ev), gen, ev, prio, PendingTasks(old(ev)))
      ensures Queued()
    {
      hide SomeRanks, QueuesOk, CoreOk, TcbsOk, CountedOk, ClockOk, IsTop, NonePending, Awoken, PendingTasks;
      yieldRequired := false;
      NoneRanks(prio, current);
      ghost var gen0, ev0, done := gen, ev, {};
      AwokenNone(gen, ev, prio, topReady, wake);
      while true
        invariant CoreOk(gen, ev, prio, topReady, wake) && Queued() && Tcbs() && Counted() && Clocked()
        invariant (Preempted() || yieldRequired) && (yieldRequired <==> SomeRanks(done, prio, current))
        invariant Awoken(gen0, ev0, gen, ev, prio, done) && done <= PendingTasks(ev0)
        decreases if Pending in ev.on then |ev.on[Pending].items| else 0
      {
        PendingHead(gen, ev, prio, topReady, wake);
        if |ev.on[Pending].items| == 0 { break; }
        var t := ev.on[Pending].items[0];
        ghost var gen1, ev1 := gen, ev;
        PendingMember(gen0, ev0, gen, ev, prio, done, t);
        CurrentIn(gen.at, base, evValue, idle, current);
        PrioritiesOf(gen, ev, prio, topReady, wake, t, current);
        WakeTask(t);
        AwokenKeepsTasks(gen1, ev1, gen, ev, prio, {t}, base, evValue, idle, current, numTasks, tasksDeleted);
        AwokenTwice(gen0, ev0, gen1, ev1, gen, ev, prio, done, {t});
        ClockAwoken(gen1, ev1, gen, ev, prio, {t}, delayFirst, wake, wakeAt, epoch, tick);
        OneMoreRanks(done, prio, current, t);
        done := done + {t};
        if prio[t] >= prio[current] {
          yieldRequired := true;
        } else {
          if IsTop(gen1.at, prio, current) {
            TopStays(gen1, ev1, gen, ev, prio, t, current);
          }
        }
      }
      AllPendingDone(gen0, ev0, gen, ev, prio, done);
    }

    /** Counts the ticks that were noted down. */
    method ReplayTicks()
      requires Core() && Tcbs() && Counted() && Clocked() && suspended == 0
      requires Queued()
      modifies this`gen, this`ev, this`topReady, this`tick, this`epoch, this`numOverflows, this`delayFirst
      modifies this`missedTicks, this`mustYield
      ensures Core() && Tcbs() && Counted() && Clocked() && missedTicks == 0 && Delivered() == old(Delivered())
      ensures Awoken(old(gen), old(ev), gen, ev, prio, DueBy(old(gen.at), wakeAt, Now()))
      ensures old(missedTicks) == 0 ==> gen == old(gen) && mustYield == old(mustYield)
      ensures Queued()
    {
      hide QueuesOk, CoreOk, TcbsOk, CountedOk, ClockOk, NonePending, Awoken, DueBy, ReadyAll;
      ghost var gen0, ev0, total := gen, ev, Delivered();
      NothingDue(gen.at, delayFirst, wake, wakeAt, epoch, tick);
      AwokenNone(gen, ev, prio, topReady, wake);
      while missedTicks > 0
        invariant Core() && Queued() && Tcbs() && Counted() && Clocked() && Delivered() == total
        invariant Awoken(gen0, ev0, gen, ev, prio, DueBy(gen0.at, wakeAt, Now()))
        invariant old(missedTicks) == 0 ==> missedTicks == 0 && gen == gen0 && mustYield == old(mustYield)
        decreases missedTicks
      {
        ghost var gen1, ev1, now1 := gen, ev, Now();
        IncrementTick();
        DueThenDue(gen0, ev0, gen1, ev1, gen, ev, prio, wakeAt, now1);
        missedTicks := missedTicks - 1;
      }
    }

    // ---------- blocking ----------

    /** The wake time n ticks from now, as the tick counter will show it. */
    function WakeValue(n: Tick): Tick
      reads this`tick
    {
      if tick + n < 0x1_0000_0000 then tick + n else tick + n - 0x1_0000_0000
    }

    /** What vTaskDelay, vTaskDelayUntil and vTaskPlaceOnEventList do with the generic item of the running
        task: it leaves its ready list for the delay list that its wake value belongs on. */
    method Sleep(timeToWake: Tick, ghost n: Tick, ghost ev0: Events)
      requires CoreOk(gen, ev0, prio, topReady, wake) && Tcbs() && Counted() && Clocked()
      requires current != idle && gen.at[current].Ready? && 0 < n && timeToWake == WakeValue(n)
      modifies this`gen, this`wake, this`wakeAt, this`mustYield
      ensures CoreOk(gen, ev0, prio, topReady, wake) && Tcbs() && Counted() && Clocked()
      ensures gen.at == old(gen.at)[current := Delay(if Now() + n < (epoch + 1) * WRAP then delayFirst else !delayFirst)]
      ensures wakeAt == old(wakeAt)[current := Now() + n] && mustYield
    {
      hide QueuesOk, CoreOk, TcbsOk, ClockOk, CountedOk, Leave, JoinBy;
      var list := Delay(if timeToWake < tick then !delayFirst else delayFirst);
      CurrentIn(gen.at, base, evValue, idle, current);
      SleepOk(gen, ev0, prio, topReady, wake, current, list.first, timeToWake);
      SleepKeeps(gen, ev0, prio, topReady, wake, current, list.first, timeToWake, base, evValue, idle, numTasks, tasksDeleted);
      ClockDelayed(gen.at, delayFirst, wake, wakeAt, epoch, tick, current, n, timeToWake);
      gen := Leave(gen, current);
      wake := wake[current := timeToWake];
      gen := JoinBy(gen, current, list, wake);
      wakeAt := wakeAt[current := Now() + n];
      mustYield := true;
    }

    /** Where the generic item of the running task goes for a sleep of n ticks. */
    ghost function SleepPlace(n: nat): Place
      reads this`epoch, this`tick, this`delayFirst
    {
      Delay(if Now() + n < (epoch + 1) * WRAP then delayFirst else !delayFirst)
    }

    /** vTaskDelay while the scheduler is suspended. */
    method DelaySuspended(ticks: Tick)
      requires Valid() && suspended > 0 && current != idle && gen.at[current].Ready? && ticks > 0
      modifies this`gen, this`wake, this`wakeAt, this`mustYield
      ensures Valid() && mustYield
      ensures wakeAt == old(wakeAt)[current := Now() + ticks] && gen.at == old(gen.at)[current := SleepPlace(ticks)]
      ensures Others(old(Snapshot()), Snapshot(), {})
    {
      hide QueuesOk, Others, CoreOk, TcbsOk, ClockOk, CountedOk, NonePending, IsTop;
      Sleep(WakeValue(ticks), ticks, ev);
      OneMoved(old(Snapshot()), Snapshot(), current);
    }

    /** vTaskDelay */
    method DelayTask(ticks: Tick)
      requires Valid() && suspended == 0 && current != idle && gen.at[current].Ready?
      modifies this`gen, this`ev, this`topReady, this`tick, this`epoch, this`numOverflows, this`delayFirst, this`wake, this`wakeAt
      modifies this`suspended, this`missedTicks, this`missedYield, this`mustYield, this`yieldPending, this`owed
      ensures Valid() && suspended == 0 && yieldPending && Delivered() == old(Delivered())
      ensures ticks > 0 ==> wakeAt == old(wakeAt)[current := old(Now()) + ticks]
      ensures ticks == 0 ==> gen == old(gen)
      ensures ticks > 0 ==> gen.at == old(gen.at)[current := old(SleepPlace(ticks))]
      ensures Others(old(Snapshot()), Snapshot(), {}) && (ticks == 0 ==> wakeAt == old(wakeAt))
    {
      hide Queued, Others, Core, Tcbs, Counted, Clocked, Awoken, DueBy, PendingTasks, IsTop;
      var already := false;
      if ticks > 0 {
        already := DelayFor(ticks);
      }
      if !already {
        Yield();
      }
      OneMoved(old(Snapshot()), Snapshot(), current);
    }

    /** vTaskDelay for at least one tick. */
    method DelayFor(ticks: Tick) returns (already: bool)
      requires Valid() && suspended == 0 && current != idle && gen.at[current].Ready? && ticks > 0
      modifies this`gen, this`ev, this`topReady, this`tick, this`epoch, this`numOverflows, this`delayFirst, this`wake, this`wakeAt
      modifies this`suspended, this`missedTicks, this`missedYield, this`mustYield, this`yieldPending, this`owed
      ensures Valid() && suspended == 0 && Delivered() == old(Delivered()) && (already ==> yieldPending)
      ensures wakeAt == old(wakeAt)[current := old(Now()) + ticks] && gen.at == old(gen.at)[current := old(SleepPlace(ticks))]
      ensures ev.at == old(ev.at) && missedTicks == 0 && Now() == old(Now())
      ensures Others(old(Snapshot()), Snapshot(), {})
    {
      hide Queued, Others, Core, Tcbs, Counted, Clocked, Awoken, DueBy, PendingTasks, IsTop;
      NobodyPending();
      SuspendAll();
      DelaySuspended(ticks);
      ghost var gen1, ev1 := gen, ev;
      NoneToWake();
      already := ResumeAll();
      assert PendingTasks(ev1) + DueBy(gen1.at, wakeAt, Now()) == {};
      AwokenNobody(gen1, ev1, gen, ev, prio);
      OneMoved(old(Snapshot()), Snapshot(), current);
    }

    lemma NobodyPending()
      requires Core() && suspended == 0
      ensures PendingTasks(ev) == {}
    {
    }

    /** Without missed ticks nothing is due. */
    lemma NoneToWake()
      requires Clocked()
      ensures DueBy(gen.at, wakeAt, Now()) == {}
    {
      hide QueuesOk, ClockOk;
      NothingDue(gen.at, delayFirst, wake, wakeAt, epoch, tick);
    }

    // ---------- the tasks of the application ----------

    /** vTaskSuspend */
    method SuspendTask(t: Task)
      requires Valid() && t != idle && t in gen.at && gen.at[t] != TerminationList
      modifies this`gen, this`ev, this`yieldPending, this`owed, this`mustYield
      ensures Valid() && gen.at == old(gen.at)[t := SuspendedList] && ev.at == old(ev.at) - {t}
      ensures t == current ==> yieldPending
      ensures t != current ==> yieldPending == old(yieldPending) && mustYield == old(mustYield)
      ensures Others(old(Snapshot()), Snapshot(), {t})
    {
      hide Core, Tcbs, Clocked, Queued, CountedOk, Others, IsTop;
      Park(t, SuspendedList);
      if t == current {
        Yield();
      }
      OneMoved(old(Snapshot()), Snapshot(), t);
    }

    /** Moves a task to the suspended or the terminated list, off any event list. */
    method Park(t: Task, p: Place)
      requires Valid() && t != idle && t in gen.at && gen.at[t] != TerminationList && (p == SuspendedList || p == TerminationList)
      modifies this`gen, this`ev
      ensures Core() && Tcbs() && Clocked() && (t != current ==> Preempted())
      ensures CountedOk(gen, numTasks, if p == TerminationList then tasksDeleted + 1 else tasksDeleted)
      ensures gen.at == old(gen.at)[t := p] && ev.at == old(ev.at) - {t}
      ensures Queued()
    {
      hide QueuesOk, CoreOk, TcbsOk, CountedOk, ClockOk, NonePending, IsTop, Leave, JoinEnd, Valid;
      ParkedAll(t, p);
      gen := Leave(gen, t);
      if t in ev.at {
        ev := Leave(ev, t);
      }
      gen := JoinEnd(gen, t, p);
    }

    lemma ParkedAll(t: Task, p: Place)
      requires Valid() && t != idle && t in gen.at && gen.at[t] != TerminationList && (p == SuspendedList || p == TerminationList)
      ensures gen.at[t] in gen.on && t in gen.on[gen.at[t]].items
      ensures t in ev.at ==> ev.at[t] in ev.on && t in ev.on[ev.at[t]].items
      ensures var l := Leave(gen, t); p in l.on && l.on[p].pos <= |l.on[p].items|
      ensures var g, e := JoinEnd(Leave(gen, t), t, p), if t in ev.at then Leave(ev, t) else ev;
              && CoreOk(g, e, prio, topReady, wake) && (suspended == 0 ==> NonePending(e)) && QueuesOk(e, prio, base, evValue, disturbed)
              && g.at == gen.at[t := p] && e.at == ev.at - {t}
              && TcbsOk(g.at, base, evValue, idle, current) && ClockOk(g.at, delayFirst, wake, wakeAt, epoch, tick, 0) && numOverflows == epoch % WRAP
              && CountedOk(g, numTasks, if p == TerminationList then tasksDeleted + 1 else tasksDeleted)
              && (t != current ==> yieldPending || missedYield || mustYield || IsTop(g.at, prio, current))
    {
      hide QueuesOk, CoreOk, TcbsOk, CountedOk, ClockOk, NonePending, IsTop, Leave, JoinEnd, Consistent;
      FactsOf(gen, ev, prio, topReady, wake);
      ParkAllOk(gen, ev, prio, topReady, wake, t, p);
      ParkedCount(gen, t, p, numTasks, tasksDeleted);
      TasksStay(gen.at, base, evValue, idle, current, t, p);
      ClockMoved(gen.at, delayFirst, wake, wakeAt, epoch, tick, t, p);
      NonePendingWithout(ev, Without(ev, t), t);
      if IsTop(gen.at, prio, current) && t != current {
        TopWithout(gen.at, prio, current, t, p);
      }
      if t in ev.at {
        QueuesLeft(ev, prio, base, evValue, disturbed, t);
      }
    }

    /** vTaskDelete */
    method DeleteTask(t: Task)
      requires Valid() && t != idle && t in gen.at && gen.at[t] != TerminationList
      modifies this`gen, this`ev, this`tasksDeleted, this`yieldPending, this`owed, this`mustYield
      ensures Valid() && gen.at == old(gen.at)[t := TerminationList] && ev.at == old(ev.at) - {t}
      ensures tasksDeleted == old(tasksDeleted) + 1 && numTasks == old(numTasks)
      ensures t == current ==> yieldPending
      ensures t != current ==> yieldPending == old(yieldPending) && mustYield == old(mustYield)
      ensures Others(old(Snapshot()), Snapshot(), {t})
    {
      hide Core, Tcbs, Clocked, Queued, CountedOk, Others, IsTop;
      Park(t, TerminationList);
      tasksDeleted := tasksDeleted + 1;
      if t == current {
        Yield();
      }
      OneMoved(old(Snapshot()), Snapshot(), t);
    }

    /** xTaskIsTaskSuspended */
    predicate IsTaskSuspended(t: Task)
      requires t in gen.at
      reads this`gen, this`ev
    {
      gen.at[t] == SuspendedList && !(t in ev.at && ev.at[t] == Pending) && t !in ev.at
    }

    /** Suspended, and waiting for no event. */
    ghost predicate IsSuspended(t: Task)
      requires t in gen.at
      reads this`gen, this`ev
    {
      gen.at[t] == SuspendedList && t !in ev.at
    }

    /** vTaskResume */
    method Resume(t: Task)
      requires Valid() && t in gen.at
      modifies this`gen, this`topReady, this`yieldPending, this`owed, this`mustYield
      ensures Valid()
      ensures gen.at == if t != current && old(IsSuspended(t)) then old(gen.at)[t := Ready(prio[t])] else old(gen.at)
      ensures t in prio && current in prio
      ensures yieldPending == (old(yieldPending) || (t != current && old(IsSuspended(t)) && prio[t] >= prio[current]))
      ensures owed == (old(owed) || (t != current && old(IsSuspended(t)) && prio[t] >= prio[current]))
      ensures Others(old(Snapshot()), Snapshot(), {})
    {
      hide Core, Tcbs, Counted, Clocked, Queued, Others, IsTop;
      BothKnown(t);
      if t != current && IsTaskSuspended(t) {
        ReadyDirect(t);
        if prio[t] >= prio[current] {
          Yield();
        }
      }
      OneMoved(old(Snapshot()), Snapshot(), t);
    }

    lemma CurrentKnown()
      requires Core() && Tcbs()
      ensures current in gen.at && current in prio
    {
      hide CoreOk, TcbsOk;
      CurrentIn(gen.at, base, evValue, idle, current);
      PrioritiesOf(gen, ev, prio, topReady, wake, current, current);
    }

    lemma BothKnown(t: Task)
      requires Core() && Tcbs() && t in gen.at
      ensures t in prio && current in prio
    {
      hide CoreOk, TcbsOk;
      CurrentIn(gen.at, base, evValue, idle, current);
      PrioritiesOf(gen, ev, prio, topReady, wake, t, current);
    }

    /** A suspended task that waits for nothing goes to its ready list. */
    method ReadyDirect(t: Task)
      requires Valid() && t in gen.at && gen.at[t] == SuspendedList && t !in ev.at
      modifies this`gen, this`topReady
      ensures Core() && Tcbs() && Counted() && Clocked() && Yields()
      ensures t in prio && current in prio && (prio[t] < prio[current] ==> Preempted())
      ensures gen.at == old(gen.at)[t := Ready(prio[t])]
    {
      hide QueuesOk, CoreOk, TcbsOk, CountedOk, ClockOk, NonePending, IsTop, Leave, JoinEnd, Consistent, HasPlaces;
      FactsOf(gen, ev, prio, topReady, wake);
      ReadiedKeeps(gen, ev, prio, t, base, evValue, idle, current, numTasks, tasksDeleted);
      ReadiedClock(gen, ev, prio, t, delayFirst, wake, wakeAt, epoch, tick);
      ReadiedOk(gen, ev, prio, topReady, wake, t);
      gen := Leave(gen, t);
      AddToReady(t);
    }

    /** xTaskResumeFromISR: tells whether the interrupt should ask for a switch. */
    method ResumeFromISR(t: Task) returns (yieldRequired: bool)
      requires Valid() && t in gen.at
      modifies this`gen, this`ev, this`topReady, this`mustYield
      ensures Valid() && mustYield == (old(mustYield) || yieldRequired)
      ensures !old(IsSuspended(t)) ==> gen == old(gen) && ev == old(ev) && !yieldRequired
      ensures old(IsSuspended(t)) && suspended == 0 ==>
                gen.at == old(gen.at)[t := Ready(prio[t])] && ev == old(ev) && (yieldRequired <==> prio[t] >= prio[current])
      ensures old(IsSuspended(t)) && suspended > 0 ==>
                gen == old(gen) && ev.at == old(ev.at)[t := Pending] && !yieldRequired
      ensures Others(old(Snapshot()), Snapshot(), {})
    {
      hide QueuesOk, Others, CoreOk, TcbsOk, CountedOk, ClockOk, NonePending, IsTop, Leave, JoinEnd;
      yieldRequired := false;
      if IsTaskSuspended(t) {
        if suspended == 0 {
          ReadyDirect(t);
          yieldRequired := prio[t] >= prio[current];
          mustYield := mustYield || yieldRequired;
        } else {
          ev := HoldPending(t);
        }
      }
      OneMoved(old(Snapshot()), Snapshot(), t);
    }

    /** The event item of a task that must not be made ready yet, put on the pending ready list. */
    method HoldPending(t: Task) returns (e: Events)
      requires CoreOk(gen, ev, prio, topReady, wake)
      requires t in gen.at && (gen.at[t].Delay? || gen.at[t].SuspendedList?) && t !in ev.at
      requires Queued()
      ensures CoreOk(gen, e, prio, topReady, wake) && e.at == ev.at[t := Pending] && e.on.Keys == ev.on.Keys
      ensures QueuesOk(e, prio, base, evValue, disturbed)
    {
      hide JoinEnd, Consistent, DelaysSorted;
      PosOk(ev, Pending);
      QueuesPended(ev, prio, base, evValue, disturbed, t);
      JoinEndOk(ev, t, Pending);
      JoinedAt(ev, t, Pending);
      EventMovedOk(gen, ev, prio, topReady, wake, JoinEnd(ev, t, Pending));
      e := JoinEnd(ev, t, Pending);
    }

    /** vTaskDelayUntil while the scheduler is suspended: prevAt is the absolute time that *pxPreviousWakeTime
        stands for. The task sleeps exactly when less than the increment seems to have passed since, and then for
        the rest of it. */
    method DelayUntilSuspended(prev: Tick, increment: Tick, ghost prevAt: nat) returns (timeToWake: Tick, shouldDelay: bool)
      requires Valid() && suspended > 0 && current != idle && gen.at[current].Ready? && prevAt % WRAP == prev
      modifies this`gen, this`wake, this`wakeAt, this`mustYield
      ensures Valid() && timeToWake == (prevAt + increment) % WRAP
      ensures shouldDelay <==> SeemsPast(Now(), prevAt) < increment
      ensures (shouldDelay <==> prevAt + increment > Now()) <==>
                if prevAt <= Now() then Now() < prevAt + WRAP || SeemsPast(Now(), prevAt) >= increment else SeemsPast(Now(), prevAt) < increment
      ensures !shouldDelay ==> gen == old(gen) && wakeAt == old(wakeAt) && mustYield == old(mustYield)
      ensures shouldDelay ==>
                var n := increment - SeemsPast(Now(), prevAt);
                wakeAt == old(wakeAt)[current := Now() + n] && mustYield && gen.at == old(gen.at)[current := SleepPlace(n)]
      ensures Others(old(Snapshot()), Snapshot(), {})
    {
      hide QueuesOk, Others, CoreOk, TcbsOk, ClockOk, CountedOk, NonePending, IsTop, SeemsPast;
      timeToWake := if prev + increment < 0x1_0000_0000 then prev + increment else prev + increment - 0x1_0000_0000;
      shouldDelay := false;
      if tick < prev {
        if timeToWake < prev && timeToWake > tick {
          shouldDelay := true;
        }
      } else {
        if timeToWake < prev || timeToWake > tick {
          shouldDelay := true;
        }
      }
      UntilIsExact(epoch, tick, prevAt, prev, increment, timeToWake);
      if shouldDelay {
        Sleep(timeToWake, increment - SeemsPast(Now(), prevAt), ev);
      }
      OneMoved(old(Snapshot()), Snapshot(), current);
    }

    /** The same without a wake time. */
    method SleepForever(ghost ev0: Events)
      requires CoreOk(gen, ev0, prio, topReady, wake) && Tcbs() && Counted() && Clocked()
      requires current != idle && gen.at[current].Ready?
      modifies this`gen, this`mustYield
      ensures CoreOk(gen, ev0, prio, topReady, wake) && Tcbs() && Counted() && Clocked()
      ensures gen.at == old(gen.at)[current := SuspendedList] && mustYield
    {
      hide QueuesOk, CoreOk, TcbsOk, CountedOk, ClockOk, Leave, JoinEnd;
      CurrentIn(gen.at, base, evValue, idle, current);
      SuspendKeeps(gen, ev0, prio, topReady, wake, current, base, evValue, idle, numTasks, tasksDeleted, delayFirst, wakeAt, epoch, tick);
      gen := Leave(gen, current);
      gen := JoinEnd(gen, current, SuspendedList);
      mustYield := true;
    }

    /** The wait has no end. */
    predicate Unlimited(ticks: Tick) {
      canSuspend && ticks == MAX_DELAY
    }

    /** The part of vTaskPlaceOnEventList for the event item. */
    method JoinWaiting(list: nat)
      requires CoreOk(gen, ev, prio, topReady, wake) && Tcbs() && Queued() && gen.at[current].Ready? && Waiting(list) in ev.on
      modifies this`ev, this`disturbed
      ensures Consistent(ev) && ev.at == old(ev.at)[current := Waiting(list)] && ev.on.Keys == old(ev).on.Keys && Queued()
      ensures WaitJoined(old(ev), ev, current, list, evValue)
      ensures disturbed == if Shows(current, prio, evValue) then old(disturbed) else old(disturbed) + {list}
      ensures current in prio && current in base && (prio[current] == base[current] ==> disturbed == old(disturbed))
    {
      hide QueuesOk, Shows, CoreOk, TcbsOk, JoinBy, Consistent, SortedBy;
      WaitOk(gen, ev, prio, topReady, wake, current, list, base, evValue, idle);
      QueuesWait(gen, ev, prio, topReady, wake, base, evValue, disturbed, current, list, idle);
      disturbed := if Shows(current, prio, evValue) then disturbed else disturbed + {list};
      ev := JoinBy(ev, current, Waiting(list), evValue);
    }

    /** The part of vTaskPlaceOnEventList for the generic item. */
    method SleepOn(ticks: Tick, ghost ev0: Events)
      requires CoreOk(gen, ev0, prio, topReady, wake) && Tcbs() && Counted() && Clocked()
      requires current != idle && gen.at[current].Ready? && ticks > 0
      modifies this`gen, this`wake, this`wakeAt, this`mustYield
      ensures CoreOk(gen, ev0, prio, topReady, wake) && Tcbs() && Counted() && Clocked() && mustYield
      ensures gen.at == old(gen.at)[current := if Unlimited(ticks) then SuspendedList else SleepPlace(ticks)]
      ensures wakeAt == if Unlimited(ticks) then old(wakeAt) else old(wakeAt)[current := Now() + ticks]
    {
      hide CoreOk, TcbsOk, CountedOk, ClockOk;
      if canSuspend && ticks == MAX_DELAY {
        SleepForever(ev0);
      } else {
        Sleep(WakeValue(ticks), ticks, ev0);
      }
    }

    /** vTaskPlaceOnEventList: the running task waits on an event list, for ticks or without limit. */
    method PlaceOnEventList(list: nat, ticks: Tick)
      requires Valid() && current != idle && gen.at[current].Ready? && Waiting(list) in ev.on && ticks > 0
      modifies this`gen, this`ev, this`wake, this`wakeAt, this`mustYield, this`disturbed
      ensures Valid() && mustYield && ev.at == old(ev.at)[current := Waiting(list)]
      ensures gen.at == old(gen.at)[current := if Unlimited(ticks) then SuspendedList else SleepPlace(ticks)]
      ensures wakeAt == if Unlimited(ticks) then old(wakeAt) else old(wakeAt)[current := Now() + ticks]
      ensures WaitJoined(old(ev), ev, current, list, evValue)
      ensures Others(old(Snapshot()), Snapshot(), {})
      ensures disturbed == if Shows(current, prio, evValue) then old(disturbed) else old(disturbed) + {list}
      ensures current in prio && current in base && (prio[current] == base[current] ==> disturbed == old(disturbed))
    {
      hide Core, Tcbs, Counted, Clocked, Queued, Others, IsTop, Shows, SortedBy;
      WaitOn(list, ticks);
      OneMoved(old(Snapshot()), Snapshot(), current);
    }

    /** The running task leaves the ready tasks for an event list. */
    method WaitOn(list: nat, ticks: Tick)
      requires Core() && Tcbs() && Counted() && Clocked() && Queued()
      requires current != idle && gen.at[current].Ready? && Waiting(list) in ev.on && ticks > 0
      modifies this`gen, this`ev, this`wake, this`wakeAt, this`mustYield, this`disturbed
      ensures Core() && Tcbs() && Counted() && Clocked() && Queued() && mustYield
      ensures WaitJoined(old(ev), ev, current, list, evValue)
      ensures gen.at == old(gen.at)[current := if Unlimited(ticks) then SuspendedList else SleepPlace(ticks)]
      ensures wakeAt == if Unlimited(ticks) then old(wakeAt) else old(wakeAt)[current := Now() + ticks]
      ensures disturbed == if Shows(current, prio, evValue) then old(disturbed) else old(disturbed) + {list}
      ensures current in prio && current in base && (prio[current] == base[current] ==> disturbed == old(disturbed))
    {
      hide WaitJoined, Shows, QueuesOk, CoreOk, TcbsOk, CountedOk, ClockOk, NonePending, Consistent;
      ghost var ev0 := ev;
      CurrentIn(gen.at, base, evValue, idle, current);
      JoinWaiting(list);
      SleepOn(ticks, ev0);
      WaitingOk(gen, ev0, prio, topReady, wake, ev, current, list);
    }

    /** xTaskRemoveFromEventList: wakes the first waiter of a list, or holds it pending while the scheduler is
        suspended; tells whether it should run instead of the running task. */
    method RemoveFromEventList(list: nat) returns (t: Task, yieldRequired: bool)
      requires Valid() && Waiting(list) in ev.on && ev.on[Waiting(list)].items != []
      modifies this`gen, this`ev, this`topReady, this`mustYield
      ensures Valid() && mustYield == (old(mustYield) || yieldRequired)
      ensures t == old(ev).on[Waiting(list)].items[0] && t in prio && current in prio
      ensures yieldRequired <==> prio[t] >= prio[current]
      ensures suspended == 0 ==> Awoken(old(gen), old(ev), gen, ev, prio, {t})
      ensures suspended > 0 ==> gen == old(gen) && ev.at == old(ev.at)[t := Pending]
      ensures Others(old(Snapshot()), Snapshot(), {t})
      ensures list !in disturbed ==> forall u :: u in old(ev).on[Waiting(list)].items ==> u in prio && prio[u] <= prio[t]
    {
      hide Core, Tcbs, Counted, Clocked, Queued, Others, IsTop, Awoken;
      t := ev.on[Waiting(list)].items[0];
      HighestFirst(list);
      HeadWaits(list);
      TakeWaiter(t);
      yieldRequired := prio[t] >= prio[current];
      mustYield := mustYield || yieldRequired;
      OneAwoken(old(Snapshot()), Snapshot(), t);
    }

    lemma HeadWaits(list: nat)
      requires Core() && Waiting(list) in ev.on && ev.on[Waiting(list)].items != []
      ensures var t := ev.on[Waiting(list)].items[0]; t in ev.at && ev.at[t] == Waiting(list) && t in gen.at && !gen.at[t].TerminationList?
    {
      hide CoreOk;
      WaiterIs(gen, ev, prio, topReady, wake, list);
    }

    /** The event item of a waiting task leaves its list, and the task becomes ready or is held pending. */
    method TakeWaiter(t: Task)
      requires Core() && Tcbs() && Counted() && Clocked() && Queued() && t in ev.at && t in gen.at && !gen.at[t].TerminationList?
      modifies this`gen, this`ev, this`topReady
      ensures Core() && Tcbs() && Counted() && Clocked() && Queued()
      ensures t in prio && current in prio && (old(Preempted()) && prio[t] < prio[current] ==> Preempted())
      ensures suspended == 0 ==> Awoken(old(gen), old(ev), gen, ev, prio, {t})
      ensures suspended > 0 ==> gen == old(gen) && ev.at == old(ev.at)[t := Pending]
    {
      hide QueuesOk, CoreOk, TcbsOk, CountedOk, ClockOk, NonePending, IsTop, Awoken;
      CurrentIn(gen.at, base, evValue, idle, current);
      PrioritiesOf(gen, ev, prio, topReady, wake, t, current);
      if suspended == 0 {
        Unblock(t);
      } else {
        HoldWaiter(t);
      }
    }

    /** The part of xTaskRemoveFromEventList for a scheduler that is suspended. */
    method HoldWaiter(t: Task)
      requires CoreOk(gen, ev, prio, topReady, wake) && Queued() && t in ev.at
      modifies this`ev
      ensures CoreOk(gen, ev, prio, topReady, wake) && Queued() && ev.at == old(ev.at)[t := Pending]
    {
      hide QueuesOk, CoreOk, Leave, JoinEnd;
      PendOk(gen, ev, prio, topReady, wake, t);
      QueuesHeld(gen, ev, prio, topReady, wake, base, evValue, disturbed, t);
      ev := Leave(ev, t);
      ev := JoinEnd(ev, t, Pending);
    }

    /** In a list that is not disturbed the first waiter ranks highest. */
    lemma HighestFirst(list: nat)
      requires Queued() && Waiting(list) in ev.on && ev.on[Waiting(list)].items != []
      ensures list !in disturbed ==>
                forall u :: u in ev.on[Waiting(list)].items ==> u in prio && ev.on[Waiting(list)].items[0] in prio && prio[u] <= prio[ev.on[Waiting(list)].items[0]]
    {
      if list !in disturbed {
        FirstIsHighest(ev.on[Waiting(list)].items, prio, evValue);
      }
    }

    /** The part of xTaskRemoveFromEventList for a scheduler that is not suspended. */
    method Unblock(t: Task)
      requires Core() && Tcbs() && Counted() && Clocked() && t in gen.at && !gen.at[t].TerminationList?
      requires Queued()
      modifies this`gen, this`ev, this`topReady
      ensures Core() && Tcbs() && Counted() && Clocked() && Awoken(old(gen), old(ev), gen, ev, prio, {t})
      ensures t in prio && current in prio && (old(Preempted()) && prio[t] < prio[current] ==> Preempted())
      ensures Queued()
    {
      hide QueuesOk, CoreOk, TcbsOk, CountedOk, ClockOk, NonePending, IsTop, Leave, JoinEnd, Consistent, Awoken;
      ghost var gen0, ev0 := gen, ev;
      CurrentIn(gen.at, base, evValue, idle, current);
      PrioritiesOf(gen, ev, prio, topReady, wake, t, current);
      WakeTask(t);
      AwokenKeepsTasks(gen0, ev0, gen, ev, prio, {t}, base, evValue, idle, current, numTasks, tasksDeleted);
      ClockAwoken(gen0, ev0, gen, ev, prio, {t}, delayFirst, wake, wakeAt, epoch, tick);
      if IsTop(gen0.at, prio, current) && prio[t] < prio[current] {
        TopStays(gen0, ev0, gen, ev, prio, t, current);
      }
    }

    /** vTaskMissedYield, called while the scheduler is suspended. */
    method MissedYield()
      requires Valid() && suspended > 0
      modifies this`missedYield, this`owed, this`mustYield
      ensures Valid() && missedYield && owed
      ensures Snapshot() == old(Snapshot())
    {
      hide QueuesOk, CoreOk, TcbsOk, CountedOk, ClockOk, NonePending, IsTop;
      missedYield, owed, mustYield := true, true, false;
    }

    /** vTaskPriorityInherit: the holder of a mutex gets at least the priority of the running task. */
    method PriorityInherit(holder: Task)
      requires Valid() && holder in gen.at && current in prio && holder in prio
      modifies this`gen, this`prio, this`evValue, this`topReady, this`disturbed
      ensures Valid() && gen.at.Keys == old(gen.at).Keys
      ensures current in old(prio) && holder in old(prio) && prio == old(prio)[holder := Max(old(prio)[holder], old(prio)[current])]
      ensures forall u :: u in gen.at && u != holder ==> gen.at[u] == old(gen.at)[u]
      ensures gen.at[holder] == if old(gen.at)[holder].Ready? then Ready(prio[holder]) else old(gen.at)[holder]
      ensures evValue == if old(prio)[holder] < old(prio)[current] then old(evValue)[holder := EventValue(old(prio)[current])] else old(evValue)
      ensures Others(old(Snapshot()), Snapshot(), {})
      ensures disturbed == if old(prio)[holder] < old(prio)[current] then old(disturbed) + WaitsOn(ev, holder) else old(disturbed)
    {
      hide QueuesOk, Others, CoreOk, TcbsOk, CountedOk, ClockOk, NonePending, IsTop, Leave, JoinEnd, Consistent;
      NobodyMoved(Snapshot(), Snapshot());
      CurrentIn(gen.at, base, evValue, idle, current);
      ReadyAtPriority(gen, ev, prio, topReady, wake, holder);
      RankValue(gen, ev, prio, topReady, wake, current);
      if prio[holder] < prio[current] {
        ghost var at0, prio0 := gen.at, prio;
        RaiseTo(holder, prio[current]);
        if IsTop(at0, prio0, current) {
          RaisedTop(at0, prio0, current, holder, prio0[current]);
        }
      }
    }

    /** A higher priority for a task, and for its event item, which stays where it is. */
    method RaiseTo(holder: Task, p: nat)
      requires Core() && Tcbs() && Counted() && Clocked() && Queued() && holder in gen.at && holder in prio && p < MAX_PRIORITIES
      modifies this`gen, this`prio, this`evValue, this`topReady, this`disturbed
      ensures Core() && Tcbs() && Counted() && Clocked() && Queued() && prio == old(prio)[holder := p]
      ensures gen.at == if old(gen.at)[holder].Ready? then old(gen.at)[holder := Ready(p)] else old(gen.at)
      ensures evValue == old(evValue)[holder := EventValue(p)] && disturbed == old(disturbed) + WaitsOn(ev, holder)
      ensures Others(old(Snapshot()), Snapshot(), {})
    {
      hide QueuesOk, Others, CoreOk, TcbsOk, CountedOk, ClockOk, NonePending;
      BaseOf(gen.at, base, evValue, idle, current, holder);
      Rewritten(holder, p, base[holder], EventValue(p));
      TcbsValue(gen.at, base, evValue, idle, current, holder, MAX_PRIORITIES - p);
      evValue := evValue[holder := MAX_PRIORITIES - p];
      disturbed := disturbed + WaitsOn(ev, holder);
      Requeue(holder, p);
    }

    /** The event item of a task, its priority or its base priority changes. */
    lemma Rewritten(t: Task, p: nat, b: nat, v: Tick)
      requires Queued() && CoreOk(gen, ev, prio, topReady, wake) && (v == EventValue(p) || v == EventValue(b))
      ensures QueuesOk(ev, prio[t := p], base[t := b], evValue[t := v], disturbed + WaitsOn(ev, t))
      ensures (t in base && base[t] == b ==> base[t := b] == base) && (t in prio && prio[t] == p ==> prio[t := p] == prio)
      ensures t in gen.at && gen.at[t].Ready? ==> disturbed + WaitsOn(ev, t) == disturbed
    {
      hide QueuesOk, CoreOk;
      ReadyWaitsNot(gen, ev, prio, topReady, wake, t);
      QueuesRewritten(ev, prio, base, evValue, disturbed, t, p, b, v);
      if t in base && base[t] == b {
        assert base[t := b] == base;
      }
      if t in prio && prio[t] == p {
        assert prio[t := p] == prio;
      }
    }

    /** A new priority for a task, and its ready list if it is on the one of its priority. */
    method Requeue(t: Task, p: nat)
      requires Core() && Tcbs() && Counted() && Clocked() && t in gen.at && t in prio && p < MAX_PRIORITIES
      modifies this`gen, this`prio, this`topReady
      ensures Core() && Tcbs() && Counted() && Clocked()
      ensures prio == old(prio)[t := p]
      ensures gen.at == if old(gen.at)[t].Ready? then old(gen.at)[t := Ready(p)] else old(gen.at)
      ensures Others(old(Snapshot()), Snapshot(), {})
    {
      hide QueuesOk, Others, CoreOk, TcbsOk, CountedOk, ClockOk, NonePending, Leave, JoinEnd, Consistent, HasPlaces;
      FactsOf(gen, ev, prio, topReady, wake);
      ReadyAtPriority(gen, ev, prio, topReady, wake, t);
      if gen.at[t] == Ready(prio[t]) {
        RequeuedOk(gen, ev, prio, topReady, wake, t, p);
        RequeuedKeeps(gen, t, p, base, evValue, idle, current, numTasks, tasksDeleted);
        ClockMoved(gen.at, delayFirst, wake, wakeAt, epoch, tick, t, Ready(p));
        gen := Leave(gen, t);
        prio := prio[t := p];
        AddToReady(t);
      } else {
        PriorityOnlyOk(gen, ev, prio, topReady, wake, t, p);
        prio := prio[t := p];
      }
      OneMoved(old(Snapshot()), Snapshot(), t);
    }

    /** vTaskPriorityDisinherit, called by the running task that gives a mutex: it gets its base priority
        back. The caller owes a yield exactly when a ready task is above the base priority. */
    method PriorityDisinherit(holder: Task)
      requires Valid() && holder == current && holder in gen.at && gen.at[holder].Ready? && holder in prio && holder in base
      modifies this`gen, this`prio, this`evValue, this`topReady, this`mustYield
      ensures Valid() && prio == old(prio)[holder := base[holder]]
      ensures gen.at == old(gen.at)[holder := Ready(base[holder])]
      ensures evValue == if old(prio)[holder] != base[holder] then old(evValue)[holder := EventValue(base[holder])] else old(evValue)
      ensures mustYield == (old(mustYield) || !IsTop(gen.at, prio, current))
      ensures Others(old(Snapshot()), Snapshot(), {})
    {
      hide QueuesOk, Others, CoreOk, TcbsOk, CountedOk, ClockOk, NonePending, IsTop, Leave, JoinEnd, Consistent;
      NobodyMoved(Snapshot(), Snapshot());
      CurrentBase(gen, ev, prio, topReady, wake, base, evValue, idle, current);
      if prio[holder] != base[holder] {
        BackToBase(holder);
      }
      mustYield := mustYield || !IsTop(gen.at, prio, current);
    }

    /** The base priority again, for the ready list and the event item, too. */
    method BackToBase(holder: Task)
      requires Core() && Tcbs() && Counted() && Clocked() && holder in gen.at && gen.at[holder].Ready? && holder in prio
      requires holder in base && base[holder] < MAX_PRIORITIES
      requires Queued()
      modifies this`gen, this`prio, this`evValue, this`topReady
      ensures Core() && Tcbs() && Counted() && Clocked() && prio == old(prio)[holder := base[holder]]
      ensures gen.at == old(gen.at)[holder := Ready(base[holder])] && evValue == old(evValue)[holder := EventValue(base[holder])]
      ensures Others(old(Snapshot()), Snapshot(), {})
      ensures Queued()
    {
      hide QueuesOk, Others, CoreOk, TcbsOk, CountedOk, ClockOk;
      Rewritten(holder, base[holder], base[holder], EventValue(base[holder]));
      Requeue(holder, base[holder]);
      TcbsValue(gen.at, base, evValue, idle, current, holder, MAX_PRIORITIES - base[holder]);
      evValue := evValue[holder := MAX_PRIORITIES - prio[holder]];
    }

    /** vTaskPrioritySet. A task that runs at an inherited priority keeps it; its base priority is changed. */
    method PrioritySet(t: Task, newPriority0: nat)
      requires Valid() && t in gen.at && t in prio && t in base
      modifies this`gen, this`prio, this`base, this`evValue, this`topReady, this`yieldPending, this`owed, this`mustYield, this`disturbed
      ensures Valid() && t in old(prio) && t in old(base)
      ensures base == old(base)[t := Capped(newPriority0)]
      ensures prio == if old(prio)[t] == old(base)[t] then old(prio)[t := Capped(newPriority0)] else old(prio)
      ensures gen.at == if old(gen.at)[t].Ready? then old(gen.at)[t := Ready(prio[t])] else old(gen.at)
      ensures evValue == if Capped(newPriority0) != old(base)[t] then old(evValue)[t := EventValue(Capped(newPriority0))] else old(evValue)
      ensures Others(old(Snapshot()), Snapshot(), {})
      ensures disturbed == if Capped(newPriority0) != old(base)[t] then old(disturbed) + WaitsOn(ev, t) else old(disturbed)
      ensures yieldPending <==> old(yieldPending) || (Capped(newPriority0) > old(base)[t] && t != current) || (Capped(newPriority0) < old(base)[t] && t == current)
    {
      hide Core, Tcbs, Counted, Clocked, Queued, Others, IsTop, WaitsOn, EventValue;
      NobodyMoved(Snapshot(), Snapshot());
      OnItsPriority(t);
      var newPriority := Capped(newPriority0);
      var currentPriority := base[t];
      if currentPriority != newPriority {
        var yieldRequired := if newPriority > currentPriority then t != current else t == current;
        ChangePriority(t, newPriority);
        if yieldRequired {
          Yield();
        }
      }
    }

    lemma OnItsPriority(t: Task)
      requires Core() && t in gen.at && t in prio
      ensures gen.at[t].Ready? ==> gen.at[t] == Ready(prio[t]) && gen.at[t := Ready(prio[t])] == gen.at
    {
      hide CoreOk;
      ReadyAtPriority(gen, ev, prio, topReady, wake, t);
    }

    /** The part of vTaskPrioritySet for a priority that is a new one. */
    method ChangePriority(t: Task, p: nat)
      requires Valid() && t in gen.at && t in prio && t in base && p < MAX_PRIORITIES && p != base[t]
      modifies this`gen, this`prio, this`base, this`evValue, this`topReady, this`disturbed
      ensures Core() && Tcbs() && Counted() && Clocked()
      ensures t in old(prio) && t in old(base) && base == old(base)[t := p]
      ensures prio == if old(prio)[t] == old(base)[t] then old(prio)[t := p] else old(prio)
      ensures gen.at == if old(gen.at)[t].Ready? then old(gen.at)[t := Ready(prio[t])] else old(gen.at)
      ensures evValue == old(evValue)[t := EventValue(p)]
      ensures (if p > old(base)[t] then t == current else t != current) ==> Preempted()
      ensures Others(old(Snapshot()), Snapshot(), {})
      ensures Queued() && disturbed == old(disturbed) + WaitsOn(ev, t)
    {
      hide Core, Counted, Clocked, TcbsOk, Queued, Others, IsTop, WaitsOn, EventValue;
      NobodyMoved(Snapshot(), Snapshot());
      OnItsPriority(t);
      RewrittenTo(t, p);
      if base[t] == prio[t] {
        RequeueCurrent(t, p);
      }
      SetBase(t, p);
    }

    lemma RewrittenTo(t: Task, p: nat)
      requires Core() && Queued() && t in prio && t in base
      ensures QueuesOk(ev, if base[t] == prio[t] then prio[t := p] else prio, base[t := p], evValue[t := EventValue(p)], disturbed + WaitsOn(ev, t))
    {
      hide CoreOk, QueuesOk, WaitsOn;
      Rewritten(t, if base[t] == prio[t] then p else prio[t], p, EventValue(p));
    }

    method SetBase(t: Task, p: nat)
      requires Tcbs() && p < MAX_PRIORITIES && QueuesOk(ev, prio, base[t := p], evValue[t := EventValue(p)], disturbed + WaitsOn(ev, t))
      modifies this`base, this`evValue, this`disturbed
      ensures Tcbs() && Queued() && base == old(base)[t := p] && evValue == old(evValue)[t := EventValue(p)]
      ensures disturbed == old(disturbed) + WaitsOn(ev, t)
    {
      hide TcbsOk, QueuesOk, WaitsOn;
      TcbsBase(gen.at, base, evValue, idle, current, t, p, MAX_PRIORITIES - p);
      base := base[t := p];
      evValue := evValue[t := MAX_PRIORITIES - p];
      disturbed := disturbed + WaitsOn(ev, t);
    }

    /** A new priority for a task, which may outrank the running one only if the caller is to ask for a yield. */
    method RequeueCurrent(t: Task, p: nat)
      requires Core() && Tcbs() && Counted() && Clocked() && Preempted() && t in gen.at && t in prio && p < MAX_PRIORITIES
      modifies this`gen, this`prio, this`topReady
      ensures Core() && Tcbs() && Counted() && Clocked() && prio == old(prio)[t := p]
      ensures gen.at == if old(gen.at)[t].Ready? then old(gen.at)[t := Ready(p)] else old(gen.at)
      ensures t in old(prio) && ((if p > old(prio)[t] then t == current else t != current) ==> Preempted())
      ensures Others(old(Snapshot()), Snapshot(), {})
    {
      hide Others, CoreOk, TcbsOk, CountedOk, ClockOk, IsTop, NonePending;
      ghost var at0, prio0 := gen.at, prio;
      ReadyAtPriority(gen, ev, prio, topReady, wake, t);
      Requeue(t, p);
      if IsTop(at0, prio0, current) && (if p > prio0[t] then t == current else t != current) {
        ChangedTop(at0, prio0, current, t, p);
      }
    }

    /** prvCheckTasksWaitingTermination, called by the idle task: forgets one terminated task. */
    method CheckTasksWaitingTermination()
      requires Valid() && current == idle && suspended == 0
      modifies this`gen, this`ev, this`topReady, this`tick, this`epoch, this`numOverflows, this`delayFirst, this`numTasks, this`tasksDeleted
      modifies this`suspended, this`missedTicks, this`missedYield, this`mustYield, this`yieldPending, this`owed
      ensures Valid() && suspended == 0
      ensures old(tasksDeleted) == 0 ==> tasksDeleted == 0 && numTasks == old(numTasks) && gen == old(gen)
      ensures old(tasksDeleted) > 0 ==> tasksDeleted == old(tasksDeleted) - 1 && numTasks == old(numTasks) - 1
      ensures old(tasksDeleted) > 0 ==> TerminationList in old(gen.on) && old(gen.on)[TerminationList].items != []
      ensures old(tasksDeleted) > 0 ==> gen.at == old(gen.at) - {old(gen.on)[TerminationList].items[0]}
      ensures Now() == old(Now()) && ev.at == old(ev.at) && Others(old(Snapshot()), Snapshot(), {})
    {
      hide Queued, Others, Core, Tcbs, Counted, CountedOk, Clocked, Awoken, IsTop, ReadyAll;
      if tasksDeleted > 0 {
        NobodyPending();
        SuspendAll();
        TerminatedOnes();
        var listIsEmpty := |gen.on[TerminationList].items| == 0;
        ghost var gen1, ev1 := gen, ev;
        NoneToWake();
        var _ := ResumeAll();
        assert PendingTasks(ev1) + DueBy(gen1.at, wakeAt, Now()) == {};
        AwokenNobody(gen1, ev1, gen, ev, prio);
        if !listIsEmpty {
          Forget();
        }
        OneMoved(old(Snapshot()), Snapshot(), gen1.on[TerminationList].items[0]);
      } else {
        NobodyMoved(old(Snapshot()), Snapshot());
      }
    }

    lemma TerminatedOnes()
      requires Core() && Counted() && tasksDeleted > 0
      ensures TerminationList in gen.on && |gen.on[TerminationList].items| > 0
      ensures var t := gen.on[TerminationList].items[0]; t in gen.at && gen.at[t] == TerminationList && t !in ev.at
    {
    }

    /** The first terminated task is taken off its list. */
    method Forget()
      requires Valid() && current == idle && TerminationList in gen.on && gen.on[TerminationList].items != []
      modifies this`gen, this`numTasks, this`tasksDeleted
      ensures Valid() && numTasks == old(numTasks) - 1 && tasksDeleted == old(tasksDeleted) - 1
      ensures gen.at == old(gen.at) - {old(gen.on)[TerminationList].items[0]}
    {
      hide QueuesOk, CoreOk, TcbsOk, CountedOk, ClockOk, NonePending, IsTop, Leave;
      var t := gen.on[TerminationList].items[0];
      ForgetOk(gen, ev, prio, topReady, wake, t);
      ForgetKeeps(gen, ev, prio, topReady, wake, t, base, evValue, idle, numTasks, tasksDeleted);
      ForgetClock(gen.at, delayFirst, wake, wakeAt, epoch, tick, prio, current, t);
      gen := Leave(gen, t);
      numTasks := numTasks - 1;
      tasksDeleted := tasksDeleted - 1;
    }

    /** xTaskGenericCreate for a new task, once its memory is allocated. */
    method CreateTask(t: Task, priority: nat)
      requires Valid() && t !in gen.at
      modifies this`gen, this`prio, this`base, this`wake, this`evValue, this`topReady, this`numTasks
      modifies this`yieldPending, this`owed, this`mustYield
      ensures Valid() && numTasks == old(numTasks) + 1
      ensures gen.at == old(gen.at)[t := Ready(Capped(priority))]
      ensures prio == old(prio)[t := Capped(priority)] && base == old(base)[t := Capped(priority)]
      ensures current in old(prio) && (yieldPending <==> old(yieldPending) || old(prio)[current] < priority)
      ensures Others(old(Snapshot()), Snapshot(), {})
      ensures evValue == old(evValue)[t := EventValue(Capped(priority))]
    {
      hide Core, Tcbs, Counted, Clocked, Queued, Others, IsTop, EventValue;
      CurrentKnown();
      AddNewTask(t, Capped(priority));
      if prio[current] < priority {
        Yield();
      }
    }

    /** The part of it that fills the control block, and puts the task on its ready list. */
    method AddNewTask(t: Task, p: nat)
      requires Valid() && t !in gen.at && p < MAX_PRIORITIES
      modifies this`gen, this`prio, this`base, this`wake, this`evValue, this`topReady, this`numTasks
      ensures Core() && Tcbs() && Counted() && Clocked() && Yields()
      ensures numTasks == old(numTasks) + 1 && gen.at == old(gen.at)[t := Ready(p)]
      ensures prio == old(prio)[t := p] && base == old(base)[t := p]
      ensures current in prio && (prio[t] <= prio[current] ==> Preempted())
      ensures Others(old(Snapshot()), Snapshot(), {})
      ensures evValue == old(evValue)[t := EventValue(p)] && Queued()
    {
      hide QueuesOk, Others, CoreOk, TcbsOk, CountedOk, ClockOk, NonePending, IsTop;
      InitialiseTcb(t, p);
      Enlist(t);
      OneMoved(old(Snapshot()), Snapshot(), t);
    }

    lemma NewTask(t: Task, p: nat)
      requires Valid() && t !in gen.at && p < MAX_PRIORITIES
      ensures CoreOk(gen, ev, prio[t := p], topReady, wake[t := 0])
      ensures TcbsOk(gen.at, base[t := p], evValue[t := MAX_PRIORITIES - p], idle, current)
      ensures ClockOk(gen.at, delayFirst, wake[t := 0], wakeAt, epoch, tick, 0)
      ensures IsTop(gen.at, prio, current) ==> IsTop(gen.at, prio[t := p], current)
      ensures QueuesOk(ev, prio[t := p], base[t := p], evValue[t := MAX_PRIORITIES - p], disturbed)
    {
      hide QueuesOk, CoreOk, TcbsOk, CountedOk, ClockOk, NonePending, IsTop;
      Rewritten(t, p, p, EventValue(p));
      NoWaits(t);
      NewTcbOk(gen, ev, prio, topReady, wake, t, p);
      NewTcbKeeps(gen.at, base, evValue, idle, current, t, p);
      NewTcbClock(gen.at, delayFirst, wake, wakeAt, epoch, tick, prio, current, t, p);
    }

    lemma NoWaits(t: Task)
      requires CoreOk(gen, ev, prio, topReady, wake) && t !in gen.at
      ensures disturbed + WaitsOn(ev, t) == disturbed
    {
    }

    /** prvInitialiseTCBVariables */
    method InitialiseTcb(t: Task, p: nat)
      requires Valid() && t !in gen.at && p < MAX_PRIORITIES
      modifies this`prio, this`base, this`wake, this`evValue
      ensures Valid() && t in evValue && t in wake
      ensures prio == old(prio)[t := p] && base == old(base)[t := p]
      ensures evValue == old(evValue)[t := EventValue(p)]
    {
      hide QueuesOk, CoreOk, TcbsOk, ClockOk, NonePending, IsTop, CountedOk;
      NewTask(t, p);
      prio := prio[t := p];
      base := base[t := p];
      evValue := evValue[t := MAX_PRIORITIES - p];
      wake := wake[t := 0];
    }

    /** A new task is counted, and put on its ready list. */
    method Enlist(t: Task)
      requires Valid() && t !in gen.at && t in evValue && t in wake && t in prio && t in base
      requires prio[t] < MAX_PRIORITIES && base[t] < MAX_PRIORITIES
      modifies this`gen, this`topReady, this`numTasks
      ensures Core() && Tcbs() && Counted() && Clocked()
      ensures numTasks == old(numTasks) + 1 && gen.at == old(gen.at)[t := Ready(prio[t])]
      ensures current in prio && (prio[t] <= prio[current] ==> Preempted())
    {
      hide QueuesOk, CoreOk, TcbsOk, CountedOk, ClockOk, NonePending, IsTop, JoinEnd, Max;
      CurrentIn(gen.at, base, evValue, idle, current);
      PrioritiesOf(gen, ev, prio, topReady, wake, current, current);
      EnlistOk(gen, ev, prio, topReady, wake, t);
      EnlistKeeps(gen, t, prio[t], base, evValue, idle, current, numTasks, tasksDeleted);
      EnlistClock(gen.at, delayFirst, wake, wakeAt, epoch, tick, prio, current, t);
      numTasks := numTasks + 1;
      AddToReady(t);
    }

    /** vListInitialise for a list of waiting tasks of a new queue. */
    method NewEventList(list: nat)
      requires Valid() && Waiting(list) !in ev.on
      modifies this`ev
      ensures Valid() && ev.at == old(ev.at) && ev.on == old(ev.on)[Waiting(list) := TaskList([], 0)]
      ensures Others(old(Snapshot()), Snapshot(), {})
    {
      hide QueuesOk, Others, CoreOk, CountedOk, TcbsOk, ClockOk, IsTop;
      NewListOk(gen, ev, prio, topReady, wake, list);
      QueuesNew(ev, prio, base, evValue, disturbed, list);
      ev := Table(ev.on[Waiting(list) := TaskList([], 0)], ev.at);
      NobodyMoved(old(Snapshot()), Snapshot());
    }
  }
}
