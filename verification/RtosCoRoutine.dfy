/** The co-routine scheduler of FreeRTOS, which keeps its own tick count and catches up with the kernel's
    whenever it runs. It uses the lists and the delay scheme of the task scheduler; the ready lists of the
    priorities that co-routines do not have stay empty. */
module RtosCoRoutine {
  import opened RtosList
  import opened RtosTables
  import opened RtosTheory

  const MAX_CO_ROUTINE_PRIORITIES: nat := 2

  class CoRoutines {
    var gen: Generic
    var ev: Events
    var prio: map<Task, nat>
    var wake: map<Task, Tick>
    var evValue: map<Task, Tick>
    var current: Task
    var topReady: nat
    var tick: Tick                 // xCoRoutineTickCount
    var lastTick: Tick             // xLastTickCount
    var delayFirst: bool

    ghost var epoch: nat
    ghost var wakeAt: map<Task, nat>

    ghost function Now(): nat
      reads this`epoch, this`tick
    {
      epoch * WRAP + tick
    }

    ghost predicate Valid()
      reads this
    {
      && CoreOk(gen, ev, prio, topReady, wake) && ClockOk(gen.at, delayFirst, wake, wakeAt, epoch, tick, 0)
      && lastTick == tick && Ranks() && Queued()
    }

    /** Every event list is in the order of priorities. */
    ghost predicate Queued()
      reads this`ev, this`prio, this`evValue
    {
      QueuesOk(ev, prio, prio, evValue, {})
    }

    ghost predicate Ranks()
      reads this`gen, this`prio, this`evValue
    {
      CoRanks(gen.at, prio, evValue)
    }

    /** prvInitialiseCoRoutineLists */
    constructor ()
      ensures Valid() && Now() == 0 && gen.at == map[] && ev.at == map[]
    {
      hide QueuesOk, CoreOk, EmptyLists;
      gen, ev := EmptyLists(), Table(map[Pending := TaskList([], 0)], map[]);
      prio, wake, evValue := map[], map[], map[];
      current, topReady, tick, lastTick, delayFirst := 0, 0, 0, 0, true;
      epoch, wakeAt := 0, map[];
      new;
      EmptyListsOk();
      NoQueues();
    }

    /** xCoRoutineCreate, once the memory is allocated. */
    method Create(t: Task, priority: nat)
      requires Valid() && t !in gen.at
      modifies this`gen, this`prio, this`wake, this`evValue, this`topReady
      ensures Valid() && t in prio && gen.at == old(gen.at)[t := Ready(prio[t])]
      ensures prio[t] == if priority >= MAX_CO_ROUTINE_PRIORITIES then MAX_CO_ROUTINE_PRIORITIES - 1 else priority
      ensures evValue == old(evValue)[t := EventValue(prio[t])]
    {
      hide QueuesOk, CoreOk, CoRanks, ClockOk, JoinEnd, Max;
      var p := if priority >= MAX_CO_ROUTINE_PRIORITIES then MAX_CO_ROUTINE_PRIORITIES - 1 else priority;
      NewTcbOk(gen, ev, prio, topReady, wake, t, p);
      NewTcbClock(gen.at, delayFirst, wake, wakeAt, epoch, tick, prio, t, t, p);
      EnlistOk(gen, ev, prio[t := p], topReady, wake[t := 0], t);
      EnlistClock(gen.at, delayFirst, wake[t := 0], wakeAt, epoch, tick, prio[t := p], t, t);
      NewQueues(gen, ev, prio, topReady, wake, evValue, t, p);
      RanksNew(gen.at, prio, evValue, t, p);
      JoinedAt(gen, t, Ready(p));
      prio := prio[t := p];
      evValue := evValue[t := MAX_PRIORITIES - p];
      wake := wake[t := 0];
      AddToReady(t);
    }

    /** prvAddCoRoutineToReadyQueue */
    method AddToReady(t: Task)
      requires t in prio && Ready(prio[t]) in gen.on && gen.on[Ready(prio[t])].pos <= |gen.on[Ready(prio[t])].items|
      modifies this`gen, this`topReady
      ensures gen == JoinEnd(old(gen), t, Ready(prio[t])) && topReady == Max(old(topReady), prio[t])
    {
      if prio[t] > topReady {
        topReady := prio[t];
      }
      gen := JoinEnd(gen, t, Ready(prio[t]));
    }

    /** A delayed co-routine leaves the lists it is on, and becomes ready. */
    method WakeOne(t: Task)
      requires CoreOk(gen, ev, prio, topReady, wake) && t in gen.at && gen.at[t].Delay?
      requires Queued()
      modifies this`gen, this`ev, this`topReady
      ensures CoreOk(gen, ev, prio, topReady, wake) && Awoken(old(gen), old(ev), gen, ev, prio, {t})
      ensures ListShrank(old(gen), gen, t) && (t in old(ev).at ==> ListShrank(old(ev), ev, t))
      ensures Queued()
    {
      hide QueuesOk, CoreOk, JoinEnd, Leave, Consistent, Awoken;
      FactsOf(gen, ev, prio, topReady, wake);
      ReadiedOk(gen, ev, prio, topReady, wake, t);
      ReadiedAt(gen, prio, t);
      AwokenOne(gen, ev, prio, t);
      if t in ev.at {
        LeaveOk(ev, t);
        QueuesLeft(ev, prio, prio, evValue, {}, t);
      }
      gen := Leave(gen, t);
      if t in ev.at {
        ev := Leave(ev, t);
      }
      AddToReady(t);
    }

    /** vCoRoutineAddToDelayedList: the current co-routine sleeps for ticks > 0 of its own count, and may wait
        on an event list meanwhile. */
    method AddToDelayedList(ticks: Tick, waits: bool, list: nat)
      requires Valid() && current in gen.at && gen.at[current].Ready? && ticks > 0 && (waits ==> Waiting(list) in ev.on)
      modifies this`gen, this`ev, this`wake, this`wakeAt
      ensures Valid() && wakeAt == old(wakeAt)[current := Now() + ticks]
      ensures gen.at == old(gen.at)[current := Delay(if Now() + ticks < (epoch + 1) * WRAP then delayFirst else !delayFirst)]
      ensures ev.at == if waits then old(ev).at[current := Waiting(list)] else old(ev).at
      ensures waits ==> WaitJoined(old(ev), ev, current, list, evValue)
    {
      hide QueuesOk, CoreOk, CoRanks, ClockOk, Leave, JoinBy, Consistent;
      var timeToWake := if tick + ticks < 0x1_0000_0000 then tick + ticks else tick + ticks - 0x1_0000_0000;
      var first := if timeToWake < tick then !delayFirst else delayFirst;
      SleepOk(gen, ev, prio, topReady, wake, current, first, timeToWake);
      RanksMoved(gen.at, prio, evValue, current, first);
      ClockDelayed(gen.at, delayFirst, wake, wakeAt, epoch, tick, current, ticks, timeToWake);
      if waits {
        CoQueues(gen, ev, prio, topReady, wake, evValue, current, list);
        CoWaitOk(gen, ev, prio, topReady, wake, current, list, evValue);
      }
      gen := Leave(gen, current);
      wake := wake[current := timeToWake];
      gen := JoinBy(gen, current, Delay(first), wake);
      wakeAt := wakeAt[current := Now() + ticks];
      if waits {
        ghost var ev0 := ev;
        ev := JoinBy(ev, current, Waiting(list), evValue);
        WaitingOk(gen, ev0, prio, topReady, wake, ev, current, list);
      }
    }

    /** xCoRoutineRemoveFromEventList, called from interrupts. */
    method RemoveFromEventList(list: nat) returns (t: Task, higher: bool)
      requires Valid() && current in gen.at && Waiting(list) in ev.on && ev.on[Waiting(list)].items != []
      modifies this`ev
      ensures Valid() && t == old(ev).on[Waiting(list)].items[0] && ev.at == old(ev).at[t := Pending]
      ensures t in prio && current in prio && (higher <==> prio[t] >= prio[current])
      ensures forall u :: u in old(ev).on[Waiting(list)].items ==> u in prio && prio[u] <= prio[t]
    {
      hide QueuesOk, CoreOk, CoRanks, ClockOk, Leave, JoinEnd, Consistent;
      CoHighest(ev, prio, evValue, list);
      t := ev.on[Waiting(list)].items[0];
      WaiterIs(gen, ev, prio, topReady, wake, list);
      PrioritiesOf(gen, ev, prio, topReady, wake, t, current);
      QueuesHeld(gen, ev, prio, topReady, wake, prio, evValue, {}, t);
      PendOk(gen, ev, prio, topReady, wake, t);
      ev := Leave(ev, t);
      ev := JoinEnd(ev, t, Pending);
      higher := prio[t] >= prio[current];
    }

    /** prvCheckPendingReadyList */
    method CheckPendingReadyList()
      requires Valid()
      modifies this`gen, this`ev, this`topReady
      ensures Valid() && NonePending(ev) && Awoken(old(gen), old(ev), gen, ev, prio, PendingTasks(old(ev)))
    {
      hide QueuesOk, CoreOk, CoRanks, ClockOk, NonePending, Awoken, PendingTasks;
      ghost var gen0, ev0, done := gen, ev, {};
      AwokenNone(gen, ev, prio, topReady, wake);
      while true
        invariant Valid() && Awoken(gen0, ev0, gen, ev, prio, done) && done <= PendingTasks(ev0)
        decreases if Pending in ev.on then |ev.on[Pending].items| else 0
      {
        PendingHead(gen, ev, prio, topReady, wake);
        if |ev.on[Pending].items| == 0 { break; }
        var t := ev.on[Pending].items[0];
        ghost var gen1, ev1 := gen, ev;
        PendingMember(gen0, ev0, gen, ev, prio, done, t);
        HeadIsDelayed(gen, ev, prio, evValue, t);
        WakeOne(t);
        RanksAwoken(gen1, ev1, gen, ev, prio, {t}, evValue);
        AwokenTwice(gen0, ev0, gen1, ev1, gen, ev, prio, done, {t});
        ClockAwoken(gen1, ev1, gen, ev, prio, {t}, delayFirst, wake, wakeAt, epoch, tick);
        done := done + {t};
      }
      AllPendingDone(gen0, ev0, gen, ev, prio, done);
    }

    /** prvCheckDelayedList: counts the ticks that have passed since it ran last, as the two counters show them,
        and readies exactly the co-routines that were to wake by the time it has counted up to. That is kernelNow,
        the absolute time of the kernel's tick counter, if and only if less than a whole round has passed. */
    method CheckDelayedList(kernelTick: Tick, ghost kernelNow: nat)
      requires Valid() && kernelNow % WRAP == kernelTick && Now() <= kernelNow
      modifies this`gen, this`ev, this`topReady, this`tick, this`lastTick, this`epoch, this`delayFirst
      ensures Valid() && tick == kernelTick && old(Now()) <= Now() < old(Now()) + WRAP
      ensures Now() == kernelNow <==> kernelNow < old(Now()) + WRAP
      ensures Awoken(old(gen), old(ev), gen, ev, prio, DueBy(old(gen.at), wakeAt, Now()))
    {
      hide QueuesOk, CoreOk, CoRanks, ClockOk, NonePending, Awoken, DueBy, ReadyAll;
      var passedTicks: nat := if kernelTick >= lastTick then kernelTick - lastTick else kernelTick - lastTick + 0x1_0000_0000;
      PassedIsExact(epoch, tick, kernelTick, kernelNow);
      ghost var gen0, ev0, reached := gen, ev, Now() + passedTicks;
      NothingDue(gen.at, delayFirst, wake, wakeAt, epoch, tick);
      AwokenNone(gen, ev, prio, topReady, wake);
      while passedTicks > 0
        invariant CoreOk(gen, ev, prio, topReady, wake) && ClockOk(gen.at, delayFirst, wake, wakeAt, epoch, tick, 0) && Ranks() && Queued()
        invariant passedTicks >= 0 && Now() + passedTicks == reached
        invariant Awoken(gen0, ev0, gen, ev, prio, DueBy(gen0.at, wakeAt, Now()))
      {
        ghost var gen1, ev1, now1 := gen, ev, Now();
        CountTick();
        passedTicks := passedTicks - 1;
        DueThenDue(gen0, ev0, gen1, ev1, gen, ev, prio, wakeAt, now1);
      }
      lastTick := tick;
      TickOf(epoch, tick, kernelTick, reached);
    }

    /** One round of the outer loop of prvCheckDelayedList. When the count wraps the current delay list is
        empty. */
    method CountTick()
      requires CoreOk(gen, ev, prio, topReady, wake) && ClockOk(gen.at, delayFirst, wake, wakeAt, epoch, tick, 0) && Ranks()
      requires Queued()
      modifies this`gen, this`ev, this`topReady, this`tick, this`epoch, this`delayFirst
      ensures CoreOk(gen, ev, prio, topReady, wake) && ClockOk(gen.at, delayFirst, wake, wakeAt, epoch, tick, 0) && Ranks()
      ensures Now() == old(Now()) + 1 && tick == (if old(tick) == 0xFFFF_FFFF then 0 else old(tick) + 1)
      ensures Delay(old(delayFirst)) in old(gen).on
      ensures tick == 0 ==> delayFirst != old(delayFirst) && old(gen).on[Delay(old(delayFirst))].items == []
      ensures tick != 0 ==> delayFirst == old(delayFirst)
      ensures Awoken(old(gen), old(ev), gen, ev, prio, DueBy(old(gen.at), wakeAt, Now()))
      ensures Queued()
    {
      hide QueuesOk, CoreOk, CoRanks, ClockOk, Consistent, Awoken, Due, DueBy, ReadyAll;
      ghost var gen0, ev0 := gen, ev;
      FactsOf(gen, ev, prio, topReady, wake);
      if tick == 0xFFFF_FFFF {
        TickWrap(gen, delayFirst, wake, wakeAt, epoch, tick);
      } else {
        TickNoWrap(gen.at, delayFirst, wake, wakeAt, epoch, tick);
      }
      tick := if tick == 0xFFFF_FFFF then 0 else tick + 1;
      if tick == 0 {
        delayFirst := !delayFirst;
        epoch := epoch + 1;
      }
      WakeDue();
      DueIsNow(gen0.at, delayFirst, wake, wakeAt, epoch, tick);
      RanksAwoken(gen0, ev0, gen, ev, prio, DueBy(gen0.at, wakeAt, Now()), evValue);
    }

    /** The inner loop of prvCheckDelayedList. */
    method WakeDue()
      requires CoreOk(gen, ev, prio, topReady, wake) && ClockOk(gen.at, delayFirst, wake, wakeAt, epoch, tick, -1)
      requires Queued()
      modifies this`gen, this`ev, this`topReady
      ensures CoreOk(gen, ev, prio, topReady, wake) && ClockOk(gen.at, delayFirst, wake, wakeAt, epoch, tick, 0)
      ensures Awoken(old(gen), old(ev), gen, ev, prio, Due(old(gen.at), delayFirst, wake, tick))
      ensures Queued()
    {
      hide QueuesOk, CoreOk, ClockOk, Consistent, ReadyAll, Due, Awoken;
      ghost var gen0, ev0, done := gen, ev, {};
      AwokenNone(gen, ev, prio, topReady, wake);
      while true
        invariant CoreOk(gen, ev, prio, topReady, wake) && Queued() && Awoken(gen0, ev0, gen, ev, prio, done)
        invariant done <= Due(gen0.at, delayFirst, wake, tick)
        decreases if Delay(delayFirst) in gen.on then |gen.on[Delay(delayFirst)].items| else 0
      {
        HeadDecides(gen, ev, prio, topReady, wake, delayFirst, tick);
        if |gen.on[Delay(delayFirst)].items| == 0 { break; }
        var t := gen.on[Delay(delayFirst)].items[0];
        if tick < wake[t] { break; }
        AwokenKeys(gen0, ev0, gen, ev, prio, done);
        DueMember(gen0.at, prio, done, delayFirst, wake, tick, t);
        ghost var gen1, ev1 := gen, ev;
        WakeOne(t);
        AwokenTwice(gen0, ev0, gen1, ev1, gen, ev, prio, done, {t});
        done := done + {t};
      }
      AwokenKeys(gen0, ev0, gen, ev, prio, done);
      AllDueDone(gen0.at, prio, done, delayFirst, wake, tick);
      ClockCaughtUp(gen0.at, prio, done, delayFirst, wake, wakeAt, epoch, tick);
    }

    /** vCoRoutineSchedule, up to the call of the chosen co-routine: one of maximal priority, if any is ready. */
    method Schedule(kernelTick: Tick, ghost kernelNow: nat) returns (chosen: bool)
      requires Valid() && kernelNow % WRAP == kernelTick && Now() <= kernelNow
      modifies this`gen, this`ev, this`topReady, this`tick, this`lastTick, this`epoch, this`delayFirst, this`current
      ensures Valid() && NonePending(ev) && tick == kernelTick && old(Now()) <= Now() < old(Now()) + WRAP
      ensures Now() == kernelNow <==> kernelNow < old(Now()) + WRAP
      ensures Awoken(old(gen), old(ev), gen, ev, prio, PendingTasks(old(ev)) + DueBy(old(gen.at), wakeAt, Now()))
      ensures if chosen then IsTop(gen.at, prio, current)
              else current == old(current) && forall t :: t in gen.at ==> !gen.at[t].Ready?
      ensures chosen ==> exists g :: Turned(g, gen, prio, current) && Awoken(old(gen), old(ev), g, ev, prio, PendingTasks(old(ev)) + DueBy(old(gen.at), wakeAt, Now()))
    {
      hide Turned, QueuesOk, CoreOk, CoRanks, ClockOk, NonePending, Awoken, DueBy, PendingTasks, ReadyAll, IsTop, Rotated;
      ghost var gen0, ev0 := gen, ev;
      CheckPendingReadyList();
      ghost var gen1, ev1 := gen, ev;
      CheckDelayedList(kernelTick, kernelNow);
      AwokenKeys(gen0, ev0, gen1, ev1, prio, PendingTasks(ev0));
      AwokenKeys(gen1, ev1, gen, ev, prio, DueBy(gen1.at, wakeAt, Now()));
      AwokenTwice(gen0, ev0, gen1, ev1, gen, ev, prio, PendingTasks(ev0), DueBy(gen1.at, wakeAt, Now()));
      DueOrPending(gen0.at, prio, wakeAt, PendingTasks(ev0), Now());
      ghost var gen2 := gen;
      chosen := Choose();
      AwokenThen(gen0, ev0, gen2, ev, gen, prio, PendingTasks(ev0) + DueBy(gen0.at, wakeAt, Now()));
    }

    /** The search of vCoRoutineSchedule for the highest ready list that is not empty. */
    method Choose() returns (chosen: bool)
      requires Valid()
      modifies this`gen, this`topReady, this`current
      ensures Valid() && gen.at == old(gen.at)
      ensures TerminationList in old(gen).on ==> TerminationList in gen.on && gen.on[TerminationList] == old(gen).on[TerminationList]
      ensures if chosen then IsTop(gen.at, prio, current)
              else current == old(current) && forall t :: t in gen.at ==> !gen.at[t].Ready?
      ensures if chosen then Turned(old(gen), gen, prio, current) else gen == old(gen)
    {
      hide Turned, QueuesOk, CoreOk, CoRanks, ClockOk, IsTop, Rotated;
      chosen := false;
      TopList(gen, ev, prio, topReady, wake);
      while |gen.on[Ready(topReady)].items| == 0
        invariant Valid() && Ready(topReady) in gen.on
        invariant gen.on[Ready(topReady)].items == [] && topReady == 0 ==> forall t :: t in gen.at ==> !gen.at[t].Ready?
        modifies this`topReady
        decreases topReady
      {
        if topReady == 0 { return; }
        TopList(gen, ev, prio, topReady, wake);
        topReady := topReady - 1;
        TopList(gen, ev, prio, topReady, wake);
      }
      RotatedOk(gen, ev, prio, topReady, wake);
      RotatedTurns(gen, prio, topReady);
      gen := Rotated(gen, Ready(topReady));
      current := gen.on[Ready(topReady)].items[gen.on[Ready(topReady)].pos - 1];
      chosen := true;
    }
  }

  /** Co-routines are ready or delayed, and have one of their own priorities. */
  ghost predicate CoRanks(at: map<Task, Place>, prio: map<Task, nat>, evValue: map<Task, Tick>) {
    forall t :: t in at ==>
      (at[t].Ready? || at[t].Delay?) && t in evValue && t in prio && prio[t] < MAX_CO_ROUTINE_PRIORITIES
  }

  lemma RanksAwoken(g0: Generic, e0: Events, g: Generic, e: Events, prio: map<Task, nat>, s: set<Task>, evValue: map<Task, Tick>)
    requires Awoken(g0, e0, g, e, prio, s) && CoRanks(g0.at, prio, evValue)
    ensures CoRanks(g.at, prio, evValue)
  {
  }

  lemma RanksMoved(at: map<Task, Place>, prio: map<Task, nat>, evValue: map<Task, Tick>, t: Task, b: bool)
    requires CoRanks(at, prio, evValue) && t in at
    ensures CoRanks(at[t := Delay(b)], prio, evValue)
  {
  }

  lemma HeadIsDelayed(gen: Generic, ev: Events, prio: map<Task, nat>, evValue: map<Task, Tick>, t: Task)
    requires CoRanks(gen.at, prio, evValue) && t in gen.at && !gen.at[t].Ready?
    ensures gen.at[t].Delay?
  {
  }

  /** The top list, or a lower bound when it is empty. */
  lemma TopList(gen: Generic, ev: Events, prio: map<Task, nat>, top: nat, wake: map<Task, Tick>)
    requires CoreOk(gen, ev, prio, top, wake)
    ensures Ready(top) in gen.on
    ensures gen.on[Ready(top)].items == [] && top > 0 ==> CoreOk(gen, ev, prio, top - 1, wake)
    ensures gen.on[Ready(top)].items == [] && top == 0 ==> forall t :: t in gen.at ==> !gen.at[t].Ready?
  {
    forall t | t in gen.at && gen.at[t].Ready?
      ensures t in gen.on[Ready(prio[t])].items
    {
    }
  }

  /** The event item of a ready co-routine joins a list of waiting ones. */
  lemma CoWaitOk(gen: Generic, ev: Events, prio: map<Task, nat>, top: nat, wake: map<Task, Tick>, t: Task, list: nat, evValue: map<Task, Tick>)
    requires CoreOk(gen, ev, prio, top, wake) && CoRanks(gen.at, prio, evValue)
    requires t in gen.at && gen.at[t].Ready? && Waiting(list) in ev.on
    ensures forall u :: u in ev.on[Waiting(list)].items ==> u in evValue
    ensures t in evValue
    ensures var e := JoinBy(ev, t, Waiting(list), evValue);
            Consistent(e) && e.at == ev.at[t := Waiting(list)] && e.on.Keys == ev.on.Keys
  {
    hide JoinBy, Consistent, SortedBy, DelaysSorted;
    assert forall u :: u in ev.at ==> u in gen.at && u in evValue;
    assert t !in ev.at;
    ItemsHaveValues(ev, Waiting(list), evValue);
    JoinByOk(ev, t, Waiting(list), evValue);
    JoinedByAt(ev, t, Waiting(list), evValue);
  }

  lemma CoHighest(ev: Events, prio: map<Task, nat>, evValue: map<Task, Tick>, list: nat)
    requires QueuesOk(ev, prio, prio, evValue, {}) && Waiting(list) in ev.on && ev.on[Waiting(list)].items != []
    ensures forall u :: u in ev.on[Waiting(list)].items ==>
              u in prio && ev.on[Waiting(list)].items[0] in prio && prio[u] <= prio[ev.on[Waiting(list)].items[0]]
  {
    FirstIsHighest(ev.on[Waiting(list)].items, prio, evValue);
  }

  lemma NoQueues()
    ensures QueuesOk(Table(map[Pending := TaskList([], 0)], map[]), map[], map[], map[], {})
  {
  }

  lemma NewQueues(gen: Generic, ev: Events, prio: map<Task, nat>, top: nat, wake: map<Task, Tick>, evValue: map<Task, Tick>, t: Task, p: nat)
    requires CoreOk(gen, ev, prio, top, wake) && t !in gen.at && QueuesOk(ev, prio, prio, evValue, {}) && p < MAX_PRIORITIES
    ensures QueuesOk(ev, prio[t := p], prio[t := p], evValue[t := MAX_PRIORITIES - p], {})
  {
    hide QueuesOk;
    QueuesRewritten(ev, prio, prio, evValue, {}, t, p, p, EventValue(p));
    assert {} + WaitsOn(ev, t) == {};
  }

  /** The event item of a ready co-routine joins a list in order. */
  lemma CoQueues(gen: Generic, ev: Events, prio: map<Task, nat>, top: nat, wake: map<Task, Tick>, evValue: map<Task, Tick>, t: Task, list: nat)
    requires CoreOk(gen, ev, prio, top, wake) && CoRanks(gen.at, prio, evValue) && QueuesOk(ev, prio, prio, evValue, {})
    requires t in gen.at && gen.at[t].Ready? && Waiting(list) in ev.on
    ensures t in evValue && forall u :: u in ev.on[Waiting(list)].items ==> u in evValue
    ensures var e := JoinBy(ev, t, Waiting(list), evValue); QueuesOk(e, prio, prio, evValue, {}) && WaitJoined(ev, e, t, list, evValue)
  {
    hide JoinBy, SortedBy, DelaysSorted;
    CoWaitOk(gen, ev, prio, top, wake, t, list, evValue);
    assert t !in ev.at && Shows(t, prio, evValue);
    QueuesJoined(ev, prio, prio, evValue, {}, t, list);
    JoinedByAt(ev, t, Waiting(list), evValue);
    if SortedBy(ev.on[Waiting(list)].items, evValue) {
      JoinBySorted(ev, t, Waiting(list), evValue);
    }
  }

  /** The ticks that have passed, as the two counters show them: the difference, wrapped around. */
  function Passed(tick: Tick, kernelTick: Tick): (d: nat)
    ensures d < WRAP
  {
    if kernelTick >= tick then kernelTick - tick else kernelTick - tick + WRAP
  }

  /** It is the number of ticks that have passed if and only if that is less than a whole round. */
  lemma PassedIsExact(epoch: nat, tick: Tick, kernelTick: Tick, kernelNow: nat)
    requires kernelNow % WRAP == kernelTick && epoch * WRAP + tick <= kernelNow
    ensures epoch * WRAP + tick + Passed(tick, kernelTick) == kernelNow <==> kernelNow < epoch * WRAP + tick + WRAP
    ensures (epoch * WRAP + tick + Passed(tick, kernelTick)) % WRAP == kernelTick
  {
    var e := kernelNow / WRAP;
    assert kernelNow == e * WRAP + kernelTick;
    if kernelNow < epoch * WRAP + tick + WRAP {
      assert e == epoch || e == epoch + 1;
    }
    assert (if kernelTick >= tick then epoch else epoch + 1) * WRAP + kernelTick == epoch * WRAP + tick + Passed(tick, kernelTick);
  }

  /** A run in which a whole round goes unnoticed: a co-routine that was to wake at tick 1 is still delayed when the
      co-routine scheduler runs again at tick 0x1_0000_0000, and no co-routine is chosen. */
  method RoundGoesUnnoticed() returns (c: CoRoutines, chosen: bool)
    ensures fresh(c) && c.Valid() && !chosen
    ensures 0 in c.wakeAt && c.wakeAt[0] <= WRAP && 0 in c.gen.at && c.gen.at[0].Delay?
  {
    hide QueuesOk, CoreOk, CoRanks, ClockOk, NonePending, PendingTasks, Awoken;
    c := OneSleeps();
    ghost var gen, ev := c.gen, c.ev;
    assert WRAP % WRAP == 0;
    chosen := c.Schedule(0, WRAP);
    OnlyOne(gen, ev, c.gen, c.ev, c.prio, c.wakeAt, c.Now());
  }

  /** At tick 0, a co-routine goes to sleep until tick 1. */
  method OneSleeps() returns (c: CoRoutines)
    ensures fresh(c) && c.Valid() && c.Now() == 0 && c.ev.at == map[] && c.gen.at.Keys == {0} && c.gen.at[0].Delay?
    ensures 0 in c.wakeAt && c.wakeAt[0] == 1
  {
    hide QueuesOk, CoreOk, CoRanks, ClockOk, NonePending, PendingTasks, Awoken;
    c := new CoRoutines();
    c.Create(0, 0);
    ghost var gen, ev := c.gen, c.ev;
    var chosen := c.Schedule(0, 0);
    OnlyOne(gen, ev, c.gen, c.ev, c.prio, c.wakeAt, c.Now());
    c.AddToDelayedList(1, false, 0);
  }

  /** The only co-routine, which nothing has readied. */
  lemma OnlyOne(gen0: Generic, ev0: Events, gen: Generic, ev: Events, prio: map<Task, nat>, wakeAt: map<Task, nat>, now: nat)
    requires Awoken(gen0, ev0, gen, ev, prio, PendingTasks(ev0) + DueBy(gen0.at, wakeAt, now)) && ev0.at == map[] && gen0.at.Keys == {0}
    requires gen0.at[0].Ready? || (gen0.at[0].Delay? && 0 in wakeAt && now < wakeAt[0])
    ensures gen.at == gen0.at && ev.at == map[]
  {
    assert PendingTasks(ev0) + DueBy(gen0.at, wakeAt, now) == {};
  }

  lemma TickOf(epoch: nat, tick: Tick, kernelTick: Tick, kernelNow: nat)
    requires kernelNow % WRAP == kernelTick && epoch * WRAP + tick == kernelNow
    ensures tick == kernelTick
  {
  }

  lemma AwokenThen(g0: Generic, e0: Events, g: Generic, e: Events, h: Generic, prio: map<Task, nat>, s: set<Task>)
    requires Awoken(g0, e0, g, e, prio, s) && h.at == g.at
    requires TerminationList in g.on ==> TerminationList in h.on && h.on[TerminationList] == g.on[TerminationList]
    ensures Awoken(g0, e0, h, e, prio, s)
  {
  }

  lemma RanksNew(at: map<Task, Place>, prio: map<Task, nat>, evValue: map<Task, Tick>, t: Task, p: nat)
    requires CoRanks(at, prio, evValue) && p < MAX_CO_ROUTINE_PRIORITIES
    ensures CoRanks(at[t := Ready(p)], prio[t := p], evValue[t := MAX_PRIORITIES - p])
  {
  }

  function EmptyLists(): Generic {
    Table(map p | p in AllPlaces() :: TaskList([], 0), map[])
  }

  lemma EmptyListsOk()
    ensures CoreOk(EmptyLists(), Table(map[Pending := TaskList([], 0)], map[]), map[], 0, map[]) && EmptyLists().at == map[]
  {
    hide AllPlaces;
    forall p: Place
      ensures p in AllPlaces() <==> (p.Ready? ==> p.priority < MAX_PRIORITIES)
    {
      PlacesBound(p);
    }
  }
}
