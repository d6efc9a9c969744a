/** FreeRTOS mutexes: priority inheritance by the holder, and recursive takes. The tasks, the ready ones
    among them and the running one, and any number of mutexes, of which each task uses at most one at a time. */
module RtosMutex {
  import opened Basics
  import opened RtosList
  import opened RtosTables

  /** A mutex queue: pxMutexHolder, uxMessagesWaiting (1 when free), uxRecursiveCallCount, and
      xTasksWaitingToReceive. */
  datatype Mutex = Mutex(holder: Option<Task>, messages: nat, calls: nat, waiting: seq<Task>)

  /** In the order of priorities, the highest first. */
  ghost predicate Ranked(s: seq<Task>, prio: map<Task, nat>) {
    && (forall t :: t in s ==> t in prio)
    && forall i, j :: 0 <= i < j < |s| ==> prio[s[i]] >= prio[s[j]]
  }

  /** Where vListInsert puts the event item of a task among waiting ones: behind all that rank as high. */
  function RankOf(s: seq<Task>, prio: map<Task, nat>, t: Task): (p: nat)
    requires t in prio && forall u :: u in s ==> u in prio
    ensures p <= |s|
  {
    if s == [] || prio[s[0]] < prio[t] then 0 else 1 + RankOf(s[1..], prio, t)
  }

  lemma {:induction false} RankSplits(s: seq<Task>, prio: map<Task, nat>, t: Task)
    requires Ranked(s, prio) && t in prio
    ensures var p := RankOf(s, prio, t);
            && (forall i :: 0 <= i < p ==> prio[s[i]] >= prio[t])
            && (forall i :: p <= i < |s| ==> prio[s[i]] < prio[t])
  {
    if s != [] && prio[s[0]] >= prio[t] {
      RankedTail(s, prio);
      RankSplits(s[1..], prio, t);
      var p := RankOf(s, prio, t);
      forall i | 0 <= i < |s|
        ensures if i < p then prio[s[i]] >= prio[t] else prio[s[i]] < prio[t]
      {
        assert i > 0 ==> s[i] == s[1..][i - 1];
      }
    } else {
      assert forall i :: 0 <= i < |s| ==> s[0] in s && prio[s[i]] <= prio[s[0]];
    }
  }

  /** Place k of a list is behind all tasks that rank at least as high as t, and before all others. */
  ghost predicate Behind(s: seq<Task>, prio: map<Task, nat>, t: Task, k: nat) {
    && t in prio && (forall u :: u in s ==> u in prio)
    && forall i :: 0 <= i < |s| ==> (i < k <==> prio[s[i]] >= prio[t])
  }

  lemma RankedTail(s: seq<Task>, prio: map<Task, nat>)
    requires Ranked(s, prio) && s != []
    ensures Ranked(s[1..], prio) && forall t :: t in s[1..] ==> prio[t] <= prio[s[0]]
    ensures forall t :: t in s <==> t == s[0] || t in s[1..]
  {
    assert s == [s[0]] + s[1..];
    forall t | t in s[1..]
      ensures t in prio && prio[t] <= prio[s[0]]
    {
      var i :| 0 <= i < |s[1..]| && s[1..][i] == t;
      assert s[i + 1] == t;
    }
  }

  /** Joining a ranked list. */
  lemma RankedPut(s: seq<Task>, prio: map<Task, nat>, t: Task)
    requires Ranked(s, prio) && NoRepeat(s) && t in prio && t !in s
    ensures var r := Put(s, RankOf(s, prio, t), t);
            Ranked(r, prio) && NoRepeat(r) && forall u :: u in r <==> u == t || u in s
  {
    hide RankOf;
    RankSplits(s, prio, t);
    PutMembers(s, RankOf(s, prio, t), t);
    var p := RankOf(s, prio, t);
    var r := Put(s, p, t);
    forall i, j | 0 <= i < j < |r|
      ensures r[i] in prio && r[j] in prio && prio[r[i]] >= prio[r[j]]
    {
      assert r[i] in r && r[j] in r;
    }
  }

  lemma RankedOmit(s: seq<Task>, prio: map<Task, nat>, t: Task)
    requires Ranked(s, prio) && NoRepeat(s)
    ensures Ranked(Omit(s, t), prio) && NoRepeat(Omit(s, t)) && forall u :: u in Omit(s, t) <==> u in s && u != t
  {
    OmitMembers(s, t);
  }

  // ---------- the invariant ----------

  /** Every mutex: free exactly without a holder; its waiters ranked and none of them ready; and the holder has
      at least the priority of every waiter, or, while the mutex is free, a woken task that is ready has. */
  ghost predicate MutexOk(x: Mutex, woken: set<Task>, prio: map<Task, nat>, ready: set<Task>, recursive: bool) {
    && x.messages == (if x.holder.None? then 1 else 0)
    && (x.holder.None? ==> x.calls == 0) && (x.holder.Some? ==> (recursive <==> x.calls > 0))
    && Ranked(x.waiting, prio) && NoRepeat(x.waiting) && (forall t :: t in x.waiting ==> t !in ready)
    && woken <= ready
    && Covered(x, woken, prio)
  }

  ghost predicate Covered(x: Mutex, woken: set<Task>, prio: map<Task, nat>) {
    match x.holder
    case Some(h) => h in prio && forall t :: t in x.waiting ==> t in prio && prio[t] <= prio[h]
    case None => x.waiting != [] ==> exists u :: u in woken && Above(u, x.waiting, prio)
  }

  ghost predicate Above(u: Task, s: seq<Task>, prio: map<Task, nat>) {
    u in prio && forall t :: t in s ==> t in prio && prio[t] <= prio[u]
  }

  /** The mutex that a task holds, waits for or has been woken for; only its holder can have inherited. */
  ghost predicate UsesOk(id: nat, x: Mutex, woken: set<Task>, uses: map<Task, nat>) {
    && (x.holder.Some? ==> x.holder.value in uses && uses[x.holder.value] == id)
    && (x.holder.Some? ==> x.holder.value !in x.waiting && x.holder.value !in woken)
    && (forall t :: t in x.waiting || t in woken ==> t in uses && uses[t] == id)
  }

  ghost predicate AllOk(mutexes: map<nat, Mutex>, woken: map<nat, set<Task>>, prio: map<Task, nat>, ready: set<Task>,
                        recursive: map<nat, bool>, uses: map<Task, nat>) {
    && mutexes.Keys == woken.Keys == recursive.Keys
    && forall id :: id in mutexes ==>
         MutexOk(mutexes[id], woken[id], prio, ready, recursive[id]) && UsesOk(id, mutexes[id], woken[id], uses)
  }

  /** Only a task that holds a mutex runs above its base priority. */
  ghost predicate BasesOk(base: map<Task, nat>, prio: map<Task, nat>, mutexes: map<nat, Mutex>, uses: map<Task, nat>) {
    && prio.Keys == base.Keys
    && (forall t :: t in prio ==> prio[t] >= base[t])
    && (forall t :: t in prio && prio[t] != base[t] ==> HoldsOne(t, mutexes, uses))
  }

  ghost predicate HoldsOne(t: Task, mutexes: map<nat, Mutex>, uses: map<Task, nat>) {
    t in uses && uses[t] in mutexes && mutexes[uses[t]].holder == Some(t)
  }

  /** The running task is ready, and no ready task has a higher priority. */
  ghost predicate Runs(current: Task, ready: set<Task>, prio: map<Task, nat>) {
    current in ready && current in prio && forall t :: t in ready && t in prio ==> prio[t] <= prio[current]
  }

  // ---------- one mutex at a time ----------

  /** The first of the waiters, if there is one, has a higher priority than t. */
  predicate Outranked(s: seq<Task>, prio: map<Task, nat>, t: Task) {
    s != [] && s[0] in prio && t in prio && prio[s[0]] > prio[t]
  }

  /** A task takes a free mutex: unless the first waiter ranks above it, none does. */
  lemma TakenOk(x: Mutex, woken: set<Task>, prio: map<Task, nat>, ready: set<Task>, rec: bool, t: Task, calls: nat)
    requires MutexOk(x, woken, prio, ready, rec) && x.holder.None? && t in prio && (rec <==> calls > 0)
    ensures MutexOk(Mutex(Some(t), 0, calls, x.waiting), woken - {t}, prio, ready, rec) <==> !Outranked(x.waiting, prio, t)
  {
  }

  /** The first waiter does not rank above the running task, if that is the one that should run. */
  lemma RunnerIsAbove(x: Mutex, woken: set<Task>, prio: map<Task, nat>, ready: set<Task>, rec: bool, t: Task)
    requires MutexOk(x, woken, prio, ready, rec) && x.holder.None? && Runs(t, ready, prio)
    ensures !Outranked(x.waiting, prio, t)
  {
    if x.waiting != [] {
      var u :| u in woken && Above(u, x.waiting, prio);
      assert x.waiting[0] in x.waiting;
    }
  }

  lemma NotTakenOk(x: Mutex, woken: set<Task>, prio: map<Task, nat>, ready: set<Task>, rec: bool, t: Task)
    requires MutexOk(x, woken, prio, ready, rec) && x.holder.Some?
    ensures MutexOk(x, woken - {t}, prio, ready, rec)
  {
  }

  /** A task uses only its own mutex. */
  lemma UsesElsewhere(id: nat, x: Mutex, woken: set<Task>, uses: map<Task, nat>, t: Task, m: nat)
    requires UsesOk(id, x, woken, uses) && id != m && (t in uses ==> uses[t] == m)
    ensures UsesOk(id, x, woken, uses[t := m]) && UsesOk(id, x, woken, uses - {t})
    ensures x.holder != Some(t) && t !in x.waiting && t !in woken
  {
  }

  lemma UsesTaken(id: nat, x: Mutex, woken: set<Task>, uses: map<Task, nat>, t: Task, calls: nat)
    requires UsesOk(id, x, woken, uses) && t !in x.waiting
    ensures UsesOk(id, Mutex(Some(t), 0, calls, x.waiting), woken - {t}, uses[t := id])
    ensures x.holder != Some(t) ==> UsesOk(id, x, woken - {t}, uses - {t})
  {
  }

  /** The table with one mutex changed. */
  lemma OneChanged(mutexes: map<nat, Mutex>, woken: map<nat, set<Task>>, prio: map<Task, nat>, ready: set<Task>,
                   recursive: map<nat, bool>, uses: map<Task, nat>, id: nat, x: Mutex, w: set<Task>, t: Task, u: map<Task, nat>)
    requires AllOk(mutexes, woken, prio, ready, recursive, uses) && id in mutexes && (t in uses ==> uses[t] == id)
    requires u == uses[t := id] || u == uses - {t}
    requires MutexOk(x, w, prio, ready, recursive[id]) && UsesOk(id, x, w, u)
    ensures AllOk(mutexes[id := x], woken[id := w], prio, ready, recursive, u)
  {
    hide MutexOk, UsesOk;
    forall j | j in mutexes && j != id
      ensures UsesOk(j, mutexes[j], woken[j], u)
    {
      UsesElsewhere(j, mutexes[j], woken[j], uses, t, id);
    }
  }

  lemma BasesKept(base: map<Task, nat>, prio: map<Task, nat>, mutexes: map<nat, Mutex>, uses: map<Task, nat>, id: nat, x: Mutex, t: Task, u: map<Task, nat>)
    requires BasesOk(base, prio, mutexes, uses) && id in mutexes && (t in uses ==> uses[t] == id)
    requires u == uses[t := id] || u == uses - {t}
    requires x.holder == Some(t) || (x.holder == mutexes[id].holder && x.holder != Some(t))
    requires mutexes[id].holder.None? || x.holder == mutexes[id].holder
    requires u == uses - {t} ==> mutexes[id].holder != Some(t)
    ensures BasesOk(base, prio, mutexes[id := x], u)
  {
  }

  class Kernel {
    const base: map<Task, nat>         // uxBasePriority, not changed meanwhile
    const recursive: map<nat, bool>    // which mutexes are used through the recursive calls
    var prio: map<Task, nat>           // uxPriority
    var ready: set<Task>
    var current: Task
    var mutexes: map<nat, Mutex>

    ghost var woken: map<nat, set<Task>>   // tasks woken by a give that have not run since
    ghost var uses: map<Task, nat>

    ghost predicate Valid()
      reads this
    {
      AllOk(mutexes, woken, prio, ready, recursive, uses) && BasesOk(base, prio, mutexes, uses)
    }

    /** Tasks that are all ready, and mutexes as xQueueCreateMutex leaves them. */
    constructor (base: map<Task, nat>, recursive: map<nat, bool>, first: Task)
      requires Runs(first, base.Keys, base)
      ensures Valid() && Running() && prio == base && this.recursive == recursive
      ensures mutexes == map id | id in recursive :: Mutex(None, 1, 0, [])
      ensures this.base == base && ready == base.Keys && current == first && uses == map[]
      ensures woken == map id | id in recursive :: {}
    {
      this.base, this.recursive, prio, ready, current := base, recursive, base, base.Keys, first;
      mutexes := map id | id in recursive :: Mutex(None, 1, 0, []);
      woken, uses := map id | id in recursive :: {}, map[];
    }

    /** The running task is ready, and no ready task has a higher priority. */
    ghost predicate Running()
      reads this`current, this`ready, this`prio
    {
      Runs(current, ready, prio)
    }

    /** The holder of a mutex has at least the priority of every task that waits for it, no task holds two,
        and a task that holds none has its base priority. */
    lemma HolderIsAbove(id: nat)
      requires Valid() && id in mutexes
      ensures mutexes[id].holder.Some? ==> forall t :: t in mutexes[id].waiting ==>
                t in prio && mutexes[id].holder.value in prio && prio[t] <= prio[mutexes[id].holder.value]
      ensures forall j :: j in mutexes && mutexes[j].holder.Some? && mutexes[j].holder == mutexes[id].holder ==> j == id
      ensures forall t :: t in prio && (forall j :: j in mutexes ==> mutexes[j].holder != Some(t)) ==> prio[t] == base[t]
    {
      assert MutexOk(mutexes[id], woken[id], prio, ready, recursive[id]);
      forall j | j in mutexes && mutexes[j].holder.Some? && mutexes[j].holder == mutexes[id].holder
        ensures j == id
      {
        assert UsesOk(j, mutexes[j], woken[j], uses) && UsesOk(id, mutexes[id], woken[id], uses);
      }
    }

    /** A context switch, as the scheduler does it. */
    method Switch(t: Task)
      requires Valid() && Runs(t, ready, prio)
      modifies this`current
      ensures Valid() && Running() && current == t
    {
      current := t;
    }

    /** The critical section of xQueueGenericReceive on a mutex, by the running task, which uses no other. The
        order of priorities is kept exactly unless the mutex is taken past a first waiter of higher priority,
        which never happens to the task that should run. */
    method Take(id: nat) returns (taken: bool)
      requires Valid() && current in ready && current in prio && id in mutexes && mutexes[id].holder != Some(current) && !recursive[id]
      requires current in uses ==> uses[current] == id
      modifies this`mutexes, this`woken, this`uses
      ensures taken <==> old(mutexes)[id].holder.None?
      ensures mutexes == if taken then old(mutexes)[id := Mutex(Some(current), 0, 0, old(mutexes)[id].waiting)] else old(mutexes)
      ensures Valid() <==> !(taken && Outranked(old(mutexes)[id].waiting, prio, current))
      ensures Running() ==> Valid()
      ensures uses == if taken then old(uses)[current := id] else old(uses) - {current}
    {
      taken := TakeOnce(id, 0);
    }

    /** The same, for a given recursive call count. */
    method TakeOnce(id: nat, calls: nat) returns (taken: bool)
      requires Valid() && current in ready && current in prio && id in mutexes && mutexes[id].holder != Some(current) && (recursive[id] <==> calls > 0)
      requires current in uses ==> uses[current] == id
      modifies this`mutexes, this`woken, this`uses
      ensures taken <==> old(mutexes)[id].holder.None?
      ensures mutexes == if taken then old(mutexes)[id := Mutex(Some(current), 0, calls, old(mutexes)[id].waiting)] else old(mutexes)
      ensures Valid() <==> !(taken && Outranked(old(mutexes)[id].waiting, prio, current))
      ensures Running() ==> Valid()
      ensures uses == if taken then old(uses)[current := id] else old(uses) - {current}
    {
      hide MutexOk, UsesOk, BasesOk, Outranked, Runs;
      var x := mutexes[id];
      FreeOrHeld(x, woken[id], prio, ready, recursive[id], current);
      taken := x.messages > 0;
      ghost var w, u := woken[id] - {current}, if taken then uses[current := id] else uses - {current};
      UsesTaken(id, x, woken[id], uses, current, calls);
      if taken {
        TakenOk(x, woken[id], prio, ready, recursive[id], current, calls);
        if Running() {
          RunnerIsAbove(x, woken[id], prio, ready, recursive[id], current);
        }
        x := Mutex(Some(current), x.messages - 1, calls, x.waiting);
      } else {
        NotTakenOk(x, woken[id], prio, ready, recursive[id], current);
      }
      if MutexOk(x, w, prio, ready, recursive[id]) {
        OneChanged(mutexes, woken, prio, ready, recursive, uses, id, x, w, current, u);
        BasesKept(base, prio, mutexes, uses, id, x, current, u);
      }
      mutexes := mutexes[id := x];
      woken := woken[id := w];
      uses := u;
      assert Valid() ==> MutexOk(mutexes[id], woken[id], prio, ready, recursive[id]);
    }

    /** The blocking part of xQueueGenericReceive on a mutex that another task holds: the holder inherits the
        running task's priority, which then waits in order of priority. */
    method BlockOn(id: nat)
      requires Valid() && current in ready && current in prio && id in mutexes && mutexes[id].holder.Some? && mutexes[id].holder != Some(current)
      requires current !in uses
      modifies this`mutexes, this`prio, this`ready, this`uses
      ensures Valid() && ready == old(ready) - {current} && current in old(prio)
      ensures mutexes[id].holder == old(mutexes)[id].holder && mutexes[id].holder.value in old(prio)
      ensures var h := mutexes[id].holder.value; prio == old(prio)[h := if old(prio)[h] < old(prio)[current] then old(prio)[current] else old(prio)[h]]
      ensures forall t :: t in mutexes[id].waiting <==> t == current || t in old(mutexes)[id].waiting
      ensures |mutexes[id].waiting| == |old(mutexes)[id].waiting| + 1 && uses == old(uses)[current := id]
      ensures mutexes == old(mutexes)[id := old(mutexes)[id].(waiting := mutexes[id].waiting)]
      ensures exists k: nat :: k <= |old(mutexes)[id].waiting| && mutexes[id].waiting == Put(old(mutexes)[id].waiting, k, current)
                && Behind(old(mutexes)[id].waiting, old(prio), current, k)
    {
      hide Behind, MutexOk, UsesOk, BasesOk, RankOf, Put;
      var x := mutexes[id];
      var h := x.holder.value;
      HolderKnown(x, woken[id], prio, ready, recursive[id]);
      var p := if prio[h] < prio[current] then prio[h := prio[current]] else prio;
      UsesBlocked(id, x, woken[id], uses, current, RankOf(x.waiting, prio, current));
      BlockedOk(x, woken[id], prio, ready, recursive[id], current, p);
      var y := x.(waiting := Put(x.waiting, RankOf(x.waiting, prio, current), current));
      OthersBlocked(mutexes, woken, prio, ready, recursive, uses, id, y, current, h, p);
      BasesRaised(base, prio, mutexes, uses, id, y, current, h, p);
      prio := p;
      mutexes := mutexes[id := y];
      ready := ready - {current};
      uses := uses[current := id];
    }

    /** The critical section of xQueueGenericSend on a mutex, by its holder: it gets its base priority back,
        and the first waiter is woken. The code yields for that waiter only, so that another ready task is passed
        over exactly when it ranks above the base priority and the first waiter, if there is one, ranks below. */
    method Give(id: nat) returns (switches: bool)
      requires Valid() && current in ready && id in mutexes && mutexes[id].holder == Some(current) && current in prio && current in base
      modifies this`mutexes, this`prio, this`ready, this`woken, this`uses
      ensures Valid() && prio == old(prio)[current := base[current]] && current !in uses
      ensures mutexes == old(mutexes)[id := GivenOf(old(mutexes)[id])]
      ensures ready == old(ready) + FirstOf(old(mutexes)[id].waiting)
      ensures switches <==> ComesFirst(old(mutexes)[id].waiting)
      ensures !switches && !Running() <==> (exists u :: u in old(ready) && Outranks(u, current)) && !ComesFirst(old(mutexes)[id].waiting)
      ensures uses == old(uses) - {current}
    {
      hide MutexOk, UsesOk, BasesOk;
      var x := mutexes[id];
      var p := prio[current := base[current]];
      WaitersKnown(x, woken[id], prio, ready, recursive[id]);
      UsesGiven(id, x, woken[id], uses, current);
      GivenOk(x, woken[id], prio, ready, recursive[id], current, base[current]);
      OthersGiven(mutexes, woken, prio, ready, recursive, uses, id, x, current, base[current]);
      BasesBack(base, prio, mutexes, uses, id, GivenOf(x), current);
      prio := p;
      mutexes := mutexes[id := GivenOf(x)];
      ready := ready + FirstOf(x.waiting);
      switches := x.waiting != [] && prio[x.waiting[0]] >= prio[current];
      woken := woken[id := woken[id] + FirstOf(x.waiting)];
      uses := uses - {current};
      assert old(Valid());
    }

    /** There is a first waiter, and it does not rank below the running task. */
    ghost predicate ComesFirst(s: seq<Task>)
      reads this`prio, this`current
    {
      s != [] && !Outranks(current, s[0])
    }

    /** u has a higher priority than t. */
    ghost predicate Outranks(u: Task, t: Task)
      reads this`prio
    {
      u in prio && t in prio && prio[u] > prio[t]
    }

    /** xQueueTakeMutexRecursive, without the waiting. */
    method TakeRecursive(id: nat) returns (taken: bool)
      requires Valid() && current in ready && current in prio && id in mutexes && recursive[id] && (current in uses ==> uses[current] == id)
      modifies this`mutexes, this`woken, this`uses
      ensures taken <==> old(mutexes)[id].holder.None? || old(mutexes)[id].holder == Some(current)
      ensures mutexes == if !taken then old(mutexes)
                         else old(mutexes)[id := Mutex(Some(current), 0, old(mutexes)[id].calls + 1, old(mutexes)[id].waiting)]
      ensures Valid() <==> !(old(mutexes)[id].holder.None? && Outranked(old(mutexes)[id].waiting, prio, current))
      ensures Running() ==> Valid()
    {
      hide MutexOk, UsesOk, BasesOk, Outranked, Runs;
      var x := mutexes[id];
      CallsKnown(x, woken[id], prio, ready, recursive[id]);
      if x.holder == Some(current) {
        CountCall(id, x.calls + 1);
        taken := true;
      } else {
        taken := TakeOnce(id, 1);
      }
    }

    /** xQueueGiveMutexRecursive: gives the mutex when the calls are balanced. */
    method GiveRecursive(id: nat) returns (given: bool)
      requires Valid() && current in ready && id in mutexes && recursive[id] && current in prio && current in base
      modifies this`mutexes, this`prio, this`ready, this`woken, this`uses
      ensures Valid() && (given <==> old(mutexes)[id].holder == Some(current))
      ensures !given ==> mutexes == old(mutexes) && prio == old(prio)
      ensures given ==> (mutexes[id].holder == None <==> old(mutexes)[id].calls == 1)
      ensures given && mutexes[id].holder != None ==>
                mutexes == old(mutexes)[id := old(mutexes)[id].(calls := old(mutexes)[id].calls - 1)] && prio == old(prio)
      ensures given && mutexes[id].holder == None ==> prio == old(prio)[current := base[current]]
    {
      hide MutexOk, UsesOk, BasesOk;
      given := mutexes[id].holder == Some(current);
      if given {
        CallsKnown(mutexes[id], woken[id], prio, ready, recursive[id]);
        if mutexes[id].calls - 1 == 0 {
          var _ := Give(id);
        } else {
          CountCall(id, mutexes[id].calls - 1);
        }
      }
    }

    /** The holder's count of recursive calls. */
    method CountCall(id: nat, calls: nat)
      requires Valid() && id in mutexes && recursive[id] && mutexes[id].holder.Some? && calls > 0
      modifies this`mutexes
      ensures Valid() && mutexes == old(mutexes)[id := Mutex(old(mutexes)[id].holder, 0, calls, old(mutexes)[id].waiting)]
    {
      hide AllOk, BasesOk;
      var x := mutexes[id];
      MessagesKnown(mutexes, woken, prio, ready, recursive, uses, id);
      CountedOk(mutexes, woken, prio, ready, recursive, uses, id, calls);
      BasesCounted(base, prio, mutexes, uses, id, calls);
      mutexes := mutexes[id := x.(calls := calls)];
    }

    /** A waiting task's time runs out. */
    method TimeOut(id: nat, t: Task)
      requires Valid() && id in mutexes && t in mutexes[id].waiting
      modifies this`mutexes, this`ready, this`uses
      ensures Valid() && ready == old(ready) + {t}
      ensures mutexes == old(mutexes)[id := old(mutexes)[id].(waiting := Omit(old(mutexes)[id].waiting, t))]
    {
      hide MutexOk, UsesOk, BasesOk;
      var x := mutexes[id];
      var y := x.(waiting := Omit(x.waiting, t));
      LeftOk(x, woken[id], prio, ready, recursive[id], t);
      UsesLeft(id, x, woken[id], uses, t);
      OthersLeft(mutexes, woken, prio, ready, recursive, uses, id, y, t);
      BasesKept(base, prio, mutexes, uses, id, y, t, uses - {t});
      mutexes := mutexes[id := y];
      ready := ready + {t};
      uses := uses - {t};
    }

    /** The running task blocks on something else; it may hold a mutex. */
    method Sleep()
      requires Valid() && current in ready && forall id :: id in mutexes ==> current !in woken[id]
      modifies this`ready
      ensures Valid() && ready == old(ready) - {current}
    {
      ready := ready - {current};
    }

    /** A task that waits for no mutex becomes ready. */
    method Wake(t: Task)
      requires Valid() && t in prio && forall id :: id in mutexes ==> t !in mutexes[id].waiting
      modifies this`ready
      ensures Valid() && ready == old(ready) + {t}
    {
      ready := ready + {t};
    }
  }

  lemma CountedOk(mutexes: map<nat, Mutex>, woken: map<nat, set<Task>>, prio: map<Task, nat>, ready: set<Task>,
                  recursive: map<nat, bool>, uses: map<Task, nat>, id: nat, calls: nat)
    requires AllOk(mutexes, woken, prio, ready, recursive, uses)
    requires id in mutexes && recursive[id] && mutexes[id].holder.Some? && calls > 0
    ensures AllOk(mutexes[id := mutexes[id].(calls := calls)], woken, prio, ready, recursive, uses)
  {
    hide MutexOk, UsesOk;
    var x := mutexes[id];
    OneCounted(id, x, woken[id], prio, ready, recursive[id], uses, calls);
  }

  lemma MessagesKnown(mutexes: map<nat, Mutex>, woken: map<nat, set<Task>>, prio: map<Task, nat>, ready: set<Task>,
                      recursive: map<nat, bool>, uses: map<Task, nat>, id: nat)
    requires AllOk(mutexes, woken, prio, ready, recursive, uses) && id in mutexes
    ensures id in recursive && mutexes[id].messages == if mutexes[id].holder.None? then 1 else 0
  {
    assert MutexOk(mutexes[id], woken[id], prio, ready, recursive[id]);
  }

  lemma OneCounted(id: nat, x: Mutex, woken: set<Task>, prio: map<Task, nat>, ready: set<Task>, rec: bool, uses: map<Task, nat>, calls: nat)
    requires MutexOk(x, woken, prio, ready, rec) && UsesOk(id, x, woken, uses) && rec && x.holder.Some? && calls > 0
    ensures MutexOk(x.(calls := calls), woken, prio, ready, rec) && UsesOk(id, x.(calls := calls), woken, uses)
  {
  }

  lemma BasesCounted(base: map<Task, nat>, prio: map<Task, nat>, mutexes: map<nat, Mutex>, uses: map<Task, nat>, id: nat, calls: nat)
    requires BasesOk(base, prio, mutexes, uses) && id in mutexes
    ensures BasesOk(base, prio, mutexes[id := mutexes[id].(calls := calls)], uses)
  {
    forall t | t in prio && prio[t] != base[t]
      ensures HoldsOne(t, mutexes[id := mutexes[id].(calls := calls)], uses)
    {
      assert HoldsOne(t, mutexes, uses);
    }
  }

  // ---------- blocking on a mutex ----------

  lemma HolderKnown(x: Mutex, woken: set<Task>, prio: map<Task, nat>, ready: set<Task>, rec: bool)
    requires MutexOk(x, woken, prio, ready, rec) && x.holder.Some?
    ensures x.holder.value in prio && forall u :: u in x.waiting ==> u in prio
  {
  }

  /** A task joins the waiters, and the holder has got at least its priority. */
  lemma BlockedOk(x: Mutex, woken: set<Task>, prio: map<Task, nat>, ready: set<Task>, rec: bool, t: Task, p: map<Task, nat>)
    requires MutexOk(x, woken, prio, ready, rec) && x.holder.Some? && x.holder.value in prio && t in prio && t in ready && t !in woken
    requires x.holder != Some(t) && x.holder.value !in x.waiting
    requires p == if prio[x.holder.value] < prio[t] then prio[x.holder.value := prio[t]] else prio
    ensures forall u :: u in x.waiting ==> u in prio
    ensures MutexOk(x.(waiting := Put(x.waiting, RankOf(x.waiting, prio, t), t)), woken, p, ready - {t}, rec)
    ensures forall u :: u in Put(x.waiting, RankOf(x.waiting, prio, t), t) <==> u == t || u in x.waiting
    ensures Behind(x.waiting, prio, t, RankOf(x.waiting, prio, t))
  {
    hide RankOf, Put;
    RankSplits(x.waiting, prio, t);
    RankedPut(x.waiting, prio, t);
  }

  lemma UsesBlocked(id: nat, x: Mutex, woken: set<Task>, uses: map<Task, nat>, t: Task, k: nat)
    requires UsesOk(id, x, woken, uses) && t !in uses && k <= |x.waiting|
    ensures t !in x.waiting && t !in woken && x.holder != Some(t)
    ensures x.holder.Some? ==> x.holder.value !in x.waiting && x.holder.value in uses && uses[x.holder.value] == id
    ensures UsesOk(id, x.(waiting := Put(x.waiting, k, t)), woken, uses[t := id])
  {
    var r := Put(x.waiting, k, t);
    forall u | u in r
      ensures u == t || u in x.waiting
    {
      var i :| 0 <= i < |r| && r[i] == u;
    }
  }

  /** A mutex that neither of two tasks has to do with. */
  lemma MutexElsewhere(x: Mutex, woken: set<Task>, prio: map<Task, nat>, ready: set<Task>, rec: bool, h: Task, v: nat, r: set<Task>)
    requires MutexOk(x, woken, prio, ready, rec)
    requires x.holder != Some(h) && h !in x.waiting && h !in woken
    requires woken <= r && forall t :: t in x.waiting ==> t !in r
    ensures MutexOk(x, woken, prio[h := v], r, rec)
  {
    if x.holder.None? && x.waiting != [] {
      var u :| u in woken && Above(u, x.waiting, prio);
      assert Above(u, x.waiting, prio[h := v]);
    }
  }

  lemma OthersBlocked(mutexes: map<nat, Mutex>, woken: map<nat, set<Task>>, prio: map<Task, nat>, ready: set<Task>,
                      recursive: map<nat, bool>, uses: map<Task, nat>, id: nat, y: Mutex, t: Task, h: Task, p: map<Task, nat>)
    requires AllOk(mutexes, woken, prio, ready, recursive, uses) && id in mutexes && t !in uses
    requires mutexes[id].holder == Some(h) && h in prio && t in prio && (h in uses && uses[h] == id)
    requires p == if prio[h] < prio[t] then prio[h := prio[t]] else prio
    requires MutexOk(y, woken[id], p, ready - {t}, recursive[id]) && UsesOk(id, y, woken[id], uses[t := id])
    ensures AllOk(mutexes[id := y], woken, p, ready - {t}, recursive, uses[t := id])
  {
    hide MutexOk, UsesOk;
    forall j | j in mutexes && j != id
      ensures MutexOk(mutexes[j], woken[j], p, ready - {t}, recursive[j]) && UsesOk(j, mutexes[j], woken[j], uses[t := id])
    {
      UsesElsewhere(j, mutexes[j], woken[j], uses, t, id);
      UsesElsewhere(j, mutexes[j], woken[j], uses, h, id);
      WaitersSleep(mutexes[j], woken[j], prio, ready, recursive[j]);
      MutexElsewhere(mutexes[j], woken[j], prio, ready, recursive[j], h, p[h], ready - {t});
      assert prio[h := p[h]] == p;
    }
  }

  lemma WaitersSleep(x: Mutex, woken: set<Task>, prio: map<Task, nat>, ready: set<Task>, rec: bool)
    requires MutexOk(x, woken, prio, ready, rec)
    ensures woken <= ready && forall t :: t in x.waiting ==> t !in ready
  {
  }

  lemma BasesRaised(base: map<Task, nat>, prio: map<Task, nat>, mutexes: map<nat, Mutex>, uses: map<Task, nat>, id: nat, y: Mutex, t: Task, h: Task, p: map<Task, nat>)
    requires BasesOk(base, prio, mutexes, uses) && id in mutexes && t !in uses
    requires mutexes[id].holder == Some(h) && y.holder == Some(h) && h in uses && uses[h] == id && h in prio && t in prio
    requires p == if prio[h] < prio[t] then prio[h := prio[t]] else prio
    ensures BasesOk(base, p, mutexes[id := y], uses[t := id])
  {
    forall u | u in p && p[u] != base[u]
      ensures HoldsOne(u, mutexes[id := y], uses[t := id])
    {
      assert u != h ==> HoldsOne(u, mutexes, uses);
    }
  }

  // ---------- giving a mutex ----------

  /** The first task of a list, if there is one. */
  function FirstOf(s: seq<Task>): set<Task> {
    if s == [] then {} else {s[0]}
  }

  /** A mutex that has been given back, and has lost its first waiter. */
  function GivenOf(x: Mutex): Mutex {
    Mutex(None, 1, 0, if x.waiting == [] then [] else x.waiting[1..])
  }

  /** The first waiter, woken, is above the others. */
  lemma GivenOk(x: Mutex, woken: set<Task>, prio: map<Task, nat>, ready: set<Task>, rec: bool, h: Task, v: nat)
    requires MutexOk(x, woken, prio, ready, rec) && x.holder == Some(h) && h in prio && h !in x.waiting
    ensures MutexOk(GivenOf(x), woken + FirstOf(x.waiting), prio[h := v], ready + FirstOf(x.waiting), rec)
  {
    if x.waiting != [] {
      RankedTail(x.waiting, prio);
      CutMembers(x.waiting, 0);
      assert Cut(x.waiting, 0) == x.waiting[1..];
      assert Above(x.waiting[0], x.waiting[1..], prio[h := v]);
    }
  }

  lemma UsesGiven(id: nat, x: Mutex, woken: set<Task>, uses: map<Task, nat>, h: Task)
    requires UsesOk(id, x, woken, uses) && x.holder == Some(h)
    ensures h !in x.waiting && h !in woken && h in uses && uses[h] == id
    ensures UsesOk(id, GivenOf(x), woken + FirstOf(x.waiting), uses - {h})
    ensures forall t :: t in FirstOf(x.waiting) ==> t in uses && uses[t] == id
  {
    if x.waiting != [] {
      assert x.waiting == [x.waiting[0]] + x.waiting[1..];
    }
  }

  lemma OthersGiven(mutexes: map<nat, Mutex>, woken: map<nat, set<Task>>, prio: map<Task, nat>, ready: set<Task>,
                    recursive: map<nat, bool>, uses: map<Task, nat>, id: nat, x: Mutex, h: Task, v: nat)
    requires AllOk(mutexes, woken, prio, ready, recursive, uses) && id in mutexes && mutexes[id] == x && x.holder == Some(h) && h in prio
    requires h in uses && uses[h] == id && forall t :: t in FirstOf(x.waiting) ==> t in uses && uses[t] == id
    requires MutexOk(GivenOf(x), woken[id] + FirstOf(x.waiting), prio[h := v], ready + FirstOf(x.waiting), recursive[id])
    requires UsesOk(id, GivenOf(x), woken[id] + FirstOf(x.waiting), uses - {h})
    ensures AllOk(mutexes[id := GivenOf(x)], woken[id := woken[id] + FirstOf(x.waiting)], prio[h := v], ready + FirstOf(x.waiting), recursive, uses - {h})
  {
    hide MutexOk, UsesOk, GivenOf;
    forall j | j in mutexes && j != id
      ensures MutexOk(mutexes[j], woken[j], prio[h := v], ready + FirstOf(x.waiting), recursive[j]) && UsesOk(j, mutexes[j], woken[j], uses - {h})
    {
      UsesElsewhere(j, mutexes[j], woken[j], uses, h, id);
      forall t | t in FirstOf(x.waiting)
        ensures t !in mutexes[j].waiting
      {
        UsesElsewhere(j, mutexes[j], woken[j], uses, t, id);
      }
      WaitersSleep(mutexes[j], woken[j], prio, ready, recursive[j]);
      MutexElsewhere(mutexes[j], woken[j], prio, ready, recursive[j], h, v, ready + FirstOf(x.waiting));
    }
  }

  lemma BasesBack(base: map<Task, nat>, prio: map<Task, nat>, mutexes: map<nat, Mutex>, uses: map<Task, nat>, id: nat, y: Mutex, h: Task)
    requires BasesOk(base, prio, mutexes, uses) && id in mutexes && mutexes[id].holder == Some(h) && h in base && h in uses && uses[h] == id
    ensures BasesOk(base, prio[h := base[h]], mutexes[id := y], uses - {h})
  {
    forall u | u in prio && u != h && prio[u] != base[u]
      ensures HoldsOne(u, mutexes[id := y], uses - {h})
    {
      assert HoldsOne(u, mutexes, uses);
    }
  }

  // ---------- leaving the waiters ----------

  lemma LeftOk(x: Mutex, woken: set<Task>, prio: map<Task, nat>, ready: set<Task>, rec: bool, t: Task)
    requires MutexOk(x, woken, prio, ready, rec) && t in x.waiting
    ensures NoRepeat(x.waiting) && t !in woken
    ensures MutexOk(x.(waiting := Omit(x.waiting, t)), woken, prio, ready + {t}, rec)
  {
    hide Omit;
    RankedOmit(x.waiting, prio, t);
    if x.holder.None? && Omit(x.waiting, t) != [] {
      assert Omit(x.waiting, t)[0] in x.waiting;
      var u :| u in woken && Above(u, x.waiting, prio);
      assert Above(u, Omit(x.waiting, t), prio);
    }
  }

  lemma UsesLeft(id: nat, x: Mutex, woken: set<Task>, uses: map<Task, nat>, t: Task)
    requires UsesOk(id, x, woken, uses) && t in x.waiting
    ensures t in uses && uses[t] == id && x.holder != Some(t)
    ensures NoRepeat(x.waiting) && t !in woken ==> UsesOk(id, x.(waiting := Omit(x.waiting, t)), woken, uses - {t})
  {
    if NoRepeat(x.waiting) {
      OmitMembers(x.waiting, t);
    }
  }

  lemma OthersLeft(mutexes: map<nat, Mutex>, woken: map<nat, set<Task>>, prio: map<Task, nat>, ready: set<Task>,
                   recursive: map<nat, bool>, uses: map<Task, nat>, id: nat, y: Mutex, t: Task)
    requires AllOk(mutexes, woken, prio, ready, recursive, uses) && id in mutexes && t in uses && uses[t] == id
    requires MutexOk(y, woken[id], prio, ready + {t}, recursive[id]) && UsesOk(id, y, woken[id], uses - {t})
    ensures AllOk(mutexes[id := y], woken, prio, ready + {t}, recursive, uses - {t})
  {
    hide MutexOk, UsesOk;
    forall j | j in mutexes && j != id
      ensures MutexOk(mutexes[j], woken[j], prio, ready + {t}, recursive[j]) && UsesOk(j, mutexes[j], woken[j], uses - {t})
    {
      UsesElsewhere(j, mutexes[j], woken[j], uses, t, id);
      WaitersSleep(mutexes[j], woken[j], prio, ready, recursive[j]);
      MoreReady(mutexes[j], woken[j], prio, ready, recursive[j], t);
    }
  }

  lemma MoreReady(x: Mutex, woken: set<Task>, prio: map<Task, nat>, ready: set<Task>, rec: bool, t: Task)
    requires MutexOk(x, woken, prio, ready, rec) && t !in x.waiting
    ensures MutexOk(x, woken, prio, ready + {t}, rec)
  {
  }

  lemma CallsKnown(x: Mutex, woken: set<Task>, prio: map<Task, nat>, ready: set<Task>, rec: bool)
    requires MutexOk(x, woken, prio, ready, rec)
    ensures x.messages == (if x.holder.None? then 1 else 0) && (x.holder.None? ==> x.calls == 0)
    ensures x.holder.Some? && rec ==> x.calls > 0
  {
  }

  lemma WaitersKnown(x: Mutex, woken: set<Task>, prio: map<Task, nat>, ready: set<Task>, rec: bool)
    requires MutexOk(x, woken, prio, ready, rec)
    ensures forall t :: t in x.waiting ==> t in prio && t !in ready
    ensures x.waiting != [] ==> x.waiting[0] in prio && x.waiting[0] !in ready
  {
  }

  // ---------- a run in which the mutex is taken past a waiter ----------

  /** Task 0, of priority 0, holds the mutex that some of the tasks 1 and 2, of priority 1, wait for. */
  ghost predicate LowHolds(k: Kernel, current: Task, ready: set<Task>, waiting: set<Task>)
    reads k
  {
    && k.Valid() && k.current == current && k.recursive == map[0 := false] && k.base == map[0 := 0, 1 := 1, 2 := 1]
    && k.ready == ready && k.prio.Keys == {0, 1, 2} && k.prio[1] == k.prio[2] == 1 && k.prio[0] <= 1
    && 0 in k.mutexes && k.mutexes[0].holder == Some(0) && k.uses.Keys == {0} + waiting && k.uses[0] == 0
    && |k.mutexes[0].waiting| == |waiting| && forall t :: t in k.mutexes[0].waiting <==> t in waiting
  }

  method LowTakes() returns (k: Kernel)
    ensures fresh(k) && LowHolds(k, 0, {0}, {})
  {
    hide AllOk, BasesOk;
    k := LowRuns();
    var _ := k.Take(0);
  }

  /** Both higher tasks sleep. */
  method LowRuns() returns (k: Kernel)
    ensures fresh(k) && k.Valid() && k.Running() && k.current == 0 && k.ready == {0} && k.uses == map[]
    ensures k.recursive == map[0 := false] && k.base == k.prio == map[0 := 0, 1 := 1, 2 := 1]
    ensures 0 in k.mutexes && k.mutexes[0] == Mutex(None, 1, 0, [])
  {
    hide AllOk, BasesOk;
    k := new Kernel(map[0 := 0, 1 := 1, 2 := 1], map[0 := false], 1);
    k.Sleep();
    k.Switch(2);
    k.Sleep();
    k.Switch(0);
  }

  /** A higher task comes. */
  method Come(k: Kernel, t: Task, ghost waiting: set<Task>)
    requires LowHolds(k, 0, {0}, waiting) && (t == 1 || t == 2) && t !in waiting
    modifies k
    ensures LowHolds(k, t, {0, t}, waiting) && k.Running()
  {
    hide AllOk, BasesOk;
    OneMutex(k);
    k.Wake(t);
    k.Switch(t);
  }

  /** It finds the mutex taken. */
  method Try(k: Kernel, t: Task, ghost waiting: set<Task>)
    requires LowHolds(k, t, {0, t}, waiting) && k.Running() && (t == 1 || t == 2) && t !in waiting
    modifies k
    ensures LowHolds(k, t, {0, t}, waiting) && k.Running()
  {
    hide AllOk, BasesOk;
    var _ := k.Take(0);
  }

  /** It waits. */
  method Wait(k: Kernel, t: Task, ghost waiting: set<Task>)
    requires LowHolds(k, t, {0, t}, waiting) && k.Running() && (t == 1 || t == 2) && t !in waiting
    modifies k
    ensures LowHolds(k, t, {0}, waiting + {t})
  {
    hide AllOk, BasesOk, LowHolds;
    ghost var p, m, u := k.prio, k.mutexes, k.uses;
    MayWait(k, t, waiting, p, m, u);
    k.BlockOn(0);
    NowWaits(k, t, waiting, p, m, u);
  }

  /** What the task that is about to wait finds. */
  ghost predicate Found(k: Kernel, t: Task, waiting: set<Task>, p: map<Task, nat>, m: map<nat, Mutex>, u: map<Task, nat>) {
    && k.recursive == map[0 := false] && k.base == map[0 := 0, 1 := 1, 2 := 1] && p.Keys == {0, 1, 2} && p[1] == p[2] == 1 && p[0] <= 1
    && (t == 1 || t == 2) && t !in waiting && u.Keys == {0} + waiting && u[0] == 0
    && 0 in m && m[0].holder == Some(0) && |m[0].waiting| == |waiting| && forall t :: t in m[0].waiting <==> t in waiting
  }

  lemma MayWait(k: Kernel, t: Task, waiting: set<Task>, p: map<Task, nat>, m: map<nat, Mutex>, u: map<Task, nat>)
    requires LowHolds(k, t, {0, t}, waiting) && (t == 1 || t == 2) && t !in waiting && p == k.prio && m == k.mutexes && u == k.uses
    ensures Found(k, t, waiting, p, m, u) && k.Valid() && k.current == t && k.ready == {0, t} && t !in u
  {
    hide AllOk, BasesOk;
  }

  lemma NowWaits(k: Kernel, t: Task, waiting: set<Task>, p: map<Task, nat>, m: map<nat, Mutex>, u: map<Task, nat>)
    requires Found(k, t, waiting, p, m, u) && k.Valid() && k.current == t && k.ready == {0, t} - {t} && k.uses == u[t := 0]
    requires k.prio == p[0 := if p[0] < p[t] then p[t] else p[0]] && 0 in k.mutexes && k.mutexes[0].holder == Some(0)
    requires |k.mutexes[0].waiting| == |m[0].waiting| + 1 && forall v :: v in k.mutexes[0].waiting <==> v == t || v in m[0].waiting
    ensures LowHolds(k, t, {0}, waiting + {t})
  {
    hide AllOk, BasesOk;
    assert k.ready == {0};
    assert k.uses.Keys == {0} + (waiting + {t});
    assert k.prio.Keys == {0, 1, 2};
  }

  /** The low task runs on. */
  method RunOn(k: Kernel, t: Task, ghost waiting: set<Task>)
    requires LowHolds(k, t, {0}, waiting)
    modifies k
    ensures LowHolds(k, 0, {0}, waiting)
  {
    hide AllOk, BasesOk;
    k.Switch(0);
  }

  /** Both higher tasks come to wait. */
  method BothWait() returns (k: Kernel)
    ensures fresh(k) && LowHolds(k, 0, {0}, {1, 2})
  {
    hide LowHolds;
    k := LowTakes();
    Come(k, 1, {});
    Try(k, 1, {});
    Wait(k, 1, {});
    assert {} + {1} == {1};
    RunOn(k, 1, {1});
    Come(k, 2, {1});
    Try(k, 2, {1});
    Wait(k, 2, {1});
    assert {1} + {2} == {1, 2};
    RunOn(k, 2, {1, 2});
  }

  lemma OneMutex(k: Kernel)
    requires k.Valid() && k.recursive == map[0 := false]
    ensures k.mutexes.Keys == {0}
  {
    hide MutexOk, UsesOk;
  }

  /** A run that ends with a holder below a waiter: task 0 holds the mutex while tasks 1 and 2 come to wait for it,
      gives it, and, as it may with the scheduler suspended, takes it again before the woken task has run. */
  method TakenPastWaiter() returns (k: Kernel)
    ensures fresh(k) && !k.Valid() && 0 in k.mutexes && k.mutexes[0].holder == Some(0)
    ensures exists t :: t in k.mutexes[0].waiting && k.Outranks(t, 0)
  {
    hide AllOk, BasesOk;
    k := BothWait();
    var w := k.mutexes[0].waiting;
    var _ := k.Give(0);
    var taken := k.Take(0);
    assert k.mutexes[0].waiting == w[1..] && w[1..][0] == w[1] && w[1] in w;
    assert k.Outranks(w[1], 0);
  }

  /** A run in which a give passes over a ready task of higher priority: task 1 waits for the mutex that task 0 holds,
      gives up, and they share the processor until task 0, which still has the inherited priority, gives it. */
  method GivenPastReady() returns (k: Kernel, switches: bool)
    ensures fresh(k) && k.Valid() && !switches && !k.Running()
    ensures k.current == 0 && 1 in k.ready && k.Outranks(1, 0)
  {
    hide AllOk, BasesOk;
    k := OneWaits();
    NobodyLeft(k.mutexes[0].waiting);
    k.TimeOut(0, 1);
    k.Switch(1);
    k.Switch(0);
    switches := k.Give(0);
    assert k.Outranks(1, 0);
  }

  /** Task 1 waits, and task 0 has inherited its priority. */
  method OneWaits() returns (k: Kernel)
    ensures fresh(k) && LowHolds(k, 0, {0}, {1}) && k.prio[0] == 1
  {
    hide AllOk, BasesOk, LowHolds;
    k := LowTakes();
    Come(k, 1, {});
    Try(k, 1, {});
    Wait(k, 1, {});
    assert {} + {1} == {1};
    RunOn(k, 1, {1});
    HolderHas(k);
  }

  lemma HolderHas(k: Kernel)
    requires LowHolds(k, 0, {0}, {1})
    ensures k.prio[0] == 1
  {
    assert 1 in k.mutexes[0].waiting;
    k.HolderIsAbove(0);
  }

  lemma NobodyLeft(s: seq<Task>)
    requires |s| == 1 && 1 in s
    ensures Omit(s, 1) == []
  {
    assert s == [1];
  }

  lemma FreeOrHeld(x: Mutex, woken: set<Task>, prio: map<Task, nat>, ready: set<Task>, rec: bool, t: Task)
    requires MutexOk(x, woken, prio, ready, rec)
    ensures x.messages == if x.holder.None? then 1 else 0
    ensures t in ready ==> t !in x.waiting
  {
  }
}
