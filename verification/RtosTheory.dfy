/** What the scheduler's lists, priorities and clock have to satisfy, and how moving a task keeps it. */
module RtosTheory {
  import opened RtosList
  import opened RtosTables

  const MAX_PRIORITIES: nat := 7

  /** The lists of generic items: a ready list for each priority, the two delay lists, the suspended and the
      terminated tasks. */
  datatype Place = Ready(priority: nat) | Delay(first: bool) | SuspendedList | TerminationList

  /** The lists of event items: the pending ready list, and the lists of the queues. */
  datatype EventPlace = Pending | Waiting(list: nat)

  type Generic = Table<Place>
  type Events = Table<EventPlace>

  ghost predicate HasPlaces(on: map<Place, TaskList>) {
    && (forall p: nat :: Ready(p) in on <==> p < MAX_PRIORITIES)
    && (forall b :: Delay(b) in on) && SuspendedList in on && TerminationList in on
  }

  /** Each generic item is on exactly one list; only a blocked task waits for an event. */
  ghost predicate ListsOk(gen: Generic, ev: Events) {
    && Consistent(gen) && Consistent(ev) && HasPlaces(gen.on) && Pending in ev.on
    && (forall t :: t in ev.at ==> t in gen.at && (gen.at[t].Delay? || gen.at[t].SuspendedList?))
  }

  /** A ready task is on the list of its priority, which top bounds. */
  ghost predicate ReadyOk(gen: Generic, prio: map<Task, nat>, top: nat) {
    && top < MAX_PRIORITIES
    && (forall t :: t in gen.at ==> t in prio && prio[t] < MAX_PRIORITIES)
    && (forall t :: t in gen.at && gen.at[t].Ready? ==> gen.at[t] == Ready(prio[t]) && prio[t] <= top)
  }

  ghost predicate DelaysSorted(gen: Generic, wake: map<Task, Tick>)
    requires HasPlaces(gen.on)
  {
    && (forall t :: t in gen.at ==> t in wake)
    && forall b :: SortedBy(gen.on[Delay(b)].items, wake)
  }

  ghost predicate NonePending(ev: Events) {
    forall t :: t in ev.at ==> ev.at[t] != Pending
  }

  ghost predicate CoreOk(gen: Generic, ev: Events, prio: map<Task, nat>, top: nat, wake: map<Task, Tick>) {
    ListsOk(gen, ev) && ReadyOk(gen, prio, top) && DelaysSorted(gen, wake)
  }

  /** Delayed tasks wake in the current or in the next round of the tick counter, later than slack ticks
      from now. */
  ghost predicate ClockOk(at: map<Task, Place>, first: bool, wake: map<Task, Tick>, wakeAt: map<Task, nat>, epoch: nat, tick: Tick, slack: int) {
    forall t :: t in at && at[t].Delay? ==>
      && t in wake && t in wakeAt
      && (if at[t].first == first then wakeAt[t] == epoch * WRAP + wake[t] && wake[t] > tick + slack
          else wakeAt[t] == (epoch + 1) * WRAP + wake[t])
  }

  ghost predicate TcbsOk(at: map<Task, Place>, base: map<Task, nat>, evValue: map<Task, Tick>, idle: Task, current: Task) {
    && (forall t :: t in at ==> t in base && t in evValue && base[t] < MAX_PRIORITIES)
    && idle in at && at[idle].Ready? && current in at
  }

  ghost predicate CountedOk(gen: Generic, numTasks: nat, tasksDeleted: nat) {
    numTasks == |gen.at.Keys| && TerminationList in gen.on && tasksDeleted == |gen.on[TerminationList].items|
  }

  function Without<P>(x: Table<P>, t: Task): Table<P>
    requires t in x.at ==> x.at[t] in x.on && t in x.on[x.at[t]].items
  {
    if t in x.at then Leave(x, t) else x
  }

  lemma WithoutOk<P(!new)>(x: Table<P>, t: Task)
    requires Consistent(x)
    ensures t in x.at ==> x.at[t] in x.on && t in x.on[x.at[t]].items
    ensures Consistent(Without(x, t)) && Without(x, t).on.Keys == x.on.Keys && Without(x, t).at == x.at - {t}
  {
    if t in x.at {
      LeaveOk(x, t);
    }
  }

  lemma OnItsList<P(!new)>(x: Table<P>, t: Task)
    requires Consistent(x) && t in x.at
    ensures x.at[t] in x.on && t in x.on[x.at[t]].items && x.on[x.at[t]].pos <= |x.on[x.at[t]].items|
  {
  }

  lemma PosOk<P(!new)>(x: Table<P>, p: P)
    requires Consistent(x) && p in x.on
    ensures x.on[p].pos <= |x.on[p].items|
  {
  }

  function Max(a: nat, b: nat): nat {
    if a > b then a else b
  }

  /** A generic item leaves its list for the end of one that is no delay list. */
  lemma MovedLists(gen: Generic, t: Task, p: Place, wake: map<Task, Tick>)
    requires Consistent(gen) && HasPlaces(gen.on) && DelaysSorted(gen, wake) && t in gen.at && p in gen.on && !p.Delay?
    ensures gen.at[t] in gen.on && t in gen.on[gen.at[t]].items
    ensures var l := Leave(gen, t); p in l.on && l.on[p].pos <= |l.on[p].items|
    ensures var g := JoinEnd(Leave(gen, t), t, p);
            Consistent(g) && g.at == gen.at[t := p] && g.on.Keys == gen.on.Keys && DelaysSorted(g, wake)
  {
    hide Leave, JoinEnd, SortedBy, Consistent;
    OnItsList(gen, t);
    LeaveOk(gen, t);
    PosOk(Leave(gen, t), p);
    LeftAt(gen, t);
    JoinEndOk(Leave(gen, t), t, p);
    JoinedAt(Leave(gen, t), t, p);
    forall b: bool
      ensures SortedBy(JoinEnd(Leave(gen, t), t, p).on[Delay(b)].items, wake)
    {
      LeaveKeepsSorted(gen, t, Delay(b), wake);
    }
  }

  /** A task leaves its list for the ready list of its priority, and stops waiting for events. */
  lemma ReadiedOk(gen: Generic, ev: Events, prio: map<Task, nat>, top: nat, wake: map<Task, Tick>, t: Task)
    requires CoreOk(gen, ev, prio, top, wake) && t in gen.at
    ensures gen.at[t] in gen.on && t in gen.on[gen.at[t]].items && t in prio && Ready(prio[t]) in gen.on
    ensures t in ev.at ==> ev.at[t] in ev.on && t in ev.on[ev.at[t]].items
    ensures var l := Leave(gen, t); Ready(prio[t]) in l.on && l.on[Ready(prio[t])].pos <= |l.on[Ready(prio[t])].items|
    ensures CoreOk(JoinEnd(Leave(gen, t), t, Ready(prio[t])), Without(ev, t), prio, Max(top, prio[t]), wake)
  {
    hide Leave, JoinEnd, SortedBy, Consistent, DelaysSorted, Without;
    WithoutOk(ev, t);
    MovedLists(gen, t, Ready(prio[t]), wake);
  }

  lemma LeftAt<P>(x: Table<P>, t: Task)
    requires t in x.at && x.at[t] in x.on && t in x.on[x.at[t]].items
    ensures Leave(x, t).at == x.at - {t} && Leave(x, t).on.Keys == x.on.Keys
    ensures forall p :: p in x.on && p != x.at[t] ==> Leave(x, t).on[p] == x.on[p]
  {
  }

  lemma JoinedAt<P>(x: Table<P>, t: Task, p: P)
    requires p in x.on && x.on[p].pos <= |x.on[p].items|
    ensures JoinEnd(x, t, p).at == x.at[t := p] && JoinEnd(x, t, p).on.Keys == x.on.Keys
    ensures forall q :: q in x.on && q != p ==> JoinEnd(x, t, p).on[q] == x.on[q]
  {
  }

  lemma JoinedByAt<P>(x: Table<P>, t: Task, p: P, value: map<Task, Tick>)
    requires p in x.on && t in value && forall u :: u in x.on[p].items ==> u in value
    ensures JoinBy(x, t, p, value).at == x.at[t := p] && JoinBy(x, t, p, value).on.Keys == x.on.Keys
    ensures forall q :: q in x.on && q != p ==> JoinBy(x, t, p, value).on[q] == x.on[q]
  {
  }

  lemma ItemsHaveValues<P(!new)>(x: Table<P>, p: P, value: map<Task, Tick>)
    requires Consistent(x) && p in x.on && (forall t :: t in x.at ==> t in value)
    ensures forall u :: u in x.on[p].items ==> u in value && u in x.at
  {
  }

  /** A task goes to sleep on a delay list; its event item may wait on an event list. */
  lemma DelayedOk(gen: Generic, ev: Events, prio: map<Task, nat>, top: nat, wake: map<Task, Tick>, t: Task, b: bool, v: Tick)
    requires CoreOk(gen, ev, prio, top, wake) && t in gen.at
    ensures gen.at[t] in gen.on && t in gen.on[gen.at[t]].items
    ensures var l := Leave(gen, t); Delay(b) in l.on && forall u :: u in l.on[Delay(b)].items ==> u in wake
    ensures CoreOk(JoinBy(Leave(gen, t), t, Delay(b), wake[t := v]), ev, prio, top, wake[t := v])
  {
    hide Leave, JoinBy, SortedBy, Consistent;
    OnItsList(gen, t);
    LeaveOk(gen, t);
    LeftAt(gen, t);
    var l := Leave(gen, t);
    ItemsHaveValues(l, Delay(b), wake);
    JoinByOk(l, t, Delay(b), wake[t := v]);
    JoinedByAt(l, t, Delay(b), wake[t := v]);
    forall c: bool
      ensures SortedBy(JoinBy(l, t, Delay(b), wake[t := v]).on[Delay(c)].items, wake[t := v])
    {
      LeaveKeepsSorted(gen, t, Delay(c), wake);
      SortedElsewhere(l, t, Delay(c), wake, v);
      if c == b {
        JoinBySorted(l, t, Delay(b), wake[t := v]);
      }
    }
  }

  lemma JoinBySorted<P>(x: Table<P>, t: Task, p: P, value: map<Task, Tick>)
    requires p in x.on && t in value && SortedBy(x.on[p].items, value)
    ensures SortedBy(JoinBy(x, t, p, value).on[p].items, value)
  {
    PutBySorted(x.on[p], t, value);
  }

  lemma SortedElsewhere<P(!new)>(x: Table<P>, t: Task, p: P, wake: map<Task, Tick>, v: Tick)
    requires Consistent(x) && t !in x.at && p in x.on && SortedBy(x.on[p].items, wake)
    ensures SortedBy(x.on[p].items, wake[t := v])
  {
  }

  /** A task goes to the suspended or the terminated list. */
  lemma ParkedOk(gen: Generic, ev: Events, prio: map<Task, nat>, top: nat, wake: map<Task, Tick>, t: Task, p: Place)
    requires CoreOk(gen, ev, prio, top, wake) && t in gen.at && (p == SuspendedList || (p == TerminationList && t !in ev.at))
    ensures gen.at[t] in gen.on && t in gen.on[gen.at[t]].items
    ensures var l := Leave(gen, t); p in l.on && l.on[p].pos <= |l.on[p].items|
    ensures CoreOk(JoinEnd(Leave(gen, t), t, p), ev, prio, top, wake)
  {
    hide Leave, JoinEnd, SortedBy, Consistent, DelaysSorted;
    MovedLists(gen, t, p, wake);
  }

  /** The event item of a blocked task goes on an event list, or leaves the one it is on. */
  lemma EventMovedOk(gen: Generic, ev: Events, prio: map<Task, nat>, top: nat, wake: map<Task, Tick>, e: Events)
    requires CoreOk(gen, ev, prio, top, wake) && Consistent(e) && e.on.Keys == ev.on.Keys
    requires forall t :: t in e.at ==> t in gen.at && (gen.at[t].Delay? || gen.at[t].SuspendedList?)
    ensures CoreOk(gen, e, prio, top, wake)
  {
  }

  /** Where the generic items are once the tasks of s have been made ready. */
  ghost function ReadyAll(at: map<Task, Place>, prio: map<Task, nat>, s: set<Task>): (r: map<Task, Place>)
    requires forall t :: t in at ==> t in prio
  {
    map t | t in at :: if t in s then Ready(prio[t]) else at[t]
  }

  lemma ReadyNone(at: map<Task, Place>, prio: map<Task, nat>)
    requires forall t :: t in at ==> t in prio
    ensures ReadyAll(at, prio, {}) == at
  {
  }

  lemma ReadyOneMore(at: map<Task, Place>, prio: map<Task, nat>, s: set<Task>, t: Task)
    requires (forall u :: u in at ==> u in prio) && t in at
    ensures ReadyAll(at, prio, s)[t := Ready(prio[t])] == ReadyAll(at, prio, s + {t})
  {
  }

  lemma ReadyTwice(at: map<Task, Place>, prio: map<Task, nat>, s: set<Task>, u: set<Task>)
    requires forall t :: t in at ==> t in prio
    ensures ReadyAll(ReadyAll(at, prio, s), prio, u) == ReadyAll(at, prio, s + u)
  {
  }

  /** The tasks on the current delay list whose wake value the tick counter has reached. */
  ghost function Due(at: map<Task, Place>, first: bool, wake: map<Task, Tick>, tick: Tick): set<Task> {
    set t | t in at && at[t] == Delay(first) && t in wake && wake[t] <= tick
  }

  /** The delayed tasks that are to wake at or before an absolute time. */
  ghost function DueBy(at: map<Task, Place>, wakeAt: map<Task, nat>, time: int): set<Task> {
    set t | t in at && at[t].Delay? && t in wakeAt && wakeAt[t] <= time
  }

  /** current is ready, and no ready task has a higher priority. */
  ghost predicate IsTop(at: map<Task, Place>, prio: map<Task, nat>, current: Task) {
    && current in at && at[current].Ready? && current in prio
    && forall t :: t in at && at[t].Ready? ==> t in prio && prio[t] <= prio[current]
  }

  /** An empty list at the top priority: the bound can be lowered, but not below a task that is ready. */
  lemma LowerTop(gen: Generic, ev: Events, prio: map<Task, nat>, top: nat, wake: map<Task, Tick>, idle: Task)
    requires CoreOk(gen, ev, prio, top, wake) && idle in gen.at && gen.at[idle].Ready?
    ensures Ready(top) in gen.on
    ensures gen.on[Ready(top)].items == [] ==> top > 0 && CoreOk(gen, ev, prio, top - 1, wake)
  {
    if gen.on[Ready(top)].items == [] {
      forall t | t in gen.at && gen.at[t].Ready?
        ensures prio[t] < top
      {
        assert t in gen.on[gen.at[t]].items;
      }
      assert prio[idle] < top;
    }
  }

  /** The list p with its index moved on to the next item. */
  function Rotated(gen: Generic, p: Place): Generic
    requires p in gen.on
  {
    gen.(on := gen.on[p := gen.on[p].(pos := NextPos(|gen.on[p].items|, gen.on[p].pos))])
  }

  /** The ready list that t is on has been turned: its index has moved on by one item, round and round, and stands on
      t; nothing else has changed. */
  ghost predicate Turned(gen0: Generic, gen: Generic, prio: map<Task, nat>, t: Task) {
    && t in prio && Ready(prio[t]) in gen0.on && gen.on.Keys == gen0.on.Keys && gen.at == gen0.at
    && (forall q :: q in gen.on && q != Ready(prio[t]) ==> gen.on[q] == gen0.on[q])
    && var l0, l := gen0.on[Ready(prio[t])], gen.on[Ready(prio[t])];
       && l.items == l0.items && l.pos == (if l0.pos >= |l0.items| then 1 else l0.pos + 1)
       && 0 < l.pos <= |l.items| && t == l.items[l.pos - 1]
  }

  lemma RotatedTurns(gen: Generic, prio: map<Task, nat>, p: nat)
    requires Ready(p) in gen.on && gen.on[Ready(p)].items != []
    ensures var g := Rotated(gen, Ready(p)); var l := g.on[Ready(p)];
            0 < l.pos <= |l.items| && (l.items[l.pos - 1] in prio && prio[l.items[l.pos - 1]] == p ==> Turned(gen, g, prio, l.items[l.pos - 1]))
  {
  }

  /** In a row of turns of one list each of its tasks has its turn once before the first one has it again. */
  lemma EachHasItsTurn(gens: seq<Generic>, prio: map<Task, nat>, ts: seq<Task>, p: nat)
    requires |gens| == |ts| + 1 && Ready(p) in gens[0].on
    requires forall i :: 0 <= i < |ts| ==> Turned(gens[i], gens[i + 1], prio, ts[i]) && ts[i] in prio && prio[ts[i]] == p
    requires |ts| == |gens[0].on[Ready(p)].items| > 0 && gens[0].on[Ready(p)].pos <= |ts|
    ensures multiset(ts) == multiset(gens[0].on[Ready(p)].items)
  {
    var l := gens[0].on[Ready(p)];
    TurnsVisit(gens, prio, ts, p);
    RoundRobin(l.items, l.pos);
  }

  lemma {:induction false} TurnsVisit(gens: seq<Generic>, prio: map<Task, nat>, ts: seq<Task>, p: nat)
    requires |gens| == |ts| + 1 && Ready(p) in gens[0].on && gens[0].on[Ready(p)].items != []
    requires gens[0].on[Ready(p)].pos <= |gens[0].on[Ready(p)].items|
    requires forall i :: 0 <= i < |ts| ==> Turned(gens[i], gens[i + 1], prio, ts[i]) && ts[i] in prio && prio[ts[i]] == p
    ensures ts == Visit(gens[0].on[Ready(p)].items, gens[0].on[Ready(p)].pos, |ts|)
    decreases |ts|
  {
    if ts != [] {
      assert Turned(gens[0], gens[1], prio, ts[0]);
      forall i | 0 <= i < |ts[1..]|
        ensures Turned(gens[1..][i], gens[1..][i + 1], prio, ts[1..][i]) && ts[1..][i] in prio && prio[ts[1..][i]] == p
      {
        assert Turned(gens[i + 1], gens[i + 2], prio, ts[i + 1]);
      }
      TurnsVisit(gens[1..], prio, ts[1..], p);
    }
  }

  /** The head of the highest list that is not empty is a task of maximal priority. */
  lemma RotatedOk(gen: Generic, ev: Events, prio: map<Task, nat>, top: nat, wake: map<Task, Tick>)
    requires CoreOk(gen, ev, prio, top, wake) && Ready(top) in gen.on && gen.on[Ready(top)].items != []
    ensures CoreOk(Rotated(gen, Ready(top)), ev, prio, top, wake) && Rotated(gen, Ready(top)).at == gen.at
    ensures Rotated(gen, Ready(top)).on.Keys == gen.on.Keys
    ensures TerminationList in gen.on ==> Rotated(gen, Ready(top)).on[TerminationList] == gen.on[TerminationList]
    ensures var l := Rotated(gen, Ready(top)).on[Ready(top)];
            0 < l.pos <= |l.items| && l.items[l.pos - 1] in prio && prio[l.items[l.pos - 1]] == top
            && l.items[l.pos - 1] in gen.at && IsTop(gen.at, prio, l.items[l.pos - 1])
  {
    hide SortedBy, NoRepeat;
    PosOk(gen, Ready(top));
    var l := Rotated(gen, Ready(top)).on[Ready(top)];
    assert l.items[l.pos - 1] in gen.on[Ready(top)].items;
  }

  lemma ReadiedAt(gen: Generic, prio: map<Task, nat>, t: Task)
    requires Consistent(gen) && HasPlaces(gen.on) && t in gen.at && t in prio && prio[t] < MAX_PRIORITIES
    ensures gen.at[t] in gen.on && t in gen.on[gen.at[t]].items
    ensures var l := Leave(gen, t); Ready(prio[t]) in l.on && l.on[Ready(prio[t])].pos <= |l.on[Ready(prio[t])].items|
    ensures var r := JoinEnd(Leave(gen, t), t, Ready(prio[t]));
            && r.at == gen.at[t := Ready(prio[t])] && r.on.Keys == gen.on.Keys
            && (forall p :: p in gen.on && p != gen.at[t] && !p.Ready? ==> r.on[p] == gen.on[p])
            && (!gen.at[t].Ready? ==> |r.on[gen.at[t]].items| == |gen.on[gen.at[t]].items| - 1)
  {
    hide Leave, JoinEnd, Consistent;
    OnItsList(gen, t);
    LeaveOk(gen, t);
    LeftAt(gen, t);
    PosOk(Leave(gen, t), Ready(prio[t]));
    JoinedAt(Leave(gen, t), t, Ready(prio[t]));
  }

  /** The head of a sorted delay list decides whether any task on it is due. */
  lemma HeadDecides(gen: Generic, ev: Events, prio: map<Task, nat>, top: nat, wake: map<Task, Tick>, first: bool, tick: Tick)
    requires CoreOk(gen, ev, prio, top, wake)
    ensures Delay(first) in gen.on
    ensures var l := gen.on[Delay(first)].items;
            if l == [] then Due(gen.at, first, wake, tick) == {}
            else l[0] in wake && l[0] in gen.at && gen.at[l[0]] == Delay(first)
                 && (tick < wake[l[0]] ==> Due(gen.at, first, wake, tick) == {})
  {
    var l := gen.on[Delay(first)].items;
    forall t | t in gen.at && gen.at[t] == Delay(first)
      ensures t in l
    {
      assert t in gen.on[gen.at[t]].items;
    }
    if l != [] {
      assert l[0] in l;
      assert SortedBy(l, wake);
      forall t | t in l
        ensures wake[l[0]] <= wake[t]
      {
        var i :| 0 <= i < |l| && l[i] == t;
      }
    }
  }

  lemma AllDueDone(at: map<Task, Place>, prio: map<Task, nat>, s: set<Task>, first: bool, wake: map<Task, Tick>, tick: Tick)
    requires (forall t :: t in at ==> t in prio) && s <= Due(at, first, wake, tick)
    requires Due(ReadyAll(at, prio, s), first, wake, tick) == {}
    ensures s == Due(at, first, wake, tick)
  {
    var m := ReadyAll(at, prio, s);
    forall t | t in Due(at, first, wake, tick)
      ensures t in s
    {
      assert t in m && t !in Due(m, first, wake, tick);
    }
  }

  /** Once no task is due, every delayed task wakes later than now. */
  lemma ClockCaughtUp(at: map<Task, Place>, prio: map<Task, nat>, s: set<Task>, first: bool, wake: map<Task, Tick>, wakeAt: map<Task, nat>, epoch: nat, tick: Tick)
    requires forall t :: t in at ==> t in prio
    requires ClockOk(at, first, wake, wakeAt, epoch, tick, -1) && Due(ReadyAll(at, prio, s), first, wake, tick) == {}
    ensures ClockOk(ReadyAll(at, prio, s), first, wake, wakeAt, epoch, tick, 0)
  {
    var m := ReadyAll(at, prio, s);
    forall t | t in m && m[t].Delay?
      ensures m[t].first == first ==> wake[t] > tick
    {
      assert t !in Due(m, first, wake, tick);
    }
  }

  lemma ClockReadied(at: map<Task, Place>, prio: map<Task, nat>, s: set<Task>, first: bool, wake: map<Task, Tick>, wakeAt: map<Task, nat>, epoch: nat, tick: Tick, slack: int)
    requires (forall t :: t in at ==> t in prio) && ClockOk(at, first, wake, wakeAt, epoch, tick, slack)
    ensures ClockOk(ReadyAll(at, prio, s), first, wake, wakeAt, epoch, tick, slack)
  {
  }

  /** A tick that does not wrap the counter. */
  lemma TickNoWrap(at: map<Task, Place>, first: bool, wake: map<Task, Tick>, wakeAt: map<Task, nat>, epoch: nat, tick: Tick)
    requires ClockOk(at, first, wake, wakeAt, epoch, tick, 0) && tick + 1 < WRAP
    ensures ClockOk(at, first, wake, wakeAt, epoch, tick + 1, -1)
  {
  }

  /** At a wrap the current delay list is empty, and the lists swap their roles. */
  lemma TickWrap(gen: Generic, first: bool, wake: map<Task, Tick>, wakeAt: map<Task, nat>, epoch: nat, tick: Tick)
    requires ClockOk(gen.at, first, wake, wakeAt, epoch, tick, 0) && tick + 1 == WRAP
    requires Consistent(gen) && HasPlaces(gen.on)
    ensures gen.on[Delay(first)].items == []
    ensures ClockOk(gen.at, !first, wake, wakeAt, epoch + 1, 0, -1)
  {
    forall t | t in gen.at && gen.at[t].Delay?
      ensures gen.at[t] == Delay(!first)
    {
    }
    EmptyOrHead(gen, Delay(first));
  }

  lemma EmptyOrHead<P(!new)>(x: Table<P>, p: P)
    requires Consistent(x) && p in x.on
    ensures var l := x.on[p].items; l == [] || (l[0] in l && l[0] in x.at && x.at[l[0]] == p)
  {
    var l := x.on[p].items;
    assert l == [] || l[0] in l;
  }

  /** The tasks due at a tick are those whose wake time is now. */
  lemma DueIsNow(at: map<Task, Place>, first: bool, wake: map<Task, Tick>, wakeAt: map<Task, nat>, epoch: nat, tick: Tick)
    requires ClockOk(at, first, wake, wakeAt, epoch, tick, -1)
    ensures Due(at, first, wake, tick) == DueBy(at, wakeAt, epoch * WRAP + tick)
  {
    forall t | t in at && at[t].Delay?
      ensures t in Due(at, first, wake, tick) <==> t in DueBy(at, wakeAt, epoch * WRAP + tick)
    {
      assert at[t].first != first ==> wakeAt[t] >= (epoch + 1) * WRAP;
    }
  }

  lemma FactsOf(gen: Generic, ev: Events, prio: map<Task, nat>, top: nat, wake: map<Task, Tick>)
    requires CoreOk(gen, ev, prio, top, wake)
    ensures Consistent(gen) && Consistent(ev) && HasPlaces(gen.on)
    ensures forall t :: t in gen.at ==> t in prio && prio[t] < MAX_PRIORITIES && t in wake
  {
  }

  lemma DueMember(at: map<Task, Place>, prio: map<Task, nat>, s: set<Task>, first: bool, wake: map<Task, Tick>, tick: Tick, t: Task)
    requires forall u :: u in at ==> u in prio
    requires t in at && ReadyAll(at, prio, s)[t] == Delay(first) && t in wake && wake[t] <= tick
    ensures t in Due(at, first, wake, tick) && t !in s
  {
  }

  /** Since the lists were gen0 and ev0, the tasks of s have become ready, and stopped waiting for events. */
  ghost predicate Awoken(gen0: Generic, ev0: Events, gen: Generic, ev: Events, prio: map<Task, nat>, s: set<Task>) {
    && (forall t :: t in gen0.at ==> t in prio)
    && gen.at == ReadyAll(gen0.at, prio, s) && ev.at == ev0.at - s && ev.on.Keys == ev0.on.Keys
    && TerminationList in gen0.on && TerminationList in gen.on && gen.on[TerminationList] == gen0.on[TerminationList]
  }

  lemma AwokenNone(gen: Generic, ev: Events, prio: map<Task, nat>, top: nat, wake: map<Task, Tick>)
    requires CoreOk(gen, ev, prio, top, wake)
    ensures Awoken(gen, ev, gen, ev, prio, {})
  {
  }

  lemma AwokenTwice(g0: Generic, e0: Events, g1: Generic, e1: Events, g2: Generic, e2: Events, prio: map<Task, nat>, s: set<Task>, u: set<Task>)
    requires Awoken(g0, e0, g1, e1, prio, s) && Awoken(g1, e1, g2, e2, prio, u)
    ensures Awoken(g0, e0, g2, e2, prio, s + u)
  {
    ReadyTwice(g0.at, prio, s, u);
  }

  lemma AwokenKeys(g0: Generic, e0: Events, g: Generic, e: Events, prio: map<Task, nat>, s: set<Task>)
    requires Awoken(g0, e0, g, e, prio, s)
    ensures g.at.Keys == g0.at.Keys && (forall t :: t in g0.at ==> t in prio)
    ensures g.at == ReadyAll(g0.at, prio, s) && TerminationList in g.on && TerminationList in g0.on && g.on[TerminationList] == g0.on[TerminationList]
    ensures NonePending(e0) ==> NonePending(e)
    ensures forall t :: t in g0.at && g0.at[t].Ready? ==> g.at[t].Ready?
  {
  }

  /** One task that was not terminated becomes ready. */
  lemma AwokenOne(gen: Generic, ev: Events, prio: map<Task, nat>, t: Task)
    requires Consistent(gen) && Consistent(ev) && HasPlaces(gen.on) && (forall u :: u in gen.at ==> u in prio && prio[u] < MAX_PRIORITIES)
    requires t in gen.at && !gen.at[t].TerminationList?
    ensures gen.at[t] in gen.on && t in gen.on[gen.at[t]].items
    ensures var l := Leave(gen, t); Ready(prio[t]) in l.on && l.on[Ready(prio[t])].pos <= |l.on[Ready(prio[t])].items|
    ensures t in ev.at ==> ev.at[t] in ev.on && t in ev.on[ev.at[t]].items
    ensures Awoken(gen, ev, JoinEnd(Leave(gen, t), t, Ready(prio[t])), Without(ev, t), prio, {t})
  {
    hide Leave, JoinEnd, Consistent;
    ReadiedAt(gen, prio, t);
    WithoutOk(ev, t);
    ReadyNone(gen.at, prio);
    ReadyOneMore(gen.at, prio, {}, t);
  }

  ghost function PendingTasks(ev: Events): set<Task> {
    set t | t in ev.at && ev.at[t] == Pending
  }

  /** The head of the pending ready list, or none pending. */
  lemma PendingHead(gen: Generic, ev: Events, prio: map<Task, nat>, top: nat, wake: map<Task, Tick>)
    requires CoreOk(gen, ev, prio, top, wake)
    ensures Pending in ev.on
    ensures var l := ev.on[Pending].items;
            if l == [] then NonePending(ev)
            else l[0] in ev.at && ev.at[l[0]] == Pending && l[0] in gen.at && !gen.at[l[0]].TerminationList? && !gen.at[l[0]].Ready?
  {
    EmptyOrHead(ev, Pending);
    var l := ev.on[Pending].items;
    forall t | t in ev.at && ev.at[t] == Pending
      ensures t in l
    {
    }
  }

  lemma PendingMember(gen0: Generic, ev0: Events, gen: Generic, ev: Events, prio: map<Task, nat>, s: set<Task>, t: Task)
    requires Awoken(gen0, ev0, gen, ev, prio, s) && t in ev.at && ev.at[t] == Pending
    ensures t in PendingTasks(ev0)
  {
  }

  lemma AllPendingDone(gen0: Generic, ev0: Events, gen: Generic, ev: Events, prio: map<Task, nat>, s: set<Task>)
    requires Awoken(gen0, ev0, gen, ev, prio, s) && s <= PendingTasks(ev0) && NonePending(ev)
    ensures s == PendingTasks(ev0)
  {
    forall t | t in PendingTasks(ev0)
      ensures t in s
    {
      assert t in ev.at <==> t !in s;
    }
  }

  /** A task below the running one does not make a switch necessary. */
  lemma TopStays(gen0: Generic, ev0: Events, gen: Generic, ev: Events, prio: map<Task, nat>, t: Task, current: Task)
    requires Awoken(gen0, ev0, gen, ev, prio, {t}) && IsTop(gen0.at, prio, current) && t in gen0.at
    requires t in prio && prio[t] <= prio[current]
    ensures IsTop(gen.at, prio, current)
  {
  }

  lemma NothingDue(at: map<Task, Place>, first: bool, wake: map<Task, Tick>, wakeAt: map<Task, nat>, epoch: nat, tick: Tick)
    requires ClockOk(at, first, wake, wakeAt, epoch, tick, 0)
    ensures DueBy(at, wakeAt, epoch * WRAP + tick) == {}
  {
    assert (epoch + 1) * WRAP == epoch * WRAP + WRAP;
    forall t | t in at && at[t].Delay?
      ensures t in wakeAt && wakeAt[t] > epoch * WRAP + tick
    {
      assert at[t].first != first ==> wakeAt[t] >= (epoch + 1) * WRAP;
    }
  }

  /** The tasks due after one more tick. */
  lemma DueLater(at: map<Task, Place>, prio: map<Task, nat>, wakeAt: map<Task, nat>, time: int)
    requires forall t :: t in at ==> t in prio
    ensures DueBy(at, wakeAt, time) + DueBy(ReadyAll(at, prio, DueBy(at, wakeAt, time)), wakeAt, time + 1) == DueBy(at, wakeAt, time + 1)
  {
  }

  lemma DueOrPending(at: map<Task, Place>, prio: map<Task, nat>, wakeAt: map<Task, nat>, p: set<Task>, time: int)
    requires forall t :: t in at ==> t in prio
    ensures p + DueBy(ReadyAll(at, prio, p), wakeAt, time) == p + DueBy(at, wakeAt, time)
  {
  }

  lemma SomeTask(at: map<Task, Place>, t: Task)
    requires t in at
    ensures |at.Keys| > 0
  {
    assert t in at.Keys;
  }

  /** The list that t was on in the table x has become shorter. */
  ghost predicate ListShrank<P(!new)>(x: Table<P>, y: Table<P>, t: Task) {
    t in x.at && x.at[t] in x.on && x.at[t] in y.on && |y.on[x.at[t]].items| < |x.on[x.at[t]].items|
  }

  lemma AwokenKeepsTasks(g0: Generic, e0: Events, g: Generic, e: Events, prio: map<Task, nat>, s: set<Task>,
                         base: map<Task, nat>, evValue: map<Task, Tick>, idle: Task, current: Task, n: nat, d: nat)
    requires Awoken(g0, e0, g, e, prio, s)
    ensures TcbsOk(g0.at, base, evValue, idle, current) ==> TcbsOk(g.at, base, evValue, idle, current)
    ensures CountedOk(g0, n, d) ==> CountedOk(g, n, d)
    ensures NonePending(e0) ==> NonePending(e)
  {
    assert g.at.Keys == g0.at.Keys;
  }

  lemma ClockAwoken(g0: Generic, e0: Events, g: Generic, e: Events, prio: map<Task, nat>, s: set<Task>,
                    first: bool, wake: map<Task, Tick>, wakeAt: map<Task, nat>, epoch: nat, tick: Tick)
    requires Awoken(g0, e0, g, e, prio, s) && ClockOk(g0.at, first, wake, wakeAt, epoch, tick, 0)
    ensures ClockOk(g.at, first, wake, wakeAt, epoch, tick, 0)
  {
    ClockReadied(g0.at, prio, s, first, wake, wakeAt, epoch, tick, 0);
  }

  lemma PrioritiesOf(gen: Generic, ev: Events, prio: map<Task, nat>, top: nat, wake: map<Task, Tick>, t: Task, u: Task)
    requires CoreOk(gen, ev, prio, top, wake)
    ensures (t in gen.at ==> t in prio) && (u in gen.at ==> u in prio)
  {
  }

  lemma CurrentIn(at: map<Task, Place>, base: map<Task, nat>, evValue: map<Task, Tick>, idle: Task, current: Task)
    requires TcbsOk(at, base, evValue, idle, current)
    ensures current in at && idle in at && idle in base && current in base && |at.Keys| > 0
  {
    SomeTask(at, current);
  }

  lemma BaseOf(at: map<Task, Place>, base: map<Task, nat>, evValue: map<Task, Tick>, idle: Task, current: Task, t: Task)
    requires TcbsOk(at, base, evValue, idle, current) && t in at
    ensures t in base && base[t] < MAX_PRIORITIES
  {
  }

  lemma HasTasks(gen: Generic, base: map<Task, nat>, evValue: map<Task, Tick>, idle: Task, current: Task, n: nat, d: nat)
    requires TcbsOk(gen.at, base, evValue, idle, current) && CountedOk(gen, n, d)
    ensures n > 0
  {
    SomeTask(gen.at, current);
  }

  lemma DelayedAt(gen: Generic, wake: map<Task, Tick>, t: Task, b: bool, v: Tick)
    requires Consistent(gen) && HasPlaces(gen.on) && t in gen.at && (forall u :: u in gen.at ==> u in wake)
    ensures gen.at[t] in gen.on && t in gen.on[gen.at[t]].items
    ensures var l := Leave(gen, t); Delay(b) in l.on && forall u :: u in l.on[Delay(b)].items ==> u in wake
    ensures var r := JoinBy(Leave(gen, t), t, Delay(b), wake[t := v]);
            && r.at == gen.at[t := Delay(b)] && r.on.Keys == gen.on.Keys
            && (gen.at[t] != TerminationList ==> r.on[TerminationList] == gen.on[TerminationList])
  {
    hide Leave, JoinBy, Consistent;
    OnItsList(gen, t);
    LeaveOk(gen, t);
    LeftAt(gen, t);
    ItemsHaveValues(Leave(gen, t), Delay(b), wake);
    JoinedByAt(Leave(gen, t), t, Delay(b), wake[t := v]);
  }

  lemma MovedCount(gen: Generic, t: Task, p: Place, g: Generic, n: nat, d: nat)
    requires t in gen.at && g.at == gen.at[t := p] && g.on.Keys == gen.on.Keys
    requires CountedOk(gen, n, d) && TerminationList in g.on && g.on[TerminationList] == gen.on[TerminationList]
    ensures CountedOk(g, n, d)
  {
    assert g.at.Keys == gen.at.Keys;
  }

  /** A task delayed for n ticks. */
  lemma ClockDelayed(at: map<Task, Place>, first: bool, wake: map<Task, Tick>, wakeAt: map<Task, nat>, epoch: nat, tick: Tick, t: Task, n: Tick, v: Tick)
    requires ClockOk(at, first, wake, wakeAt, epoch, tick, 0) && 0 < n
    requires v == if tick + n < WRAP then tick + n else tick + n - WRAP
    ensures v < tick <==> epoch * WRAP + tick + n >= (epoch + 1) * WRAP
    ensures var b := if v < tick then !first else first;
            ClockOk(at[t := Delay(b)], first, wake[t := v], wakeAt[t := epoch * WRAP + tick + n], epoch, tick, 0)
  {
    assert (epoch + 1) * WRAP == epoch * WRAP + WRAP;
  }

  lemma SleepOk(gen: Generic, ev: Events, prio: map<Task, nat>, top: nat, wake: map<Task, Tick>, t: Task, b: bool, v: Tick)
    requires CoreOk(gen, ev, prio, top, wake) && t in gen.at
    ensures gen.at[t] in gen.on && t in gen.on[gen.at[t]].items
    ensures var l := Leave(gen, t); Delay(b) in l.on && forall u :: u in l.on[Delay(b)].items ==> u in wake
    ensures var r := JoinBy(Leave(gen, t), t, Delay(b), wake[t := v]);
            CoreOk(r, ev, prio, top, wake[t := v]) && r.at == gen.at[t := Delay(b)]
  {
    hide CoreOk, Leave, JoinBy, Consistent;
    FactsOf(gen, ev, prio, top, wake);
    DelayedOk(gen, ev, prio, top, wake, t, b, v);
    DelayedAt(gen, wake, t, b, v);
  }

  lemma SleepKeeps(gen: Generic, ev: Events, prio: map<Task, nat>, top: nat, wake: map<Task, Tick>, t: Task, b: bool, v: Tick,
                   base: map<Task, nat>, evValue: map<Task, Tick>, idle: Task, n: nat, d: nat)
    requires CoreOk(gen, ev, prio, top, wake) && t in gen.at && gen.at[t].Ready? && t != idle
    requires TcbsOk(gen.at, base, evValue, idle, t) && CountedOk(gen, n, d)
    ensures gen.at[t] in gen.on && t in gen.on[gen.at[t]].items
    ensures var l := Leave(gen, t); Delay(b) in l.on && forall u :: u in l.on[Delay(b)].items ==> u in wake
    ensures var r := JoinBy(Leave(gen, t), t, Delay(b), wake[t := v]);
            TcbsOk(r.at, base, evValue, idle, t) && CountedOk(r, n, d)
  {
    hide CoreOk, Leave, JoinBy, Consistent, CountedOk;
    FactsOf(gen, ev, prio, top, wake);
    DelayedAt(gen, wake, t, b, v);
    CountedHas(gen, n, d);
    MovedCount(gen, t, Delay(b), JoinBy(Leave(gen, t), t, Delay(b), wake[t := v]), n, d);
  }

  lemma CountedHas(gen: Generic, n: nat, d: nat)
    requires CountedOk(gen, n, d)
    ensures TerminationList in gen.on
  {
  }

  lemma AwokenNobody(g0: Generic, e0: Events, g: Generic, e: Events, prio: map<Task, nat>)
    ensures Awoken(g0, e0, g, e, prio, {}) ==>
              && g.at == g0.at && e.at == e0.at
              && TerminationList in g.on && TerminationList in g0.on && g.on[TerminationList] == g0.on[TerminationList]
  {
    if forall t :: t in g0.at ==> t in prio {
      ReadyNone(g0.at, prio);
    }
  }

  /** First the pending tasks have become ready, then those that are due. */
  lemma PendingThenDue(g0: Generic, e0: Events, g1: Generic, e1: Events, g: Generic, e: Events, prio: map<Task, nat>, wakeAt: map<Task, nat>, now: int)
    requires Awoken(g0, e0, g1, e1, prio, PendingTasks(e0)) && Awoken(g1, e1, g, e, prio, DueBy(g1.at, wakeAt, now))
    ensures Awoken(g0, e0, g, e, prio, PendingTasks(e0) + DueBy(g0.at, wakeAt, now))
  {
    hide PendingTasks, DueBy, ReadyAll;
    AwokenKeys(g0, e0, g1, e1, prio, PendingTasks(e0));
    AwokenTwice(g0, e0, g1, e1, g, e, prio, PendingTasks(e0), DueBy(g1.at, wakeAt, now));
    DueOrPending(g0.at, prio, wakeAt, PendingTasks(e0), now);
  }

  /** The tasks due by some time have become ready, then those due one tick later. */
  lemma DueThenDue(g0: Generic, e0: Events, g1: Generic, e1: Events, g: Generic, e: Events, prio: map<Task, nat>, wakeAt: map<Task, nat>, now: int)
    requires Awoken(g0, e0, g1, e1, prio, DueBy(g0.at, wakeAt, now)) && Awoken(g1, e1, g, e, prio, DueBy(g1.at, wakeAt, now + 1))
    ensures Awoken(g0, e0, g, e, prio, DueBy(g0.at, wakeAt, now + 1))
  {
    hide DueBy, ReadyAll;
    AwokenKeys(g0, e0, g1, e1, prio, DueBy(g0.at, wakeAt, now));
    AwokenTwice(g0, e0, g1, e1, g, e, prio, DueBy(g0.at, wakeAt, now), DueBy(g1.at, wakeAt, now + 1));
    DueLater(g0.at, prio, wakeAt, now);
  }

  // ---------- suspending, resuming, deleting ----------

  /** A task stops waiting for events and goes to the suspended or the terminated list. */
  lemma ParkAllOk(gen: Generic, ev: Events, prio: map<Task, nat>, top: nat, wake: map<Task, Tick>, t: Task, p: Place)
    requires CoreOk(gen, ev, prio, top, wake) && t in gen.at && (p == SuspendedList || p == TerminationList)
    ensures gen.at[t] in gen.on && t in gen.on[gen.at[t]].items
    ensures t in ev.at ==> ev.at[t] in ev.on && t in ev.on[ev.at[t]].items
    ensures var l := Leave(gen, t); p in l.on && l.on[p].pos <= |l.on[p].items|
    ensures CoreOk(JoinEnd(Leave(gen, t), t, p), Without(ev, t), prio, top, wake)
    ensures JoinEnd(Leave(gen, t), t, p).at == gen.at[t := p] && Without(ev, t).at == ev.at - {t} && Without(ev, t).on.Keys == ev.on.Keys
  {
    hide Leave, JoinEnd, SortedBy, Consistent, DelaysSorted, Without;
    WithoutOk(ev, t);
    MovedLists(gen, t, p, wake);
  }

  /** How many tasks there are, and are terminated, after a move. */
  lemma ParkedCount(gen: Generic, t: Task, p: Place, n: nat, d: nat)
    requires Consistent(gen) && t in gen.at && p in gen.on && gen.at[t] != TerminationList
    requires CountedOk(gen, n, d)
    ensures gen.at[t] in gen.on && t in gen.on[gen.at[t]].items
    ensures var l := Leave(gen, t); p in l.on && l.on[p].pos <= |l.on[p].items|
    ensures CountedOk(JoinEnd(Leave(gen, t), t, p), n, if p == TerminationList then d + 1 else d)
  {
    hide Leave, JoinEnd, Consistent;
    OnItsList(gen, t);
    LeaveOk(gen, t);
    LeftAt(gen, t);
    PosOk(Leave(gen, t), p);
    LeftOut(gen, t);
    JoinEndOk(Leave(gen, t), t, p);
    JoinedAt(Leave(gen, t), t, p);
    assert JoinEnd(Leave(gen, t), t, p).at.Keys == gen.at.Keys;
  }

  lemma LeftOut<P>(x: Table<P>, t: Task)
    requires t in x.at && x.at[t] in x.on && t in x.on[x.at[t]].items
    ensures t !in Leave(x, t).at
  {
  }

  lemma TasksStay(at: map<Task, Place>, base: map<Task, nat>, evValue: map<Task, Tick>, idle: Task, current: Task, t: Task, p: Place)
    requires TcbsOk(at, base, evValue, idle, current) && t in at && (t != idle || p.Ready?)
    ensures TcbsOk(at[t := p], base, evValue, idle, current)
  {
  }

  lemma ClockMoved(at: map<Task, Place>, first: bool, wake: map<Task, Tick>, wakeAt: map<Task, nat>, epoch: nat, tick: Tick, t: Task, p: Place)
    requires ClockOk(at, first, wake, wakeAt, epoch, tick, 0) && !p.Delay?
    ensures ClockOk(at[t := p], first, wake, wakeAt, epoch, tick, 0)
  {
  }

  lemma NonePendingWithout(ev: Events, e: Events, t: Task)
    requires e.at == ev.at - {t}
    ensures NonePending(ev) ==> NonePending(e)
  {
  }

  /** A task other than the running one that is no longer ready does not matter to the choice. */
  lemma TopWithout(at: map<Task, Place>, prio: map<Task, nat>, current: Task, t: Task, p: Place)
    requires IsTop(at, prio, current) && t != current && !p.Ready?
    ensures IsTop(at[t := p], prio, current)
  {
  }

  lemma TopWith(at: map<Task, Place>, prio: map<Task, nat>, current: Task, t: Task)
    requires IsTop(at, prio, current) && t in at && t in prio && prio[t] <= prio[current]
    ensures IsTop(at[t := Ready(prio[t])], prio, current)
  {
  }

  /** What making one task ready keeps, for a task that waits for no event. */
  lemma ReadiedKeeps(gen: Generic, ev: Events, prio: map<Task, nat>, t: Task,
                     base: map<Task, nat>, evValue: map<Task, Tick>, idle: Task, current: Task, n: nat, d: nat)
    requires Consistent(gen) && Consistent(ev) && HasPlaces(gen.on) && (forall u :: u in gen.at ==> u in prio && prio[u] < MAX_PRIORITIES)
    requires t in gen.at && !gen.at[t].TerminationList? && t !in ev.at
    requires TcbsOk(gen.at, base, evValue, idle, current) && CountedOk(gen, n, d)
    ensures gen.at[t] in gen.on && t in gen.on[gen.at[t]].items
    ensures var l := Leave(gen, t); Ready(prio[t]) in l.on && l.on[Ready(prio[t])].pos <= |l.on[Ready(prio[t])].items|
    ensures current in prio
    ensures var g := JoinEnd(Leave(gen, t), t, Ready(prio[t]));
            && g.at == gen.at[t := Ready(prio[t])]
            && TcbsOk(g.at, base, evValue, idle, current) && CountedOk(g, n, d)
            && (IsTop(gen.at, prio, current) && prio[t] <= prio[current] ==> IsTop(g.at, prio, current))
  {
    hide Leave, JoinEnd, Consistent, IsTop, TcbsOk, CountedOk, Awoken, HasPlaces;
    ReadiedAt(gen, prio, t);
    AwokenOne(gen, ev, prio, t);
    CurrentIn(gen.at, base, evValue, idle, current);
    var g := JoinEnd(Leave(gen, t), t, Ready(prio[t]));
    AwokenKeepsTasks(gen, ev, g, ev, prio, {t}, base, evValue, idle, current, n, d);
    if IsTop(gen.at, prio, current) && prio[t] <= prio[current] {
      TopWith(gen.at, prio, current, t);
    }
  }

  lemma ReadiedClock(gen: Generic, ev: Events, prio: map<Task, nat>, t: Task,
                     first: bool, wake: map<Task, Tick>, wakeAt: map<Task, nat>, epoch: nat, tick: Tick)
    requires Consistent(gen) && HasPlaces(gen.on) && t in gen.at && t in prio && prio[t] < MAX_PRIORITIES
    requires ClockOk(gen.at, first, wake, wakeAt, epoch, tick, 0)
    ensures gen.at[t] in gen.on && t in gen.on[gen.at[t]].items
    ensures var l := Leave(gen, t); Ready(prio[t]) in l.on && l.on[Ready(prio[t])].pos <= |l.on[Ready(prio[t])].items|
    ensures ClockOk(JoinEnd(Leave(gen, t), t, Ready(prio[t])).at, first, wake, wakeAt, epoch, tick, 0)
  {
    hide Leave, JoinEnd, Consistent, ClockOk;
    ReadiedAt(gen, prio, t);
    ClockMoved(gen.at, first, wake, wakeAt, epoch, tick, t, Ready(prio[t]));
  }

  /** The comparisons of vTaskDelayUntil. */
  predicate ShouldDelay(tick: Tick, prev: Tick, timeToWake: Tick) {
    if tick < prev then timeToWake < prev && timeToWake > tick else timeToWake < prev || timeToWake > tick
  }

  /** How long ago the last wake time seems to be. */
  function SeemsPast(now: nat, prevAt: nat): nat {
    (now - prevAt) % WRAP
  }

  /** What they decide, for every last wake time prevAt: whether less than the increment seems to have passed since,
      and then for how long to sleep. That is right, the next wake time lying ahead, exactly if it is not too long
      ago and, where it lies ahead itself, seems to be less than the increment ago. */
  lemma UntilIsExact(epoch: nat, tick: Tick, prevAt: nat, prev: Tick, increment: Tick, v: Tick)
    requires prevAt % WRAP == prev && v == if prev + increment < WRAP then prev + increment else prev + increment - WRAP
    ensures var now := epoch * WRAP + tick;
            && v == (prevAt + increment) % WRAP && (ShouldDelay(tick, prev, v) <==> SeemsPast(now, prevAt) < increment)
            && (ShouldDelay(tick, prev, v) ==>
                  var n := increment - SeemsPast(now, prevAt);
                  0 < n < WRAP && v == if tick + n < WRAP then tick + n else tick + n - WRAP)
            && ((ShouldDelay(tick, prev, v) <==> prevAt + increment > now) <==>
                  if prevAt <= now then now < prevAt + WRAP || SeemsPast(now, prevAt) >= increment else SeemsPast(now, prevAt) < increment)
  {
    var now, q := epoch * WRAP + tick, prevAt / WRAP;
    assert prevAt == q * WRAP + prev;
    RoundsApart(now - prevAt, epoch - q, tick - prev);
    RoundsApart(prevAt + increment, q, prev + increment);
    if prevAt <= now < prevAt + WRAP {
      RoundsApart(now - prevAt, 0, now - prevAt);
    }
  }

  lemma RoundsApart(x: int, q: int, r: int)
    requires x == q * WRAP + r && 0 < r + WRAP && r < 2 * WRAP
    ensures x % WRAP == if r < 0 then r + WRAP else if r < WRAP then r else r - WRAP
  {
  }

  /** A task that has been resumed before its wake time, at tick 5 when that was 10, and delays until 10 ticks later:
      it does not sleep, although its next wake time lies ahead. */
  lemma UntilCanSkip()
    ensures !ShouldDelay(5, 10, 20) && 20 == (10 + 10) % WRAP && 10 + 10 > 5
  {
  }

  /** The event item of a ready task joins a list of waiting tasks. */
  lemma WaitOk(gen: Generic, ev: Events, prio: map<Task, nat>, top: nat, wake: map<Task, Tick>, t: Task, list: nat,
               base: map<Task, nat>, evValue: map<Task, Tick>, idle: Task)
    requires CoreOk(gen, ev, prio, top, wake) && TcbsOk(gen.at, base, evValue, idle, t) && gen.at[t].Ready? && Waiting(list) in ev.on
    ensures forall u :: u in ev.on[Waiting(list)].items ==> u in evValue
    ensures t in evValue
    ensures var e := JoinBy(ev, t, Waiting(list), evValue);
            && Consistent(e) && e.at == ev.at[t := Waiting(list)] && e.on.Keys == ev.on.Keys
            && (forall q :: q in ev.on && q != Waiting(list) ==> e.on[q] == ev.on[q])
            && (SortedBy(ev.on[Waiting(list)].items, evValue) ==> SortedBy(e.on[Waiting(list)].items, evValue))
  {
    hide JoinBy, Consistent, SortedBy, DelaysSorted;
    assert forall u :: u in ev.at ==> u in gen.at && u in evValue;
    assert t !in ev.at;
    ItemsHaveValues(ev, Waiting(list), evValue);
    JoinByOk(ev, t, Waiting(list), evValue);
    JoinedByAt(ev, t, Waiting(list), evValue);
    if SortedBy(ev.on[Waiting(list)].items, evValue) {
      JoinBySorted(ev, t, Waiting(list), evValue);
    }
  }

  lemma WaitingOk(gen: Generic, ev: Events, prio: map<Task, nat>, top: nat, wake: map<Task, Tick>, e: Events, t: Task, list: nat)
    requires CoreOk(gen, ev, prio, top, wake) && t in gen.at && (gen.at[t].Delay? || gen.at[t].SuspendedList?)
    requires Consistent(e) && e.at == ev.at[t := Waiting(list)] && e.on.Keys == ev.on.Keys
    ensures CoreOk(gen, e, prio, top, wake) && (NonePending(ev) ==> NonePending(e))
  {
    hide Consistent, DelaysSorted;
    EventMovedOk(gen, ev, prio, top, wake, e);
  }

  /** A task parked on the suspended list without touching its event item. */
  lemma SuspendKeeps(gen: Generic, ev: Events, prio: map<Task, nat>, top: nat, wake: map<Task, Tick>, t: Task,
                     base: map<Task, nat>, evValue: map<Task, Tick>, idle: Task, n: nat, d: nat,
                     first: bool, wakeAt: map<Task, nat>, epoch: nat, tick: Tick)
    requires CoreOk(gen, ev, prio, top, wake) && gen.at.Keys >= {t} && gen.at[t].Ready? && t != idle
    requires TcbsOk(gen.at, base, evValue, idle, t) && CountedOk(gen, n, d)
    requires ClockOk(gen.at, first, wake, wakeAt, epoch, tick, 0)
    ensures gen.at[t] in gen.on && t in gen.on[gen.at[t]].items
    ensures var l := Leave(gen, t); SuspendedList in l.on && l.on[SuspendedList].pos <= |l.on[SuspendedList].items|
    ensures var g := JoinEnd(Leave(gen, t), t, SuspendedList);
            && CoreOk(g, ev, prio, top, wake) && g.at == gen.at[t := SuspendedList]
            && TcbsOk(g.at, base, evValue, idle, t) && CountedOk(g, n, d) && ClockOk(g.at, first, wake, wakeAt, epoch, tick, 0)
  {
    hide CoreOk, TcbsOk, CountedOk, ClockOk, Leave, JoinEnd, Consistent;
    FactsOf(gen, ev, prio, top, wake);
    ParkedOk(gen, ev, prio, top, wake, t, SuspendedList);
    ParkedCount(gen, t, SuspendedList, n, d);
    LeftAt(gen, t);
    JoinedAt(Leave(gen, t), t, SuspendedList);
    TasksStay(gen.at, base, evValue, idle, t, t, SuspendedList);
    ClockMoved(gen.at, first, wake, wakeAt, epoch, tick, t, SuspendedList);
  }

  // ---------- waking waiters, and priorities ----------

  lemma WaiterIs(gen: Generic, ev: Events, prio: map<Task, nat>, top: nat, wake: map<Task, Tick>, list: nat)
    requires CoreOk(gen, ev, prio, top, wake) && Waiting(list) in ev.on && ev.on[Waiting(list)].items != []
    ensures var t := ev.on[Waiting(list)].items[0];
            t in ev.at && ev.at[t] == Waiting(list) && t in gen.at && !gen.at[t].TerminationList? && !gen.at[t].Ready?
  {
    EmptyOrHead(ev, Waiting(list));
  }

  /** The event item of a blocked task moves to the pending ready list. */
  lemma PendOk(gen: Generic, ev: Events, prio: map<Task, nat>, top: nat, wake: map<Task, Tick>, t: Task)
    requires CoreOk(gen, ev, prio, top, wake) && t in ev.at
    ensures ev.at[t] in ev.on && t in ev.on[ev.at[t]].items
    ensures var l := Leave(ev, t); Pending in l.on && l.on[Pending].pos <= |l.on[Pending].items|
    ensures var e := JoinEnd(Leave(ev, t), t, Pending); CoreOk(gen, e, prio, top, wake) && e.at == ev.at[t := Pending]
  {
    hide Leave, JoinEnd, Consistent, DelaysSorted;
    OnItsList(ev, t);
    LeaveOk(ev, t);
    LeftAt(ev, t);
    LeftOut(ev, t);
    PosOk(Leave(ev, t), Pending);
    JoinEndOk(Leave(ev, t), t, Pending);
    JoinedAt(Leave(ev, t), t, Pending);
    EventMovedOk(gen, ev, prio, top, wake, JoinEnd(Leave(ev, t), t, Pending));
  }

  lemma RankValue(gen: Generic, ev: Events, prio: map<Task, nat>, top: nat, wake: map<Task, Tick>, t: Task)
    requires CoreOk(gen, ev, prio, top, wake) && t in gen.at
    ensures t in prio && prio[t] < MAX_PRIORITIES
  {
  }

  lemma TcbsValue(at: map<Task, Place>, base: map<Task, nat>, evValue: map<Task, Tick>, idle: Task, current: Task, t: Task, v: Tick)
    requires TcbsOk(at, base, evValue, idle, current)
    ensures TcbsOk(at, base, evValue[t := v], idle, current)
  {
  }

  lemma ReadyAtPriority(gen: Generic, ev: Events, prio: map<Task, nat>, top: nat, wake: map<Task, Tick>, t: Task)
    requires CoreOk(gen, ev, prio, top, wake) && t in gen.at
    ensures t in prio && (gen.at[t].Ready? <==> gen.at[t] == Ready(prio[t]))
  {
  }

  /** A ready task goes to the list of a new priority. */
  lemma RequeuedOk(gen: Generic, ev: Events, prio: map<Task, nat>, top: nat, wake: map<Task, Tick>, t: Task, p: nat)
    requires CoreOk(gen, ev, prio, top, wake) && t in gen.at && gen.at[t].Ready? && p < MAX_PRIORITIES
    ensures gen.at[t] in gen.on && t in gen.on[gen.at[t]].items
    ensures var l := Leave(gen, t); Ready(p) in l.on && l.on[Ready(p)].pos <= |l.on[Ready(p)].items|
    ensures CoreOk(JoinEnd(Leave(gen, t), t, Ready(p)), ev, prio[t := p], Max(top, p), wake)
  {
    hide Leave, JoinEnd, SortedBy, Consistent, DelaysSorted;
    MovedLists(gen, t, Ready(p), wake);
  }

  lemma RequeuedKeeps(gen: Generic, t: Task, p: nat, base: map<Task, nat>, evValue: map<Task, Tick>, idle: Task, current: Task, n: nat, d: nat)
    requires Consistent(gen) && HasPlaces(gen.on) && t in gen.at && gen.at[t].Ready? && p < MAX_PRIORITIES
    requires TcbsOk(gen.at, base, evValue, idle, current) && CountedOk(gen, n, d)
    ensures gen.at[t] in gen.on && t in gen.on[gen.at[t]].items
    ensures var l := Leave(gen, t); Ready(p) in l.on && l.on[Ready(p)].pos <= |l.on[Ready(p)].items|
    ensures var g := JoinEnd(Leave(gen, t), t, Ready(p));
            g.at == gen.at[t := Ready(p)] && TcbsOk(g.at, base, evValue, idle, current) && CountedOk(g, n, d)
  {
    hide Leave, JoinEnd, Consistent, TcbsOk, CountedOk;
    ReadiedAt(gen, map[t := p], t);
    CountedHas(gen, n, d);
    TasksStay(gen.at, base, evValue, idle, current, t, Ready(p));
    MovedCount(gen, t, Ready(p), JoinEnd(Leave(gen, t), t, Ready(p)), n, d);
  }

  lemma PriorityOnlyOk(gen: Generic, ev: Events, prio: map<Task, nat>, top: nat, wake: map<Task, Tick>, t: Task, p: nat)
    requires CoreOk(gen, ev, prio, top, wake) && t in gen.at && !gen.at[t].Ready? && p < MAX_PRIORITIES
    ensures CoreOk(gen, ev, prio[t := p], top, wake)
  {
  }

  /** Another task raised to the priority of the running one does not displace it. */
  lemma RaisedTop(at: map<Task, Place>, prio: map<Task, nat>, current: Task, t: Task, p: nat)
    requires IsTop(at, prio, current) && t in at && t in prio && prio[t] < p <= prio[current]
    ensures IsTop(if at[t].Ready? then at[t := Ready(p)] else at, prio[t := p], current)
  {
  }

  lemma CurrentBase(gen: Generic, ev: Events, prio: map<Task, nat>, top: nat, wake: map<Task, Tick>,
                    base: map<Task, nat>, evValue: map<Task, Tick>, idle: Task, current: Task)
    requires CoreOk(gen, ev, prio, top, wake) && TcbsOk(gen.at, base, evValue, idle, current)
    ensures current in base && base[current] < MAX_PRIORITIES && current in prio
    ensures gen.at[current].Ready? ==> gen.at[current] == Ready(prio[current])
  {
  }

  /** The value of the event item of a task of priority p. */
  function EventValue(p: nat): Tick {
    if p < MAX_PRIORITIES then MAX_PRIORITIES - p else 0
  }

  /** The priority that a new one is capped to. */
  function Capped(p: nat): (r: nat)
    ensures r < MAX_PRIORITIES && (p < MAX_PRIORITIES ==> r == p) && (p >= MAX_PRIORITIES ==> r + 1 == MAX_PRIORITIES)
  {
    if p >= MAX_PRIORITIES then MAX_PRIORITIES - 1 else p
  }

  lemma TcbsBase(at: map<Task, Place>, base: map<Task, nat>, evValue: map<Task, Tick>, idle: Task, current: Task, t: Task, p: nat, v: Tick)
    requires p < MAX_PRIORITIES
    ensures forall a :: TcbsOk(a, base, evValue, idle, current) ==> TcbsOk(a, base[t := p], evValue[t := v], idle, current)
  {
  }

  /** The running task raised, or another one lowered, leaves the choice as it is. */
  lemma ChangedTop(at: map<Task, Place>, prio: map<Task, nat>, current: Task, t: Task, p: nat)
    requires IsTop(at, prio, current) && t in at && t in prio && (if p > prio[t] then t == current else t != current)
    ensures IsTop(if at[t].Ready? then at[t := Ready(p)] else at, prio[t := p], current)
  {
  }

  // ---------- creating and forgetting tasks ----------

  lemma ForgetOk(gen: Generic, ev: Events, prio: map<Task, nat>, top: nat, wake: map<Task, Tick>, t: Task)
    requires CoreOk(gen, ev, prio, top, wake) && TerminationList in gen.on && t in gen.on[TerminationList].items
    ensures t in gen.at && gen.at[t] == TerminationList && t in gen.on[gen.at[t]].items
    ensures CoreOk(Leave(gen, t), ev, prio, top, wake)
  {
    hide Leave, SortedBy;
    assert t in gen.at && gen.at[t] == TerminationList;
    LeaveOk(gen, t);
    LeftAt(gen, t);
    forall b: bool
      ensures SortedBy(Leave(gen, t).on[Delay(b)].items, wake)
    {
      LeaveKeepsSorted(gen, t, Delay(b), wake);
    }
  }

  lemma ForgetKeeps(gen: Generic, ev: Events, prio: map<Task, nat>, top: nat, wake: map<Task, Tick>, t: Task,
                    base: map<Task, nat>, evValue: map<Task, Tick>, idle: Task, n: nat, d: nat)
    requires CoreOk(gen, ev, prio, top, wake) && TerminationList in gen.on && t in gen.on[TerminationList].items
    requires TcbsOk(gen.at, base, evValue, idle, idle) && CountedOk(gen, n, d)
    ensures t in gen.at && gen.at[t] == TerminationList && t in gen.on[gen.at[t]].items
    ensures n > 0 && d > 0 && TcbsOk(Leave(gen, t).at, base, evValue, idle, idle) && CountedOk(Leave(gen, t), n - 1, d - 1)
    ensures Leave(gen, t).at == gen.at - {t}
  {
    hide Leave, SortedBy, DelaysSorted;
    assert t in gen.at && gen.at[t] == TerminationList;
    LeaveOk(gen, t);
    LeftAt(gen, t);
    assert (gen.at - {t}).Keys == gen.at.Keys - {t};
  }

  lemma ForgetClock(at: map<Task, Place>, first: bool, wake: map<Task, Tick>, wakeAt: map<Task, nat>, epoch: nat, tick: Tick,
                    prio: map<Task, nat>, current: Task, t: Task)
    requires ClockOk(at, first, wake, wakeAt, epoch, tick, 0) && t in at && at[t] == TerminationList
    ensures ClockOk(at - {t}, first, wake, wakeAt, epoch, tick, 0)
    ensures IsTop(at, prio, current) ==> IsTop(at - {t}, prio, current)
  {
  }

  lemma NewTcbOk(gen: Generic, ev: Events, prio: map<Task, nat>, top: nat, wake: map<Task, Tick>, t: Task, p: nat)
    requires CoreOk(gen, ev, prio, top, wake) && t !in gen.at && p < MAX_PRIORITIES
    ensures CoreOk(gen, ev, prio[t := p], top, wake[t := 0])
  {
    hide SortedBy, Consistent;
    forall b: bool
      ensures SortedBy(gen.on[Delay(b)].items, wake[t := 0])
    {
      SortedElsewhere(gen, t, Delay(b), wake, 0);
    }
  }

  lemma NewTcbKeeps(at: map<Task, Place>, base: map<Task, nat>, evValue: map<Task, Tick>, idle: Task, current: Task, t: Task, p: nat)
    requires TcbsOk(at, base, evValue, idle, current) && p < MAX_PRIORITIES
    ensures TcbsOk(at, base[t := p], evValue[t := MAX_PRIORITIES - p], idle, current)
  {
  }

  lemma NewTcbClock(at: map<Task, Place>, first: bool, wake: map<Task, Tick>, wakeAt: map<Task, nat>, epoch: nat, tick: Tick,
                    prio: map<Task, nat>, current: Task, t: Task, p: nat)
    requires ClockOk(at, first, wake, wakeAt, epoch, tick, 0) && t !in at
    ensures ClockOk(at, first, wake[t := 0], wakeAt, epoch, tick, 0)
    ensures IsTop(at, prio, current) ==> IsTop(at, prio[t := p], current)
  {
  }

  lemma EnlistOk(gen: Generic, ev: Events, prio: map<Task, nat>, top: nat, wake: map<Task, Tick>, t: Task)
    requires CoreOk(gen, ev, prio, top, wake) && t !in gen.at && t in prio && t in wake && prio[t] < MAX_PRIORITIES
    ensures Ready(prio[t]) in gen.on && gen.on[Ready(prio[t])].pos <= |gen.on[Ready(prio[t])].items|
    ensures CoreOk(JoinEnd(gen, t, Ready(prio[t])), ev, prio, Max(top, prio[t]), wake)
  {
    hide JoinEnd, SortedBy, Consistent;
    PosOk(gen, Ready(prio[t]));
    JoinEndOk(gen, t, Ready(prio[t]));
    JoinedAt(gen, t, Ready(prio[t]));
  }

  lemma EnlistKeeps(gen: Generic, t: Task, p: nat, base: map<Task, nat>, evValue: map<Task, Tick>, idle: Task, current: Task, n: nat, d: nat)
    requires t !in gen.at && Ready(p) in gen.on && gen.on[Ready(p)].pos <= |gen.on[Ready(p)].items|
    requires TcbsOk(gen.at, base, evValue, idle, current) && CountedOk(gen, n, d)
    requires t in base && t in evValue && base[t] < MAX_PRIORITIES
    ensures var g := JoinEnd(gen, t, Ready(p));
            g.at == gen.at[t := Ready(p)] && CountedOk(g, n + 1, d) && TcbsOk(g.at, base, evValue, idle, current)
  {
    hide JoinEnd;
    JoinedAt(gen, t, Ready(p));
    assert gen.at[t := Ready(p)].Keys == gen.at.Keys + {t};
  }

  lemma EnlistClock(at: map<Task, Place>, first: bool, wake: map<Task, Tick>, wakeAt: map<Task, nat>, epoch: nat, tick: Tick,
                    prio: map<Task, nat>, current: Task, t: Task)
    requires ClockOk(at, first, wake, wakeAt, epoch, tick, 0) && t !in at && t in prio
    ensures ClockOk(at[t := Ready(prio[t])], first, wake, wakeAt, epoch, tick, 0)
    ensures IsTop(at, prio, current) && prio[t] <= prio[current] ==> IsTop(at[t := Ready(prio[t])], prio, current)
  {
  }

  // ---------- what the invariants mean ----------

  function ReadyPlaces(n: nat): (r: seq<Place>)
    ensures |r| == n
    ensures forall i :: 0 <= i < n ==> r[i] == Ready(i)
  {
    seq(n, i requires 0 <= i < n => Ready(i))
  }

  function AllPlaces(): (r: seq<Place>)
    ensures forall i, j :: 0 <= i < j < |r| ==> r[i] != r[j]
  {
    ReadyPlaces(MAX_PRIORITIES) + [Delay(true), Delay(false), SuspendedList, TerminationList]
  }

  lemma PlacesAreAll(on: map<Place, TaskList>)
    requires HasPlaces(on)
    ensures forall p :: p in AllPlaces() ==> p in on
    ensures forall p: Place :: (p.Ready? ==> p.priority < MAX_PRIORITIES) ==> p in AllPlaces()
  {
    forall p: Place
      ensures p in AllPlaces() <==> (p.Ready? ==> p.priority < MAX_PRIORITIES)
    {
      PlacesBound(p);
    }
  }

  /** uxCurrentNumberOfTasks is the sum of the lengths of all lists of generic items. */
  lemma CountIsSum(gen: Generic, n: nat, d: nat)
    requires Consistent(gen) && HasPlaces(gen.on) && CountedOk(gen, n, d)
    requires forall t :: t in gen.at && gen.at[t].Ready? ==> gen.at[t].priority < MAX_PRIORITIES
    ensures forall p :: p in AllPlaces() ==> p in gen.on
    ensures n == SumLengths(gen.on, AllPlaces())
  {
    hide Consistent, AllPlaces;
    PlacesAreAll(gen.on);
    CountByList(gen, AllPlaces());
    assert TasksOn(gen, AllPlaces()) == gen.at.Keys;
  }

  /** The lists of a scheduler with one task, the idle task. */
  function FirstLists(idle: Task): Generic {
    Table(map p | p in AllPlaces() :: if p == Ready(0) then TaskList([idle], 1) else TaskList([], 0), map[idle := Ready(0)])
  }

  lemma FirstListsOk(idle: Task)
    ensures CoreOk(FirstLists(idle), Table(map[Pending := TaskList([], 0)], map[]), map[idle := 0], 0, map[idle := 0])
    ensures CountedOk(FirstLists(idle), 1, 0) && FirstLists(idle).at == map[idle := Ready(0)]
  {
    hide AllPlaces;
    var g := FirstLists(idle);
    forall p: Place
      ensures p in AllPlaces() <==> (p.Ready? ==> p.priority < MAX_PRIORITIES)
    {
      PlacesBound(p);
    }
    assert g.on[Ready(0)].items == [idle];
    assert g.at.Keys == {idle};
  }

  lemma PlacesBound(p: Place)
    ensures p in AllPlaces() <==> (p.Ready? ==> p.priority < MAX_PRIORITIES)
  {
    if p.Ready? && p.priority < MAX_PRIORITIES {
      assert AllPlaces()[p.priority] == p;
    } else if !p.Ready? {
      assert p in AllPlaces()[MAX_PRIORITIES..];
    }
  }

  lemma FirstTaskOk(idle: Task)
    ensures TcbsOk(map[idle := Ready(0)], map[idle := 0], map[idle := MAX_PRIORITIES], idle, idle)
    ensures ClockOk(map[idle := Ready(0)], true, map[idle := 0], map[], 0, 0, 0)
    ensures IsTop(map[idle := Ready(0)], map[idle := 0], idle)
    ensures NonePending(Table(map[Pending := TaskList([], 0)], map[]))
  {
  }

  lemma NewListOk(gen: Generic, ev: Events, prio: map<Task, nat>, top: nat, wake: map<Task, Tick>, list: nat)
    requires CoreOk(gen, ev, prio, top, wake) && Waiting(list) !in ev.on
    ensures CoreOk(gen, Table(ev.on[Waiting(list) := TaskList([], 0)], ev.at), prio, top, wake)
  {
  }

  // ---------- the order of event lists ----------

  /** The event item of a task shows its priority. */
  ghost predicate Shows(t: Task, prio: map<Task, nat>, value: map<Task, Tick>) {
    t in prio && prio[t] < MAX_PRIORITIES && t in value && value[t] == EventValue(prio[t])
  }

  /** The items of a list show the priorities of their tasks, the highest first. */
  ghost predicate InOrder(s: seq<Task>, prio: map<Task, nat>, value: map<Task, Tick>) {
    SortedBy(s, value) && forall t :: t in s ==> Shows(t, prio, value)
  }

  /** Every event list but the disturbed ones is in the order of priorities, and every event item shows the priority
      that its task has, or its base priority. */
  ghost predicate QueuesOk(ev: Events, prio: map<Task, nat>, base: map<Task, nat>, value: map<Task, Tick>, disturbed: set<nat>) {
    && (forall list :: Waiting(list) in ev.on && list !in disturbed ==> InOrder(ev.on[Waiting(list)].items, prio, value))
    && forall t :: t in value ==> t in prio && t in base && (value[t] == EventValue(prio[t]) || value[t] == EventValue(base[t]))
  }

  /** The first task of a list in order has the highest priority. */
  lemma FirstIsHighest(s: seq<Task>, prio: map<Task, nat>, value: map<Task, Tick>)
    requires InOrder(s, prio, value)
    ensures forall i, j :: 0 <= i < j < |s| ==> s[i] in prio && s[j] in prio && prio[s[i]] >= prio[s[j]]
    ensures s != [] ==> forall u :: u in s ==> u in prio && s[0] in prio && prio[u] <= prio[s[0]]
  {
    forall i, j | 0 <= i < j < |s|
      ensures s[i] in prio && s[j] in prio && prio[s[i]] >= prio[s[j]]
    {
      assert Shows(s[i], prio, value) && Shows(s[j], prio, value);
    }
    forall u | u in s
      ensures u in prio && s[0] in prio && prio[u] <= prio[s[0]]
    {
      var j :| 0 <= j < |s| && s[j] == u;
      assert Shows(s[j], prio, value) && Shows(s[0], prio, value);
    }
  }

  lemma FirstQueues(idle: Task)
    ensures QueuesOk(Table(map[Pending := TaskList([], 0)], map[]), map[idle := 0], map[idle := 0], map[idle := MAX_PRIORITIES], {})
  {
  }

  lemma QueuesLeft(ev: Events, prio: map<Task, nat>, base: map<Task, nat>, value: map<Task, Tick>, disturbed: set<nat>, t: Task)
    requires Consistent(ev) && t in ev.at && QueuesOk(ev, prio, base, value, disturbed)
    ensures QueuesOk(Leave(ev, t), prio, base, value, disturbed)
  {
    var p := ev.at[t];
    if p.Waiting? && p.list !in disturbed {
      LeaveKeepsSorted(ev, t, p, value);
      CutMembers(ev.on[p].items, Find(ev.on[p].items, t));
    }
  }

  lemma QueuesPended(ev: Events, prio: map<Task, nat>, base: map<Task, nat>, value: map<Task, Tick>, disturbed: set<nat>, t: Task)
    requires QueuesOk(ev, prio, base, value, disturbed) && Pending in ev.on && ev.on[Pending].pos <= |ev.on[Pending].items|
    ensures QueuesOk(JoinEnd(ev, t, Pending), prio, base, value, disturbed)
  {
  }

  /** Task t has joined a list: a sorted one at its place, and no other list has changed. */
  ghost predicate WaitJoined(ev0: Events, ev: Events, t: Task, list: nat, value: map<Task, Tick>) {
    && ev.at == ev0.at[t := Waiting(list)] && ev.on.Keys == ev0.on.Keys && Waiting(list) in ev0.on
    && (forall q :: q in ev.on && q != Waiting(list) ==> ev.on[q] == ev0.on[q])
    && (SortedBy(ev0.on[Waiting(list)].items, value) ==> SortedBy(ev.on[Waiting(list)].items, value))
  }

  /** The event item of a waiting task moves to the pending ready list. */
  lemma QueuesHeld(gen: Generic, ev: Events, prio: map<Task, nat>, top: nat, wake: map<Task, Tick>, base: map<Task, nat>, value: map<Task, Tick>, disturbed: set<nat>, t: Task)
    requires CoreOk(gen, ev, prio, top, wake) && t in ev.at && QueuesOk(ev, prio, base, value, disturbed)
    ensures ev.at[t] in ev.on && t in ev.on[ev.at[t]].items
    ensures var l := Leave(ev, t); Pending in l.on && l.on[Pending].pos <= |l.on[Pending].items|
    ensures QueuesOk(JoinEnd(Leave(ev, t), t, Pending), prio, base, value, disturbed)
  {
    hide QueuesOk, Leave, JoinEnd;
    PendOk(gen, ev, prio, top, wake, t);
    QueuesLeft(ev, prio, base, value, disturbed, t);
    QueuesPended(Leave(ev, t), prio, base, value, disturbed, t);
  }

  /** The running task waits on a list. */
  lemma QueuesWait(gen: Generic, ev: Events, prio: map<Task, nat>, top: nat, wake: map<Task, Tick>, base: map<Task, nat>, value: map<Task, Tick>, disturbed: set<nat>, t: Task, list: nat, idle: Task)
    requires CoreOk(gen, ev, prio, top, wake) && TcbsOk(gen.at, base, value, idle, t) && gen.at[t].Ready? && Waiting(list) in ev.on
    requires QueuesOk(ev, prio, base, value, disturbed)
    ensures t in value && forall u :: u in ev.on[Waiting(list)].items ==> u in value
    ensures QueuesOk(JoinBy(ev, t, Waiting(list), value), prio, base, value, if Shows(t, prio, value) then disturbed else disturbed + {list})
    ensures t in prio && t in base && (prio[t] == base[t] ==> Shows(t, prio, value))
  {
    hide JoinBy, DelaysSorted;
    WaitOk(gen, ev, prio, top, wake, t, list, base, value, idle);
    QueuesJoined(ev, prio, base, value, disturbed, t, list);
  }

  /** A task joins a list: out of order at most when its event item does not show its priority. */
  lemma QueuesJoined(ev: Events, prio: map<Task, nat>, base: map<Task, nat>, value: map<Task, Tick>, disturbed: set<nat>, t: Task, list: nat)
    requires Consistent(ev) && t !in ev.at && Waiting(list) in ev.on && t in value && forall u :: u in ev.on[Waiting(list)].items ==> u in value
    requires QueuesOk(ev, prio, base, value, disturbed)
    ensures QueuesOk(JoinBy(ev, t, Waiting(list), value), prio, base, value, if Shows(t, prio, value) then disturbed else disturbed + {list})
  {
    if Shows(t, prio, value) && list !in disturbed {
      JoinBySorted(ev, t, Waiting(list), value);
      var l := ev.on[Waiting(list)];
      PutMembers(l.items, Slot(ValuesBy(l.items, value), value[t]), t);
    }
  }

  lemma QueuesNew(ev: Events, prio: map<Task, nat>, base: map<Task, nat>, value: map<Task, Tick>, disturbed: set<nat>, list: nat)
    requires QueuesOk(ev, prio, base, value, disturbed)
    ensures QueuesOk(Table(ev.on[Waiting(list) := TaskList([], 0)], ev.at), prio, base, value, disturbed)
  {
  }

  /** The list that a task waits on. */
  function WaitsOn(ev: Events, t: Task): set<nat> {
    if t in ev.at && ev.at[t].Waiting? then {ev.at[t].list} else {}
  }

  lemma ReadyWaitsNot(gen: Generic, ev: Events, prio: map<Task, nat>, top: nat, wake: map<Task, Tick>, t: Task)
    requires CoreOk(gen, ev, prio, top, wake)
    ensures Consistent(ev) && (t in gen.at && gen.at[t].Ready? ==> WaitsOn(ev, t) == {})
  {
  }

  /** What a task's event item shows, or its priority, has changed in place. */
  lemma QueuesRewritten(ev: Events, prio: map<Task, nat>, base: map<Task, nat>, value: map<Task, Tick>, disturbed: set<nat>, t: Task, p: nat, b: nat, v: Tick)
    requires Consistent(ev) && QueuesOk(ev, prio, base, value, disturbed) && (v == EventValue(p) || v == EventValue(b))
    ensures QueuesOk(ev, prio[t := p], base[t := b], value[t := v], disturbed + WaitsOn(ev, t))
  {
    forall list | Waiting(list) in ev.on && list !in disturbed + WaitsOn(ev, t)
      ensures InOrder(ev.on[Waiting(list)].items, prio[t := p], value[t := v])
    {
      var s := ev.on[Waiting(list)].items;
      assert t !in s;
      assert forall u :: u in s ==> Shows(u, prio, value);
    }
  }

  /** One of the tasks ranks as high as the running one. */
  ghost predicate SomeRanks(s: set<Task>, prio: map<Task, nat>, current: Task) {
    exists t :: t in s && t in prio && current in prio && prio[t] >= prio[current]
  }

  lemma NoneRanks(prio: map<Task, nat>, current: Task)
    ensures !SomeRanks({}, prio, current)
  {
  }

  lemma OneMoreRanks(s: set<Task>, prio: map<Task, nat>, current: Task, t: Task)
    requires t in prio && current in prio
    ensures SomeRanks(s + {t}, prio, current) <==> SomeRanks(s, prio, current) || prio[t] >= prio[current]
  {
    if SomeRanks(s, prio, current) {
      var u :| u in s && u in prio && prio[u] >= prio[current];
      assert u in s + {t};
    }
    if prio[t] >= prio[current] {
      assert t in s + {t};
    }
  }
}
