/** When a sleeping task becomes ready, over any run of the scheduler: the tick interrupt, the suspension of the
    scheduler with its replay of ticks, and whatever else happens to the other tasks. */
module RtosWakeTime {
  import opened RtosList
  import opened RtosTables
  import opened RtosTheory

  /** What of the scheduler's state decides about waking: the lists, the priorities, the wake times, the ticks
      counted so far and those noted down meanwhile. */
  datatype Moment = Moment(gen: Generic, ev: Events, prio: map<Task, nat>, wakeAt: map<Task, nat>, now: nat, missed: nat)

  /** A tick that is counted when it is delivered. */
  ghost predicate TickStep(a: Moment, b: Moment) {
    && b.prio == a.prio && b.wakeAt == a.wakeAt && a.missed == b.missed == 0 && b.now == a.now + 1
    && Awoken(a.gen, a.ev, b.gen, b.ev, b.prio, DueBy(a.gen.at, b.wakeAt, b.now))
  }

  /** A tick that is noted down, the scheduler being suspended. */
  ghost predicate NotedStep(a: Moment, b: Moment) {
    b == a.(missed := a.missed + 1)
  }

  /** The end of a suspension. */
  ghost predicate ResumeStep(a: Moment, b: Moment) {
    && b.prio == a.prio && b.wakeAt == a.wakeAt && b.missed == 0 && b.now == a.now + a.missed
    && Awoken(a.gen, a.ev, b.gen, b.ev, b.prio, PendingTasks(a.ev) + DueBy(a.gen.at, b.wakeAt, b.now))
  }

  /** t is on a delay list, and its wake time lies ahead. */
  ghost predicate Asleep(m: Moment, t: Task) {
    t in m.gen.at && m.gen.at[t].Delay? && t in m.wakeAt && m.now < m.wakeAt[t]
  }

  /** Anything else, as long as it does not concern t while t sleeps. */
  ghost predicate OtherStep(a: Moment, b: Moment, t: Task) {
    && b.now == a.now && b.missed == a.missed
    && (Asleep(a, t) ==> Asleep(b, t) && b.gen.at[t] == a.gen.at[t] && b.wakeAt[t] == a.wakeAt[t])
  }

  /** A step that concerns at most the tasks of s. */
  ghost predicate Others(a: Moment, b: Moment, s: set<Task>) {
    forall t :: t !in s ==> OtherStep(a, b, t)
  }

  /** Only x has moved; if it was not asleep, nobody is concerned. */
  lemma OneMoved(a: Moment, b: Moment, x: Task)
    requires b.now == a.now && b.missed == a.missed
    requires b.wakeAt == a.wakeAt || (x in b.wakeAt && b.wakeAt == a.wakeAt[x := b.wakeAt[x]])
    requires b.gen.at == a.gen.at || b.gen.at == a.gen.at - {x} || (x in b.gen.at && b.gen.at == a.gen.at[x := b.gen.at[x]])
    ensures Others(a, b, {x})
    ensures (b.gen.at == a.gen.at && b.wakeAt == a.wakeAt) || x !in a.gen.at || !a.gen.at[x].Delay? ==> Others(a, b, {})
  {
  }

  lemma NobodyMoved(a: Moment, b: Moment)
    requires b.now == a.now && b.missed == a.missed && b.gen.at == a.gen.at && b.wakeAt == a.wakeAt
    ensures Others(a, b, {})
  {
  }

  /** An event has woken t, or holds it pending. */
  lemma OneAwoken(a: Moment, b: Moment, t: Task)
    requires b.now == a.now && b.missed == a.missed && b.wakeAt == a.wakeAt
    requires b.gen == a.gen || Awoken(a.gen, a.ev, b.gen, b.ev, b.prio, {t})
    ensures Others(a, b, {t})
  {
  }

  ghost predicate Step(a: Moment, b: Moment, t: Task) {
    || TickStep(a, b) || NotedStep(a, b) || OtherStep(a, b, t)
    || (ResumeStep(a, b) && t !in PendingTasks(a.ev))
  }

  ghost predicate IsRun(run: seq<Moment>, t: Task) {
    |run| > 0 && forall i {:trigger run[i]} :: 0 < i < |run| ==> Step(run[i - 1], run[i], t)
  }

  ghost predicate TickDelivered(a: Moment, b: Moment) {
    TickStep(a, b) || NotedStep(a, b)
  }

  /** How many ticks have been delivered during a run. */
  ghost function Ticks(run: seq<Moment>): nat
    requires |run| > 0
  {
    if |run| == 1 then 0
    else
      var k := |run| - 1;
      Ticks(run[..k]) + if TickDelivered(run[k - 1], run[k]) then 1 else 0
  }

  lemma RunPrefix(run: seq<Moment>, t: Task, k: nat)
    requires IsRun(run, t) && 0 < k <= |run|
    ensures IsRun(run[..k], t) && run[..k][0] == run[0] && run[..k][k - 1] == run[k - 1]
    ensures k < |run| ==> Step(run[k - 1], run[k], t)
  {
    hide Step;
    forall i | 0 < i < k
      ensures Step(run[..k][i - 1], run[..k][i], t)
    {
      assert run[..k][i] == run[i];
    }
    if k < |run| {
      assert Step(run[k - 1], run[k], t);
    }
  }

  /** One step: no tick is lost, time does not go back, and t wakes when its time is reached and not before. */
  lemma OneStep(a: Moment, b: Moment, t: Task)
    requires Step(a, b, t)
    ensures b.now + b.missed == a.now + a.missed + (if TickDelivered(a, b) then 1 else 0) && a.now <= b.now
    ensures Asleep(a, t) && b.now < a.wakeAt[t] ==> Asleep(b, t) && b.gen.at[t] == a.gen.at[t] && b.wakeAt[t] == a.wakeAt[t]
    ensures Asleep(a, t) && b.now >= a.wakeAt[t] ==> t in b.prio && t in b.gen.at && b.gen.at[t] == Ready(b.prio[t]) && b.missed == 0
    ensures Asleep(a, t) && b.now >= a.wakeAt[t] && a.missed == 0 ==> b.now == a.wakeAt[t]
  {
  }

  /** No tick is lost: those delivered have been counted, or noted down to be counted. */
  lemma {:induction false} NoTickIsLost(run: seq<Moment>, t: Task)
    requires IsRun(run, t)
    ensures run[|run| - 1].now + run[|run| - 1].missed == run[0].now + run[0].missed + Ticks(run)
    ensures run[0].now <= run[|run| - 1].now
    decreases |run|
  {
    hide Step, TickDelivered;
    if |run| > 1 {
      var k := |run| - 1;
      RunPrefix(run, t, k);
      NoTickIsLost(run[..k], t);
      OneStep(run[k - 1], run[k], t);
    }
  }

  /** Until its wake time is reached a task sleeps. */
  lemma {:induction false} SleepsUntil(run: seq<Moment>, t: Task)
    requires IsRun(run, t) && Asleep(run[0], t) && run[|run| - 1].now < run[0].wakeAt[t]
    ensures Asleep(run[|run| - 1], t)
    ensures run[|run| - 1].gen.at[t] == run[0].gen.at[t] && run[|run| - 1].wakeAt[t] == run[0].wakeAt[t]
    decreases |run|
  {
    hide Step, TickDelivered;
    if |run| > 1 {
      var k := |run| - 1;
      RunPrefix(run, t, k);
      OneStep(run[k - 1], run[k], t);
      SleepsUntil(run[..k], t);
    }
  }

  /** The first moment of a run at which a wake time has been reached. */
  lemma {:induction false} FirstReached(run: seq<Moment>, w: nat) returns (i: nat)
    requires |run| > 0 && run[0].now < w <= run[|run| - 1].now
    ensures 0 < i < |run| && run[i - 1].now < w <= run[i].now
    decreases |run|
  {
    i := |run| - 1;
    if run[i - 1].now >= w {
      i := FirstReached(run[..i], w);
    }
  }

  /** A task that sleeps for n ticks, and that no event wakes, sleeps while fewer have been delivered, those
      included that were noted down when it went to sleep. */
  lemma NotBefore(run: seq<Moment>, t: Task, n: nat)
    requires IsRun(run, t) && Asleep(run[0], t) && run[0].wakeAt[t] == run[0].now + n
    requires run[0].missed + Ticks(run) < n
    ensures Asleep(run[|run| - 1], t)
  {
    NoTickIsLost(run, t);
    SleepsUntil(run, t);
  }

  /** Once n have been delivered and none of them is only noted down, it has become ready: by the n-th of them,
      or, when that came while the scheduler was suspended, at the end of the suspension. */
  lemma ReadiedByNthTick(run: seq<Moment>, t: Task, n: nat) returns (i: nat)
    requires IsRun(run, t) && Asleep(run[0], t) && run[0].wakeAt[t] == run[0].now + n
    requires run[0].missed + Ticks(run) >= n && run[|run| - 1].missed == 0
    ensures 0 < i < |run| && Asleep(run[i - 1], t)
    ensures t in run[i].gen.at && t in run[i].prio && run[i].gen.at[t] == Ready(run[i].prio[t])
    ensures if run[i - 1].missed == 0 then run[0].missed + Ticks(run[..i + 1]) == n
            else run[0].missed + Ticks(run[..i]) >= n && ResumeStep(run[i - 1], run[i])
  {
    hide Step, TickDelivered;
    NoTickIsLost(run, t);
    i := FirstReached(run, run[0].wakeAt[t]);
    RunPrefix(run, t, i);
    RunPrefix(run, t, i + 1);
    SleepsUntil(run[..i], t);
    NoTickIsLost(run[..i], t);
    NoTickIsLost(run[..i + 1], t);
    OneStep(run[i - 1], run[i], t);
    WokenByResume(run[i - 1], run[i], t);
  }

  lemma WokenByResume(a: Moment, b: Moment, t: Task)
    requires Step(a, b, t) && Asleep(a, t) && b.now >= a.wakeAt[t]
    ensures a.missed > 0 ==> ResumeStep(a, b) && a.now + a.missed == b.now
  {
  }
}
