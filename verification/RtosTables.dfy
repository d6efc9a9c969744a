/** The lists of the scheduler as values: which list each task's item is on, and in what order. An item
    records its list, as pvContainer does. */
module RtosTables {
  import opened RtosList

  type Task = nat

  /** A list with its index, which stands on item pos - 1, or on the end marker for 0. */
  datatype TaskList = TaskList(items: seq<Task>, pos: nat)

  /** Named lists, and for every item that is on one the name of that list. */
  datatype Table<P> = Table(on: map<P, TaskList>, at: map<Task, P>)

  ghost predicate NoRepeat(s: seq<Task>) {
    forall i, j :: 0 <= i < j < |s| ==> s[i] != s[j]
  }

  ghost predicate ListOk(l: TaskList) {
    NoRepeat(l.items) && l.pos <= |l.items|
  }

  /** Every item is on exactly the list it records. */
  ghost predicate Consistent<P(!new)>(x: Table<P>) {
    && (forall p :: p in x.on ==> ListOk(x.on[p]))
    && (forall t :: t in x.at ==> x.at[t] in x.on && t in x.on[x.at[t]].items)
    && (forall p, t :: p in x.on && t in x.on[p].items ==> t in x.at && x.at[t] == p)
  }

  /** Where t is in a list without repetitions. */
  function Find(s: seq<Task>, t: Task): (k: nat)
    requires t in s
    ensures k < |s| && s[k] == t
  {
    if s[0] == t then 0 else 1 + Find(s[1..], t)
  }

  /** vListRemove */
  function Take(l: TaskList, t: Task): TaskList
    requires t in l.items
  {
    var k := Find(l.items, t);
    TaskList(Cut(l.items, k), if l.pos > k then l.pos - 1 else l.pos)
  }

  /** vListInsertEnd */
  function Append(l: TaskList, t: Task): TaskList
    requires l.pos <= |l.items|
  {
    TaskList(Put(l.items, l.pos, t), l.pos + 1)
  }

  function ValuesBy(s: seq<Task>, value: map<Task, Tick>): (v: seq<Tick>)
    requires forall t :: t in s ==> t in value
    ensures |v| == |s|
  {
    seq(|s|, i requires 0 <= i < |s| => value[s[i]])
  }

  /** vListInsert */
  function PutBy(l: TaskList, t: Task, value: map<Task, Tick>): TaskList
    requires t in value && forall u :: u in l.items ==> u in value
  {
    var s := Slot(ValuesBy(l.items, value), value[t]);
    TaskList(Put(l.items, s, t), if l.pos > s then l.pos + 1 else l.pos)
  }

  ghost predicate SortedBy(s: seq<Task>, value: map<Task, Tick>) {
    && (forall t :: t in s ==> t in value)
    && forall i, j :: 0 <= i < j < |s| ==> value[s[i]] <= value[s[j]]
  }

  /** A list that is sorted by the values of its items stays so when the value of item i is rewritten in place if
      and only if the new one fits in between those of its neighbours. */
  lemma RewrittenInPlace(s: seq<Task>, value: map<Task, Tick>, i: nat, v: Tick)
    requires SortedBy(s, value) && NoRepeat(s) && i < |s|
    ensures SortedBy(s, value[s[i] := v]) <==> (i > 0 ==> value[s[i - 1]] <= v) && (i + 1 < |s| ==> v <= value[s[i + 1]])
  {
    var w := value[s[i] := v];
    if (i > 0 ==> value[s[i - 1]] <= v) && (i + 1 < |s| ==> v <= value[s[i + 1]]) {
      forall j, k | 0 <= j < k < |s|
        ensures w[s[j]] <= w[s[k]]
      {
        assert j < i - 1 ==> value[s[j]] <= value[s[i - 1]];
        assert k > i + 1 ==> value[s[i + 1]] <= value[s[k]];
      }
    } else {
      assert i > 0 ==> w[s[i - 1]] == value[s[i - 1]];
      assert i + 1 < |s| ==> w[s[i + 1]] == value[s[i + 1]];
    }
  }

  /** Two waiting tasks of priorities 2 and 1: when the second one rises to 3 it stays behind the first. */
  lemma RewrittenOutOfPlace()
    ensures SortedBy([1, 2], map[1 := 3, 2 := 4]) && !SortedBy([1, 2], map[1 := 3, 2 := 4][2 := 2])
  {
    RewrittenInPlace([1, 2], map[1 := 3, 2 := 4], 1, 2);
  }

  lemma PutMembers(s: seq<Task>, p: nat, t: Task)
    requires p <= |s| && NoRepeat(s) && t !in s
    ensures NoRepeat(Put(s, p, t))
    ensures forall u :: u in Put(s, p, t) <==> u == t || u in s
  {
    var r := Put(s, p, t);
    forall u | u in s
      ensures u in r
    {
      var i :| 0 <= i < |s| && s[i] == u;
      assert r[if i < p then i else i + 1] == u;
    }
    assert r[p] == t;
  }

  lemma CutMembers(s: seq<Task>, p: nat)
    requires p < |s| && NoRepeat(s)
    ensures NoRepeat(Cut(s, p))
    ensures forall u :: u in Cut(s, p) <==> u in s && u != s[p]
  {
    var r := Cut(s, p);
    forall u | u in s && u != s[p]
      ensures u in r
    {
      var i :| 0 <= i < |s| && s[i] == u;
      assert r[if i < p then i else i - 1] == u;
    }
  }

  /** s without t. */
  function Omit(s: seq<Task>, t: Task): seq<Task> {
    if t in s then Cut(s, Find(s, t)) else s
  }

  lemma OmitMembers(s: seq<Task>, t: Task)
    requires NoRepeat(s)
    ensures NoRepeat(Omit(s, t)) && forall u :: u in Omit(s, t) <==> u in s && u != t
  {
    if t in s {
      CutMembers(s, Find(s, t));
    }
  }

  lemma PutBySorted(l: TaskList, t: Task, value: map<Task, Tick>)
    requires SortedBy(l.items, value) && t in value
    ensures SortedBy(PutBy(l, t, value).items, value)
  {
    hide Put, Slot;
    var v := ValuesBy(l.items, value);
    var s := Slot(v, value[t]);
    InsertIsStable(v, value[t]);
    var r := PutBy(l, t, value).items;
    forall i | 0 <= i < |r|
      ensures r[i] in value && value[r[i]] == Put(v, s, value[t])[i]
    {
      assert i < s ==> l.items[i] in value;
      assert i > s ==> l.items[i - 1] in value;
    }
    assert forall u :: u in r ==> u in value;
  }

  // ---------- the operations on a table ----------

  function Leave<P>(x: Table<P>, t: Task): Table<P>
    requires t in x.at && x.at[t] in x.on && t in x.on[x.at[t]].items
  {
    Table(x.on[x.at[t] := Take(x.on[x.at[t]], t)], x.at - {t})
  }

  function JoinEnd<P>(x: Table<P>, t: Task, p: P): Table<P>
    requires p in x.on && x.on[p].pos <= |x.on[p].items|
  {
    Table(x.on[p := Append(x.on[p], t)], x.at[t := p])
  }

  function JoinBy<P>(x: Table<P>, t: Task, p: P, value: map<Task, Tick>): Table<P>
    requires p in x.on && t in value && forall u :: u in x.on[p].items ==> u in value
  {
    Table(x.on[p := PutBy(x.on[p], t, value)], x.at[t := p])
  }

  lemma LeaveOk<P(!new)>(x: Table<P>, t: Task)
    requires Consistent(x) && t in x.at
    ensures Consistent(Leave(x, t)) && Leave(x, t).on.Keys == x.on.Keys
    ensures |Leave(x, t).on[x.at[t]].items| == |x.on[x.at[t]].items| - 1
  {
    CutMembers(x.on[x.at[t]].items, Find(x.on[x.at[t]].items, t));
  }

  /** Putting an item of no list anywhere on a list. */
  lemma JoinedOk<P(!new)>(x: Table<P>, t: Task, p: P, l: TaskList, k: nat)
    requires Consistent(x) && t !in x.at && p in x.on && k <= |x.on[p].items|
    requires l.items == Put(x.on[p].items, k, t) && l.pos <= |l.items|
    ensures Consistent(Table(x.on[p := l], x.at[t := p]))
  {
    hide Put;
    PutMembers(x.on[p].items, k, t);
  }

  lemma JoinEndOk<P(!new)>(x: Table<P>, t: Task, p: P)
    requires Consistent(x) && t !in x.at && p in x.on
    ensures Consistent(JoinEnd(x, t, p)) && |JoinEnd(x, t, p).on[p].items| == |x.on[p].items| + 1
  {
    hide Put, NoRepeat;
    JoinedOk(x, t, p, Append(x.on[p], t), x.on[p].pos);
  }

  lemma JoinByOk<P(!new)>(x: Table<P>, t: Task, p: P, value: map<Task, Tick>)
    requires Consistent(x) && t !in x.at && p in x.on && t in value
    requires forall u :: u in x.on[p].items ==> u in value
    ensures Consistent(JoinBy(x, t, p, value)) && |JoinBy(x, t, p, value).on[p].items| == |x.on[p].items| + 1
  {
    hide Put, NoRepeat, Slot, ValuesBy;
    JoinedOk(x, t, p, PutBy(x.on[p], t, value), Slot(ValuesBy(x.on[p].items, value), value[t]));
  }

  lemma LeaveKeepsSorted<P(!new)>(x: Table<P>, t: Task, p: P, value: map<Task, Tick>)
    requires Consistent(x) && t in x.at && p in x.on && SortedBy(x.on[p].items, value)
    ensures SortedBy(Leave(x, t).on[p].items, value)
  {
  }

  // ---------- counting ----------

  function SumLengths<P>(on: map<P, TaskList>, places: seq<P>): nat
    requires forall p :: p in places ==> p in on
  {
    if places == [] then 0 else |on[places[0]].items| + SumLengths(on, places[1..])
  }

  ghost function TasksOn<P>(x: Table<P>, places: seq<P>): set<Task> {
    set t | t in x.at && x.at[t] in places
  }

  ghost function Members(s: seq<Task>): set<Task> {
    set t | t in s
  }

  lemma {:induction false} DistinctCount(s: seq<Task>)
    requires NoRepeat(s)
    ensures |Members(s)| == |s|
  {
    if s == [] {
      assert Members(s) == {};
    } else {
      DistinctCount(s[1..]);
      assert s[0] !in s[1..];
      assert Members(s) == {s[0]} + Members(s[1..]);
    }
  }

  lemma SplitTasks<P(!new)>(x: Table<P>, places: seq<P>)
    requires Consistent(x) && (forall p :: p in places ==> p in x.on)
    requires places != [] && places[0] !in places[1..]
    ensures TasksOn(x, places) == Members(x.on[places[0]].items) + TasksOn(x, places[1..])
    ensures Members(x.on[places[0]].items) !! TasksOn(x, places[1..])
  {
    assert places == [places[0]] + places[1..];
  }

  /** The lengths of some lists add up to the number of items that are on one of them. */
  lemma {:induction false} CountByList<P(!new)>(x: Table<P>, places: seq<P>)
    requires Consistent(x) && (forall p :: p in places ==> p in x.on)
    requires forall i, j :: 0 <= i < j < |places| ==> places[i] != places[j]
    ensures |TasksOn(x, places)| == SumLengths(x.on, places)
  {
    if places == [] {
      assert TasksOn(x, places) == {};
    } else {
      CountByList(x, places[1..]);
      DistinctCount(x.on[places[0]].items);
      SplitTasks(x, places);
    }
  }

  // ---------- these lists are the linked ones ----------

  /** The owners of items, in order. */
  ghost function OwnersOf(r: seq<ListItem>): (o: seq<Task>)
    reads r`owner
    ensures |o| == |r|
  {
    if r == [] then [] else [r[0].owner] + OwnersOf(r[1..])
  }

  lemma {:induction false} OwnerAt(r: seq<ListItem>, k: nat)
    requires k < |r|
    ensures OwnersOf(r)[k] == r[k].owner
  {
    if k > 0 {
      OwnerAt(r[1..], k - 1);
    }
  }

  /** The list that a ring, with its end marker first, and the position of its index stand for. */
  ghost function ListOf(ring: seq<ListItem>, pos: nat): TaskList
    requires |ring| > 0
    reads ring`owner
  {
    TaskList(OwnersOf(ring[1..]), pos)
  }

  lemma OwnersPut(ring: seq<ListItem>, p: nat, item: ListItem)
    requires p < |ring|
    ensures OwnersOf(Put(ring, p + 1, item)[1..]) == Put(OwnersOf(ring[1..]), p, item.owner)
  {
    var r, s := ring[1..], Put(ring, p + 1, item)[1..];
    forall k | 0 <= k < |s|
      ensures OwnersOf(s)[k] == Put(OwnersOf(r), p, item.owner)[k]
    {
      OwnerAt(s, k);
      if k != p {
        OwnerAt(r, if k < p then k else k - 1);
      }
    }
  }

  /** List.InsertEnd on the ring is Append. */
  lemma InsertEndIsAppend(ring: seq<ListItem>, pos: nat, item: ListItem)
    requires pos < |ring|
    ensures ListOf(Put(ring, pos + 1, item), pos + 1) == Append(ListOf(ring, pos), item.owner)
  {
    OwnersPut(ring, pos, item);
  }

  /** List.Insert on the ring is PutBy, for the values that the items hold. */
  lemma InsertIsPutBy(ring: seq<ListItem>, pos: nat, item: ListItem, value: map<Task, Tick>)
    requires pos < |ring| && item.owner in value && value[item.owner] == item.value
    requires forall k {:trigger ring[k]} :: 1 <= k < |ring| ==> ring[k].owner in value && value[ring[k].owner] == ring[k].value
    ensures forall t :: t in OwnersOf(ring[1..]) ==> t in value
    ensures var s := Slot(ValuesOf(ring[1..]), item.value);
            ListOf(Put(ring, s + 1, item), if pos > s then pos + 1 else pos) == PutBy(ListOf(ring, pos), item.owner, value)
  {
    var r := ring[1..];
    forall k | 0 <= k < |r|
      ensures OwnersOf(r)[k] in value && value[OwnersOf(r)[k]] == ValuesOf(r)[k]
    {
      OwnerAt(r, k);
      ValueAt(r, k);
      assert r[k] == ring[k + 1];
    }
    assert ValuesBy(OwnersOf(r), value) == ValuesOf(r);
    OwnersPut(ring, Slot(ValuesOf(r), item.value), item);
  }

  /** List.Remove on the ring is Take. */
  lemma RemoveIsTake(ring: seq<ListItem>, pos: nat, k: nat)
    requires pos < |ring| && 1 <= k < |ring| && NoRepeat(OwnersOf(ring[1..]))
    ensures ring[k].owner in OwnersOf(ring[1..])
    ensures ListOf(Cut(ring, k), if pos >= k then pos - 1 else pos) == Take(ListOf(ring, pos), ring[k].owner)
  {
    var r, s := ring[1..], Cut(ring, k)[1..];
    OwnerAt(r, k - 1);
    assert Find(OwnersOf(r), ring[k].owner) == k - 1;
    forall j | 0 <= j < |s|
      ensures OwnersOf(s)[j] == Cut(OwnersOf(r), k - 1)[j]
    {
      OwnerAt(s, j);
      OwnerAt(r, if j < k - 1 then j else j + 1);
    }
    assert OwnersOf(s) == Cut(OwnersOf(r), k - 1);
  }

  /** List.NextOwner returns the owner that the moved index stands on. */
  lemma NextOwnerIsAt(ring: seq<ListItem>, pos: nat)
    requires 0 < pos < |ring|
    ensures ListOf(ring, pos).items[pos - 1] == ring[pos].owner
  {
    OwnerAt(ring[1..], pos - 1);
  }
}
