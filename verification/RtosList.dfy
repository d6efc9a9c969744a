/** The intrusive circular lists of FreeRTOS: pointer operations on linked items, refined to
    operations on a sequence of items and a position in it. */
module RtosList {

  const WRAP: nat := 0x1_0000_0000

  type Tick = x: int | 0 <= x < WRAP

  const MAX_DELAY: Tick := 0xFFFF_FFFF

  class ListItem {
    var value: Tick
    var owner: nat
    var next: ListItem?
    var prev: ListItem?
    var container: List?

    /** vListInitialiseItem, for a new item. */
    constructor (value: Tick, owner: nat)
      ensures this.value == value && this.owner == owner && container == null
    {
      this.value, this.owner, next, prev, container := value, owner, null, null, null;
    }
  }

  function After(k: nat, n: nat): nat {
    if k + 1 == n then 0 else k + 1
  }

  function Before(k: nat, n: nat): nat
    requires n > 0
  {
    if k == 0 then n - 1 else k - 1
  }

  ghost predicate AllDistinct(s: seq<ListItem>) {
    forall i, j :: 0 <= i < j < |s| ==> s[i] != s[j]
  }

  /** r with x put in at position p. */
  function Put<T>(r: seq<T>, p: nat, x: T): (s: seq<T>)
    requires p <= |r|
    ensures |s| == |r| + 1
    ensures forall k {:trigger s[k]} :: 0 <= k < |s| ==> s[k] == if k < p then r[k] else if k == p then x else r[k - 1]
  {
    r[..p] + [x] + r[p..]
  }

  ghost predicate LinkedRing(r: seq<ListItem>)
    requires |r| > 0
    reads r`next, r`prev
  {
    && (forall k {:trigger r[k].next} :: 0 <= k < |r| ==> r[k].next == r[After(k, |r|)])
    && (forall k {:trigger r[k].prev} :: 0 <= k < |r| ==> r[k].prev == r[Before(k, |r|)])
  }

  /** The ring stays linked when item goes between the nodes at p - 1 and after it. */
  lemma JoinedNext(r: seq<ListItem>, p: nat, item: ListItem)
    requires 1 <= p <= |r| && r[p - 1].next == item && item.next == r[After(p - 1, |r|)]
    requires forall k {:trigger r[k].next} :: 0 <= k < |r| && k != p - 1 ==> r[k].next == r[After(k, |r|)]
    ensures forall k {:trigger Put(r, p, item)[k].next} :: 0 <= k <= |r| ==> Put(r, p, item)[k].next == Put(r, p, item)[After(k, |r| + 1)]
  {
    var s := Put(r, p, item);
    forall k | 0 <= k <= |r|
      ensures s[k].next == s[After(k, |s|)]
    {
      if k < p - 1 {
        assert s[k] == r[k] && s[k + 1] == r[k + 1];
      } else if k > p {
        assert s[k] == r[k - 1] && s[After(k, |s|)] == r[After(k - 1, |r|)];
      } else if k == p {
        assert s[After(p, |s|)] == r[After(p - 1, |r|)];
      }
    }
  }

  lemma JoinedPrev(r: seq<ListItem>, p: nat, item: ListItem)
    requires 1 <= p <= |r| && item.prev == r[p - 1] && r[After(p - 1, |r|)].prev == item
    requires forall k {:trigger r[k].prev} :: 0 <= k < |r| && k != After(p - 1, |r|) ==> r[k].prev == r[Before(k, |r|)]
    ensures forall k {:trigger Put(r, p, item)[k].prev} :: 0 <= k <= |r| ==> Put(r, p, item)[k].prev == Put(r, p, item)[Before(k, |r| + 1)]
  {
    var s := Put(r, p, item);
    forall k | 0 <= k <= |r|
      ensures s[k].prev == s[Before(k, |s|)]
    {
      if k < p {
        assert s[k] == r[k] && (k > 0 ==> s[k - 1] == r[k - 1]) && s[|r|] == if p == |r| then item else r[|r| - 1];
      } else if k > p {
        assert s[k] == r[k - 1] && s[k - 1] == if k - 1 == p then item else r[k - 2];
      } else {
        assert s[k - 1] == r[p - 1];
      }
    }
  }

  /** The ring stays linked when the nodes before and after position p are joined. */
  lemma PartedNext(r: seq<ListItem>, p: nat)
    requires 1 <= p < |r| && r[p - 1].next == r[After(p, |r|)]
    requires forall k {:trigger r[k].next} :: 0 <= k < |r| && k != p - 1 ==> r[k].next == r[After(k, |r|)]
    ensures forall k {:trigger Cut(r, p)[k].next} :: 0 <= k < |r| - 1 ==> Cut(r, p)[k].next == Cut(r, p)[After(k, |r| - 1)]
  {
    var s := Cut(r, p);
    forall k | 0 <= k < |s|
      ensures s[k].next == s[After(k, |s|)]
    {
      var j := if k < p then k else k + 1;
      assert s[k] == r[j];
    }
  }

  lemma PartedPrev(r: seq<ListItem>, p: nat)
    requires 1 <= p < |r| && r[After(p, |r|)].prev == r[p - 1]
    requires forall k {:trigger r[k].prev} :: 0 <= k < |r| && k != After(p, |r|) ==> r[k].prev == r[Before(k, |r|)]
    ensures forall k {:trigger Cut(r, p)[k].prev} :: 0 <= k < |r| - 1 ==> Cut(r, p)[k].prev == Cut(r, p)[Before(k, |r| - 1)]
  {
    var s := Cut(r, p);
    forall k | 0 <= k < |s|
      ensures s[k].prev == s[Before(k, |s|)]
    {
      var j := if k < p then k else k + 1;
      assert s[k] == r[j];
    }
  }

  lemma StillDistinct(r: seq<ListItem>, p: nat, item: ListItem)
    requires AllDistinct(r) && item !in r && p <= |r|
    ensures AllDistinct(Put(r, p, item))
  {
  }

  ghost function ValuesOf(r: seq<ListItem>): (v: seq<Tick>)
    reads r`value
    ensures |v| == |r|
  {
    if r == [] then [] else [r[0].value] + ValuesOf(r[1..])
  }

  lemma {:induction false} ValueAt(r: seq<ListItem>, k: nat)
    requires k < |r|
    ensures ValuesOf(r)[k] == r[k].value
  {
    if k > 0 {
      ValueAt(r[1..], k - 1);
    }
  }

  lemma CutDistinct(r: seq<ListItem>, k: nat)
    requires AllDistinct(r) && k < |r|
    ensures AllDistinct(Cut(r, k))
  {
  }

  lemma OnlyOne(r: seq<ListItem>, q: nat)
    requires AllDistinct(r) && q < |r|
    ensures forall k {:trigger r[k]} :: 0 <= k < |r| && k != q ==> r[k] != r[q]
  {
  }

  class List {
    const end: ListItem
    var index: ListItem
    var count: nat

    ghost var ring: seq<ListItem>   // the end marker, then the items in order
    ghost var pos: nat              // where index is in the ring

    ghost predicate Valid()
      reads this, ring
    {
      && |ring| == count + 1 && ring[0] == end && AllDistinct(ring)
      && pos < |ring| && ring[pos] == index
      && end.value == MAX_DELAY
      && Linked() && Contained()
    }

    /** next and prev follow the ring, and are inverse to each other. */
    ghost predicate Linked()
      requires |ring| > 0
      reads this`ring, ring
    {
      LinkedRing(ring)
    }

    ghost predicate Contained()
      reads this, ring
    {
      forall k {:trigger ring[k].container} :: 1 <= k < |ring| ==> ring[k].container == this
    }

    /** The items, from the first to the last. */
    ghost function Items(): seq<ListItem>
      requires |ring| > 0
      reads this`ring
    {
      ring[1..]
    }

    /** vListInitialise */
    constructor ()
      ensures Valid() && fresh(end) && Items() == [] && pos == 0
    {
      end := new ListItem(MAX_DELAY, 0);
      index := end;
      count := 0;
      ring, pos := [end], 0;
      new;
      end.next := end;
      end.prev := end;
    }

    /** The pointer updates that both insertions make: item goes behind the node at position q. */
    method LinkAfter(node: ListItem, item: ListItem, ghost q: nat)
      requires q < |ring| && ring[q] == node && item !in ring && LinkedRing(ring) && AllDistinct(ring)
      modifies item`next, item`prev, ring`next, ring`prev
      ensures LinkedRing(Put(ring, q + 1, item)) && AllDistinct(Put(ring, q + 1, item))
    {
      hide AllDistinct;
      OnlyOne(ring, q);
      OnlyOne(ring, After(q, |ring|));
      item.next := node.next;
      item.next.prev := item;
      item.prev := node;
      node.next := item;
      JoinedNext(ring, q + 1, item);
      JoinedPrev(ring, q + 1, item);
      StillDistinct(ring, q + 1, item);
    }

    /** vListInsertEnd: the item follows the index, which then stands on it. */
    method InsertEnd(item: ListItem)
      requires Valid() && item !in ring
      modifies this`index, this`count, this`ring, this`pos, item`next, item`prev, item`container, ring`next, ring`prev
      ensures Valid() && item.container == this
      ensures ring == Put(old(ring), old(pos) + 1, item) && pos == old(pos) + 1
    {
      hide LinkedRing, AllDistinct;
      LinkAfter(index, item, pos);
      index := item;
      item.container := this;
      count := count + 1;
      ring, pos := Put(ring, pos + 1, item), pos + 1;
    }

    /** The values of the items, in order. */
    ghost function Values(): (v: seq<Tick>)
      requires |ring| > 0
      reads this`ring, ring`value
    {
      ValuesOf(ring[1..])
    }

    /** vListInsert: the item goes behind every item before the first one with a larger value. */
    method Insert(item: ListItem)
      requires Valid() && item !in ring
      modifies this`count, this`ring, this`pos, item`next, item`prev, item`container, ring`next, ring`prev
      ensures Valid() && item.container == this
      ensures ring == Put(old(ring), Slot(old(Values()), item.value) + 1, item)
      ensures pos == if old(pos) > Slot(old(Values()), item.value) then old(pos) + 1 else old(pos)
    {
      hide LinkedRing, AllDistinct, ValuesOf, Slot;
      var it, q := InsertionPoint(item.value);
      LinkAfter(it, item, q);
      item.container := this;
      count := count + 1;
      ring, pos := Put(ring, q + 1, item), if pos > q then pos + 1 else pos;
    }

    /** The search of vListInsert: the node behind which the item goes. The end marker stops the loop. */
    method InsertionPoint(value: Tick) returns (it: ListItem, ghost q: nat)
      requires Valid()
      ensures q < |ring| && it == ring[q] && q == Slot(Values(), value)
    {
      if value == MAX_DELAY {
        it := end.prev;
        q := |ring| - 1;
      } else {
        it, q := end, 0;
        while it.next.value <= value
          invariant q < |ring| && it == ring[q]
          invariant forall k {:trigger ring[k].value} :: 1 <= k <= q ==> ring[k].value <= value
          decreases |ring| - q
        {
          it := it.next;
          q := q + 1;
        }
      }
      forall k | 0 <= k < |ring| - 1
        ensures Values()[k] == ring[k + 1].value
      {
        ValueAt(ring[1..], k);
      }
      SlotIs(Values(), value, q);
    }

    /** The pointer updates of vListRemove. */
    method Unlink(item: ListItem, ghost k: nat)
      requires 1 <= k < |ring| && ring[k] == item && LinkedRing(ring) && AllDistinct(ring)
      modifies ring`next, ring`prev
      ensures LinkedRing(Cut(ring, k)) && AllDistinct(Cut(ring, k))
      ensures item.prev == ring[k - 1] && forall j {:trigger ring[j]} :: 0 <= j < |ring| && j != k ==> ring[j] != item
    {
      hide AllDistinct;
      OnlyOne(ring, k);
      OnlyOne(ring, k - 1);
      OnlyOne(ring, After(k, |ring|));
      item.next.prev := item.prev;
      item.prev.next := item.next;
      PartedNext(ring, k);
      PartedPrev(ring, k);
      CutDistinct(ring, k);
    }

    /** vListRemove, for the item at position k of its list. */
    static method Remove(item: ListItem, ghost k: nat)
      requires item.container != null && item.container.Valid() && 1 <= k < |item.container.ring| && item.container.ring[k] == item
      modifies item.container`index, item.container`count, item.container`ring, item.container`pos
      modifies item`container, item.container.ring`next, item.container.ring`prev
      ensures item.container == null && old(item.container).Valid()
      ensures old(item.container).ring == Cut(old(item.container.ring), k)
      ensures old(item.container).pos == if old(item.container.pos) >= k then old(item.container.pos) - 1 else old(item.container.pos)
    {
      hide LinkedRing, AllDistinct;
      var list := item.container;
      list.Unlink(item, k);
      if list.index == item {
        list.index := item.prev;
      }
      item.container := null;
      list.count := list.count - 1;
      list.ring, list.pos := Cut(list.ring, k), if list.pos >= k then list.pos - 1 else list.pos;
    }

    /** listGET_OWNER_OF_NEXT_ENTRY: advances the index, over the end marker, and returns the owner there. */
    method NextOwner() returns (owner: nat)
      requires Valid() && count > 0
      modifies this`index, this`pos
      ensures Valid() && pos == NextPos(|ring| - 1, old(pos)) && owner == ring[pos].owner
    {
      index := index.next;
      pos := After(pos, |ring|);
      if index == end {
        index := index.next;
        pos := 1;
      }
      owner := index.owner;
    }
  }

  /** r without the element at position p. */
  function Cut<T>(r: seq<T>, p: nat): (s: seq<T>)
    requires p < |r|
    ensures |s| == |r| - 1
    ensures forall k {:trigger s[k]} :: 0 <= k < |s| ==> s[k] == if k < p then r[k] else r[k + 1]
  {
    r[..p] + r[p + 1..]
  }

  // ---------- what the operations mean for the sequence of items ----------

  /** The place of a new value: behind everything that precedes the first larger one. */
  function Slot(vals: seq<Tick>, v: Tick): (s: nat)
    ensures s <= |vals|
  {
    if vals == [] || vals[0] > v then 0 else 1 + Slot(vals[1..], v)
  }

  lemma {:induction false} SlotIs(vals: seq<Tick>, v: Tick, s: nat)
    requires s <= |vals| && (forall k :: 0 <= k < s ==> vals[k] <= v) && (s < |vals| ==> vals[s] > v)
    ensures s == Slot(vals, v)
  {
    if s > 0 {
      SlotIs(vals[1..], v, s - 1);
    }
  }

  lemma {:induction false} SlotSplits(vals: seq<Tick>, v: Tick)
    ensures forall k :: 0 <= k < Slot(vals, v) ==> vals[k] <= v
    ensures Slot(vals, v) < |vals| ==> vals[Slot(vals, v)] > v
  {
    if vals != [] && vals[0] <= v {
      SlotSplits(vals[1..], v);
      forall k | 0 <= k < Slot(vals, v)
        ensures vals[k] <= v
      {
        assert k > 0 ==> vals[k] == vals[1..][k - 1];
      }
    }
  }

  ghost predicate Sorted(vals: seq<Tick>) {
    forall i, j :: 0 <= i < j < |vals| ==> vals[i] <= vals[j]
  }

  /** vListInsert keeps a list sorted and puts a new item behind all items of the same value. */
  lemma InsertIsStable(vals: seq<Tick>, v: Tick)
    requires Sorted(vals)
    ensures Sorted(Put(vals, Slot(vals, v), v))
    ensures forall k :: 0 <= k < |vals| ==> (vals[k] <= v <==> k < Slot(vals, v))
  {
    SlotSplits(vals, v);
  }

  /** An item with the value of the end marker goes last. */
  lemma MaxGoesLast(vals: seq<Tick>)
    ensures Slot(vals, MAX_DELAY) == |vals|
  {
    SlotSplits(vals, MAX_DELAY);
  }

  /** Where the index of a list of n items stands after one next-entry step; position 0 is the end marker. */
  function NextPos(n: nat, p: nat): nat {
    if p >= n then 1 else p + 1
  }

  /** The items that k next-entry steps visit. */
  function Visit<T>(items: seq<T>, p: nat, k: nat): (r: seq<T>)
    requires |items| > 0 && p <= |items|
    ensures |r| == k
    decreases k
  {
    if k == 0 then [] else
      var q := NextPos(|items|, p);
      [items[q - 1]] + Visit(items, q, k - 1)
  }

  lemma {:induction false} VisitStraight<T>(items: seq<T>, p: nat, k: nat)
    requires |items| > 0 && p + k <= |items|
    ensures Visit(items, p, k) == items[p..p + k]
    decreases k
  {
    if k > 0 {
      VisitStraight(items, p + 1, k - 1);
      assert items[p..p + k] == [items[p]] + items[p + 1..p + k];
    }
  }

  lemma {:induction false} VisitSplit<T>(items: seq<T>, p: nat, k: nat, m: nat)
    requires |items| > 0 && p + k <= |items|
    ensures Visit(items, p, k + m) == Visit(items, p, k) + Visit(items, p + k, m)
    decreases k
  {
    if k > 0 {
      VisitSplit(items, p + 1, k - 1, m);
    }
  }

  /** As many steps as there are items visit each item once, starting behind the index; the item that the
      index stands on, such as one just added by vListInsertEnd, comes last. */
  lemma RoundRobin<T>(items: seq<T>, p: nat)
    requires |items| > 0 && p <= |items|
    ensures Visit(items, p, |items|) == items[p..] + items[..p]
    ensures multiset(Visit(items, p, |items|)) == multiset(items)
    ensures p > 0 ==> Visit(items, p, |items|)[|items| - 1] == items[p - 1]
  {
    hide Visit;
    var n := |items|;
    VisitStraight(items, p, n - p);
    VisitSplit(items, p, n - p, p);
    FromEnd(items, p);
    VisitStraight(items, 0, p);
    assert items[p..n] == items[p..] && items[0..p] == items[..p];
    MultisetSplit(items, p);
  }

  lemma MultisetSplit<T>(s: seq<T>, p: nat)
    requires p <= |s|
    ensures multiset(s[p..] + s[..p]) == multiset(s)
  {
    assert s == s[..p] + s[p..];
  }

  /** Past the last item the visit goes on with the first. */
  lemma FromEnd<T>(items: seq<T>, k: nat)
    requires |items| > 0
    ensures Visit(items, |items|, k) == Visit(items, 0, k)
  {
  }
}
