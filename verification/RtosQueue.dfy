/** FreeRTOS queues: a ring buffer of fixed size items that tasks and interrupts share, with lists of
    waiting tasks, and lock counts that hold wake-ups back while a task prepares to block. */
module RtosQueue {
  import opened Basics
  import opened RtosList
  import opened RtosTables

  type Item = seq<Byte>

  const UNLOCKED: int := -1
  const LOCKED_UNMODIFIED: int := 0

  /** Where item i of a ring of n slots is, when slot r is the one read last. */
  function RingSlot(r: nat, i: nat, n: nat): (s: nat)
    requires r < n && i <= n
    ensures s < n
  {
    var x := r + 1 + i;
    if x < n then x else if x < 2 * n then x - n else 0
  }

  /** The slot before slot r, around the ring. */
  function PrevSlot(r: nat, n: nat): (s: nat)
    requires r < n
    ensures s < n
  {
    if r == 0 then n - 1 else r - 1
  }

  lemma SlotsDiffer(r: nat, i: nat, j: nat, n: nat)
    requires r < n && i < n && j < n && i != j
    ensures RingSlot(r, i, n) != RingSlot(r, j, n)
  {
  }

  lemma PrevSlots(r: nat, i: nat, n: nat)
    requires r < n && i < n
    ensures RingSlot(PrevSlot(r, n), i + 1, n) == RingSlot(r, i, n) && RingSlot(PrevSlot(r, n), 0, n) == r
    ensures i + 1 < n ==> RingSlot(r, i, n) != r
  {
  }

  lemma NextSlots(r: nat, i: nat, n: nat)
    requires r < n && i < n
    ensures RingSlot(RingSlot(r, 0, n), i, n) == RingSlot(r, i + 1, n)
    ensures RingSlot(r, i + 1, n) == (if RingSlot(r, i, n) + 1 == n then 0 else RingSlot(r, i, n) + 1)
  {
  }

  /** The offset of slot k. */
  function Offset(k: nat, size: nat): nat {
    k * size
  }

  lemma OffsetBounds(k: nat, n: nat, size: nat)
    requires k < n
    ensures Offset(k, size) + size <= n * size
    ensures size > 0 ==> (Offset(k, size) + size >= n * size <==> k + 1 == n)
    ensures Offset(k + 1, size) == Offset(k, size) + size && Offset(0, size) == 0
    ensures Offset(n - 1, size) == n * size - size
    ensures k > 0 ==> Offset(k - 1, size) == Offset(k, size) - size
    ensures size == 0 ==> Offset(k, size) == 0
  {
    SlotsApart(k, n, size);
    if k + 1 < n {
      SlotsApart(k + 1, n, size);
      assert (k + 1) * size == k * size + size;
    }
  }

  lemma SlotsApart(k: nat, j: nat, size: nat)
    requires k < j
    ensures k * size + size <= j * size
  {
    assert (k + 1) * size <= j * size;
  }

  /** The bytes of slot k. */
  function Cell(s: seq<Byte>, k: nat, size: nat): Item
    requires Offset(k, size) + size <= |s|
  {
    s[Offset(k, size)..Offset(k, size) + size]
  }

  /** s with the bytes of slot k replaced. */
  function Stored(s: seq<Byte>, k: nat, size: nat, item: Item): (r: seq<Byte>)
    requires Offset(k, size) + size <= |s| && |item| == size
    ensures |r| == |s|
  {
    s[..Offset(k, size)] + item + s[Offset(k, size) + size..]
  }

  lemma StoredCells(s: seq<Byte>, k: nat, size: nat, item: Item, j: nat)
    requires Offset(k, size) + size <= |s| && |item| == size && Offset(j, size) + size <= |s|
    ensures Cell(Stored(s, k, size, item), j, size) == if j == k then item else Cell(s, j, size)
  {
    if j < k {
      SlotsApart(j, k, size);
    } else if k < j {
      SlotsApart(k, j, size);
    }
  }

  /** A storage area of n slots holds the items, the first one in the slot after last. */
  ghost predicate HoldsAll(s: seq<Byte>, n: nat, size: nat, last: nat, items: seq<Item>) {
    && last < n && |items| <= n && |s| == n * size + 1
    && forall i {:trigger items[i]} :: 0 <= i < |items| ==>
         Offset(RingSlot(last, i, n), size) + size <= |s| && Cell(s, RingSlot(last, i, n), size) == items[i]
  }

  lemma HoldsBack(s: seq<Byte>, n: nat, size: nat, last: nat, items: seq<Item>, item: Item)
    requires HoldsAll(s, n, size, last, items) && |items| < n && |item| == size
    ensures var k := RingSlot(last, |items|, n);
            Offset(k, size) + size <= |s| && HoldsAll(Stored(s, k, size, item), n, size, last, items + [item])
  {
    hide Cell, Stored, Offset;
    var k := RingSlot(last, |items|, n);
    OffsetBounds(k, n, size);
    forall i | 0 <= i < |items + [item]|
      ensures Offset(RingSlot(last, i, n), size) + size <= |s|
      ensures Cell(Stored(s, k, size, item), RingSlot(last, i, n), size) == (items + [item])[i]
    {
      OffsetBounds(RingSlot(last, i, n), n, size);
      StoredCells(s, k, size, item, RingSlot(last, i, n));
      if i < |items| {
        SlotsDiffer(last, i, |items|, n);
        assert (items + [item])[i] == items[i];
      }
    }
  }

  lemma HoldsFront(s: seq<Byte>, n: nat, size: nat, last: nat, items: seq<Item>, item: Item)
    requires HoldsAll(s, n, size, last, items) && |items| < n && |item| == size
    ensures Offset(last, size) + size <= |s| && HoldsAll(Stored(s, last, size, item), n, size, PrevSlot(last, n), [item] + items)
  {
    hide Cell, Stored, Offset;
    OffsetBounds(last, n, size);
    var p, all := PrevSlot(last, n), [item] + items;
    forall i | 0 <= i < |all|
      ensures Offset(RingSlot(p, i, n), size) + size <= |s|
      ensures Cell(Stored(s, last, size, item), RingSlot(p, i, n), size) == all[i]
    {
      OffsetBounds(RingSlot(p, i, n), n, size);
      StoredCells(s, last, size, item, RingSlot(p, i, n));
      if i > 0 {
        PrevSlots(last, i - 1, n);
        assert all[i] == items[i - 1];
      } else {
        PrevSlots(last, 0, n);
      }
    }
  }

  lemma HoldsRest(s: seq<Byte>, n: nat, size: nat, last: nat, items: seq<Item>)
    requires HoldsAll(s, n, size, last, items) && items != []
    ensures Offset(RingSlot(last, 0, n), size) + size <= |s| && Cell(s, RingSlot(last, 0, n), size) == items[0]
    ensures HoldsAll(s, n, size, RingSlot(last, 0, n), items[1..])
  {
    hide Cell, Offset;
    assert items[0] == items[0];
    forall i | 0 <= i < |items[1..]|
      ensures RingSlot(RingSlot(last, 0, n), i, n) == RingSlot(last, i + 1, n) && items[1..][i] == items[i + 1]
    {
      NextSlots(last, i, n);
    }
  }

  /** How far the task that is about to block on the queue has got, with the scheduler suspended: it has locked
      the queue; it has seen it empty, or full; it is on the list; it has unlocked the sending side. */
  datatype Phase = Free | Locked(t: Task) | SawEmpty(t: Task) | SawFull(t: Task) | Placed | TxUnlocked

  /** A side of the queue whose waiters have been counted right: n things they wait for, of which those woken
      and not yet run, and those that the lock count stands for, will take care. */
  ghost predicate NoneLost(waiting: bool, n: int, woken: set<Task>, lock: int) {
    waiting ==> n <= |woken| + (if lock > 0 then lock else 0)
  }

  ghost predicate LocksOk(phase: Phase, rxLock: int, txLock: int) {
    && rxLock >= UNLOCKED && txLock >= UNLOCKED
    && (phase.Free? ==> rxLock == txLock == UNLOCKED)
    && (phase.TxUnlocked? ==> txLock == UNLOCKED)
    && (!phase.Free? ==> rxLock >= LOCKED_UNMODIFIED)
    && (!phase.Free? && !phase.TxUnlocked? ==> txLock >= LOCKED_UNMODIFIED)
  }

  /** A task waits on one list, or has been woken, or neither; the one that holds the lock neither. */
  ghost predicate TasksOk(phase: Phase, waitRx: seq<Task>, waitTx: seq<Task>, wokenRx: set<Task>, wokenTx: set<Task>) {
    && NoRepeat(waitRx) && NoRepeat(waitTx)
    && (forall t :: t in waitRx ==> t !in waitTx && t !in wokenRx && t !in wokenTx)
    && (forall t :: t in waitTx ==> t !in wokenRx && t !in wokenTx)
    && wokenRx !! wokenTx
    && (phase.Locked? || phase.SawEmpty? || phase.SawFull? ==>
          phase.t !in waitRx && phase.t !in waitTx && phase.t !in wokenRx && phase.t !in wokenTx)
  }

  /** How many of n wake-ups a list of waiting tasks can use. */
  function Used(s: seq<Task>, n: int): (k: nat)
    ensures k <= |s|
  {
    if n <= 0 then 0 else if n >= |s| then |s| else n
  }

  /** n wake-ups have taken the first tasks of the list s0 to those woken, and left the rest. */
  ghost predicate Woke(s0: seq<Task>, w0: set<Task>, s: seq<Task>, w: set<Task>, n: int) {
    s == s0[Used(s0, n)..] && w == w0 + set t | t in s0[..Used(s0, n)]
  }

  lemma WokeNone(s: seq<Task>, w: set<Task>)
    ensures Woke(s, w, s, w, 0)
  {
  }

  lemma WokeOneMore(s0: seq<Task>, w0: set<Task>, s: seq<Task>, w: set<Task>, n: nat)
    requires Woke(s0, w0, s, w, n) && s != []
    ensures Woke(s0, w0, s[1..], w + {s[0]}, n + 1)
  {
    assert s0[..n + 1] == s0[..n] + [s[0]];
  }

  /** Wake-ups add up. */
  lemma WokeAgain(s0: seq<Task>, w0: set<Task>, s1: seq<Task>, w1: set<Task>, s2: seq<Task>, w2: set<Task>, n: nat)
    requires Woke(s0, w0, s1, w1, n) && s1 != [] && Woke(s1, w1, s2, w2, 1)
    ensures Woke(s0, w0, s2, w2, n + 1)
  {
    WokeOneMore(s0, w0, s1, w1, n);
    assert s1[..1] == [s1[0]];
    assert w2 == w1 + {s1[0]};
  }

  lemma WokeFrom(s0: seq<Task>, w0: set<Task>, s: seq<Task>, w: set<Task>, n: int)
    requires Woke(s0, w0, s, w, n)
    ensures forall t :: t !in s0 && t !in w0 ==> t !in w
  {
  }

  lemma WokeAll(s0: seq<Task>, w0: set<Task>, s: seq<Task>, w: set<Task>, n: nat, m: nat)
    requires Woke(s0, w0, s, w, n) && s == [] && n <= m
    ensures Woke(s0, w0, s, w, m)
  {
  }

  lemma WithoutHead(s: seq<Task>)
    requires NoRepeat(s) && s != []
    ensures NoRepeat(s[1..]) && s[0] !in s[1..] && forall t :: t in s <==> t == s[0] || t in s[1..]
  {
    assert s == [s[0]] + s[1..];
  }

  class Queue {
    const length: nat
    const itemSize: nat
    const storage: array<Byte>

    var writeTo: nat            // pcWriteTo - pcHead
    var readFrom: nat           // pcReadFrom - pcHead
    var messages: nat           // uxMessagesWaiting
    var waitRx: seq<Task>       // xTasksWaitingToReceive
    var waitTx: seq<Task>       // xTasksWaitingToSend
    var rxLock: int
    var txLock: int

    ghost var contents: seq<Item>   // the items in the queue, the next one to be read first
    ghost var last: nat             // the slot that readFrom points to
    ghost var wokenRx: set<Task>    // receivers woken by an event that have not run since
    ghost var wokenTx: set<Task>    // the same for senders
    ghost var phase: Phase

    ghost predicate Valid()
      reads this, storage
    {
      Ring() && Locks() && Tasks() && ReceiversServed() && SendersServed()
    }

    ghost predicate Locks()
      reads this`phase, this`rxLock, this`txLock
    {
      LocksOk(phase, rxLock, txLock)
    }

    ghost predicate Tasks()
      reads this`phase, this`waitRx, this`waitTx, this`wokenRx, this`wokenTx
    {
      TasksOk(phase, waitRx, waitTx, wokenRx, wokenTx)
    }

    /** No receiver sleeps beside an item that nobody has been woken, or will be woken, to take. */
    ghost predicate ReceiversServed()
      reads this`phase, this`waitRx, this`contents, this`wokenRx, this`txLock
    {
      NoneLost(waitRx != [] || phase.SawEmpty?, |contents|, wokenRx, txLock)
    }

    ghost predicate SendersServed()
      reads this`phase, this`waitTx, this`contents, this`wokenTx, this`rxLock
    {
      |contents| <= length && NoneLost(waitTx != [] || phase.SawFull?, length - |contents|, wokenTx, rxLock)
    }

    ghost predicate Ring()
      reads this`writeTo, this`readFrom, this`messages, this`contents, this`last, storage
    {
      && messages == |contents| && HoldsAll(storage[..], length, itemSize, last, contents)
      && readFrom == Offset(last, itemSize) && writeTo == Offset(RingSlot(last, messages, length), itemSize)
    }

    /** xQueueCreate */
    constructor (length: nat, itemSize: nat)
      requires length > 0
      ensures Valid() && contents == [] && this.length == length && this.itemSize == itemSize
      ensures fresh(storage) && waitRx == waitTx == [] && phase == Free
    {
      this.length, this.itemSize := length, itemSize;
      storage := new Byte[length * itemSize + 1](i => 0);
      messages, writeTo, readFrom := 0, 0, (length - 1) * itemSize;
      rxLock, txLock, waitRx, waitTx := UNLOCKED, UNLOCKED, [], [];
      contents, last := [], length - 1;
      wokenRx, wokenTx, phase := {}, {}, Free;
    }

    /** memcpy of one item into slot k of the storage area. */
    method CopyIn(item: Item, offset: nat, ghost k: nat)
      requires |item| == itemSize && offset == Offset(k, itemSize) && offset + itemSize <= storage.Length
      modifies storage
      ensures storage[..] == Stored(old(storage[..]), k, itemSize, item)
    {
      forall i | 0 <= i < itemSize {
        storage[offset + i] := item[i];
      }
    }

    /** prvCopyDataToQueue for a queue that is no mutex: the item goes to the back, or to the front. */
    method CopyDataToQueue(item: Item, toBack: bool)
      requires Ring() && messages < length && |item| == itemSize
      modifies this`writeTo, this`readFrom, this`messages, this`contents, this`last, storage
      ensures Ring() && contents == if toBack then old(contents) + [item] else [item] + old(contents)
    {
      hide HoldsAll, Offset, Stored, RingSlot;
      if toBack {
        CopyToBack(item);
      } else {
        CopyToFront(item);
      }
    }

    method CopyToBack(item: Item)
      requires Ring() && messages < length && |item| == itemSize
      modifies this`writeTo, this`messages, this`contents, storage
      ensures Ring() && contents == old(contents) + [item]
    {
      hide HoldsAll, Offset, Stored, RingSlot;
      RingBounds();
      ghost var k := RingSlot(last, messages, length);
      OffsetBounds(k, length, itemSize);
      HoldsBack(storage[..], length, itemSize, last, contents, item);
      NextSlots(last, messages, length);
      OffsetBounds(0, length, itemSize);
      OffsetBounds(RingSlot(last, messages + 1, length), length, itemSize);
      if itemSize == 0 {
        NothingStored(storage[..], k, item);
      } else {
        CopyIn(item, writeTo, k);
        writeTo := writeTo + itemSize;
        if writeTo >= length * itemSize {
          writeTo := 0;
        }
      }
      messages := messages + 1;
      contents := contents + [item];
    }

    method CopyToFront(item: Item)
      requires Ring() && messages < length && |item| == itemSize
      modifies this`readFrom, this`messages, this`contents, this`last, storage
      ensures Ring() && contents == [item] + old(contents)
    {
      hide HoldsAll, Offset, Stored, RingSlot;
      RingBounds();
      OffsetBounds(last, length, itemSize);
      HoldsFront(storage[..], length, itemSize, last, contents, item);
      PrevSlots(last, messages, length);
      OffsetBounds(PrevSlot(last, length), length, itemSize);
      OffsetBounds(0, length, itemSize);
      if itemSize == 0 {
        NothingStored(storage[..], last, item);
      } else {
        CopyIn(item, readFrom, last);
        readFrom := if readFrom < itemSize then length * itemSize - itemSize else readFrom - itemSize;
      }
      messages := messages + 1;
      contents := [item] + contents;
      last := PrevSlot(last, length);
    }

    lemma RingBounds()
      requires Ring()
      ensures last < length && |contents| <= length && storage.Length == length * itemSize + 1
    {
    }

    /** prvCopyDataFromQueue for a queue that is no mutex: steps to the next item and copies it out. */
    method CopyDataFromQueue() returns (item: Item)
      requires Ring() && messages > 0
      modifies this`readFrom, this`last
      ensures item == contents[0] && last == RingSlot(old(last), 0, length) && last < length && readFrom == Offset(last, itemSize)
      ensures HoldsAll(storage[..], length, itemSize, last, contents[1..])
    {
      hide HoldsAll, Offset, RingSlot;
      RingBounds();
      OffsetBounds(last, length, itemSize);
      OffsetBounds(0, length, itemSize);
      NextOffset(last, length, itemSize);
      HoldsRest(storage[..], length, itemSize, last, contents);
      readFrom := readFrom + itemSize;
      if readFrom >= length * itemSize {
        readFrom := 0;
      }
      last := RingSlot(last, 0, length);
      item := storage[readFrom..readFrom + itemSize];
      assert item == Cell(storage[..], last, itemSize);
    }
  
    // ---------- the steps of the protocol ----------

    /** No lost wake-up: when the queue is unlocked and a receiver still waits, there are no more items than
        receivers that were woken and have yet to run; so with none of those, the queue is empty. The same
        holds for senders and free slots. */
    lemma NoLostWakeup()
      requires Valid()
      ensures txLock == UNLOCKED && waitRx != [] ==> messages <= |wokenRx|
      ensures rxLock == UNLOCKED && waitTx != [] ==> length - messages <= |wokenTx|
      ensures phase == Free && waitRx != [] && wokenRx == {} ==> messages == 0
      ensures phase == Free && waitTx != [] && wokenTx == {} ==> messages == length
    {
    }

    /** Wakes the first receiver if one waits. */
    method WakeAnyReceiver()
      requires Tasks()
      modifies this`waitRx, this`wokenRx
      ensures Tasks() && Woke(old(waitRx), old(wokenRx), waitRx, wokenRx, 1)
      ensures |wokenRx| == |old(wokenRx)| + (if old(waitRx) == [] then 0 else 1) && (old(waitRx) == [] ==> waitRx == [])
    {
      hide TasksOk, Woke;
      if |waitRx| != 0 {
        WakeReceiver();
      } else {
        WokeNone(waitRx, wokenRx);
        WokeAll(waitRx, wokenRx, waitRx, wokenRx, 0, 1);
      }
    }

    /** xTaskRemoveFromEventList on xTasksWaitingToReceive. */
    method WakeReceiver()
      requires Tasks() && waitRx != []
      modifies this`waitRx, this`wokenRx
      ensures Tasks() && |waitRx| == |old(waitRx)| - 1
      ensures Woke(old(waitRx), old(wokenRx), waitRx, wokenRx, 1)
      ensures |wokenRx| == |old(wokenRx)| + 1
    {
      WithoutHead(waitRx);
      WokeNone(waitRx, wokenRx);
      WokeOneMore(waitRx, wokenRx, waitRx, wokenRx, 0);
      wokenRx := wokenRx + {waitRx[0]};
      waitRx := waitRx[1..];
    }

    /** Wakes the first sender if one waits. */
    method WakeAnySender()
      requires Tasks()
      modifies this`waitTx, this`wokenTx
      ensures Tasks() && Woke(old(waitTx), old(wokenTx), waitTx, wokenTx, 1)
      ensures |wokenTx| == |old(wokenTx)| + (if old(waitTx) == [] then 0 else 1) && (old(waitTx) == [] ==> waitTx == [])
    {
      hide TasksOk, Woke;
      if |waitTx| != 0 {
        WakeSender();
      } else {
        WokeNone(waitTx, wokenTx);
        WokeAll(waitTx, wokenTx, waitTx, wokenTx, 0, 1);
      }
    }

    /** xTaskRemoveFromEventList on xTasksWaitingToSend. */
    method WakeSender()
      requires Tasks() && waitTx != []
      modifies this`waitTx, this`wokenTx
      ensures Tasks() && |waitTx| == |old(waitTx)| - 1
      ensures Woke(old(waitTx), old(wokenTx), waitTx, wokenTx, 1)
      ensures |wokenTx| == |old(wokenTx)| + 1
    {
      WithoutHead(waitTx);
      WokeNone(waitTx, wokenTx);
      WokeOneMore(waitTx, wokenTx, waitTx, wokenTx, 0);
      wokenTx := wokenTx + {waitTx[0]};
      waitTx := waitTx[1..];
    }

    /** The critical section of xQueueGenericSend, run by task t. */
    method SendStep(t: Task, item: Item, toBack: bool) returns (sent: bool)
      requires Valid() && phase == Free && t !in waitRx && t !in waitTx && t !in wokenRx && |item| == itemSize
      modifies this`writeTo, this`readFrom, this`messages, this`contents, this`last, storage
      modifies this`waitRx, this`wokenRx, this`wokenTx
      ensures Valid() && t !in wokenTx && (sent <==> |old(contents)| < length)
      ensures contents == if !sent then old(contents) else if toBack then old(contents) + [item] else [item] + old(contents)
      ensures Woke(old(waitRx), old(wokenRx), waitRx, wokenRx, if sent then 1 else 0) && wokenTx == old(wokenTx) - {t}
    {
      hide HoldsAll, Offset, RingSlot, TasksOk, Woke;
      RingBounds();
      WokeNone(waitRx, wokenRx);
      sent := messages < length;
      SenderHasRun(t);
      if sent {
        PutStep(item, toBack);
      }
    }

    /** Task t, which may have been woken to send, has run. */
    ghost method SenderHasRun(t: Task)
      requires Valid() && phase == Free
      modifies this`wokenTx
      ensures Ring() && Locks() && Tasks() && ReceiversServed() && wokenTx == old(wokenTx) - {t}
      ensures NoneLost(waitTx != [], length - |contents| - 1, wokenTx, rxLock) && (|contents| == length ==> SendersServed())
    {
      hide HoldsAll, Offset, RingSlot, TasksOk;
      OneLess(wokenTx, t);
      LessWoken(phase, waitRx, waitTx, wokenRx, wokenTx, t);
      wokenTx := wokenTx - {t};
    }

    /** The part of xQueueGenericSend that adds the item, and wakes a receiver. */
    method PutStep(item: Item, toBack: bool)
      requires Ring() && Locks() && Tasks() && ReceiversServed() && phase == Free && messages < length && |item| == itemSize
      requires NoneLost(waitTx != [], length - |contents| - 1, wokenTx, rxLock)
      modifies this`writeTo, this`readFrom, this`messages, this`contents, this`last, storage, this`waitRx, this`wokenRx
      ensures Valid() && contents == if toBack then old(contents) + [item] else [item] + old(contents)
      ensures Woke(old(waitRx), old(wokenRx), waitRx, wokenRx, 1)
    {
      hide HoldsAll, Offset, RingSlot, TasksOk, Woke;
      CopyDataToQueue(item, toBack);
      WakeAnyReceiver();
    }

    /** xQueueGenericSendFromISR, at any time. */
    method SendFromISR(item: Item, toBack: bool) returns (sent: bool)
      requires Valid() && |item| == itemSize
      modifies this`writeTo, this`readFrom, this`messages, this`contents, this`last, storage
      modifies this`waitRx, this`wokenRx, this`txLock
      ensures Valid() && (sent <==> |old(contents)| < length)
      ensures contents == if !sent then old(contents) else if toBack then old(contents) + [item] else [item] + old(contents)
      ensures Woke(old(waitRx), old(wokenRx), waitRx, wokenRx, if sent && old(txLock) == UNLOCKED then 1 else 0)
      ensures txLock == if sent && old(txLock) != UNLOCKED then old(txLock) + 1 else old(txLock)
    {
      hide HoldsAll, Offset, RingSlot, TasksOk, Woke;
      RingBounds();
      WokeNone(waitRx, wokenRx);
      sent := messages < length;
      if sent {
        CopyDataToQueue(item, toBack);
        NotifyReceiver();
      }
    }

    /** The part of it that wakes a receiver, or counts the item on a locked queue. */
    method NotifyReceiver()
      requires Tasks() && NoneLost(waitRx != [] || phase.SawEmpty?, |contents| - 1, wokenRx, txLock) && txLock >= UNLOCKED
      requires phase.SawEmpty? ==> txLock >= LOCKED_UNMODIFIED
      modifies this`waitRx, this`wokenRx, this`txLock
      ensures Tasks() && ReceiversServed()
      ensures Woke(old(waitRx), old(wokenRx), waitRx, wokenRx, if old(txLock) == UNLOCKED then 1 else 0)
      ensures txLock == if old(txLock) != UNLOCKED then old(txLock) + 1 else old(txLock)
    {
      hide TasksOk, Woke;
      WokeNone(waitRx, wokenRx);
      if txLock == UNLOCKED {
        WakeAnyReceiver();
      } else {
        txLock := txLock + 1;
      }
    }

    /** The critical section of xQueueGenericReceive, run by task t. */
    method ReceiveStep(t: Task, justPeeking: bool) returns (received: bool, item: Item)
      requires Valid() && phase == Free && t !in waitRx && t !in waitTx && t !in wokenTx
      modifies this`readFrom, this`messages, this`contents, this`last
      modifies this`waitRx, this`waitTx, this`wokenRx, this`wokenTx
      ensures Valid() && t !in wokenRx && (received <==> old(contents) != [])
      ensures received ==> item == old(contents)[0]
      ensures contents == if received && !justPeeking then old(contents)[1..] else old(contents)
      ensures Woke(old(waitRx), old(wokenRx) - {t}, waitRx, wokenRx, if received && justPeeking then 1 else 0)
      ensures Woke(old(waitTx), old(wokenTx), waitTx, wokenTx, if received && !justPeeking then 1 else 0)
    {
      hide HoldsAll, Offset, RingSlot, TasksOk, Woke;
      RingBounds();
      WokeNone(waitRx, wokenRx - {t});
      WokeNone(waitTx, wokenTx);
      received, item := messages > 0, [];
      HasRun(t);
      if received {
        if justPeeking {
          item := PeekStep();
        } else {
          item := TakeStep();
        }
      }
    }

    /** Task t, which may have been woken to receive, has run. */
    ghost method HasRun(t: Task)
      requires Valid() && phase == Free
      modifies this`wokenRx
      ensures Ring() && Locks() && Tasks() && SendersServed() && wokenRx == old(wokenRx) - {t}
      ensures NoneLost(waitRx != [], |contents| - 1, wokenRx, txLock) && (contents == [] ==> ReceiversServed())
    {
      hide HoldsAll, Offset, RingSlot, TasksOk;
      OneLess(wokenRx, t);
      LessWoken(phase, waitRx, waitTx, wokenRx, wokenTx, t);
      wokenRx := wokenRx - {t};
    }

    /** The part of xQueueGenericReceive that leaves the item, and wakes the next receiver for it. */
    method PeekStep() returns (item: Item)
      requires Ring() && Locks() && Tasks() && SendersServed() && phase == Free && messages > 0
      requires NoneLost(waitRx != [], |contents| - 1, wokenRx, txLock)
      modifies this`readFrom, this`last, this`waitRx, this`wokenRx
      ensures Valid() && item == contents[0]
      ensures forall t :: t !in old(waitRx) && t !in old(wokenRx) ==> t !in wokenRx
      ensures Woke(old(waitRx), old(wokenRx), waitRx, wokenRx, 1)
    {
      hide HoldsAll, Offset, RingSlot, TasksOk, Woke;
      item := Peek();
      WakeAnyReceiver();
      WokeFrom(old(waitRx), old(wokenRx), waitRx, wokenRx, 1);
    }

    /** The part that removes the item, and wakes a sender. */
    method TakeStep() returns (item: Item)
      requires Ring() && Locks() && Tasks() && SendersServed() && phase == Free && messages > 0
      requires NoneLost(waitRx != [], |contents| - 1, wokenRx, txLock)
      modifies this`readFrom, this`messages, this`contents, this`last, this`waitTx, this`wokenTx
      ensures Valid() && item == old(contents)[0] && contents == old(contents)[1..]
      ensures Woke(old(waitTx), old(wokenTx), waitTx, wokenTx, 1)
    {
      hide HoldsAll, Offset, RingSlot, TasksOk, Woke;
      item := TakeItem();
      WakeAnySender();
    }

    /** xQueueReceiveFromISR, at any time. */
    method ReceiveFromISR() returns (received: bool, item: Item)
      requires Valid()
      modifies this`readFrom, this`messages, this`contents, this`last
      modifies this`waitTx, this`wokenTx, this`rxLock
      ensures Valid() && (received <==> old(contents) != [])
      ensures received ==> item == old(contents)[0]
      ensures contents == if received then old(contents)[1..] else old(contents)
      ensures Woke(old(waitTx), old(wokenTx), waitTx, wokenTx, if received && old(rxLock) == UNLOCKED then 1 else 0)
      ensures rxLock == if received && old(rxLock) != UNLOCKED then old(rxLock) + 1 else old(rxLock)
    {
      hide HoldsAll, Offset, RingSlot, TasksOk, Woke;
      RingBounds();
      WokeNone(waitTx, wokenTx);
      received, item := messages > 0, [];
      if received {
        item := TakeItem();
        NotifySender();
      }
    }

    /** The part of it that wakes a sender, or counts the slot on a locked queue. */
    method NotifySender()
      requires Tasks() && NoneLost(waitTx != [] || phase.SawFull?, length - |contents| - 1, wokenTx, rxLock) && rxLock >= UNLOCKED
      requires |contents| <= length && (phase.SawFull? ==> rxLock >= LOCKED_UNMODIFIED)
      modifies this`waitTx, this`wokenTx, this`rxLock
      ensures Tasks() && SendersServed()
      ensures Woke(old(waitTx), old(wokenTx), waitTx, wokenTx, if old(rxLock) == UNLOCKED then 1 else 0)
      ensures rxLock == if old(rxLock) != UNLOCKED then old(rxLock) + 1 else old(rxLock)
    {
      hide TasksOk, Woke;
      WokeNone(waitTx, wokenTx);
      if rxLock == UNLOCKED {
        WakeAnySender();
      } else {
        rxLock := rxLock + 1;
      }
    }

    /** Copies the next item out and removes it. */
    method TakeItem() returns (item: Item)
      requires Ring() && messages > 0
      modifies this`readFrom, this`messages, this`contents, this`last
      ensures Ring() && item == old(contents)[0] && contents == old(contents)[1..]
    {
      hide HoldsAll, Offset;
      RingBounds();
      NextSlots(last, messages - 1, length);
      item := CopyDataFromQueue();
      messages := messages - 1;
      contents := contents[1..];
    }

    /** Copies the next item out and sets the read position back. */
    method Peek() returns (item: Item)
      requires Ring() && messages > 0
      modifies this`readFrom, this`last
      ensures Ring() && item == contents[0]
    {
      hide HoldsAll, Offset, RingSlot;
      var originalReadPosition := readFrom;
      ghost var l := last;
      item := CopyDataFromQueue();
      readFrom := originalReadPosition;
      last := l;
    }

    /** prvLockQueue, by a task that has suspended the scheduler. */
    method LockQueue(t: Task)
      requires Valid() && phase == Free && t !in waitRx && t !in waitTx && t !in wokenRx && t !in wokenTx
      modifies this`rxLock, this`txLock, this`phase
      ensures Valid() && phase == Locked(t) && rxLock == txLock == LOCKED_UNMODIFIED
    {
      hide HoldsAll, Offset, RingSlot;
      if rxLock == UNLOCKED {
        rxLock := LOCKED_UNMODIFIED;
      }
      if txLock == UNLOCKED {
        txLock := LOCKED_UNMODIFIED;
      }
      phase := Locked(t);
    }

    /** prvIsQueueEmpty, asked by a task that wants to receive. */
    method IsQueueEmpty(t: Task) returns (r: bool)
      requires Valid() && phase == Locked(t)
      modifies this`phase
      ensures Valid() && (r <==> contents == []) && phase == if r then SawEmpty(t) else Locked(t)
    {
      hide HoldsAll, Offset, RingSlot;
      r := messages == 0;
      if r {
        phase := SawEmpty(t);
      }
    }

    /** prvIsQueueFull, asked by a task that wants to send. */
    method IsQueueFull(t: Task) returns (r: bool)
      requires Valid() && phase == Locked(t)
      modifies this`phase
      ensures Valid() && (r <==> |contents| == length) && phase == if r then SawFull(t) else Locked(t)
    {
      hide HoldsAll, Offset, RingSlot;
      r := messages == length;
      if r {
        phase := SawFull(t);
      }
    }

    /** vTaskPlaceOnEventList on xTasksWaitingToReceive; p is the place that the task's priority gives it. An
        interrupt may have sent an item since the queue was seen empty. */
    method BlockToReceive(t: Task, p: nat)
      requires Valid() && phase == SawEmpty(t) && p <= |waitRx|
      modifies this`waitRx, this`phase
      ensures Valid() && phase == Placed && waitRx == Put(old(waitRx), p, t)
    {
      hide HoldsAll, Offset, RingSlot, Put, NoRepeat;
      PutMembers(waitRx, p, t);
      waitRx := Put(waitRx, p, t);
      phase := Placed;
    }

    /** The same on xTasksWaitingToSend. */
    method BlockToSend(t: Task, p: nat)
      requires Valid() && phase == SawFull(t) && p <= |waitTx|
      modifies this`waitTx, this`phase
      ensures Valid() && phase == Placed && waitTx == Put(old(waitTx), p, t)
    {
      hide HoldsAll, Offset, RingSlot, Put, NoRepeat;
      PutMembers(waitTx, p, t);
      waitTx := Put(waitTx, p, t);
      phase := Placed;
    }

    /** The first critical section of prvUnlockQueue: wakes a receiver for every item that came meanwhile. */
    method UnlockTx()
      requires Valid() && (phase.Locked? || phase.Placed?)
      modifies this`waitRx, this`wokenRx, this`txLock, this`phase
      ensures Valid() && phase == TxUnlocked && txLock == UNLOCKED
      ensures Woke(old(waitRx), old(wokenRx), waitRx, wokenRx, old(txLock))
    {
      hide HoldsAll, Offset, RingSlot, TasksOk, Woke;
      Unphase(phase, waitRx, waitTx, wokenRx, wokenTx);
      phase := Placed;
      ServeReceivers();
      txLock := UNLOCKED;
      Unphase(phase, waitRx, waitTx, wokenRx, wokenTx);
      phase := TxUnlocked;
    }

    /** Its loop. */
    method ServeReceivers()
      requires Tasks() && ReceiversServed() && txLock >= LOCKED_UNMODIFIED && phase == Placed
      modifies this`waitRx, this`wokenRx, this`txLock
      ensures Tasks() && NoneLost(waitRx != [], |contents|, wokenRx, UNLOCKED)
      ensures Woke(old(waitRx), old(wokenRx), waitRx, wokenRx, old(txLock))
    {
      hide TasksOk, Woke;
      WokeNone(waitRx, wokenRx);
      while txLock > LOCKED_UNMODIFIED
        invariant Tasks() && ReceiversServed() && txLock >= LOCKED_UNMODIFIED
        invariant txLock <= old(txLock) && Woke(old(waitRx), old(wokenRx), waitRx, wokenRx, old(txLock) - txLock)
        modifies this`waitRx, this`wokenRx, this`txLock
      {
        if |waitRx| != 0 {
          ghost var s, w := waitRx, wokenRx;
          WakeReceiver();
          WokeAgain(old(waitRx), old(wokenRx), s, w, waitRx, wokenRx, old(txLock) - txLock);
          txLock := txLock - 1;
        } else {
          WokeAll(old(waitRx), old(wokenRx), waitRx, wokenRx, old(txLock) - txLock, old(txLock));
          break;
        }
      }
    }

    /** The second critical section of prvUnlockQueue: wakes a sender for every slot that came free. */
    method UnlockRx()
      requires Valid() && phase == TxUnlocked
      modifies this`waitTx, this`wokenTx, this`rxLock, this`phase
      ensures Valid() && phase == Free
      ensures Woke(old(waitTx), old(wokenTx), waitTx, wokenTx, old(rxLock))
    {
      hide HoldsAll, Offset, RingSlot, TasksOk, Woke;
      ServeSenders();
      rxLock := UNLOCKED;
      Unphase(phase, waitRx, waitTx, wokenRx, wokenTx);
      phase := Free;
    }

    /** Its loop. */
    method ServeSenders()
      requires Tasks() && SendersServed() && rxLock >= LOCKED_UNMODIFIED && phase == TxUnlocked
      modifies this`waitTx, this`wokenTx, this`rxLock
      ensures Tasks() && |contents| <= length && NoneLost(waitTx != [], length - |contents|, wokenTx, UNLOCKED)
      ensures Woke(old(waitTx), old(wokenTx), waitTx, wokenTx, old(rxLock))
    {
      hide TasksOk, Woke;
      WokeNone(waitTx, wokenTx);
      while rxLock > LOCKED_UNMODIFIED
        invariant Tasks() && SendersServed() && rxLock >= LOCKED_UNMODIFIED
        invariant rxLock <= old(rxLock) && Woke(old(waitTx), old(wokenTx), waitTx, wokenTx, old(rxLock) - rxLock)
        modifies this`waitTx, this`wokenTx, this`rxLock
      {
        if |waitTx| != 0 {
          ghost var s, w := waitTx, wokenTx;
          WakeSender();
          WokeAgain(old(waitTx), old(wokenTx), s, w, waitTx, wokenTx, old(rxLock) - rxLock);
          rxLock := rxLock - 1;
        } else {
          WokeAll(old(waitTx), old(wokenTx), waitTx, wokenTx, old(rxLock) - rxLock, old(rxLock));
          break;
        }
      }
    }

    /** A waiting task whose time has run out, or that is suspended or deleted, leaves the lists. */
    method LeaveLists(t: Task)
      requires Valid() && (t in waitRx || t in waitTx)
      modifies this`waitRx, this`waitTx
      ensures Valid() && waitRx == Omit(old(waitRx), t) && waitTx == Omit(old(waitTx), t)
    {
      hide HoldsAll, Offset, RingSlot, NoRepeat;
      OmitMembers(waitRx, t);
      OmitMembers(waitTx, t);
      waitRx := Omit(waitRx, t);
      waitTx := Omit(waitTx, t);
    }
  }

  lemma OneLess(s: set<Task>, t: Task)
    ensures |s - {t}| >= |s| - 1 && |s - {t}| <= |s|
  {
    if t in s {
      assert s == (s - {t}) + {t};
    } else {
      assert s - {t} == s;
    }
  }

  lemma Unphase(phase: Phase, waitRx: seq<Task>, waitTx: seq<Task>, wokenRx: set<Task>, wokenTx: set<Task>)
    requires TasksOk(phase, waitRx, waitTx, wokenRx, wokenTx)
    ensures TasksOk(Free, waitRx, waitTx, wokenRx, wokenTx)
    ensures TasksOk(Placed, waitRx, waitTx, wokenRx, wokenTx)
    ensures TasksOk(TxUnlocked, waitRx, waitTx, wokenRx, wokenTx)
  {
  }

  lemma LessWoken(phase: Phase, waitRx: seq<Task>, waitTx: seq<Task>, wokenRx: set<Task>, wokenTx: set<Task>, t: Task)
    requires TasksOk(phase, waitRx, waitTx, wokenRx, wokenTx)
    ensures TasksOk(phase, waitRx, waitTx, wokenRx - {t}, wokenTx)
    ensures TasksOk(phase, waitRx, waitTx, wokenRx, wokenTx - {t})
  {
  }

  lemma NextOffset(last: nat, n: nat, size: nat)
    requires last < n
    ensures Offset(RingSlot(last, 0, n), size) == if Offset(last, size) + size >= n * size then 0 else Offset(last, size) + size
  {
    hide Offset;
    OffsetBounds(last, n, size);
    OffsetBounds(RingSlot(last, 0, n), n, size);
  }

  lemma NothingStored(s: seq<Byte>, k: nat, item: Item)
    requires |item| == 0 && Offset(k, 0) <= |s|
    ensures Stored(s, k, 0, item) == s
  {
  }
}
