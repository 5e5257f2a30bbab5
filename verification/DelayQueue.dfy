/** The fixed-latency queue of inc/delay_queue.hpp over the ring of inc/circular_buffer.hpp. Positions are
    64-bit in the source and unbounded here.
 */
module DelayQueue {
  import opened Arithmetic

  // ---------------------------------------------------------------- when a prefix is ready

  /** A queued element: the delay it came with and the operate() calls it has seen. */
  datatype Item<T> = Item(value: T, given: int, seen: nat)

  function Delay<T>(x: Item<T>): int {
    x.given - x.seen
  }

  /** Ready after its delay, but never before the first operate(). */
  predicate Ready<T>(x: Item<T>) {
    x.seen >= (if x.given > 1 then x.given else 1)
  }

  function Values<T>(items: seq<Item<T>>): (r: seq<T>)
    ensures |r| == |items|
  {
    seq(|items|, i requires 0 <= i < |items| => items[i].value)
  }

  function Delays<T>(items: seq<Item<T>>): (r: seq<int>)
    ensures |r| == |items|
  {
    seq(|items|, i requires 0 <= i < |items| => Delay(items[i]))
  }

  function Aged<T>(items: seq<Item<T>>, cycles: nat): (r: seq<Item<T>>)
    ensures |r| == |items|
  {
    seq(|items|, i requires 0 <= i < |items| => items[i].(seen := items[i].seen + cycles))
  }

  /** Exactly the first `k` elements are ready. */
  ghost predicate ReadyPrefix<T>(items: seq<Item<T>>, k: int) {
    0 <= k <= |items| && forall i | 0 <= i < |items| :: i < k <==> Ready(items[i])
  }

  /** No element that is still to wait stands before one that waits less. */
  ghost predicate Ordered(delays: seq<int>) {
    forall i, j | 0 <= i < j < |delays| :: delays[i] <= 1 || delays[i] <= delays[j]
  }

  /** More than one cycle to wait. */
  ghost predicate MustWait(delays: seq<int>, k: nat) {
    k < |delays| && delays[k] > 1
  }

  /** The first `k` elements are those whose delay has run out. */
  ghost predicate RunOut<T>(items: seq<Item<T>>, k: int) {
    0 <= k <= |items| && forall i | 0 <= i < |items| :: i < k <==> Delay(items[i]) <= 0
  }

  /** After `n` more cycles the elements whose delay has run out stand in front. */
  ghost predicate InFront<T>(items: seq<Item<T>>, n: nat) {
    exists k :: RunOut(Aged(items, n), k)
  }

  /** Order is exactly what keeps the elements that may leave in front, after each of the coming cycles. */
  lemma {:induction false} OrderedExactly<T>(items: seq<Item<T>>)
    ensures Ordered(Delays(items)) <==> forall n: nat | n > 0 :: InFront(items, n)
  {
    var delays := Delays(items);
    if Ordered(delays) {
      forall n: nat | n > 0 ensures InFront(items, n) {
        FrontExists(items, n, 0);
      }
    }
    if i, j :| 0 <= i < j < |delays| && delays[i] > 1 && delays[i] > delays[j] {
      NotInFront(items, i, j, if delays[j] > 1 then delays[j] else 1);
    }
  }

  lemma {:induction false} NotInFront<T>(items: seq<Item<T>>, i: nat, j: nat, n: nat)
    requires i < j < |items| && Delay(items[j]) <= n < Delay(items[i])
    ensures !InFront(items, n)
  {
    var later := Aged(items, n);
    assert Delay(later[j]) <= 0 < Delay(later[i]);
  }

  lemma {:induction false} FrontExists<T>(items: seq<Item<T>>, n: nat, k: nat)
    requires n > 0 && Ordered(Delays(items)) && k <= |items|
    requires forall i | 0 <= i < k :: Delay(items[i]) <= n
    ensures InFront(items, n)
    decreases |items| - k
  {
    if k < |items| && Delay(items[k]) <= n {
      FrontExists(items, n, k + 1);
    } else {
      var later, delays := Aged(items, n), Delays(items);
      forall i | 0 <= i < |items| ensures i < k <==> Delay(later[i]) <= 0 {
        assert Delay(later[i]) == delays[i] - n;
        assert k < i ==> delays[k] <= 1 || delays[k] <= delays[i];
      }
      assert RunOut(later, k);
    }
  }

  /** push_back: the fixed latency is at least every delay in the queue. */
  lemma PushKeeps(delays: seq<int>, latency: int)
    requires Ordered(delays) && forall i | 0 <= i < |delays| :: delays[i] <= latency
    ensures Ordered(delays + [latency])
  {
  }

  /** push_back_ready keeps the order exactly when no queued element has more than one cycle to wait. */
  lemma PushReadyKeeps(delays: seq<int>)
    requires Ordered(delays)
    ensures Ordered(delays + [0]) <==> forall k: nat :: !MustWait(delays, k)
  {
    var after := delays + [0];
    if k: nat :| MustWait(delays, k) {
      assert after[k] > 1 && after[|delays|] == 0;
    }
    if forall k: nat :: !MustWait(delays, k) {
      forall i, j | 0 <= i < j < |after| ensures after[i] <= 1 || after[i] <= after[j] {
        assert !MustWait(delays, i);
      }
    }
  }

  function Decremented(delays: seq<int>): (r: seq<int>)
    ensures |r| == |delays|
  {
    seq(|delays|, i requires 0 <= i < |delays| => delays[i] - 1)
  }

  lemma {:induction false} DecrementKeeps(delays: seq<int>)
    requires Ordered(delays)
    ensures Ordered(Decremented(delays))
    ensures forall i, j | 0 <= i < j < |delays| && Decremented(delays)[j] <= 0 :: Decremented(delays)[i] <= 0
  {
    forall i, j | 0 <= i < j < |delays|
      ensures Decremented(delays)[i] <= 1 || Decremented(delays)[i] <= Decremented(delays)[j]
      ensures Decremented(delays)[j] <= 0 ==> Decremented(delays)[i] <= 0
    {
      assert delays[i] <= 1 || delays[i] <= delays[j];
    }
  }

  /** std::partition_point on positions first..first+length. */
  function PartitionPoint(delays: seq<int>, first: nat, length: nat): (p: nat)
    requires first + length <= |delays|
    ensures first <= p <= first + length
    decreases length
  {
    if length == 0 then first else
    var half := length / 2;
    if delays[first + half] <= 0 then PartitionPoint(delays, first + half + 1, length - half - 1)
    else PartitionPoint(delays, first, half)
  }

  /** On delays whose nonpositive ones come first, the search finds where they end. */
  lemma {:induction false} PartitionFinds(delays: seq<int>, first: nat, length: nat)
    requires first + length <= |delays|
    requires forall i, j | 0 <= i < j < |delays| && delays[j] <= 0 :: delays[i] <= 0
    requires forall i | 0 <= i < first :: delays[i] <= 0
    requires forall i | first + length <= i < |delays| :: delays[i] > 0
    ensures forall i | 0 <= i < |delays| :: i < PartitionPoint(delays, first, length) <==> delays[i] <= 0
    decreases length
  {
    if length == 0 {
    } else {
      var half := length / 2;
      if delays[first + half] <= 0 {
        PartitionFinds(delays, first + half + 1, length - half - 1);
      } else {
        PartitionFinds(delays, first, half);
      }
    }
  }

  /** One operate(): the prefix that the search finds is exactly the ready elements. */
  lemma {:induction false} OperateFinds<T>(items: seq<Item<T>>)
    requires Ordered(Delays(items))
    ensures Delays(Aged(items, 1)) == Decremented(Delays(items)) && Ordered(Delays(Aged(items, 1)))
    ensures ReadyPrefix(Aged(items, 1), PartitionPoint(Decremented(Delays(items)), 0, |items|))
  {
    var later := Decremented(Delays(items));
    assert Delays(Aged(items, 1)) == later;
    DecrementKeeps(Delays(items));
    PartitionFinds(later, 0, |items|);
    forall i | 0 <= i < |items| ensures Ready(Aged(items, 1)[i]) <==> later[i] <= 0 {
    }
  }

  /** With a ready push behind an element that is to wait two cycles or more, the search releases the
      waiting one after one cycle. */
  lemma MixedPushesReleaseEarly<T>(x: T, y: T, latency: int)
    requires latency > 1
    ensures var items := [Item(x, latency, 0), Item(y, 0, 0)];
            && PartitionPoint(Decremented(Delays(items)), 0, |items|) == |items|
            && !Ready(Aged(items, 1)[0])
  {
    var items := [Item(x, latency, 0), Item(y, 0, 0)];
    var later := Decremented(Delays(items));
    assert |later| == 2 && later[1] <= 0;
    assert PartitionPoint(later, 0, 2) == PartitionPoint(later, 2, 0);
  }

  // ---------------------------------------------------------------- the ring

  lemma {:induction false} SlotsDiffer(a: nat, b: nat, n: nat)
    requires a < b < a + n
    ensures a % n != b % n
  {
    if a % n == b % n {
      assert b - a == n * (b / n) - n * (a / n) == n * (b / n - a / n);
      MulBound(n, b / n - a / n);
    }
  }

  class CircularBuffer<T(0)> {
    const entry: array<T>
    var head: nat
    var tail: nat

    ghost predicate Valid()
      reads this
    {
      head <= tail <= head + entry.Length
    }

    /** The elements in the order they came. */
    ghost function Contents(): (r: seq<T>)
      requires Valid()
      reads this, entry
      ensures |r| == tail - head
    {
      var h, n := head, tail - head;
      seq(n, i requires 0 <= i < n reads entry => entry[(h + i) % entry.Length])
    }

    constructor (size: nat)
      ensures Valid() && Contents() == [] && entry.Length == size && head == tail == 0 && fresh(entry)
    {
      entry := new T[size];
      head, tail := 0, 0;
    }

    function Occupancy(): nat
      requires Valid()
      reads this
    {
      tail - head
    }

    predicate Full()
      requires Valid()
      reads this
    {
      Occupancy() == entry.Length
    }

    method PushBack(item: T)
      requires Valid() && !Full()
      modifies this, entry
      ensures Valid() && Contents() == old(Contents()) + [item]
      ensures head == old(head) && tail == old(tail) + 1
    {
      ghost var before := Contents();
      entry[tail % entry.Length] := item;
      forall i | 0 <= i < |before| ensures entry[(head + i) % entry.Length] == before[i] {
        SlotsDiffer(head + i, tail, entry.Length);
      }
      tail := tail + 1;
      assert Contents() == before + [item];
    }

    method PopFront()
      requires Valid() && Occupancy() > 0
      modifies this
      ensures Valid() && Contents() == old(Contents())[1..]
      ensures head == old(head) + 1 && tail == old(tail)
    {
      ghost var before := Contents();
      head := head + 1;
      assert Contents() == before[1..];
    }

    method At(position: nat) returns (x: T)
      requires Valid() && head <= position < tail
      ensures x == Contents()[position - head]
    {
      x := entry[position % entry.Length];
    }

    method Put(position: nat, x: T)
      requires Valid() && head <= position < tail
      modifies entry
      ensures Valid() && Contents() == old(Contents())[position - head := x]
    {
      ghost var before := Contents();
      entry[position % entry.Length] := x;
      forall i | 0 <= i < |before| && head + i != position
        ensures entry[(head + i) % entry.Length] == before[i]
      {
        if head + i < position {
          SlotsDiffer(head + i, position, entry.Length);
        } else {
          SlotsDiffer(position, head + i, entry.Length);
        }
      }
      assert Contents() == before[position - head := x];
    }
  }

  // ---------------------------------------------------------------- the queue

  class Queue<T(0)> {
    const buf: CircularBuffer<T>
    const delays: CircularBuffer<int>
    const latency: nat
    var endReady: nat
    /** What is queued, with the delays and operate() calls seen. */
    ghost var items: seq<Item<T>>

    ghost function Repr(): set<object> {
      {this, buf, buf.entry, delays, delays.entry}
    }

    ghost predicate Separate() {
      var b: object, d: object, be: object, de: object := buf, delays, buf.entry, delays.entry;
      b != d && be != de && buf.entry.Length == delays.entry.Length
    }

    ghost predicate Valid()
      reads this, buf, buf.entry, delays, delays.entry
    {
      && Separate() && buf.Valid() && delays.Valid()
      && buf.head == delays.head && buf.tail == delays.tail && endReady <= buf.tail
      && buf.Contents() == Values(items) && delays.Contents() == Delays(items)
      && forall i | 0 <= i < |items| :: items[i].given <= latency
    }

    /** The elements before `endReady` are exactly the ready ones, now and after every operate(). */
    ghost predicate Timely()
      reads this, buf
    {
      Ordered(Delays(items)) && ReadyPrefix(items, endReady - buf.head)
    }

    constructor (size: nat, latency: nat)
      ensures Valid() && Timely() && items == [] && this.latency == latency && buf.entry.Length == size
    {
      buf := new CircularBuffer(size);
      delays := new CircularBuffer(size);
      this.latency := latency;
      endReady := 0;
      items := [];
    }

    predicate HasReady()
      reads this, buf
    {
      buf.head != endReady
    }

    /** With timely use, an element is reported ready exactly when the oldest one has seen as many operate() calls
        as its delay, and at least one. */
    lemma HasReadyMeans()
      requires Valid() && Timely()
      ensures HasReady() <==> items != [] && items[0].seen >= 1 && items[0].seen >= items[0].given
    {
    }

    method PushBack(item: T)
      requires Valid() && !buf.Full()
      modifies Repr()
      ensures Valid() && items == old(items) + [Item(item, latency, 0)]
      ensures old(Timely()) ==> Timely()
      ensures endReady == old(endReady) && buf.head == old(buf.head)
    {
      Push(item, latency);
      PushDelays(old(items), Item(item, latency, 0));
      if Ordered(Delays(old(items))) {
        PushKeeps(Delays(old(items)), latency);
      }
    }

    method PushBackReady(item: T)
      requires Valid() && !buf.Full()
      modifies Repr()
      ensures Valid() && items == old(items) + [Item(item, 0, 0)]
      ensures old(Timely()) ==> (Timely() <==> forall k: nat :: !MustWait(Delays(old(items)), k))
      ensures endReady == old(endReady) && buf.head == old(buf.head)
    {
      Push(item, 0);
      PushDelays(old(items), Item(item, 0, 0));
      if Ordered(Delays(old(items))) {
        PushReadyKeeps(Delays(old(items)));
      }
    }

    method Push(item: T, delay: int)
      requires Valid() && !buf.Full() && delay <= latency
      modifies Repr()
      ensures Valid() && items == old(items) + [Item(item, delay, 0)]
      ensures endReady == old(endReady) && buf.head == old(buf.head)
    {
      buf.PushBack(item);
      delays.PushBack(delay);
      PushDelays(items, Item(item, delay, 0));
      items := items + [Item(item, delay, 0)];
    }

    /** A pop keeps the queue timely exactly when an element was ready. */
    method PopFront()
      requires Valid() && buf.Occupancy() > 0
      modifies Repr()
      ensures Valid() && items == old(items)[1..]
      ensures old(Timely()) ==> (Timely() <==> old(HasReady()))
      ensures endReady == old(endReady) && buf.head == old(buf.head) + 1
    {
      buf.PopFront();
      delays.PopFront();
      assert Values(items)[1..] == Values(items[1..]) && Delays(items)[1..] == Delays(items[1..]);
      PopOrdered(Delays(items));
      items := items[1..];
    }

    /** operate(): count down, then search. */
    method Operate()
      requires Valid()
      modifies Repr()
      ensures Valid() && items == Aged(old(items), 1)
      ensures Ordered(Delays(old(items))) ==> Timely()
      ensures buf.head == old(buf.head) && buf.head <= endReady
      ensures endReady == buf.head + PartitionPoint(Delays(items), 0, |items|)
    {
      hide Ordered, ReadyPrefix, PartitionPoint, Ready, Aged, Delays, Values, Decremented;
      ghost var before := items;
      CountDown();
      AgedSame(items);
      items := Aged(items, 1);
      var p := Search();
      endReady := buf.head + p;
      if Ordered(Delays(before)) {
        OperateFinds(before);
      }
    }

    method CountDown()
      requires Separate() && delays.Valid()
      modifies delays.entry
      ensures delays.Valid() && delays.Contents() == Decremented(old(delays.Contents()))
    {
      ghost var before := delays.Contents();
      var position := delays.head;
      while position < delays.tail
        invariant delays.Valid() && delays.head <= position <= delays.tail
        invariant |delays.Contents()| == |before|
        invariant forall i | 0 <= i < |before| ::
          delays.Contents()[i] == if i < position - delays.head then before[i] - 1 else before[i]
      {
        var x := delays.At(position);
        delays.Put(position, x - 1);
        position := position + 1;
      }
      assert delays.Contents() == Decremented(before);
    }

    /** std::partition_point over the delays, as a distance from the front. */
    method Search() returns (p: nat)
      requires Separate() && delays.Valid()
      ensures p <= |delays.Contents()| && p == PartitionPoint(delays.Contents(), 0, |delays.Contents()|)
    {
      hide PartitionPoint;
      ghost var ds := delays.Contents();
      var first, length := delays.head, delays.tail - delays.head;
      while length > 0
        invariant 0 <= length && delays.head <= first && first + length <= delays.tail
        invariant PartitionPoint(ds, 0, |ds|) == PartitionPoint(ds, first - delays.head, length)
      {
        SearchStep(ds, first - delays.head, length);
        var half := length / 2;
        var x := delays.At(first + half);
        if x <= 0 {
          first := first + half + 1;
          length := length - half - 1;
        } else {
          length := half;
        }
      }
      SearchEnd(ds, first - delays.head);
      p := first - delays.head;
    }
  }

  lemma SearchStep(delays: seq<int>, first: nat, length: nat)
    requires first + length <= |delays| && length > 0
    ensures PartitionPoint(delays, first, length)
         == if delays[first + length / 2] <= 0
            then PartitionPoint(delays, first + length / 2 + 1, length - length / 2 - 1)
            else PartitionPoint(delays, first, length / 2)
  {
  }

  lemma SearchEnd(delays: seq<int>, first: nat)
    requires first <= |delays|
    ensures PartitionPoint(delays, first, 0) == first
  {
  }

  lemma AgedSame<T>(items: seq<Item<T>>)
    ensures Delays(Aged(items, 1)) == Decremented(Delays(items)) && Values(Aged(items, 1)) == Values(items)
    ensures forall i | 0 <= i < |items| :: Aged(items, 1)[i].given == items[i].given
  {
  }

  lemma PushDelays<T>(items: seq<Item<T>>, x: Item<T>)
    ensures Delays(items + [x]) == Delays(items) + [Delay(x)] && Values(items + [x]) == Values(items) + [x.value]
  {
  }

  lemma PopOrdered(delays: seq<int>)
    requires |delays| > 0
    ensures Ordered(delays) ==> Ordered(delays[1..])
  {
  }
}
