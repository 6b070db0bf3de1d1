/**
 * Priority queues layered on the heap: every item is stored as the tuple
 * `(priority, counter, item)` (or `(priority, -counter, item)` in the max
 * variant), so that equal priorities leave in the order they arrived.
 */
module PriorityQueues {
  import opened Orders
  import opened HeapTheory
  import opened Heaps

  /**
   * The stored tuple. `stamp` is the queue's counter when the item arrived
   * (its negation in `MaxPriorityQueue`).
   */
  datatype Entry<T> = Entry(priority: int, stamp: int, item: T)

  /**
   * Python's tuple `<` on `(priority, stamp, item)`. Stamps in one queue
   * are distinct, so the comparison is decided before it reaches `item`,
   * and the item is left out (see `StampsDecide`).
   */
  function EntryLess<T>(a: Entry<T>, b: Entry<T>): (below: bool)
    ensures a.priority < b.priority ==> below
    ensures below ==> a.priority <= b.priority
    ensures a.priority == b.priority ==> (below <==> a.stamp < b.stamp)
  {
    a.priority < b.priority || (a.priority == b.priority && a.stamp < b.stamp)
  }

  lemma EntryLessIsStrictWeak<T(!new)>()
    ensures StrictWeakOrder(EntryLess<T>)
  {
  }

  /** No two stored entries share a stamp, and no entry is stored twice. */
  ghost predicate DistinctStamps<T>(ms: multiset<Entry<T>>) {
    && (forall x :: x in ms ==> ms[x] == 1)
    && (forall x, y :: x in ms && y in ms && x.stamp == y.stamp ==> x == y)
  }

  /**
   * With distinct stamps, any two different stored entries are ordered by
   * `(priority, stamp)` one way or the other: the tuple comparison never
   * falls through to the items.
   */
  lemma StampsDecide<T>(ms: multiset<Entry<T>>, x: Entry<T>, y: Entry<T>)
    requires DistinctStamps(ms) && x in ms && y in ms && x != y
    ensures EntryLess(x, y) || EntryLess(y, x)
    ensures !(EntryLess(x, y) && EntryLess(y, x))
  {
  }

  /** `e` leaves a min queue first: every other entry has a larger priority, or the same priority and a later stamp. */
  ghost predicate IsNextMin<T>(e: Entry<T>, ms: multiset<Entry<T>>) {
    e in ms && forall x :: x in ms && x != e ==> EntryLess(e, x)
  }

  /**
   * `e` leaves a max queue first: every other entry has a smaller priority,
   * or the same priority and a smaller stamp, which there means a larger
   * counter, a later arrival.
   */
  ghost predicate IsNextMax<T>(e: Entry<T>, ms: multiset<Entry<T>>) {
    e in ms && forall x :: x in ms && x != e ==> EntryLess(x, e)
  }

  /** At most one entry leaves first, so `dequeue` and `peek` are determined by the contents. */
  lemma NextIsUnique<T>(ms: multiset<Entry<T>>, e: Entry<T>, f: Entry<T>)
    ensures IsNextMin(e, ms) && IsNextMin(f, ms) ==> e == f
    ensures IsNextMax(e, ms) && IsNextMax(f, ms) ==> e == f
  {
    if e != f && e in ms && f in ms {
      assert !(EntryLess(e, f) && EntryLess(f, e));
    }
  }

  /** The root of a heap of distinct-stamped entries is the entry that leaves first. */
  lemma RootIsNext<T>(ms: multiset<Entry<T>>, e: Entry<T>, isMin: bool)
    requires DistinctStamps(ms) && e in ms
    requires forall x :: x in ms ==> !Order(EntryLess, isMin).Compare(x, e)
    ensures isMin ==> IsNextMin(e, ms)
    ensures !isMin ==> IsNextMax(e, ms)
  {
    forall x | x in ms && x != e
      ensures if isMin then EntryLess(e, x) else EntryLess(x, e)
    {
      StampsDecide(ms, x, e);
    }
  }

  /** Removing an entry keeps the stamps distinct. */
  lemma RemoveKeepsDistinct<T>(ms: multiset<Entry<T>>, e: Entry<T>)
    requires DistinctStamps(ms)
    ensures DistinctStamps(ms - multiset{e})
  {
    var rest := ms - multiset{e};
    forall x | x in rest
      ensures x in ms && rest[x] == 1
    {
    }
  }

  /** Adding an entry whose stamp no stored entry has keeps the stamps distinct. */
  lemma AddKeepsDistinct<T>(ms: multiset<Entry<T>>, e: Entry<T>)
    requires DistinctStamps(ms)
    requires forall x :: x in ms ==> x.stamp != e.stamp
    ensures DistinctStamps(ms + multiset{e})
  {
    assert e !in ms;
  }

  /** `PriorityQueue`: a min-heap of `(priority, counter, item)`; smaller priorities leave first. */
  class PriorityQueue<T(!new)> {
    /** `self.heap`, a `MinHeap` */
    const heap: Heap<Entry<T>>
    /** `self.counter`: the stamp of the next item */
    var counter: nat

    /** The stored entries. */
    ghost function Entries(): multiset<Entry<T>>
      reads this, heap
    {
      multiset(heap.heap)
    }

    /** A min-heap over `EntryLess` whose stamps are distinct and all below `counter`. */
    ghost predicate Valid()
      reads this, heap
    {
      && heap.Valid()
      && heap.order == Order(EntryLess, true)
      && (forall e :: e in Entries() ==> 0 <= e.stamp < counter)
      && DistinctStamps(Entries())
    }

    /** `PriorityQueue()`: empty, counter at 0. */
    constructor ()
      ensures Valid() && fresh(heap)
      ensures Entries() == multiset{} && counter == 0
    {
      EntryLessIsStrictWeak<T>();
      heap := new Heap.Min(EntryLess);
      counter := 0;
    }

    /**
     * `enqueue`: stores `(priority, counter, item)` and advances the
     * counter by one; the queue grows by exactly that entry.
     */
    method Enqueue(item: T, priority: int)
      requires Valid()
      modifies this, heap
      ensures Valid()
      ensures counter == old(counter) + 1
      ensures Entries() == old(Entries()) + multiset{Entry(priority, old(counter), item)}
      ensures Size() == old(Size()) + 1
    {
      AddKeepsDistinct(Entries(), Entry(priority, counter, item));
      heap.Insert(Entry(priority, counter, item));
      counter := counter + 1;
    }

    /**
     * `dequeue`: `IndexError` on an empty queue, which stays as it was;
     * otherwise removes the entry that leaves first (smallest priority,
     * earliest among equals) and returns its item, the one `peek` showed.
     */
    method Dequeue() returns (r: Result<T>)
      requires Valid()
      modifies heap
      ensures Valid()
      ensures r == old(Peek())
      ensures old(Size()) == 0 ==> r == Err(IndexError) && Entries() == old(Entries())
      ensures old(Size()) > 0 ==>
        exists e :: IsNextMin(e, old(Entries())) && r == Ok(e.item) && Entries() == old(Entries()) - multiset{e}
      ensures old(Size()) > 0 ==> Size() == old(Size()) - 1
    {
      if IsEmpty() {
        return Err(IndexError);
      }
      ghost var before := Entries();
      var top := heap.Extract();
      RootIsNext(before, top.value, true);
      RemoveKeepsDistinct(before, top.value);
      r := Ok(top.value.item);
    }

    /** `peek`: the item `dequeue` would return, or `IndexError` on an empty queue. */
    function Peek(): (r: Result<T>)
      requires Valid()
      reads this, heap
      ensures Size() == 0 ==> r == Err(IndexError)
      ensures Size() > 0 ==> exists e :: IsNextMin(e, Entries()) && r == Ok(e.item)
    {
      if IsEmpty() then Err(IndexError)
      else
        var top := heap.Peek();
        RootIsNext(Entries(), top.value, true);
        Ok(top.value.item)
    }

    /** `is_empty` */
    function IsEmpty(): (b: bool)
      reads this, heap
      ensures b <==> Size() == 0
    {
      heap.IsEmpty()
    }

    /** `size`: the number of stored entries. */
    function Size(): (n: nat)
      reads this, heap
      ensures n == |Entries()|
    {
      heap.Size()
    }
  }

  /**
   * `MaxPriorityQueue`: a max-heap of `(priority, -counter, item)`; larger
   * priorities leave first, and the negated counter makes equal priorities
   * leave in arrival order rather than in reverse.
   */
  class MaxPriorityQueue<T(!new)> {
    /** `self.heap`, a `MaxHeap` */
    const heap: Heap<Entry<T>>
    /** `self.counter`: minus the stamp of the next item */
    var counter: nat

    /** The stored entries. */
    ghost function Entries(): multiset<Entry<T>>
      reads this, heap
    {
      multiset(heap.heap)
    }

    /** A max-heap over `EntryLess` whose stamps are distinct and all above `-counter`. */
    ghost predicate Valid()
      reads this, heap
    {
      && heap.Valid()
      && heap.order == Order(EntryLess, false)
      && (forall e :: e in Entries() ==> -(counter as int) < e.stamp <= 0)
      && DistinctStamps(Entries())
    }

    /** `MaxPriorityQueue()`: empty, counter at 0. */
    constructor ()
      ensures Valid() && fresh(heap)
      ensures Entries() == multiset{} && counter == 0
    {
      EntryLessIsStrictWeak<T>();
      heap := new Heap.Max(EntryLess);
      counter := 0;
    }

    /**
     * `enqueue`: stores `(priority, -counter, item)` and advances the
     * counter by one; the queue grows by exactly that entry.
     */
    method Enqueue(item: T, priority: int)
      requires Valid()
      modifies this, heap
      ensures Valid()
      ensures counter == old(counter) + 1
      ensures Entries() == old(Entries()) + multiset{Entry(priority, -(old(counter) as int), item)}
      ensures Size() == old(Size()) + 1
    {
      AddKeepsDistinct(Entries(), Entry(priority, -(counter as int), item));
      heap.Insert(Entry(priority, -(counter as int), item));
      counter := counter + 1;
    }

    /**
     * `dequeue`: `IndexError` on an empty queue, which stays as it was;
     * otherwise removes the entry that leaves first (largest priority,
     * earliest among equals) and returns its item, the one `peek` showed.
     */
    method Dequeue() returns (r: Result<T>)
      requires Valid()
      modifies heap
      ensures Valid()
      ensures r == old(Peek())
      ensures old(Size()) == 0 ==> r == Err(IndexError) && Entries() == old(Entries())
      ensures old(Size()) > 0 ==>
        exists e :: IsNextMax(e, old(Entries())) && r == Ok(e.item) && Entries() == old(Entries()) - multiset{e}
      ensures old(Size()) > 0 ==> Size() == old(Size()) - 1
    {
      if IsEmpty() {
        return Err(IndexError);
      }
      ghost var before := Entries();
      var top := heap.Extract();
      RootIsNext(before, top.value, false);
      RemoveKeepsDistinct(before, top.value);
      r := Ok(top.value.item);
    }

    /** `peek`: the item `dequeue` would return, or `IndexError` on an empty queue. */
    function Peek(): (r: Result<T>)
      requires Valid()
      reads this, heap
      ensures Size() == 0 ==> r == Err(IndexError)
      ensures Size() > 0 ==> exists e :: IsNextMax(e, Entries()) && r == Ok(e.item)
    {
      if IsEmpty() then Err(IndexError)
      else
        var top := heap.Peek();
        RootIsNext(Entries(), top.value, false);
        Ok(top.value.item)
    }

    /** `is_empty` */
    function IsEmpty(): (b: bool)
      reads this, heap
      ensures b <==> Size() == 0
    {
      heap.IsEmpty()
    }

    /** `size`: the number of stored entries. */
    function Size(): (n: nat)
      reads this, heap
      ensures n == |Entries()|
    {
      heap.Size()
    }
  }

  /** The entry a `dequeue` removed is any entry known to leave first. */
  lemma DequeuedIs<T>(ms: multiset<Entry<T>>, rest: multiset<Entry<T>>, r: Result<T>, e: Entry<T>, isMin: bool)
    requires exists f :: (if isMin then IsNextMin(f, ms) else IsNextMax(f, ms)) && r == Ok(f.item) && rest == ms - multiset{f}
    requires if isMin then IsNextMin(e, ms) else IsNextMax(e, ms)
    ensures r == Ok(e.item) && rest == ms - multiset{e}
  {
    var f :| (if isMin then IsNextMin(f, ms) else IsNextMax(f, ms)) && r == Ok(f.item) && rest == ms - multiset{f};
    NextIsUnique(ms, e, f);
  }

  /**
   * An `enqueue` on a min queue whose contents and counter are known: the
   * contents become exactly `after`.
   */
  method EnqueueOnto<T(!new)>(pq: PriorityQueue<T>, item: T, priority: int,
                              ghost ms: multiset<Entry<T>>, ghost n: nat, ghost after: multiset<Entry<T>>)
    requires pq.Valid() && pq.Entries() == ms && pq.counter == n
    requires after == ms + multiset{Entry(priority, n, item)}
    modifies pq, pq.heap
    ensures pq.Valid() && pq.Entries() == after && pq.counter == n + 1
  {
    pq.Enqueue(item, priority);
  }

  /**
   * A `dequeue` from a min queue whose first-leaving entry `e` is known
   * returns `e`'s item and leaves `rest`.
   */
  method DequeueFrom<T(!new)>(pq: PriorityQueue<T>, ghost ms: multiset<Entry<T>>, ghost e: Entry<T>,
                              ghost rest: multiset<Entry<T>>) returns (item: T)
    requires pq.Valid() && pq.Entries() == ms && IsNextMin(e, ms) && rest == ms - multiset{e}
    modifies pq.heap
    ensures pq.Valid() && item == e.item && pq.Entries() == rest
  {
    var r := pq.Dequeue();
    DequeuedIs(ms, pq.Entries(), r, e, true);
    item := r.value;
  }

  /** The max-queue counterpart of `EnqueueOnto`; the stored stamp is `-n`. */
  method MaxEnqueueOnto<T(!new)>(pq: MaxPriorityQueue<T>, item: T, priority: int,
                                 ghost ms: multiset<Entry<T>>, ghost n: nat, ghost after: multiset<Entry<T>>)
    requires pq.Valid() && pq.Entries() == ms && pq.counter == n
    requires after == ms + multiset{Entry(priority, -(n as int), item)}
    modifies pq, pq.heap
    ensures pq.Valid() && pq.Entries() == after && pq.counter == n + 1
  {
    pq.Enqueue(item, priority);
  }

  /** The max-queue counterpart of `DequeueFrom`. */
  method MaxDequeueFrom<T(!new)>(pq: MaxPriorityQueue<T>, ghost ms: multiset<Entry<T>>, ghost e: Entry<T>,
                                 ghost rest: multiset<Entry<T>>) returns (item: T)
    requires pq.Valid() && pq.Entries() == ms && IsNextMax(e, ms) && rest == ms - multiset{e}
    modifies pq.heap
    ensures pq.Valid() && item == e.item && pq.Entries() == rest
  {
    var r := pq.Dequeue();
    DequeuedIs(ms, pq.Entries(), r, e, false);
    item := r.value;
  }

  /** The contents after each enqueue of the five-task scenario. */
  lemma TaskArrivals<T>(a: Entry<T>, b: Entry<T>, c: Entry<T>, d: Entry<T>, e: Entry<T>)
    ensures multiset{} + multiset{a} == multiset{a}
    ensures multiset{a} + multiset{b} == multiset{a, b}
    ensures multiset{a, b} + multiset{c} == multiset{a, b, c}
    ensures multiset{a, b, c} + multiset{d} == multiset{a, b, c, d}
    ensures multiset{a, b, c, d} + multiset{e} == multiset{a, b, c, d, e}
  {
  }

  /** The entry that leaves first, and the contents after it leaves, at each dequeue of the five-task scenario. */
  lemma TaskDepartures<T>(a: Entry<T>, b: Entry<T>, c: Entry<T>, d: Entry<T>, e: Entry<T>)
    requires a.priority == 5 && b.priority == 1 && c.priority == 3 && d.priority == 2 && e.priority == 4
    ensures IsNextMin(b, multiset{a, b, c, d, e}) && multiset{a, b, c, d, e} - multiset{b} == multiset{a, c, d, e}
    ensures IsNextMin(d, multiset{a, c, d, e}) && multiset{a, c, d, e} - multiset{d} == multiset{a, c, e}
    ensures IsNextMin(c, multiset{a, c, e}) && multiset{a, c, e} - multiset{c} == multiset{a, e}
    ensures IsNextMin(e, multiset{a, e}) && multiset{a, e} - multiset{e} == multiset{a}
    ensures IsNextMin(a, multiset{a}) && multiset{a} - multiset{a} == multiset{}
  {
  }

  /**
   * The priority-queue scenario: tasks A to E enqueued with priorities
   * 5, 1, 3, 2, 4 come out as B, D, C, E, A, and the queue is then empty.
   */
  method TaskOrderExample<T(!new)>(ta: T, tb: T, tc: T, td: T, te: T) returns (order: seq<T>)
    ensures order == [tb, td, tc, te, ta]
  {
    var a, b, c, d, e := Entry(5, 0, ta), Entry(1, 1, tb), Entry(3, 2, tc), Entry(2, 3, td), Entry(4, 4, te);
    var pq := new PriorityQueue<T>();
    TaskArrivals(a, b, c, d, e);
    EnqueueOnto(pq, ta, 5, multiset{}, 0, multiset{a});
    EnqueueOnto(pq, tb, 1, multiset{a}, 1, multiset{a, b});
    EnqueueOnto(pq, tc, 3, multiset{a, b}, 2, multiset{a, b, c});
    EnqueueOnto(pq, td, 2, multiset{a, b, c}, 3, multiset{a, b, c, d});
    EnqueueOnto(pq, te, 4, multiset{a, b, c, d}, 4, multiset{a, b, c, d, e});
    TaskDepartures(a, b, c, d, e);
    var x1 := DequeueFrom(pq, multiset{a, b, c, d, e}, b, multiset{a, c, d, e});
    var x2 := DequeueFrom(pq, multiset{a, c, d, e}, d, multiset{a, c, e});
    var x3 := DequeueFrom(pq, multiset{a, c, e}, c, multiset{a, e});
    var x4 := DequeueFrom(pq, multiset{a, e}, e, multiset{a});
    var x5 := DequeueFrom(pq, multiset{a}, a, multiset{});
    assert pq.IsEmpty();
    order := [x1, x2, x3, x4, x5];
  }

  /** The contents after each step of the equal-priority scenario, in both queues. */
  lemma EqualPriorityStages<T>(x: T, y: T)
    ensures multiset{} + multiset{Entry(7, 0, x)} == multiset{Entry(7, 0, x)}
    ensures multiset{Entry(7, 0, x)} + multiset{Entry(7, 1, y)} == multiset{Entry(7, 0, x), Entry(7, 1, y)}
    ensures multiset{Entry(7, 0, x)} + multiset{Entry(7, -1, y)} == multiset{Entry(7, 0, x), Entry(7, -1, y)}
    ensures IsNextMin(Entry(7, 0, x), multiset{Entry(7, 0, x), Entry(7, 1, y)})
    ensures multiset{Entry(7, 0, x), Entry(7, 1, y)} - multiset{Entry(7, 0, x)} == multiset{Entry(7, 1, y)}
    ensures IsNextMax(Entry(7, 0, x), multiset{Entry(7, 0, x), Entry(7, -1, y)})
    ensures multiset{Entry(7, 0, x), Entry(7, -1, y)} - multiset{Entry(7, 0, x)} == multiset{Entry(7, -1, y)}
  {
  }

  /**
   * First in, first out among equal priorities in the min queue: X then Y
   * enqueued with the same priority come out X first.
   */
  method EqualPriorityMinExample<T(!new)>(x: T, y: T) returns (first: T)
    ensures first == x
  {
    EqualPriorityStages(x, y);
    var pq := new PriorityQueue<T>();
    EnqueueOnto(pq, x, 7, multiset{}, 0, multiset{Entry(7, 0, x)});
    EnqueueOnto(pq, y, 7, multiset{Entry(7, 0, x)}, 1, multiset{Entry(7, 0, x), Entry(7, 1, y)});
    first := DequeueFrom(pq, multiset{Entry(7, 0, x), Entry(7, 1, y)}, Entry(7, 0, x), multiset{Entry(7, 1, y)});
  }

  /**
   * First in, first out among equal priorities in the max queue too: the
   * negated counter keeps X ahead of Y rather than making the order last
   * in, first out.
   */
  method EqualPriorityMaxExample<T(!new)>(x: T, y: T) returns (first: T)
    ensures first == x
  {
    EqualPriorityStages(x, y);
    var mq := new MaxPriorityQueue<T>();
    MaxEnqueueOnto(mq, x, 7, multiset{}, 0, multiset{Entry(7, 0, x)});
    MaxEnqueueOnto(mq, y, 7, multiset{Entry(7, 0, x)}, 1, multiset{Entry(7, 0, x), Entry(7, -1, y)});
    first := MaxDequeueFrom(mq, multiset{Entry(7, 0, x), Entry(7, -1, y)}, Entry(7, 0, x), multiset{Entry(7, -1, y)});
  }
}
