/**
  The deque record (pkg/deque.go, type `Deque`): the two ends of a doubly linked
  list, its length, and the capacity, with the representation invariant that ties
  them to a sequence of elements. The mutex is not modelled.
 */
module Deques {
  import opened Nodes
  import Seqs

  /** `capacity < 0` means unlimited. `heap` is the arena holding the nodes. */
  datatype Deque<T> = Deque(head: Ptr, tail: Ptr, len: nat, capacity: int, heap: Heap<T>)

  /** The nodes reached from `head` along `next`, at most `len` of them. */
  function Chain<T>(d: Deque<T>): seq<nat>
  {
    Walk(d.heap, d.head, d.len)
  }

  /** The elements of the deque, head first. */
  function Elems<T>(d: Deque<T>): seq<T>
  {
    ValuesAt(d.heap, Chain(d))
  }

  /** `c` is the deque's list of nodes as seen along `next`: `len` distinct nodes
      from `head` to `tail`, ending in `nil`; `head` and `tail` are `nil` exactly
      when the list is empty. */
  ghost predicate LinkedAs<T>(d: Deque<T>, c: seq<nat>)
  {
    && |c| == d.len
    && NextChain(d.heap, c)
    && (if |c| == 0 then d.head == Nil && d.tail == Nil
        else d.head == Ref(c[0]) && d.tail == Ref(c[|c| - 1]))
  }

  /** The forward half of the invariant: the `next` links form the list. */
  ghost predicate Forward<T>(d: Deque<T>)
  {
    LinkedAs(d, Chain(d))
  }

  /** The full doubly linked invariant: the `prev` links mirror the `next` links
      and the head has no predecessor. */
  ghost predicate Linked<T>(d: Deque<T>)
  {
    Forward(d) && PrevChain(d.heap, Chain(d))
  }

  /** A bounded deque holds at most `capacity` elements. */
  ghost predicate InCapacity<T>(d: Deque<T>)
  {
    d.capacity < 0 || d.len <= d.capacity
  }

  ghost predicate Valid<T>(d: Deque<T>)
  {
    Linked(d) && InCapacity(d)
  }

  /** The list of nodes is determined by the links: whatever `c` satisfies
      `LinkedAs` is the chain walked from `head`. */
  lemma ChainIsUnique<T>(d: Deque<T>, c: seq<nat>)
    requires LinkedAs(d, c)
    ensures Chain(d) == c
    ensures Forward(d)
  {
    if |c| > 0 {
      WalkAlongChain(d.heap, c, 0);
    }
  }

  /** Under the forward invariant there are `len` elements and the deque is empty
      exactly when `head` (or `tail`) is `nil`. */
  lemma ElemsLength<T>(d: Deque<T>)
    requires Forward(d)
    ensures |Elems(d)| == d.len
    ensures d.len == 0 <==> d.head == Nil
    ensures d.len == 0 <==> d.tail == Nil
  {
  }

  /** Under the forward invariant `head` holds the first element and `tail` the last. */
  lemma EndValues<T>(d: Deque<T>)
    requires Forward(d) && d.len > 0
    ensures d.head.Ref? && d.head.id < |d.heap| && d.heap[d.head.id].value == Elems(d)[0]
    ensures d.tail.Ref? && d.tail.id < |d.heap| && d.heap[d.tail.id].value == Elems(d)[d.len - 1]
  {
  }

  // ---------------------------------------------------------------------------
  // Construction (pkg/deque.go:35-44)

  /** An empty deque with the given capacity; any negative capacity is unlimited. */
  function NewDeque<T>(capacity: int): (r: Deque<T>)
    ensures Valid(r) && Elems(r) == []
    ensures r.capacity == capacity
    ensures r.head == Nil && r.tail == Nil
  {
    Deque(Nil, Nil, 0, capacity, [])
  }

  /** An empty deque of unlimited capacity, which reports capacity -1. */
  function NewUnlimitedDeque<T>(): (r: Deque<T>)
    ensures Valid(r) && Elems(r) == []
    ensures r.capacity == -1 && IsUnlimited(r)
  {
    NewDeque(-1)
  }

  // ---------------------------------------------------------------------------
  // Capacity queries (pkg/deque.go:60-83)

  predicate IsEmpty<T>(d: Deque<T>): (r: bool)
    ensures Forward(d) ==> (r <==> Elems(d) == [])
  {
    d.len == 0
  }

  function GetCapacity<T>(d: Deque<T>): int
  {
    d.capacity
  }

  /** Unlimited: a sequence of any length fits the bound. */
  predicate IsUnlimited<T>(d: Deque<T>): (r: bool)
    ensures r <==> forall s: seq<int> :: Seqs.Fits(s, d.capacity)
  {
    var b := GetCapacity(d) < 0;
    assert !b ==> !Seqs.Fits(seq(d.capacity + 1, _ => 0), d.capacity);
    b
  }

  predicate IsFull<T>(d: Deque<T>): (r: bool)
    ensures Forward(d) ==> (r <==> 0 <= d.capacity <= |Elems(d)|)
  {
    !IsUnlimited(d) && d.len >= GetCapacity(d)
  }

  /** More elements than the bound allows; only transiently true inside an insertion. */
  predicate IsOverflowing<T>(d: Deque<T>): (r: bool)
    ensures InCapacity(d) ==> !r
    ensures Forward(d) ==> (r <==> !Seqs.Fits(Elems(d), d.capacity))
  {
    !IsUnlimited(d) && d.len > GetCapacity(d)
  }

  /** On a valid deque the queries read as statements about its elements: empty
      means no elements, full means bounded with exactly `capacity` elements (an
      unlimited deque is never full), and nothing overflows. */
  lemma CapacityQueries<T>(d: Deque<T>)
    requires Valid(d)
    ensures IsEmpty(d) <==> Elems(d) == []
    ensures IsFull(d) <==> d.capacity >= 0 && |Elems(d)| == d.capacity
    ensures IsUnlimited(d) ==> !IsFull(d)
    ensures !IsOverflowing(d)
    ensures Seqs.Fits(Elems(d), d.capacity)
  {
    ElemsLength(d);
  }
}
