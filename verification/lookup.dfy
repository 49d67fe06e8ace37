/**
  The operations that read a deque without changing it (pkg/deque.go:85-124,
  263-316): indexed lookup from the nearer end, counting, iteration and copying.
 */
module Lookup {
  import opened Nodes
  import opened Errors
  import opened Deques
  import Mutations
  import Seqs

  /** `TryPeek` (pkg/deque.go:280-307): an out-of-range index is reported as
      `PeekError`; otherwise the element is reached by `index` steps along `next`
      from the head when `index < len / 2`, else by `len - 1 - index` steps along
      `prev` from the tail. `len` is never negative, so Go's truncating division
      agrees with Dafny's. */
  function TryPeek<T>(d: Deque<T>, index: int): (r: Run<Result<T>>)
    ensures r.Ok? && r.value.Failure? <==> index < 0 || index >= d.len
    ensures r.Ok? && r.value.Failure? ==> r.value.error == PeekError(index)
  {
    if index < 0 || index >= d.len then Ok(Failure(PeekError(index)))
    else if index < d.len / 2 then
      var p :- FollowNext(d.heap, d.head, index);
      var n :- Load(d.heap, p);
      Ok(Success(n.value))
    else
      var p :- FollowPrev(d.heap, d.tail, d.len - 1 - index);
      var n :- Load(d.heap, p);
      Ok(Success(n.value))
  }

  /** `TryPeek` on a deque whose `next` links are intact and whose `prev` links are
      correct only beyond position `m` (nil at and before it): indices from the
      first half and indices from `m` on are found; an index in the second half
      but before `m` makes the backward walk dereference `nil`. */
  lemma TryPeekWithPrevFrom<T>(d: Deque<T>, m: nat, index: int)
    requires Forward(d) && m < d.len && PrevChainFrom(d.heap, Chain(d), m)
    ensures TryPeek(d, index) ==
      if index < 0 || index >= |Elems(d)| then Ok(Failure(PeekError(index)))
      else if index < d.len / 2 || m <= index then Ok(Success(Elems(d)[index]))
      else NilDeref
  {
    var c := Chain(d);
    ElemsLength(d);
    if 0 <= index < d.len {
      if index < d.len / 2 {
        FollowNextAlongChain(d.heap, c, 0, index);
      } else if m <= index {
        FollowPrevAlongChain(d.heap, c, m, d.len - 1, d.len - 1 - index);
      } else {
        FollowPrevPastBreak(d.heap, c, m, d.len - 1, d.len - 1 - index);
      }
    }
  }

  /** An index in the first half is reached along `next` alone, so it is found
      whatever state the `prev` links are in. */
  lemma TryPeekFrontHalf<T>(d: Deque<T>, index: int)
    requires Forward(d) && 0 <= index < d.len / 2
    ensures |Elems(d)| == d.len
    ensures TryPeek(d, index) == Ok(Success(Elems(d)[index]))
  {
    ElemsLength(d);
    FollowNextAlongChain(d.heap, Chain(d), 0, index);
  }

  /** On a doubly linked deque `TryPeek(i)` returns `PeekError{i}` exactly when `i`
      is out of range, and the `i`-th element otherwise, never panicking. */
  lemma TryPeekCorrect<T>(d: Deque<T>, index: int)
    requires Linked(d)
    ensures TryPeek(d, index) ==
      if index < 0 || index >= |Elems(d)| then Ok(Failure(PeekError(index)))
      else Ok(Success(Elems(d)[index]))
  {
    ElemsLength(d);
    if d.len > 0 {
      TryPeekWithPrevFrom(d, 0, index);
    }
  }

  /** `Peek` (pkg/deque.go:310-316), for callers that have checked the index; the
      panic on a bad index is not modelled. A first-half index is reached along
      `next` alone, so it is found even after rotations have broken `prev`. */
  function Peek<T>(d: Deque<T>, index: int): (v: T)
    requires Forward(d) && 0 <= index < d.len && (Linked(d) || index < d.len / 2)
    ensures v == Elems(d)[index]
  {
    ElemsLength(d);
    if index < d.len / 2 then
      TryPeekFrontHalf(d, index);
      TryPeek(d, index).value.value
    else
      TryPeekCorrect(d, index);
      TryPeek(d, index).value.value
  }

  /** `Count` (pkg/deque.go:264-277): walk `next` from the head until `nil`,
      counting the elements equal to `v`. */
  method Count<T(==)>(d: Deque<T>, v: T) returns (r: int)
    requires Forward(d)
    ensures r == multiset(Elems(d))[v]
  {
    ghost var c := Chain(d);
    ghost var s := Elems(d);
    r := 0;
    var n := d.head;
    ghost var j := 0;
    while n != Nil
      invariant 0 <= j <= |c|
      invariant n == if j < |c| then Ref(c[j]) else Nil
      invariant r == multiset(s[..j])[v]
      decreases |c| - j
    {
      var node := d.heap[n.id];
      assert s[..j + 1] == s[..j] + [node.value];
      if node.value == v {
        r := r + 1;
      }
      n := node.next;
      j := j + 1;
    }
    assert s[..j] == s;
  }

  /** `Values` (pkg/deque.go:86-97), consumed to the end: the elements met walking
      `next` from the head until `nil`. */
  method Values<T>(d: Deque<T>) returns (vs: seq<T>)
    requires Forward(d)
    ensures vs == Elems(d)
  {
    ghost var c := Chain(d);
    vs := [];
    var n := d.head;
    while n != Nil
      invariant |vs| <= |c|
      invariant n == if |vs| < |c| then Ref(c[|vs|]) else Nil
      invariant vs == Elems(d)[..|vs|]
      decreases |c| - |vs|
    {
      var node := d.heap[n.id];
      vs := vs + [node.value];
      n := node.next;
    }
    assert Elems(d)[..|vs|] == Elems(d);
  }

  /** `All` (pkg/deque.go:100-110), consumed to the end: each element paired with its
      position, counted alongside `Values`. */
  method All<T>(d: Deque<T>) returns (ps: seq<(int, T)>)
    requires Forward(d)
    ensures |ps| == |Elems(d)|
    ensures forall i :: 0 <= i < |ps| ==> ps[i] == (i, Elems(d)[i])
  {
    var vs := Values(d);
    ps := [];
    var i := 0;
    while i < |vs|
      invariant 0 <= i <= |vs|
      invariant |ps| == i
      invariant forall k :: 0 <= k < i ==> ps[k] == (k, vs[k])
    {
      ps := ps + [(i, vs[i])];
      i := i + 1;
    }
  }

  /** `Copy` (pkg/deque.go:113-124): a fresh deque of the same capacity receiving
      every element through `append`. Its nodes live in its own arena, so nothing is
      shared with the source. */
  method Copy<T>(d: Deque<T>) returns (r: Deque<T>)
    requires Forward(d) && InCapacity(d)
    ensures Valid(r) && Elems(r) == Elems(d) && r.capacity == d.capacity
  {
    var vs := Values(d);
    ElemsLength(d);
    r := NewDeque(d.capacity);
    var i := 0;
    while i < |vs|
      invariant 0 <= i <= |vs|
      invariant Valid(r) && r.capacity == d.capacity
      invariant Elems(r) == vs[..i]
    {
      Mutations.AppendCorrect(r, vs[i]);
      Seqs.PushBackShape(vs[..i], vs[i], d.capacity);
      assert vs[..i + 1] == vs[..i] + [vs[i]];
      r := Mutations.Append(r, vs[i]).value;
      i := i + 1;
    }
    assert vs[..i] == vs;
  }
}
