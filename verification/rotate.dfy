/**
  Rotation (pkg/deque.go:318-361), as written and as evidently intended.

  As written, `rotateRight` re-links the moved node but leaves the old head's
  `prev` nil, and `rotateLeft` never touches a `prev` link. The `next` links stay
  correct, so the elements rotate as documented, but the backward half of the
  doubly linked invariant is lost, and later code that walks or reads `prev`
  (a further right rotation, `tryPop`, `TryPeek` from the tail) can dereference
  nil. `RotateRightFixed`/`RotateLeftFixed` add the missing links.
 */
module Rotation {
  import opened Nodes
  import opened Errors
  import opened Deques
  import Seqs
  import Mutations
  import Lookup

  // ---------------------------------------------------------------------------
  // As written

  /** `rotateRight` (pkg/deque.go:319-326). */
  function RotateRight<T>(d: Deque<T>): (r: Run<Deque<T>>)
    ensures r.Ok? ==> r.value.len == d.len && r.value.capacity == d.capacity
  {
    var t := d.tail;
    var h1 :- SetNext(d.heap, t, d.head);
    var tn :- Load(h1, t);
    var newTail := tn.prev;
    var h2 :- SetNext(h1, newTail, Nil);
    var h3 :- SetPrev(h2, t, Nil);
    Ok(d.(head := t, tail := newTail, heap := h3))
  }

  /** `rotateLeft` (pkg/deque.go:329-336). */
  function RotateLeft<T>(d: Deque<T>): (r: Run<Deque<T>>)
    ensures r.Ok? ==> r.value.len == d.len && r.value.capacity == d.capacity
  {
    var hd := d.head;
    var hn :- Load(d.heap, hd);
    var newHead := hn.next;
    var h1 :- SetNext(d.heap, hd, Nil);
    var h2 :- SetNext(h1, d.tail, hd);
    Ok(d.(head := newHead, tail := hd, heap := h2))
  }

  /** `n` iterations of the rotation loop (pkg/deque.go:358-360) with `rotateRight`. */
  function RotateRightTimes<T>(d: Deque<T>, n: nat): (r: Run<Deque<T>>)
    ensures r.Ok? ==> r.value.len == d.len && r.value.capacity == d.capacity
    decreases n
  {
    if n == 0 then Ok(d)
    else
      var d1 :- RotateRightTimes(d, n - 1);
      RotateRight(d1)
  }

  /** `n` iterations of the rotation loop with `rotateLeft`. */
  function RotateLeftTimes<T>(d: Deque<T>, n: nat): (r: Run<Deque<T>>)
    ensures r.Ok? ==> r.value.len == d.len && r.value.capacity == d.capacity
    decreases n
  {
    if n == 0 then Ok(d)
    else
      var d1 :- RotateLeftTimes(d, n - 1);
      RotateLeft(d1)
  }

  /** The most negative value of Go's 64-bit `int`, the one count whose negation
      wraps around to itself. */
  const MinInt: int := -0x8000_0000_0000_0000

  /** `Rotate` (pkg/deque.go:340-361): nothing for fewer than two elements, else `n`
      right steps for `n >= 0` and `-n` left steps otherwise. For `MinInt` the
      negation `n = -n` leaves `n` negative, and ranging over a negative count runs
      the loop zero times, so nothing happens either. */
  function Rotate<T>(d: Deque<T>, n: int): (r: Run<Deque<T>>)
    ensures r.Ok? ==> r.value.capacity == d.capacity && r.value.len == d.len
  {
    if d.len < 2 then Ok(d)
    else if n >= 0 then RotateRightTimes(d, n)
    else if n == MinInt then Ok(d)
    else RotateLeftTimes(d, -n)
  }

  // ---------------------------------------------------------------------------
  // Single steps on a chain

  /** The arena after the three writes of a right step on the chain `c`: the tail
      links forward to the head, the node before it ends the list, and the tail's
      `prev` is cleared. */
  ghost function RightStepHeap<T>(h: Heap<T>, c: seq<nat>): Heap<T>
    requires InArena(h, c) && |c| >= 2
  {
    var t := c[|c| - 1];
    var p := c[|c| - 2];
    var h1 := h[t := h[t].(next := Ref(c[0]))];
    var h2 := h1[p := h1[p].(next := Nil)];
    h2[t := h2[t].(prev := Nil)]
  }

  /** What a right step does to each node of the chain. */
  lemma RightStepCells<T>(h: Heap<T>, c: seq<nat>)
    requires NextChain(h, c) && |c| >= 2
    ensures var h3 := RightStepHeap(h, c);
      var t := c[|c| - 1];
      && |h3| == |h|
      && h3[t] == h[t].(next := Ref(c[0]), prev := Nil)
      && (forall i :: 0 <= i < |c| - 1 ==>
            && h3[c[i]].value == h[c[i]].value
            && h3[c[i]].prev == h[c[i]].prev
            && h3[c[i]].next == (if i < |c| - 2 then h[c[i]].next else Nil))
  {
    var k := |c|;
    var t := c[k - 1];
    var p := c[k - 2];
    forall i | 0 <= i < k - 1
      ensures c[i] != t
      ensures i < k - 2 ==> c[i] != p
    {
    }
  }

  /** After a right step the chain, rotated, still runs along `next`. */
  lemma RightStepNext<T>(h: Heap<T>, c: seq<nat>)
    requires NextChain(h, c) && |c| >= 2
    ensures NextChain(RightStepHeap(h, c), Seqs.RotR(c))
    ensures ValuesAt(RightStepHeap(h, c), Seqs.RotR(c)) == Seqs.RotR(ValuesAt(h, c))
  {
    var k := |c|;
    var h3 := RightStepHeap(h, c);
    RightStepCells(h, c);
    var c' := Seqs.RotR(c);
    assert c' == [c[k - 1]] + c[..k - 1];
    assert Distinct(c') by {
      forall i, j | 0 <= i < j < |c'|
        ensures c'[i] != c'[j]
      {
        if i > 0 {
          assert c'[i] == c[i - 1] && c'[j] == c[j - 1];
        }
      }
    }
    forall i | 0 <= i < |c'| - 1
      ensures h3[c'[i]].next == Ref(c'[i + 1])
    {
      if i > 0 {
        assert c'[i] == c[i - 1] && c'[i + 1] == c[i];
      }
    }
    var vs := ValuesAt(h, c);
    assert Seqs.RotR(vs) == [vs[k - 1]] + vs[..k - 1];
  }

  /** A right step on a chain whose `prev` links are correct beyond `m <= |c| - 2`:
      the last node moves to the front, and the `prev` links are now correct only
      beyond `m + 1` (the moved node's and the old head's are nil). */
  lemma RightStepOnChain<T>(h: Heap<T>, c: seq<nat>, m: nat)
    requires NextChain(h, c) && |c| >= 2 && m <= |c| - 2 && PrevChainFrom(h, c, m)
    ensures h[c[|c| - 1]].prev == Ref(c[|c| - 2])
    ensures NextChain(RightStepHeap(h, c), Seqs.RotR(c))
    ensures PrevChainFrom(RightStepHeap(h, c), Seqs.RotR(c), m + 1)
    ensures ValuesAt(RightStepHeap(h, c), Seqs.RotR(c)) == Seqs.RotR(ValuesAt(h, c))
  {
    var k := |c|;
    var h3 := RightStepHeap(h, c);
    RightStepNext(h, c);
    RightStepCells(h, c);
    var c' := Seqs.RotR(c);
    assert c' == [c[k - 1]] + c[..k - 1];
    forall q | 0 <= q <= m + 1 && q < |c'|
      ensures h3[c'[q]].prev == Nil
    {
      if q > 0 {
        assert c'[q] == c[q - 1];
      }
    }
    forall q | m + 1 < q < |c'|
      ensures h3[c'[q]].prev == Ref(c'[q - 1])
    {
      assert c'[q] == c[q - 1] && c'[q - 1] == c[q - 2];
    }
  }

  /** A left step on a chain: the first node moves to the end; no `prev` link changes. */
  lemma LeftStepOnChain<T>(h: Heap<T>, c: seq<nat>)
    requires NextChain(h, c) && |c| >= 2
    ensures var k := |c|;
      var h1 := h[c[0] := h[c[0]].(next := Nil)];
      var h2 := h1[c[k - 1] := h1[c[k - 1]].(next := Ref(c[0]))];
      && |h2| == |h|
      && (forall x :: 0 <= x < |h| ==> h2[x].prev == h[x].prev)
      && NextChain(h2, Seqs.RotL(c))
      && ValuesAt(h2, Seqs.RotL(c)) == Seqs.RotL(ValuesAt(h, c))
  {
    var k := |c|;
    var t := c[k - 1];
    var h1 := h[c[0] := h[c[0]].(next := Nil)];
    var h2 := h1[t := h1[t].(next := Ref(c[0]))];
    var c' := Seqs.RotL(c);
    assert c' == c[1..] + [c[0]];
    forall i | 1 <= i < k
      ensures c'[i - 1] == c[i] && c[i] != c[0]
      ensures h2[c[i]].value == h[c[i]].value
      ensures i < k - 1 ==> h2[c[i]].next == h[c[i]].next
    {
      if i < k - 1 {
        assert c[i] != t;
      }
    }
    assert h2[c[0]].next == Nil;
    forall i, j | 0 <= i < j < |c'|
      ensures c'[i] != c'[j]
    {
      if j < k - 1 {
        assert c'[i] == c[i + 1] && c'[j] == c[j + 1];
      }
    }
    forall i | 0 <= i < |c'| - 1
      ensures h2[c'[i]].next == Ref(c'[i + 1])
    {
      if i < k - 2 {
        assert h2[c[i + 1]].next == h[c[i + 1]].next;
      }
    }
    assert NextChain(h2, c');
    var vs := ValuesAt(h, c);
    assert Seqs.RotL(vs) == vs[1..] + [vs[0]];
    assert ValuesAt(h2, c') == Seqs.RotL(vs);
  }

  // ---------------------------------------------------------------------------
  // Rotations of a deque, as written

  /** The state `m` right rotations leave a doubly linked deque in: the `next`
      links form the list, and the `prev` links are nil at positions `0..m` and
      correct beyond. A valid non-empty deque is in this state with `m == 0`. */
  ghost predicate RightRotated<T>(d: Deque<T>, m: nat)
  {
    Forward(d) && m < d.len && PrevChainFrom(d.heap, Chain(d), m)
  }

  /** A right step on a deque whose `prev` links are broken only up to `m <= len - 2`
      rotates the elements and breaks one more `prev` link. */
  lemma RotateRightStep<T>(d: Deque<T>, m: nat)
    requires RightRotated(d, m) && 2 <= d.len && m <= d.len - 2
    ensures RotateRight(d).Ok?
    ensures var r := RotateRight(d).value;
      && RightRotated(r, m + 1)
      && Chain(r) == Seqs.RotR(Chain(d))
      && Elems(r) == Seqs.RotR(Elems(d))
  {
    var h := d.heap;
    var c := Chain(d);
    var k := |c|;
    var t := c[k - 1];
    var p := c[k - 2];
    RightStepOnChain(h, c, m);
    var h3 := RightStepHeap(h, c);
    var r := d.(head := Ref(t), tail := Ref(p), heap := h3);
    assert RotateRight(d) == Ok(r);
    var c' := Seqs.RotR(c);
    assert LinkedAs(r, c');
    ChainIsUnique(r, c');
  }

  /** A deque with at least two elements whose tail has no predecessor link
      cannot be rotated right or popped on the right: both dereference nil. */
  lemma TailWithoutPrev<T>(d: Deque<T>, zero: T)
    requires 2 <= d.len && d.tail.Ref? && d.tail.id < |d.heap|
    requires d.heap[d.tail.id].prev == Nil
    ensures RotateRight(d) == NilDeref
    ensures Mutations.TryPop(d, zero) == NilDeref
  {
  }

  /** Once every `prev` link is nil, a further right step reads the tail's nil
      `prev` and dereferences it. */
  lemma RotateRightAtBreak<T>(d: Deque<T>)
    requires 2 <= d.len && RightRotated(d, d.len - 1)
    ensures RotateRight(d) == NilDeref
  {
    var c := Chain(d);
    assert d.tail == Ref(c[d.len - 1]);
    assert d.heap[c[d.len - 1]].prev == Nil;
    TailWithoutPrev(d, d.heap[c[0]].value);
  }

  /** The last of `n` right steps, taken on its own. */
  lemma RotateRightTimesLast<T>(d: Deque<T>, n: nat)
    requires 0 < n && RotateRightTimes(d, n - 1).Ok?
    ensures RotateRightTimes(d, n) == RotateRight(RotateRightTimes(d, n - 1).value)
    ensures RotateRightTimes(d, n - 1).value.len == d.len
  {
  }

  /** From the state `m` right rotations leave, `n` more right steps succeed and
      rotate the elements as long as `m + n < len`. */
  lemma {:induction false} RotateRightTimesFrom<T>(d: Deque<T>, m: nat, n: nat)
    requires RightRotated(d, m) && 2 <= d.len && m + n < d.len
    ensures RotateRightTimes(d, n).Ok?
    ensures RightRotated(RotateRightTimes(d, n).value, m + n)
    ensures Elems(RotateRightTimes(d, n).value) == Seqs.RotRTimes(Elems(d), n)
    decreases n
  {
    if n > 0 {
      RotateRightTimesFrom(d, m, n - 1);
      RotateRightTimesLast(d, n);
      RotateRightStep(RotateRightTimes(d, n - 1).value, m + n - 1);
    }
  }

  /** From the state `m` right rotations leave, `len - m` more right steps reach a
      tail whose `prev` is nil and dereference it. */
  lemma {:induction false} RotateRightTimesPanics<T>(d: Deque<T>, m: nat, n: nat)
    requires RightRotated(d, m) && 2 <= d.len && d.len <= m + n
    ensures RotateRightTimes(d, n) == NilDeref
    decreases n
  {
    if m + n - 1 < d.len {
      RotateRightTimesFrom(d, m, n - 1);
      RotateRightTimesLast(d, n);
      RotateRightAtBreak(RotateRightTimes(d, n - 1).value);
    } else {
      RotateRightTimesPanics(d, m, n - 1);
    }
  }

  /** A left step rotates the elements, keeps the `next` links a list, and changes
      no `prev` link. */
  lemma RotateLeftStep<T>(d: Deque<T>)
    requires Forward(d) && 2 <= d.len
    ensures RotateLeft(d).Ok?
    ensures var r := RotateLeft(d).value;
      && Forward(r)
      && Chain(r) == Seqs.RotL(Chain(d))
      && Elems(r) == Seqs.RotL(Elems(d))
      && |r.heap| == |d.heap|
      && (forall x :: 0 <= x < |d.heap| ==> r.heap[x].prev == d.heap[x].prev)
  {
    var h := d.heap;
    var c := Chain(d);
    var k := |c|;
    LeftStepOnChain(h, c);
    var h1 := h[c[0] := h[c[0]].(next := Nil)];
    var h2 := h1[c[k - 1] := h1[c[k - 1]].(next := Ref(c[0]))];
    var r := d.(head := Ref(c[1]), tail := Ref(c[0]), heap := h2);
    assert RotateLeft(d) == Ok(r);
    var c' := Seqs.RotL(c);
    assert LinkedAs(r, c');
    ChainIsUnique(r, c');
  }

  /** Any number of left steps succeed on a deque whose `next` links are intact,
      rotate the elements, and change no `prev` link. */
  lemma {:induction false} RotateLeftTimesCorrect<T>(d: Deque<T>, n: nat)
    requires Forward(d) && 2 <= d.len
    ensures RotateLeftTimes(d, n).Ok?
    ensures var r := RotateLeftTimes(d, n).value;
      && Forward(r)
      && Chain(r) == Seqs.RotLTimes(Chain(d), n)
      && Elems(r) == Seqs.RotLTimes(Elems(d), n)
      && |r.heap| == |d.heap|
      && (forall x :: 0 <= x < |d.heap| ==> r.heap[x].prev == d.heap[x].prev)
    decreases n
  {
    if n > 0 {
      RotateLeftTimesCorrect(d, n - 1);
      var d1 := RotateLeftTimes(d, n - 1).value;
      RotateLeftStep(d1);
    }
  }

  /** `Rotate` on a valid deque, as written: with fewer than two elements nothing
      happens; `0 <= n < len` right steps rotate the elements but leave the `prev`
      links of the first `n + 1` nodes nil; `n >= len` right steps dereference nil;
      left steps rotate the elements and keep only the `next` links; `MinInt`
      leaves the deque as it is. */
  lemma RotateAsWritten<T>(d: Deque<T>, n: int)
    requires Valid(d)
    ensures d.len < 2 ==> Rotate(d, n) == Ok(d)
    ensures 2 <= d.len && 0 <= n < d.len ==>
      && Rotate(d, n).Ok?
      && RightRotated(Rotate(d, n).value, n)
      && Elems(Rotate(d, n).value) == Seqs.Rotated(Elems(d), n)
    ensures 2 <= d.len && d.len <= n ==> Rotate(d, n) == NilDeref
    ensures 2 <= d.len && n < 0 && n != MinInt ==>
      && Rotate(d, n).Ok?
      && Forward(Rotate(d, n).value)
      && Elems(Rotate(d, n).value) == Seqs.Rotated(Elems(d), n)
    ensures n == MinInt ==> Rotate(d, n) == Ok(d)
  {
    if 2 <= d.len {
      if n >= 0 {
        assert RightRotated(d, 0);
        if n < d.len {
          RotateRightTimesFrom(d, 0, n);
        } else {
          RotateRightTimesPanics(d, 0, n);
        }
      } else if n != MinInt {
        RotateLeftTimesCorrect(d, -n);
      }
    }
  }

  // ---------------------------------------------------------------------------
  // What the lost `prev` links cost

  /** One right step on a doubly linked deque of two or more elements leaves it
      no longer doubly linked. */
  lemma RotateRightUnlinks<T>(d: Deque<T>)
    requires Linked(d) && 2 <= d.len
    ensures RotateRight(d).Ok?
    ensures Forward(RotateRight(d).value) && !Linked(RotateRight(d).value)
  {
    RotateRightStep(d, 0);
    var r := RotateRight(d).value;
    var c := Chain(r);
    assert r.heap[c[1]].prev == Nil;
  }

  /** One left step on a doubly linked deque of two or more elements leaves it
      no longer doubly linked: the new tail keeps its nil `prev`. */
  lemma RotateLeftUnlinks<T>(d: Deque<T>)
    requires Linked(d) && 2 <= d.len
    ensures RotateLeft(d).Ok?
    ensures Forward(RotateLeft(d).value) && !Linked(RotateLeft(d).value)
  {
    RotateLeftStep(d);
    var r := RotateLeft(d).value;
    var c := Chain(d);
    var c' := Chain(r);
    assert c'[d.len - 1] == c[0];
    assert r.heap[c'[d.len - 1]].prev == Nil;
  }

  /** After `Rotate(-1)` on a doubly linked deque of two or more elements, both
      `tryPop` and `Rotate(1)` dereference nil. */
  lemma LeftThenStuck<T>(d: Deque<T>, zero: T)
    requires Linked(d) && 2 <= d.len
    ensures Rotate(d, -1).Ok?
    ensures Mutations.TryPop(Rotate(d, -1).value, zero) == NilDeref
    ensures Rotate(Rotate(d, -1).value, 1) == NilDeref
  {
    RotateLeftStep(d);
    var r := RotateLeft(d).value;
    assert Rotate(d, -1) == Ok(r);
    var c := Chain(d);
    assert r.tail == Ref(c[0]);
    TailWithoutPrev(r, zero);
    assert Rotate(r, 1) == RotateRight(r);
  }

  /** After `n` right steps on a valid deque (`0 <= n < len`), `TryPeek(i)` finds
      the rotated element unless `i` lies in the second half and before `n`, where
      the backward walk dereferences nil. */
  lemma PeekAfterRotate<T>(d: Deque<T>, n: nat, index: int)
    requires Valid(d) && 2 <= d.len && n < d.len
    ensures |Seqs.Rotated(Elems(d), n)| == d.len
    ensures Rotate(d, n).Ok?
    ensures Lookup.TryPeek(Rotate(d, n).value, index) ==
      if index < 0 || d.len <= index then Ok(Failure(PeekError(index)))
      else if index < d.len / 2 || n <= index then Ok(Success(Seqs.Rotated(Elems(d), n)[index]))
      else NilDeref
  {
    ElemsLength(d);
    Seqs.RotLength(Elems(d), n);
    RotateAsWritten(d, n);
    Lookup.TryPeekWithPrevFrom(Rotate(d, n).value, n, index);
  }

  /** The three rotations of the rotation test, on any valid deque holding [0, 1, 2]. */
  lemma ScenarioRotations(d0: Deque<int>)
    requires Valid(d0) && Elems(d0) == [0, 1, 2]
    ensures var d1 := Rotate(d0, 1);
      && d1.Ok? && Forward(d1.value) && d1.value.len == 3
      && Lookup.Peek(d1.value, 0) == 2
      && var d2 := Rotate(d1.value, 1);
      && d2.Ok? && Forward(d2.value) && d2.value.len == 3
      && Lookup.Peek(d2.value, 0) == 1
      && Lookup.TryPeek(d2.value, 1) == NilDeref
      && var d3 := Rotate(d2.value, -1);
      && d3.Ok? && Forward(d3.value) && d3.value.len == 3
      && Lookup.Peek(d3.value, 0) == 2
  {
    RotateAsWritten(d0, 1);
    var d1 := Rotate(d0, 1).value;
    assert Elems(d1) == [2, 0, 1];
    Lookup.TryPeekFrontHalf(d1, 0);
    assert Rotate(d1, 1) == RotateRightTimes(d1, 1);
    RotateRightTimesFrom(d1, 1, 1);
    var d2 := Rotate(d1, 1).value;
    assert Elems(d2) == [1, 2, 0];
    Lookup.TryPeekWithPrevFrom(d2, 2, 0);
    Lookup.TryPeekWithPrevFrom(d2, 2, 1);
    assert Rotate(d2, -1) == RotateLeftTimes(d2, 1);
    RotateLeftTimesCorrect(d2, 1);
    var d3 := Rotate(d2, -1).value;
    assert Elems(d3) == [2, 0, 1];
    Lookup.TryPeekFrontHalf(d3, 0);
  }

  /** The rotation test (pkg/deque_test.go:478-496) on [0, 1, 2] with capacity 3:
      each `Peek(0)` sees the value the test expects, yet after the second
      `Rotate(1)` looking up index 1 dereferences nil. */
  lemma RotateScenario()
    ensures var d0 := Mutations.NewDequeFromSeq([0, 1, 2], 3);
      && d0.Ok?
      && Lookup.TryPeek(d0.value, 0) == Ok(Success(0))
      && Lookup.TryPeek(d0.value, 2) == Ok(Success(2))
      && var d1 := Rotate(d0.value, 1);
      && d1.Ok? && Forward(d1.value) && d1.value.len == 3
      && Lookup.Peek(d1.value, 0) == 2
      && var d2 := Rotate(d1.value, 1);
      && d2.Ok? && Forward(d2.value) && d2.value.len == 3
      && Lookup.Peek(d2.value, 0) == 1
      && Lookup.TryPeek(d2.value, 1) == NilDeref
      && var d3 := Rotate(d2.value, -1);
      && d3.Ok? && Forward(d3.value) && d3.value.len == 3
      && Lookup.Peek(d3.value, 0) == 2
  {
    var s: seq<int> := [0, 1, 2];
    Mutations.FromSeqKeepsLast(s, 3);
    var d0 := Mutations.NewDequeFromSeq(s, 3).value;
    assert Elems(d0) == s;
    Lookup.TryPeekCorrect(d0, 0);
    Lookup.TryPeekCorrect(d0, 2);
    ScenarioRotations(d0);
  }

  // The states of the stale-tail scenario below, node by node as
  // `Node(value, next, prev)`: nodes 0, 1 and 2 hold the values 0, 1 and 2.

  /** [0, 1, 2] as three appends build it. */
  const StaleStart: Deque<int> := Deque(Ref(0), Ref(2), 3, -1,
    [Node(0, Ref(1), Nil), Node(1, Ref(2), Ref(0)), Node(2, Nil, Ref(1))])
  /** After `Rotate(-2)`: [2, 0, 1] along `next`; no `prev` link was written. */
  const StaleRotated: Deque<int> := Deque(Ref(2), Ref(1), 3, -1,
    [Node(0, Ref(1), Nil), Node(1, Nil, Ref(0)), Node(2, Ref(0), Ref(1))])
  /** After the first `tryPop`: node 1 is removed, [2, 0] remain, yet node 2's
      `prev` still names node 1. */
  const StalePopped: Deque<int> := Deque(Ref(2), Ref(0), 2, -1,
    [Node(0, Nil, Nil), Node(1, Nil, Nil), Node(2, Ref(0), Ref(1))])
  /** After `Rotate(-1)`: [0, 2], with node 2 the tail. */
  const StaleRotatedAgain: Deque<int> := Deque(Ref(0), Ref(2), 2, -1,
    [Node(0, Ref(2), Nil), Node(1, Nil, Nil), Node(2, Nil, Ref(1))])
  /** After the second `tryPop`: the tail is the removed node 1, while the head
      still links to node 2. */
  const StaleEnd: Deque<int> := Deque(Ref(0), Ref(1), 1, -1,
    [Node(0, Ref(2), Nil), Node(1, Nil, Nil), Node(2, Nil, Nil)])

  /** Building [0, 1, 2] unlimited gives `StaleStart`. */
  lemma StaleBuild()
    ensures Mutations.NewDequeFromSeq([0, 1, 2], -1) == Ok(StaleStart)
  {
    var e0 := NewDeque<int>(-1);
    var e1 := Deque(Ref(0), Ref(0), 1, -1, [Node(0, Nil, Nil)]);
    var e2 := Deque(Ref(0), Ref(1), 2, -1, [Node(0, Ref(1), Nil), Node(1, Nil, Ref(0))]);
    var e3 := StaleStart;
    assert e0.heap + [Node(0, Nil, Nil)] == e1.heap;
    assert Mutations.Append(e0, 0) == Ok(e1);
    var g := e1.heap + [Node(1, Nil, Nil)];
    assert g[1 := g[1].(prev := Ref(0))] == [Node(0, Nil, Nil), Node(1, Nil, Ref(0))];
    assert [Node(0, Nil, Nil), Node(1, Nil, Ref(0))][0 := Node(0, Ref(1), Nil)] == e2.heap;
    assert Mutations.Append(e1, 1) == Ok(e2);
    var g' := e2.heap + [Node(2, Nil, Nil)];
    assert g'[2 := g'[2].(prev := Ref(1))] ==
      [Node(0, Ref(1), Nil), Node(1, Nil, Ref(0)), Node(2, Nil, Ref(1))];
    assert [Node(0, Ref(1), Nil), Node(1, Nil, Ref(0)), Node(2, Nil, Ref(1))][1 := Node(1, Ref(2), Ref(0))]
      == e3.heap;
    assert Mutations.Append(e2, 2) == Ok(e3);
    var s: seq<int> := [0, 1, 2];
    assert s[1..][1..][1..] == [];
  }

  /** `Rotate(-2)` then `tryPop` on `StaleStart`. */
  lemma StaleFirstRound()
    ensures Rotate(StaleStart, -2) == Ok(StaleRotated)
    ensures Mutations.TryPop(StaleRotated, 0) == Ok(Mutations.Popped(StalePopped, Success(0)))
  {
    var r1 := Deque(Ref(1), Ref(0), 3, -1,
      [Node(0, Nil, Nil), Node(1, Ref(2), Ref(0)), Node(2, Ref(0), Ref(1))]);
    var a1 := StaleStart.heap[0 := Node(0, Nil, Nil)];
    assert a1 == [Node(0, Nil, Nil), Node(1, Ref(2), Ref(0)), Node(2, Nil, Ref(1))];
    assert a1[2 := a1[2].(next := Ref(0))] == r1.heap;
    assert RotateLeft(StaleStart) == Ok(r1);
    var a2 := r1.heap[1 := Node(1, Nil, Ref(0))];
    assert a2 == [Node(0, Nil, Nil), Node(1, Nil, Ref(0)), Node(2, Ref(0), Ref(1))];
    assert a2[0 := a2[0].(next := Ref(1))] == StaleRotated.heap;
    assert RotateLeft(r1) == Ok(StaleRotated);
    var b1 := StaleRotated.heap[0 := Node(0, Nil, Nil)];
    assert b1 == [Node(0, Nil, Nil), Node(1, Nil, Ref(0)), Node(2, Ref(0), Ref(1))];
    assert b1[1 := b1[1].(next := Nil)] == b1;
    assert b1[1 := b1[1].(prev := Nil)] == StalePopped.heap;
    assert StalePopped.heap[1 := StalePopped.heap[1].(prev := Nil)] == StalePopped.heap;
    assert Mutations.UnlinkTail(StaleRotated) == Ok(StalePopped);
  }

  /** `Rotate(-1)` then `tryPop` on `StalePopped`. */
  lemma StaleSecondRound()
    ensures Rotate(StalePopped, -1) == Ok(StaleRotatedAgain)
    ensures Mutations.TryPop(StaleRotatedAgain, 0) == Ok(Mutations.Popped(StaleEnd, Success(0)))
  {
    var q1 := StalePopped;
    var r3 := StaleRotatedAgain;
    var a3 := q1.heap[2 := Node(2, Nil, Ref(1))];
    assert a3 == [Node(0, Nil, Nil), Node(1, Nil, Nil), Node(2, Nil, Ref(1))];
    assert a3[0 := a3[0].(next := Ref(2))] == r3.heap;
    assert RotateLeft(q1) == Ok(r3);
    assert r3.heap[1 := r3.heap[1].(next := Nil)] == r3.heap;
    assert r3.heap[2 := r3.heap[2].(next := Nil)] == r3.heap;
    assert r3.heap[2 := r3.heap[2].(prev := Nil)] == StaleEnd.heap;
    assert StaleEnd.heap[2 := StaleEnd.heap[2].(prev := Nil)] == StaleEnd.heap;
    assert Mutations.UnlinkTail(r3) == Ok(StaleEnd);
  }

  /** `StaleEnd` claims one element, its tail is not where its `next` links lead,
      the backward lookup of index 0 reads the removed node, and its `next` walk
      meets two values. */
  lemma StaleEndShape()
    ensures StaleEnd.len == 1 && !Forward(StaleEnd)
    ensures Lookup.TryPeek(StaleEnd, 0) == Ok(Success(1))
    ensures ValuesAt(StaleEnd.heap, Walk(StaleEnd.heap, StaleEnd.head, |StaleEnd.heap|)) == [0, 2]
  {
    assert Chain(StaleEnd) == [0];
    assert Walk(StaleEnd.heap, StaleEnd.head, 3) == [0, 2];
  }

  /** Left rotations followed by pops on the unlimited deque [0, 1, 2]:
      `Rotate(-2)`, `tryPop`, `Rotate(-1)`, `tryPop`. The second pop follows a
      `prev` link that the left rotations never updated, so the tail lands on the
      node the first pop removed. The deque then claims one element, its head is no
      longer linked to its tail, `TryPeek(0)` returns the removed 1, and walking
      `next` from the head, as `Values` does, meets two values. */
  lemma StaleTailScenario()
    ensures var d0 := Mutations.NewDequeFromSeq([0, 1, 2], -1);
      && d0.Ok?
      && var d1 := Rotate(d0.value, -2);
      && d1.Ok?
      && var p1 := Mutations.TryPop(d1.value, 0);
      && p1.Ok?
      && var d2 := Rotate(p1.value.deque, -1);
      && d2.Ok?
      && var p2 := Mutations.TryPop(d2.value, 0);
      && p2.Ok?
      && var d := p2.value.deque;
      && d.len == 1
      && !Forward(d)
      && Lookup.TryPeek(d, 0) == Ok(Success(1))
      && ValuesAt(d.heap, Walk(d.heap, d.head, |d.heap|)) == [0, 2]
  {
    StaleBuild();
    StaleFirstRound();
    StaleSecondRound();
    StaleEndShape();
  }

  /** Corrected `Rotate(-2)` then `tryPop` on a valid [0, 1, 2] leave a valid [2, 0]. */
  lemma StaleFixedFirstRound(d0: Deque<int>)
    requires Valid(d0) && Elems(d0) == [0, 1, 2]
    ensures RotateFixed(d0, -2).Ok?
    ensures Mutations.TryPop(RotateFixed(d0, -2).value, 0).Ok?
    ensures var q := Mutations.TryPop(RotateFixed(d0, -2).value, 0).value.deque;
      Valid(q) && Elems(q) == [2, 0]
  {
    RotateFixedCorrect(d0, -2);
    Seqs.RotLTimesSplit(Elems(d0), 2);
    var d1 := RotateFixed(d0, -2).value;
    assert Elems(d1) == [2, 0, 1];
    Mutations.TryPopCorrect(d1, 0);
  }

  /** Corrected `Rotate(-1)` then `tryPop` on a valid [2, 0] leave a valid [0]. */
  lemma StaleFixedSecondRound(q1: Deque<int>)
    requires Valid(q1) && Elems(q1) == [2, 0]
    ensures RotateFixed(q1, -1).Ok?
    ensures Mutations.TryPop(RotateFixed(q1, -1).value, 0).Ok?
    ensures var q := Mutations.TryPop(RotateFixed(q1, -1).value, 0).value.deque;
      Valid(q) && Elems(q) == [0]
  {
    RotateFixedCorrect(q1, -1);
    Seqs.RotLTimesSplit(Elems(q1), 1);
    var d2 := RotateFixed(q1, -1).value;
    assert Elems(d2) == [0, 2];
    Mutations.TryPopCorrect(d2, 0);
  }

  /** The same calls with the corrected rotations leave a valid deque holding [0],
      and `TryPeek(0)` finds 0. */
  lemma StaleTailScenarioFixed()
    ensures var d0 := Mutations.NewDequeFromSeq([0, 1, 2], -1);
      && d0.Ok?
      && var d1 := RotateFixed(d0.value, -2);
      && d1.Ok?
      && var p1 := Mutations.TryPop(d1.value, 0);
      && p1.Ok?
      && var d2 := RotateFixed(p1.value.deque, -1);
      && d2.Ok?
      && var p2 := Mutations.TryPop(d2.value, 0);
      && p2.Ok?
      && var d := p2.value.deque;
      && Valid(d)
      && Elems(d) == [0]
      && Lookup.TryPeek(d, 0) == Ok(Success(0))
  {
    var s: seq<int> := [0, 1, 2];
    Mutations.FromSeqKeepsLast(s, -1);
    var d0 := Mutations.NewDequeFromSeq(s, -1).value;
    StaleFixedFirstRound(d0);
    var q1 := Mutations.TryPop(RotateFixed(d0, -2).value, 0).value.deque;
    StaleFixedSecondRound(q1);
    var q2 := Mutations.TryPop(RotateFixed(q1, -1).value, 0).value.deque;
    Lookup.TryPeekCorrect(q2, 0);
  }

  /** `Rotate(1)` followed by `Rotate(-1)` restores the elements of a valid deque. */
  lemma RotateRoundTrip<T>(d: Deque<T>)
    requires Valid(d)
    ensures Rotate(d, 1).Ok? && Rotate(Rotate(d, 1).value, -1).Ok?
    ensures Elems(Rotate(Rotate(d, 1).value, -1).value) == Elems(d)
  {
    RotateAsWritten(d, 1);
    if 2 <= d.len {
      var d1 := Rotate(d, 1).value;
      assert Rotate(d1, -1) == RotateLeftTimes(d1, 1);
      RotateLeftTimesCorrect(d1, 1);
      Seqs.RotationsInverse(Elems(d));
    }
  }

  // ---------------------------------------------------------------------------
  // Rotations as evidently intended

  /** `rotateRight` with the link it misses: the old head's `prev` now points to
      the node moved in front of it. */
  function RotateRightFixed<T>(d: Deque<T>): (r: Run<Deque<T>>)
    ensures r.Ok? ==> r.value.len == d.len && r.value.capacity == d.capacity
  {
    var t := d.tail;
    var h1 :- SetNext(d.heap, t, d.head);
    var tn :- Load(h1, t);
    var newTail := tn.prev;
    var h2 :- SetNext(h1, newTail, Nil);
    var h3 :- SetPrev(h2, t, Nil);
    var h4 :- SetPrev(h3, d.head, t);
    Ok(d.(head := t, tail := newTail, heap := h4))
  }

  /** `rotateLeft` with the links it misses: the moved node's `prev` points to the
      old tail, and the new head's `prev` is cleared. */
  function RotateLeftFixed<T>(d: Deque<T>): (r: Run<Deque<T>>)
    ensures r.Ok? ==> r.value.len == d.len && r.value.capacity == d.capacity
  {
    var hd := d.head;
    var hn :- Load(d.heap, hd);
    var newHead := hn.next;
    var h1 :- SetNext(d.heap, hd, Nil);
    var h2 :- SetNext(h1, d.tail, hd);
    var h3 :- SetPrev(h2, hd, d.tail);
    var h4 :- SetPrev(h3, newHead, Nil);
    Ok(d.(head := newHead, tail := hd, heap := h4))
  }

  function RotateRightFixedTimes<T>(d: Deque<T>, n: nat): (r: Run<Deque<T>>)
    ensures r.Ok? ==> r.value.len == d.len && r.value.capacity == d.capacity
    decreases n
  {
    if n == 0 then Ok(d)
    else
      var d1 :- RotateRightFixedTimes(d, n - 1);
      RotateRightFixed(d1)
  }

  function RotateLeftFixedTimes<T>(d: Deque<T>, n: nat): (r: Run<Deque<T>>)
    ensures r.Ok? ==> r.value.len == d.len && r.value.capacity == d.capacity
    decreases n
  {
    if n == 0 then Ok(d)
    else
      var d1 :- RotateLeftFixedTimes(d, n - 1);
      RotateLeftFixed(d1)
  }

  /** `Rotate` built on the corrected steps; a negative `n` means exactly `-n` left
      steps, `MinInt` included. */
  function RotateFixed<T>(d: Deque<T>, n: int): (r: Run<Deque<T>>)
    ensures r.Ok? ==> r.value.len == d.len && r.value.capacity == d.capacity
  {
    if d.len < 2 then Ok(d)
    else if n >= 0 then RotateRightFixedTimes(d, n)
    else RotateLeftFixedTimes(d, -n)
  }

  /** Pointing the second node's `prev` at the first repairs a chain whose `prev`
      links are broken at positions 0 and 1 only. */
  lemma RepairSecondPrev<T>(h: Heap<T>, c: seq<nat>)
    requires NextChain(h, c) && |c| >= 2 && PrevChainFrom(h, c, 1)
    ensures var h' := h[c[1] := h[c[1]].(prev := Ref(c[0]))];
      && NextChain(h', c)
      && PrevChain(h', c)
      && ValuesAt(h', c) == ValuesAt(h, c)
  {
    var h' := h[c[1] := h[c[1]].(prev := Ref(c[0]))];
    forall i | 0 <= i < |c| && i != 1
      ensures h'[c[i]] == h[c[i]]
    {
    }
  }

  /** After a left step that left every `prev` link alone, pointing the moved
      node's `prev` at the old tail and clearing the new head's `prev` makes the
      rotated chain doubly linked again. */
  lemma RepairAfterLeftStep<T>(h: Heap<T>, h2: Heap<T>, c: seq<nat>)
    requires NextChain(h, c) && PrevChain(h, c) && |c| >= 2
    requires NextChain(h2, Seqs.RotL(c)) && |h2| == |h|
    requires forall x :: 0 <= x < |h| ==> h2[x].prev == h[x].prev
    ensures var k := |c|;
      var h3 := h2[c[0] := h2[c[0]].(prev := Ref(c[k - 1]))];
      var h4 := h3[c[1] := h3[c[1]].(prev := Nil)];
      && NextChain(h4, Seqs.RotL(c))
      && PrevChain(h4, Seqs.RotL(c))
      && ValuesAt(h4, Seqs.RotL(c)) == ValuesAt(h2, Seqs.RotL(c))
  {
    var k := |c|;
    var h3 := h2[c[0] := h2[c[0]].(prev := Ref(c[k - 1]))];
    var h4 := h3[c[1] := h3[c[1]].(prev := Nil)];
    var c' := Seqs.RotL(c);
    assert c' == c[1..] + [c[0]];
    assert forall i :: 0 <= i < k ==>
        h4[c[i]].value == h2[c[i]].value && h4[c[i]].next == h2[c[i]].next;
    assert NextChain(h4, c') by {
      forall i | 0 <= i < k - 1
        ensures h4[c'[i]].next == Ref(c'[i + 1])
      {
        assert h4[c'[i]].next == h2[c'[i]].next;
      }
    }
    assert PrevChain(h4, c') by {
      assert h4[c'[0]].prev == Nil;
      forall q | 0 < q < k
        ensures h4[c'[q]].prev == Ref(c'[q - 1])
      {
        if q < k - 1 {
          assert c'[q] == c[q + 1] && c'[q - 1] == c[q];
          assert c[q + 1] != c[0] && c[q + 1] != c[1];
          assert h4[c[q + 1]].prev == h[c[q + 1]].prev;
        }
      }
    }
  }

  /** A corrected right step keeps a doubly linked deque doubly linked. */
  lemma RotateRightFixedStep<T>(d: Deque<T>)
    requires Linked(d) && 2 <= d.len
    ensures RotateRightFixed(d).Ok?
    ensures var r := RotateRightFixed(d).value;
      && Linked(r)
      && Elems(r) == Seqs.RotR(Elems(d))
  {
    var h := d.heap;
    var c := Chain(d);
    var k := |c|;
    var t := c[k - 1];
    var p := c[k - 2];
    assert PrevChainFrom(h, c, 0);
    RightStepOnChain(h, c, 0);
    var h3 := RightStepHeap(h, c);
    var c' := Seqs.RotR(c);
    assert c'[0] == t && c'[1] == c[0];
    RepairSecondPrev(h3, c');
    var h4 := h3[c[0] := h3[c[0]].(prev := Ref(t))];
    var r := d.(head := Ref(t), tail := Ref(p), heap := h4);
    assert RotateRightFixed(d) == Ok(r);
    assert LinkedAs(r, c');
    ChainIsUnique(r, c');
  }

  /** A corrected left step keeps a doubly linked deque doubly linked. */
  lemma RotateLeftFixedStep<T>(d: Deque<T>)
    requires Linked(d) && 2 <= d.len
    ensures RotateLeftFixed(d).Ok?
    ensures var r := RotateLeftFixed(d).value;
      && Linked(r)
      && Elems(r) == Seqs.RotL(Elems(d))
  {
    RotateLeftStep(d);
    var r0 := RotateLeft(d).value;
    var c := Chain(d);
    var k := |c|;
    RepairAfterLeftStep(d.heap, r0.heap, c);
    var h3 := r0.heap[c[0] := r0.heap[c[0]].(prev := Ref(c[k - 1]))];
    var h4 := h3[c[1] := h3[c[1]].(prev := Nil)];
    var r := r0.(heap := h4);
    assert RotateLeftFixed(d) == Ok(r);
    var c' := Seqs.RotL(c);
    assert LinkedAs(r, c');
    ChainIsUnique(r, c');
  }

  lemma {:induction false} RotateRightFixedTimesCorrect<T>(d: Deque<T>, n: nat)
    requires Linked(d) && 2 <= d.len
    ensures RotateRightFixedTimes(d, n).Ok?
    ensures var r := RotateRightFixedTimes(d, n).value;
      Linked(r) && Elems(r) == Seqs.RotRTimes(Elems(d), n)
    decreases n
  {
    if n > 0 {
      RotateRightFixedTimesCorrect(d, n - 1);
      RotateRightFixedStep(RotateRightFixedTimes(d, n - 1).value);
    }
  }

  lemma {:induction false} RotateLeftFixedTimesCorrect<T>(d: Deque<T>, n: nat)
    requires Linked(d) && 2 <= d.len
    ensures RotateLeftFixedTimes(d, n).Ok?
    ensures var r := RotateLeftFixedTimes(d, n).value;
      Linked(r) && Elems(r) == Seqs.RotLTimes(Elems(d), n)
    decreases n
  {
    if n > 0 {
      RotateLeftFixedTimesCorrect(d, n - 1);
      RotateLeftFixedStep(RotateLeftFixedTimes(d, n - 1).value);
    }
  }

  /** The corrected `Rotate` never panics on a valid deque, keeps it valid, and
      rotates its elements by `n` (right for `n >= 0`, left otherwise), which is
      the same as rotating by `|n| mod len` steps in that direction. */
  lemma RotateFixedCorrect<T>(d: Deque<T>, n: int)
    requires Valid(d)
    ensures RotateFixed(d, n).Ok?
    ensures var r := RotateFixed(d, n).value;
      && Valid(r)
      && r.capacity == d.capacity
      && Elems(r) == Seqs.Rotated(Elems(d), n)
      && (d.len > 0 ==>
            Elems(r) == (if n >= 0 then Seqs.RotRTimes(Elems(d), n % d.len)
                         else Seqs.RotLTimes(Elems(d), -n % d.len)))
  {
    ElemsLength(d);
    if d.len < 2 {
      Seqs.RotShort(Elems(d), if n >= 0 then n else -n);
    } else if n >= 0 {
      RotateRightFixedTimesCorrect(d, n);
      Seqs.RotRTimesMod(Elems(d), n);
    } else {
      RotateLeftFixedTimesCorrect(d, -n);
      Seqs.RotLTimesMod(Elems(d), -n);
    }
  }

  /** Wherever the as-written `Rotate` finishes, the corrected one produces the
      same elements, except at `MinInt`, where the as-written one keeps the
      elements in place. */
  lemma FixedAgreesWithAsWritten<T>(d: Deque<T>, n: int)
    requires Valid(d) && Rotate(d, n).Ok?
    ensures RotateFixed(d, n).Ok?
    ensures n != MinInt ==> Elems(RotateFixed(d, n).value) == Elems(Rotate(d, n).value)
    ensures n == MinInt ==> Elems(Rotate(d, n).value) == Elems(d)
  {
    RotateAsWritten(d, n);
    RotateFixedCorrect(d, n);
  }

  /** Rotating [0, 1, 2] by `MinInt`: the as-written `Rotate` leaves it as it is,
      while `MinInt` left steps, that is 2^63 mod 3 = 2 of them, give [2, 0, 1]. */
  lemma MinIntScenario(d: Deque<int>)
    requires Valid(d) && Elems(d) == [0, 1, 2]
    ensures Rotate(d, MinInt) == Ok(d)
    ensures RotateFixed(d, MinInt).Ok?
    ensures Elems(RotateFixed(d, MinInt).value) == [2, 0, 1]
  {
    ElemsLength(d);
    RotateFixedCorrect(d, MinInt);
    assert -MinInt % 3 == 2;
    Seqs.RotLTimesSplit(Elems(d), 2);
  }
}
