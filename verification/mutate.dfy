/**
  The operations that change a deque (pkg/deque.go:127-261): insertion at either
  end with eviction at the opposite end, removal at either end, and clearing.
  They are the lock-free internal variants; the exported ones only add the mutex.
 */
module Mutations {
  import opened Nodes
  import opened Errors
  import opened Deques
  import Seqs

  // ---------------------------------------------------------------------------
  // Linking and unlinking one node

  /** The first half of `append` (pkg/deque.go:128-144): link a new node after the
      tail and count it, before any eviction. */
  function LinkBack<T>(d: Deque<T>, v: T): Run<Deque<T>>
  {
    var n := |d.heap|;
    var h := d.heap + [Node(v, Nil, Nil)];
    if d.len == 0 then
      Ok(d.(head := Ref(n), tail := Ref(n), len := d.len + 1, heap := h))
    else if d.len == 1 then
      var h1 := h[n := h[n].(prev := d.head)];
      var h2 :- SetNext(h1, d.head, Ref(n));
      Ok(d.(tail := Ref(n), len := d.len + 1, heap := h2))
    else
      var h1 := h[n := h[n].(prev := d.tail)];
      var h2 :- SetNext(h1, d.tail, Ref(n));
      Ok(d.(tail := Ref(n), len := d.len + 1, heap := h2))
  }

  /** The first half of `appendLeft` (pkg/deque.go:163-175): link a new node before
      the head and count it, before any eviction. */
  function LinkFront<T>(d: Deque<T>, v: T): Run<Deque<T>>
  {
    var n := |d.heap|;
    var h := d.heap + [Node(v, Nil, Nil)];
    if d.len == 0 then
      Ok(d.(head := Ref(n), tail := Ref(n), len := d.len + 1, heap := h))
    else
      var h1 := h[n := h[n].(next := d.head)];
      var h2 :- SetPrev(h1, d.head, Ref(n));
      Ok(d.(head := Ref(n), len := d.len + 1, heap := h2))
  }

  /** The non-empty branches of `tryPopLeft` (pkg/deque.go:231-239). */
  function UnlinkHead<T>(d: Deque<T>): Run<Deque<T>>
    requires d.len > 0
  {
    if d.len == 1 then
      Ok(d.(head := Nil, tail := Nil, len := d.len - 1))
    else
      var hd :- Load(d.heap, d.head);
      var h1 :- SetPrev(d.heap, hd.next, Nil);
      Ok(d.(head := hd.next, len := d.len - 1, heap := h1))
  }

  /** The non-empty branches of `tryPop` (pkg/deque.go:198-210). The old tail's
      links are cleared, and `self.tail.prev = nil` clears the old tail's `prev`
      a second time, since `self.tail` is only reassigned afterwards. */
  function UnlinkTail<T>(d: Deque<T>): Run<Deque<T>>
    requires d.len > 0
  {
    if d.len == 1 then
      Ok(d.(head := Nil, tail := Nil, len := d.len - 1))
    else
      var oldTail := d.tail;
      var tl :- Load(d.heap, oldTail);
      var newTail := tl.prev;
      var h1 :- SetNext(d.heap, newTail, Nil);
      var h2 :- SetNext(h1, oldTail, Nil);
      var h3 :- SetPrev(h2, oldTail, Nil);
      var h4 :- SetPrev(h3, d.tail, Nil);
      Ok(d.(tail := newTail, len := d.len - 1, heap := h4))
  }

  lemma LinkBackCorrect<T>(d: Deque<T>, v: T)
    requires Linked(d)
    ensures LinkBack(d, v).Ok?
    ensures var r := LinkBack(d, v).value;
      && Linked(r)
      && Chain(r) == Chain(d) + [|d.heap|]
      && Elems(r) == Elems(d) + [v]
      && r.len == d.len + 1 && r.capacity == d.capacity
  {
    var c := Chain(d);
    var n := |d.heap|;
    var c' := c + [n];
    var r := LinkBack(d, v).value;
    if d.len == 0 {
      assert r.heap == d.heap + [Node(v, Nil, Nil)];
      assert ValuesAt(r.heap, c') == [v];
    } else {
      var t := c[|c| - 1];
      assert d.tail == Ref(t);
      assert r.heap == (d.heap + [Node(v, Nil, Ref(t))])[t := d.heap[t].(next := Ref(n))];
      AttachBack(d.heap, c, v);
    }
    assert LinkedAs(r, c');
    ChainIsUnique(r, c');
  }

  lemma LinkFrontCorrect<T>(d: Deque<T>, v: T)
    requires Linked(d)
    ensures LinkFront(d, v).Ok?
    ensures var r := LinkFront(d, v).value;
      && Linked(r)
      && Chain(r) == [|d.heap|] + Chain(d)
      && Elems(r) == [v] + Elems(d)
      && r.len == d.len + 1 && r.capacity == d.capacity
  {
    var c := Chain(d);
    var n := |d.heap|;
    var c' := [n] + c;
    var r := LinkFront(d, v).value;
    if d.len == 0 {
      assert c' == [n];
      assert r.heap == d.heap + [Node(v, Nil, Nil)];
      assert ValuesAt(r.heap, c') == [v];
    } else {
      assert d.head == Ref(c[0]);
      assert r.heap == (d.heap + [Node(v, Ref(c[0]), Nil)])[c[0] := d.heap[c[0]].(prev := Ref(n))];
      AttachFront(d.heap, c, v);
    }
    assert LinkedAs(r, c');
    ChainIsUnique(r, c');
  }

  lemma UnlinkHeadCorrect<T>(d: Deque<T>)
    requires Linked(d) && d.len > 0
    ensures UnlinkHead(d).Ok?
    ensures var r := UnlinkHead(d).value;
      && Linked(r)
      && Chain(r) == Chain(d)[1..]
      && Elems(r) == Elems(d)[1..]
      && r.len == d.len - 1 && r.capacity == d.capacity
  {
    var c := Chain(d);
    var c' := c[1..];
    if d.len == 1 {
      var r := UnlinkHead(d).value;
      assert c' == [];
      assert LinkedAs(r, c');
      ChainIsUnique(r, c');
    } else {
      assert d.head == Ref(c[0]) && d.heap[c[0]].next == Ref(c[1]);
      var r := UnlinkHead(d).value;
      assert r.heap == d.heap[c[1] := d.heap[c[1]].(prev := Nil)];
      DetachFront(d.heap, c);
      assert LinkedAs(r, c');
      ChainIsUnique(r, c');
    }
  }

  lemma UnlinkTailCorrect<T>(d: Deque<T>)
    requires Linked(d) && d.len > 0
    ensures UnlinkTail(d).Ok?
    ensures var r := UnlinkTail(d).value;
      && Linked(r)
      && Chain(r) == Chain(d)[..d.len - 1]
      && Elems(r) == Elems(d)[..d.len - 1]
      && r.len == d.len - 1 && r.capacity == d.capacity
  {
    var c := Chain(d);
    var k := |c|;
    var c' := c[..k - 1];
    if d.len == 1 {
      var r := UnlinkTail(d).value;
      assert c' == [];
      assert LinkedAs(r, c');
      ChainIsUnique(r, c');
    } else {
      var t := c[k - 1];
      var p := c[k - 2];
      assert d.tail == Ref(t) && d.heap[t].prev == Ref(p);
      var r := UnlinkTail(d).value;
      var h1 := d.heap[p := d.heap[p].(next := Nil)];
      var h2 := h1[t := h1[t].(next := Nil)];
      var h3 := h2[t := h2[t].(prev := Nil)];
      assert r.heap == h3[t := h3[t].(prev := Nil)];
      forall i | 0 <= i < k - 2
        ensures r.heap[c[i]] == d.heap[c[i]]
      {
        assert c[i] != p && c[i] != t;
      }
      DetachBack(d.heap, r.heap, c);
      assert LinkedAs(r, c');
      ChainIsUnique(r, c');
    }
  }

  // ---------------------------------------------------------------------------
  // Insertion with eviction

  /** `append` (pkg/deque.go:127-150). On overflow the length is at least one, so
      the `tryPopLeft` it calls runs its non-empty branches, `UnlinkHead`. */
  function Append<T>(d: Deque<T>, v: T): (r: Run<Deque<T>>)
    ensures r.Ok? ==> r.value.capacity == d.capacity
  {
    var d1 :- LinkBack(d, v);
    if IsOverflowing(d1) then UnlinkHead(d1) else Ok(d1)
  }

  /** `appendLeft` (pkg/deque.go:162-180). On overflow the `tryPop` it calls runs
      its non-empty branches, `UnlinkTail`. */
  function AppendLeft<T>(d: Deque<T>, v: T): (r: Run<Deque<T>>)
    ensures r.Ok? ==> r.value.capacity == d.capacity
  {
    var d1 :- LinkFront(d, v);
    if IsOverflowing(d1) then UnlinkTail(d1) else Ok(d1)
  }

  /** Appending on the right of a valid deque keeps it valid and edits its elements
      as the reference `PushBack` does: `v` goes last and, when the bound would be
      exceeded, the first element is evicted. The tail then holds `v`, except with
      capacity 0, where both ends stay `nil`. */
  lemma AppendCorrect<T>(d: Deque<T>, v: T)
    requires Valid(d)
    ensures Append(d, v).Ok?
    ensures var r := Append(d, v).value;
      && Valid(r)
      && Elems(r) == Seqs.PushBack(Elems(d), v, d.capacity)
      && r.capacity == d.capacity
      && (d.capacity != 0 ==> r.tail.Ref? && r.tail.id < |r.heap| && r.heap[r.tail.id].value == v)
      && (d.capacity == 0 ==> r.head == Nil && r.tail == Nil)
  {
    LinkBackCorrect(d, v);
    var d1 := LinkBack(d, v).value;
    if IsOverflowing(d1) {
      UnlinkHeadCorrect(d1);
    }
    var r := Append(d, v).value;
    ElemsLength(d);
    ElemsLength(r);
    Seqs.PushBackShape(Elems(d), v, d.capacity);
    if r.len > 0 {
      EndValues(r);
    }
  }

  /** Appending on the left of a valid deque keeps it valid and edits its elements
      as the reference `PushFront` does: `v` goes first and, when the bound would be
      exceeded, the last element is evicted. The head then holds `v`, except with
      capacity 0, where both ends stay `nil`. */
  lemma AppendLeftCorrect<T>(d: Deque<T>, v: T)
    requires Valid(d)
    ensures AppendLeft(d, v).Ok?
    ensures var r := AppendLeft(d, v).value;
      && Valid(r)
      && Elems(r) == Seqs.PushFront(Elems(d), v, d.capacity)
      && r.capacity == d.capacity
      && (d.capacity != 0 ==> r.head.Ref? && r.head.id < |r.heap| && r.heap[r.head.id].value == v)
      && (d.capacity == 0 ==> r.head == Nil && r.tail == Nil)
  {
    LinkFrontCorrect(d, v);
    var d1 := LinkFront(d, v).value;
    if IsOverflowing(d1) {
      UnlinkTailCorrect(d1);
    }
    var r := AppendLeft(d, v).value;
    ElemsLength(d);
    ElemsLength(r);
    Seqs.PushFrontShape(Elems(d), v, d.capacity);
    if r.len > 0 {
      EndValues(r);
    }
  }

  // ---------------------------------------------------------------------------
  // Removal

  /** The new state and the `(T, error)` pair a pop returns. */
  datatype Popped<T> = Popped(deque: Deque<T>, result: Result<T>)

  /** `tryPop` (pkg/deque.go:192-213). Its returned value is the `var value T` it
      declares and never assigns: Go's zero value of `T`, passed in as `zero`. */
  function TryPop<T>(d: Deque<T>, zero: T): (r: Run<Popped<T>>)
    ensures r.Ok? ==> r.value.deque.capacity == d.capacity
  {
    if d.len == 0 then Ok(Popped(d, Failure(PopError)))
    else
      var d1 :- UnlinkTail(d);
      Ok(Popped(d1, Success(zero)))
  }

  /** `tryPopLeft` (pkg/deque.go:225-242), returning Go's zero value like `TryPop`. */
  function TryPopLeft<T>(d: Deque<T>, zero: T): (r: Run<Popped<T>>)
    ensures r.Ok? ==> r.value.deque.capacity == d.capacity
  {
    if d.len == 0 then Ok(Popped(d, Failure(PopError)))
    else
      var d1 :- UnlinkHead(d);
      Ok(Popped(d1, Success(zero)))
  }

  /** On an empty deque `tryPop` reports `PopError` and changes nothing; otherwise it
      succeeds, removes exactly the last element, and the deque stays valid. */
  lemma TryPopCorrect<T>(d: Deque<T>, zero: T)
    requires Valid(d)
    ensures TryPop(d, zero).Ok?
    ensures var r := TryPop(d, zero).value;
      && (Elems(d) == [] ==> r == Popped(d, Failure(PopError)))
      && (Elems(d) != [] ==>
            && r.result.Success?
            && Valid(r.deque)
            && Elems(r.deque) == Elems(d)[..|Elems(d)| - 1]
            && r.deque.capacity == d.capacity)
  {
    ElemsLength(d);
    if d.len > 0 {
      UnlinkTailCorrect(d);
    }
  }

  /** On an empty deque `tryPopLeft` reports `PopError` and changes nothing;
      otherwise it succeeds, removes exactly the first element, and the deque
      stays valid. */
  lemma TryPopLeftCorrect<T>(d: Deque<T>, zero: T)
    requires Valid(d)
    ensures TryPopLeft(d, zero).Ok?
    ensures var r := TryPopLeft(d, zero).value;
      && (Elems(d) == [] ==> r == Popped(d, Failure(PopError)))
      && (Elems(d) != [] ==>
            && r.result.Success?
            && Valid(r.deque)
            && Elems(r.deque) == Elems(d)[1..]
            && r.deque.capacity == d.capacity)
  {
    ElemsLength(d);
    if d.len > 0 {
      UnlinkHeadCorrect(d);
    }
  }

  /** `tryPop` as its documentation describes it: the removed tail element is read
      before the node is unlinked and returned. */
  function PopRight<T>(d: Deque<T>): Run<Popped<T>>
  {
    if d.len == 0 then Ok(Popped(d, Failure(PopError)))
    else
      var tl :- Load(d.heap, d.tail);
      var d1 :- UnlinkTail(d);
      Ok(Popped(d1, Success(tl.value)))
  }

  /** `tryPopLeft` as its documentation describes it, returning the removed head element. */
  function PopLeft<T>(d: Deque<T>): Run<Popped<T>>
  {
    if d.len == 0 then Ok(Popped(d, Failure(PopError)))
    else
      var hd :- Load(d.heap, d.head);
      var d1 :- UnlinkHead(d);
      Ok(Popped(d1, Success(hd.value)))
  }

  /** The corrected pop returns the last element, and otherwise changes the deque
      exactly as `tryPop` does. */
  lemma PopRightReturnsLast<T>(d: Deque<T>, zero: T)
    requires Valid(d)
    ensures PopRight(d).Ok? && TryPop(d, zero).Ok?
    ensures PopRight(d).value.deque == TryPop(d, zero).value.deque
    ensures var r := PopRight(d).value;
      && (Elems(d) == [] ==> r.result == Failure(PopError))
      && (Elems(d) != [] ==> r.result == Success(Elems(d)[|Elems(d)| - 1]))
  {
    ElemsLength(d);
    if d.len > 0 {
      EndValues(d);
      UnlinkTailCorrect(d);
    }
  }

  /** The corrected left pop returns the first element, and otherwise changes the
      deque exactly as `tryPopLeft` does. */
  lemma PopLeftReturnsFirst<T>(d: Deque<T>, zero: T)
    requires Valid(d)
    ensures PopLeft(d).Ok? && TryPopLeft(d, zero).Ok?
    ensures PopLeft(d).value.deque == TryPopLeft(d, zero).value.deque
    ensures var r := PopLeft(d).value;
      && (Elems(d) == [] ==> r.result == Failure(PopError))
      && (Elems(d) != [] ==> r.result == Success(Elems(d)[0]))
  {
    ElemsLength(d);
    if d.len > 0 {
      EndValues(d);
      UnlinkHeadCorrect(d);
    }
  }

  /** As written, a successful pop returns the zero value, whatever the element was:
      whenever the removed element differs from the zero value, the documented
      result and the returned one disagree. */
  lemma PopsLoseTheElement<T>(d: Deque<T>, zero: T)
    requires Valid(d) && Elems(d) != []
    ensures TryPop(d, zero).Ok? && TryPopLeft(d, zero).Ok?
    ensures TryPop(d, zero).value.result == Success(zero)
    ensures TryPopLeft(d, zero).value.result == Success(zero)
    ensures zero != Elems(d)[|Elems(d)| - 1] ==>
      TryPop(d, zero).value.result != PopRight(d).value.result
    ensures zero != Elems(d)[0] ==>
      TryPopLeft(d, zero).value.result != PopLeft(d).value.result
  {
    TryPopCorrect(d, zero);
    TryPopLeftCorrect(d, zero);
    PopRightReturnsLast(d, zero);
    PopLeftReturnsFirst(d, zero);
  }

  // ---------------------------------------------------------------------------
  // Clearing and bulk construction

  /** `Clear` (pkg/deque.go:254-261): from any state, an empty valid deque with the
      same capacity; the old nodes become garbage. */
  function Clear<T>(d: Deque<T>): (r: Deque<T>)
    ensures Valid(r) && Elems(r) == []
    ensures r.capacity == d.capacity
    ensures r.head == Nil && r.tail == Nil
  {
    d.(head := Nil, tail := Nil, len := 0)
  }

  /** The loop of `NewDequeFromSeq` (pkg/deque.go:49-51): append each element in order. */
  function AppendAll<T>(d: Deque<T>, s: seq<T>): Run<Deque<T>>
    decreases |s|
  {
    if |s| == 0 then Ok(d)
    else
      var d1 :- Append(d, s[0]);
      AppendAll(d1, s[1..])
  }

  /** `NewDequeFromSeq` (pkg/deque.go:47-53): never panics, and holds the last
      `capacity` elements of `s` in order. */
  function NewDequeFromSeq<T>(s: seq<T>, capacity: int): (r: Run<Deque<T>>)
    ensures r.Ok? && Valid(r.value) && r.value.capacity == capacity
    ensures r.Ok? ==> Elems(r.value) == Seqs.KeepLast(s, capacity)
  {
    var none: seq<T> := [];
    assert Seqs.KeepLast(none, capacity) == [];
    AppendAllKeepsLast(NewDeque(capacity), none, s);
    assert none + s == s;
    AppendAll(NewDeque(capacity), s)
  }

  /** Appending `s` to a valid deque holding the kept suffix of `p` holds the kept
      suffix of `p + s`. */
  lemma {:induction false} AppendAllKeepsLast<T>(d: Deque<T>, p: seq<T>, s: seq<T>)
    requires Valid(d) && Elems(d) == Seqs.KeepLast(p, d.capacity)
    ensures AppendAll(d, s).Ok?
    ensures var r := AppendAll(d, s).value;
      Valid(r) && Elems(r) == Seqs.KeepLast(p + s, d.capacity) && r.capacity == d.capacity
    decreases |s|
  {
    if |s| == 0 {
      assert p + s == p;
    } else {
      var p1 := p + [s[0]];
      assert Append(d, s[0]).Ok? by {
        AppendCorrect(d, s[0]);
      }
      var d1 := Append(d, s[0]).value;
      assert Valid(d1) && Elems(d1) == Seqs.KeepLast(p1, d.capacity) && d1.capacity == d.capacity by {
        AppendCorrect(d, s[0]);
        Seqs.PushBackKeepsLast(p, s[0], d.capacity);
      }
      assert AppendAll(d, s) == AppendAll(d1, s[1..]);
      assert p1 + s[1..] == p + s;
      AppendAllKeepsLast(d1, p1, s[1..]);
    }
  }

  /** A deque built from `s` holds the last `capacity` elements of `s` in order (all
      of `s` when unlimited or short enough), so its length is `min(|s|, capacity)`,
      and it is full exactly when it is bounded and `s` reached the bound. */
  lemma FromSeqKeepsLast<T>(s: seq<T>, capacity: int)
    ensures NewDequeFromSeq(s, capacity).Ok?
    ensures var r := NewDequeFromSeq(s, capacity).value;
      && Valid(r)
      && Elems(r) == Seqs.KeepLast(s, capacity)
      && r.capacity == capacity
      && r.len == (if capacity < 0 || |s| <= capacity then |s| else capacity)
      && (IsFull(r) <==> 0 <= capacity <= |s|)
  {
    var d := NewDeque<T>(capacity);
    var none: seq<T> := [];
    assert Seqs.KeepLast(none, capacity) == [];
    AppendAllKeepsLast(d, none, s);
    assert none + s == s;
    var r := NewDequeFromSeq(s, capacity).value;
    ElemsLength(r);
  }

  /** `GetCapacity` (pkg/deque.go:66-68) reports the capacity the deque was created
      with, and no insertion, removal or clearing changes what it reports. */
  lemma CapacityReported<T>(d: Deque<T>, capacity: int, s: seq<T>, v: T, zero: T)
    ensures GetCapacity(NewDeque<T>(capacity)) == capacity
    ensures GetCapacity(NewUnlimitedDeque<T>()) == -1
    ensures NewDequeFromSeq(s, capacity).Ok?
    ensures GetCapacity(NewDequeFromSeq(s, capacity).value) == capacity
    ensures Append(d, v).Ok? ==> GetCapacity(Append(d, v).value) == GetCapacity(d)
    ensures AppendLeft(d, v).Ok? ==> GetCapacity(AppendLeft(d, v).value) == GetCapacity(d)
    ensures TryPop(d, zero).Ok? ==> GetCapacity(TryPop(d, zero).value.deque) == GetCapacity(d)
    ensures TryPopLeft(d, zero).Ok? ==> GetCapacity(TryPopLeft(d, zero).value.deque) == GetCapacity(d)
    ensures GetCapacity(Clear(d)) == GetCapacity(d)
  {
  }
}
