/**
  The linked nodes of the deque, kept in an arena: a node is addressed by its
  position in a sequence of nodes, and a pointer is either `Nil` or a position.
  Nodes are only ever added to the arena; one that is no longer reachable from
  the deque is garbage, exactly as an unreferenced Go node would be.
 */
module Nodes {

  datatype Ptr = Nil | Ref(id: nat)

  /** A linked-list node: one value, a link toward the tail and one toward the head. */
  datatype Node<T> = Node(value: T, next: Ptr, prev: Ptr)

  type Heap<T> = seq<Node<T>>

  /** The outcome of running code that dereferences pointers: it finishes with a
      value, or it dereferences `nil` and the Go runtime panics. */
  datatype Run<+R> = Ok(value: R) | NilDeref {
    predicate IsFailure() {
      NilDeref?
    }

    function PropagateFailure<U>(): Run<U>
      requires NilDeref?
    {
      NilDeref
    }

    function Extract(): R
      requires Ok?
    {
      value
    }
  }

  /** `*p`. A position outside the arena never arises; it is treated like `nil`. */
  function Load<T>(h: Heap<T>, p: Ptr): Run<Node<T>>
  {
    match p
    case Nil => NilDeref
    case Ref(i) => if i < |h| then Ok(h[i]) else NilDeref
  }

  /** `p.next = q` */
  function SetNext<T>(h: Heap<T>, p: Ptr, q: Ptr): Run<Heap<T>>
  {
    match p
    case Nil => NilDeref
    case Ref(i) => if i < |h| then Ok(h[i := h[i].(next := q)]) else NilDeref
  }

  /** `p.prev = q` */
  function SetPrev<T>(h: Heap<T>, p: Ptr, q: Ptr): Run<Heap<T>>
  {
    match p
    case Nil => NilDeref
    case Ref(i) => if i < |h| then Ok(h[i := h[i].(prev := q)]) else NilDeref
  }

  /** `for range steps { p = p.next }` */
  function FollowNext<T>(h: Heap<T>, p: Ptr, steps: nat): Run<Ptr>
    decreases steps
  {
    if steps == 0 then Ok(p)
    else
      var n :- Load(h, p);
      FollowNext(h, n.next, steps - 1)
  }

  /** `for range steps { p = p.prev }` */
  function FollowPrev<T>(h: Heap<T>, p: Ptr, steps: nat): Run<Ptr>
    decreases steps
  {
    if steps == 0 then Ok(p)
    else
      var n :- Load(h, p);
      FollowPrev(h, n.prev, steps - 1)
  }

  /** The positions reached by following `next` from `p`, for at most `fuel` nodes,
      stopping at `nil`. */
  function Walk<T>(h: Heap<T>, p: Ptr, fuel: nat): (c: seq<nat>)
    ensures |c| <= fuel
    ensures InArena(h, c)
    decreases fuel
  {
    if fuel == 0 then []
    else
      match p
      case Nil => []
      case Ref(i) => if i < |h| then [i] + Walk(h, h[i].next, fuel - 1) else []
  }

  ghost predicate InArena<T>(h: Heap<T>, c: seq<nat>)
  {
    forall i :: 0 <= i < |c| ==> c[i] < |h|
  }

  ghost predicate Distinct(c: seq<nat>)
  {
    forall i, j :: 0 <= i < j < |c| ==> c[i] != c[j]
  }

  /** The values stored at the positions `c`, in order. */
  function ValuesAt<T>(h: Heap<T>, c: seq<nat>): seq<T>
    requires InArena(h, c)
  {
    seq(|c|, i requires 0 <= i < |c| => h[c[i]].value)
  }

  /** `c` lists distinct nodes of the arena, each one's `next` is the following
      one, and the last one's `next` is `nil`. */
  ghost predicate NextChain<T>(h: Heap<T>, c: seq<nat>)
  {
    && InArena(h, c)
    && Distinct(c)
    && (forall i :: 0 <= i < |c| - 1 ==> h[c[i]].next == Ref(c[i + 1]))
    && (|c| > 0 ==> h[c[|c| - 1]].next == Nil)
  }

  /** The `prev` links of `c` are `nil` at positions `0..m` and point to the
      preceding node beyond `m`. With `m == 0` this is the doubly linked list's
      backward half; a larger `m` is what right rotations leave behind. */
  ghost predicate PrevChainFrom<T>(h: Heap<T>, c: seq<nat>, m: nat)
    requires InArena(h, c)
  {
    && (forall p :: 0 <= p <= m && p < |c| ==> h[c[p]].prev == Nil)
    && (forall p :: m < p < |c| ==> h[c[p]].prev == Ref(c[p - 1]))
  }

  ghost predicate PrevChain<T>(h: Heap<T>, c: seq<nat>)
    requires InArena(h, c)
  {
    PrevChainFrom(h, c, 0)
  }

  // ---------------------------------------------------------------------------
  // Walks along a chain

  /** Walking `next` from the `j`-th node of a chain, with just enough fuel, visits
      the rest of the chain. */
  lemma {:induction false} WalkAlongChain<T>(h: Heap<T>, c: seq<nat>, j: nat)
    requires NextChain(h, c) && j < |c|
    ensures Walk(h, Ref(c[j]), |c| - j) == c[j..]
    decreases |c| - j
  {
    if j + 1 < |c| {
      WalkAlongChain(h, c, j + 1);
      assert c[j..] == [c[j]] + c[j + 1..];
    }
  }

  /** Following `next` `s` times from the `a`-th node of a chain reaches the
      `(a + s)`-th node. */
  lemma {:induction false} FollowNextAlongChain<T>(h: Heap<T>, c: seq<nat>, a: nat, s: nat)
    requires NextChain(h, c) && a + s < |c|
    ensures FollowNext(h, Ref(c[a]), s) == Ok(Ref(c[a + s]))
    decreases s
  {
    if s > 0 {
      FollowNextAlongChain(h, c, a + 1, s - 1);
    }
  }

  /** Following `prev` `s` times from the `a`-th node reaches the `(a - s)`-th node,
      as long as the walk stays among the correctly linked positions beyond `m`. */
  lemma {:induction false} FollowPrevAlongChain<T>(h: Heap<T>, c: seq<nat>, m: nat, a: nat, s: nat)
    requires InArena(h, c) && PrevChainFrom(h, c, m)
    requires a < |c| && m <= a - s
    ensures FollowPrev(h, Ref(c[a]), s) == Ok(Ref(c[a - s]))
    decreases s
  {
    if s > 0 {
      FollowPrevAlongChain(h, c, m, a - 1, s - 1);
    }
  }

  /** A walk of `prev` links that has to step off position `m` or below (where
      `prev` is `nil`) ends at `nil` or has already dereferenced it, so reading the
      node it ends at dereferences `nil`. */
  lemma {:induction false} FollowPrevPastBreak<T>(h: Heap<T>, c: seq<nat>, m: nat, a: nat, s: nat)
    requires InArena(h, c) && PrevChainFrom(h, c, m)
    requires a < |c| && 0 < s && a - s < m
    ensures var r := FollowPrev(h, Ref(c[a]), s);
      r.Ok? ==> Load(h, r.value) == NilDeref
    decreases s
  {
    if s > 0 {
      if a <= m {
        assert h[c[a]].prev == Nil;
        NilStaysNil(h, s - 1);
      } else {
        FollowPrevPastBreak(h, c, m, a - 1, s - 1);
      }
    }
  }

  /** From `nil`, any positive walk dereferences `nil`, and the zero walk stays at `nil`. */
  lemma NilStaysNil<T>(h: Heap<T>, s: nat)
    ensures FollowPrev(h, Nil, s) == (if s == 0 then Ok(Nil) else NilDeref)
  {
  }

  // ---------------------------------------------------------------------------
  // Splicing a chain

  /** What linking a fresh node after the last node of `c` does to each node of `c`. */
  lemma AttachBackCells<T>(h: Heap<T>, c: seq<nat>, v: T)
    requires NextChain(h, c) && |c| > 0
    ensures var n := |h|;
      var t := c[|c| - 1];
      var h' := (h + [Node(v, Nil, Ref(t))])[t := h[t].(next := Ref(n))];
      && |h'| == n + 1
      && h'[n] == Node(v, Nil, Ref(t))
      && (forall i :: 0 <= i < |c| ==>
            && c[i] < n
            && h'[c[i]].value == h[c[i]].value
            && h'[c[i]].prev == h[c[i]].prev
            && h'[c[i]].next == (if i < |c| - 1 then h[c[i]].next else Ref(n)))
  {
    var k := |c|;
    forall i | 0 <= i < k - 1
      ensures c[i] != c[k - 1]
    {
    }
  }

  /** A fresh node holding `v`, linked after the last node of a doubly linked chain. */
  lemma AttachBack<T>(h: Heap<T>, c: seq<nat>, v: T)
    requires NextChain(h, c) && PrevChain(h, c) && |c| > 0
    ensures var n := |h|;
      var t := c[|c| - 1];
      var h' := (h + [Node(v, Nil, Ref(t))])[t := h[t].(next := Ref(n))];
      && NextChain(h', c + [n])
      && PrevChain(h', c + [n])
      && ValuesAt(h', c + [n]) == ValuesAt(h, c) + [v]
  {
    var n := |h|;
    var k := |c|;
    var t := c[k - 1];
    var h' := (h + [Node(v, Nil, Ref(t))])[t := h[t].(next := Ref(n))];
    var c' := c + [n];
    AttachBackCells(h, c, v);
    assert forall i :: 0 <= i < k ==> c'[i] == c[i];
    assert NextChain(h', c') by {
      forall i, j | 0 <= i < j < |c'|
        ensures c'[i] != c'[j]
      {
      }
      forall i | 0 <= i < |c'| - 1
        ensures h'[c'[i]].next == Ref(c'[i + 1])
      {
      }
    }
    assert PrevChain(h', c') by {
      forall q | 0 < q < |c'|
        ensures h'[c'[q]].prev == Ref(c'[q - 1])
      {
      }
    }
    assert ValuesAt(h', c') == ValuesAt(h, c) + [v];
  }

  /** What linking a fresh node before the first node of `c` does to each node of `c`. */
  lemma AttachFrontCells<T>(h: Heap<T>, c: seq<nat>, v: T)
    requires NextChain(h, c) && |c| > 0
    ensures var n := |h|;
      var h' := (h + [Node(v, Ref(c[0]), Nil)])[c[0] := h[c[0]].(prev := Ref(n))];
      && |h'| == n + 1
      && h'[n] == Node(v, Ref(c[0]), Nil)
      && (forall i :: 0 <= i < |c| ==>
            && c[i] < n
            && h'[c[i]].value == h[c[i]].value
            && h'[c[i]].next == h[c[i]].next
            && h'[c[i]].prev == (if 0 < i then h[c[i]].prev else Ref(n)))
  {
    forall i | 0 < i < |c|
      ensures c[i] != c[0]
    {
    }
  }

  /** A fresh node holding `v`, linked before the first node of a doubly linked chain. */
  lemma AttachFront<T>(h: Heap<T>, c: seq<nat>, v: T)
    requires NextChain(h, c) && PrevChain(h, c) && |c| > 0
    ensures var n := |h|;
      var h' := (h + [Node(v, Ref(c[0]), Nil)])[c[0] := h[c[0]].(prev := Ref(n))];
      && NextChain(h', [n] + c)
      && PrevChain(h', [n] + c)
      && ValuesAt(h', [n] + c) == [v] + ValuesAt(h, c)
  {
    var n := |h|;
    var k := |c|;
    var h' := (h + [Node(v, Ref(c[0]), Nil)])[c[0] := h[c[0]].(prev := Ref(n))];
    var c' := [n] + c;
    AttachFrontCells(h, c, v);
    assert forall i :: 0 < i <= k ==> c'[i] == c[i - 1];
    assert NextChain(h', c') by {
      forall i, j | 0 <= i < j < |c'|
        ensures c'[i] != c'[j]
      {
      }
      forall i | 0 <= i < |c'| - 1
        ensures h'[c'[i]].next == Ref(c'[i + 1])
      {
      }
    }
    assert PrevChain(h', c') by {
      forall i | 0 < i < |c'|
        ensures h'[c'[i]].prev == Ref(c'[i - 1])
      {
      }
    }
    assert ValuesAt(h', c') == [v] + ValuesAt(h, c);
  }

  /** Dropping the first node of a doubly linked chain of two or more: its successor's
      `prev` becomes `nil`; nothing else about the rest changes. */
  lemma DetachFront<T>(h: Heap<T>, c: seq<nat>)
    requires NextChain(h, c) && PrevChain(h, c) && |c| > 1
    ensures var h' := h[c[1] := h[c[1]].(prev := Nil)];
      && NextChain(h', c[1..])
      && PrevChain(h', c[1..])
      && ValuesAt(h', c[1..]) == ValuesAt(h, c)[1..]
  {
    var h' := h[c[1] := h[c[1]].(prev := Nil)];
    var c' := c[1..];
    forall i | 0 <= i < |c'|
      ensures c'[i] == c[i + 1]
      ensures h'[c'[i]].value == h[c'[i]].value && h'[c'[i]].next == h[c'[i]].next
      ensures 0 < i ==> h'[c'[i]] == h[c'[i]]
    {
      if 0 < i {
        assert c[i + 1] != c[1];
      }
    }
    assert forall i :: 0 <= i < |c'| - 1 ==> h'[c'[i]].next == Ref(c'[i + 1]);
    assert forall i :: 0 < i < |c'| ==> h'[c'[i]].prev == Ref(c'[i - 1]);
    assert PrevChain(h', c');
    assert ValuesAt(h', c') == ValuesAt(h, c)[1..];
  }

  /** Dropping the last node of a doubly linked chain of two or more: any arena that
      agrees with the old one on the remaining nodes, except that the new last one's
      `next` is `nil`, holds the shortened chain. */
  lemma DetachBack<T>(h: Heap<T>, h': Heap<T>, c: seq<nat>)
    requires NextChain(h, c) && PrevChain(h, c) && |c| > 1
    requires |h'| == |h|
    requires forall i :: 0 <= i < |c| - 2 ==> h'[c[i]] == h[c[i]]
    requires h'[c[|c| - 2]] == h[c[|c| - 2]].(next := Nil)
    ensures var c' := c[..|c| - 1];
      && NextChain(h', c')
      && PrevChain(h', c')
      && ValuesAt(h', c') == ValuesAt(h, c)[..|c| - 1]
  {
    var c' := c[..|c| - 1];
    assert forall i :: 0 <= i < |c'| ==> c'[i] == c[i];
    assert forall i :: 0 <= i < |c'| - 1 ==> h'[c'[i]].next == Ref(c'[i + 1]);
    assert PrevChain(h', c');
    assert ValuesAt(h', c') == ValuesAt(h, c)[..|c| - 1];
  }
}
