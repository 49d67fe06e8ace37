/**
  Reference definitions of the deque's operations on plain sequences.
  `s[0]` is the left end (head) and `s[|s| - 1]` the right end (tail).
  A negative capacity means "unlimited"; a non-negative one is the bound.
 */
module Seqs {

  /** Append on the right, then evict one element on the left if the bound is exceeded. */
  function PushBack<T>(s: seq<T>, v: T, capacity: int): seq<T>
  {
    var t := s + [v];
    if 0 <= capacity < |t| then t[1..] else t
  }

  /** Append on the left, then evict one element on the right if the bound is exceeded. */
  function PushFront<T>(s: seq<T>, v: T, capacity: int): seq<T>
  {
    var t := [v] + s;
    if 0 <= capacity < |t| then t[..|t| - 1] else t
  }

  /** The last `capacity` elements of `s`, or all of `s` when unlimited or short enough. */
  function KeepLast<T>(s: seq<T>, capacity: int): seq<T>
  {
    if 0 <= capacity < |s| then s[|s| - capacity..] else s
  }

  /** `s` respects the bound `capacity`. */
  predicate Fits<T>(s: seq<T>, capacity: int)
  {
    capacity < 0 || |s| <= capacity
  }

  /** One rotation to the right: the last element becomes the first. */
  function RotR<T>(s: seq<T>): seq<T>
  {
    if |s| == 0 then s else [s[|s| - 1]] + s[..|s| - 1]
  }

  /** One rotation to the left: the first element becomes the last. */
  function RotL<T>(s: seq<T>): seq<T>
  {
    if |s| == 0 then s else s[1..] + [s[0]]
  }

  /** `n` right rotations, one after the other. */
  function RotRTimes<T>(s: seq<T>, n: nat): seq<T>
    decreases n
  {
    if n == 0 then s else RotR(RotRTimes(s, n - 1))
  }

  /** `n` left rotations, one after the other. */
  function RotLTimes<T>(s: seq<T>, n: nat): seq<T>
    decreases n
  {
    if n == 0 then s else RotL(RotLTimes(s, n - 1))
  }

  /** Rotation by a signed step count: right for `n >= 0`, left by `-n` otherwise. */
  function Rotated<T>(s: seq<T>, n: int): seq<T>
  {
    if n >= 0 then RotRTimes(s, n) else RotLTimes(s, -n)
  }

  // ---------------------------------------------------------------------------
  // Eviction arithmetic

  /** A right insertion keeps at most `capacity` elements, ends with `v` unless the
      bound is zero, and otherwise grows the sequence by one. */
  lemma PushBackShape<T>(s: seq<T>, v: T, capacity: int)
    requires Fits(s, capacity)
    ensures var r := PushBack(s, v, capacity);
      && Fits(r, capacity)
      && |r| == (if capacity < 0 || |s| < capacity then |s| + 1 else capacity)
      && (capacity != 0 ==> r[|r| - 1] == v)
      && (capacity == 0 ==> r == [])
      && (|s| < capacity || capacity < 0 ==> r == s + [v])
      && (0 < capacity <= |s| ==> r == s[1..] + [v])
  {
    var t := s + [v];
    if 0 < capacity <= |s| {
      assert t[1..] == s[1..] + [v];
    }
  }

  /** A left insertion keeps at most `capacity` elements, starts with `v` unless the
      bound is zero, and otherwise grows the sequence by one. */
  lemma PushFrontShape<T>(s: seq<T>, v: T, capacity: int)
    requires Fits(s, capacity)
    ensures var r := PushFront(s, v, capacity);
      && Fits(r, capacity)
      && |r| == (if capacity < 0 || |s| < capacity then |s| + 1 else capacity)
      && (capacity != 0 ==> r[0] == v)
      && (capacity == 0 ==> r == [])
      && (|s| < capacity || capacity < 0 ==> r == [v] + s)
      && (0 < capacity <= |s| ==> r == [v] + s[..|s| - 1])
  {
    var t := [v] + s;
    if 0 < capacity <= |s| {
      assert t[..|t| - 1] == [v] + s[..|s| - 1];
    }
  }

  /** Appending to the kept suffix of `p` keeps the suffix of `p + [v]`. */
  lemma PushBackKeepsLast<T>(p: seq<T>, v: T, capacity: int)
    ensures PushBack(KeepLast(p, capacity), v, capacity) == KeepLast(p + [v], capacity)
  {
    var q := p + [v];
    if 0 <= capacity <= |p| {
      var k := KeepLast(p, capacity);
      assert k == p[|p| - capacity..];
      assert (k + [v])[1..] == q[|q| - capacity..];
    }
  }

  /** What is kept fits the bound, and is the whole input exactly when it already fits. */
  lemma KeepLastShape<T>(s: seq<T>, capacity: int)
    ensures Fits(KeepLast(s, capacity), capacity)
    ensures |KeepLast(s, capacity)| == (if Fits(s, capacity) then |s| else capacity)
    ensures KeepLast(s, capacity) == s <==> Fits(s, capacity)
  {
  }

  // ---------------------------------------------------------------------------
  // Rotation

  /** A right rotation is undone by a left rotation, and vice versa. */
  lemma RotationsInverse<T>(s: seq<T>)
    ensures RotL(RotR(s)) == s
    ensures RotR(RotL(s)) == s
  {
    if |s| > 0 {
      assert RotR(s)[1..] == s[..|s| - 1];
      assert RotL(s)[..|s| - 1] == s[1..];
    }
  }

  /** Rotations preserve the length. */
  lemma {:induction false} RotLength<T>(s: seq<T>, n: nat)
    ensures |RotRTimes(s, n)| == |s|
    ensures |RotLTimes(s, n)| == |s|
    decreases n
  {
    if n > 0 {
      RotLength(s, n - 1);
    }
  }

  /** One more right rotation of a split moves the split point one place left. */
  lemma RotRShift<T>(s: seq<T>, k: nat)
    requires 0 < k <= |s|
    ensures RotR(s[|s| - k + 1..] + s[..|s| - k + 1]) == s[|s| - k..] + s[..|s| - k]
  {
    var L := |s|;
    var r := s[L - k + 1..] + s[..L - k + 1];
    var q := s[L - k..] + s[..L - k];
    assert RotR(r) == [r[L - 1]] + r[..L - 1];
    forall i | 0 <= i < L
      ensures RotR(r)[i] == q[i]
    {
      if i > 0 {
        assert RotR(r)[i] == r[i - 1];
      }
    }
  }

  /** One more left rotation of a split moves the split point one place right. */
  lemma RotLShift<T>(s: seq<T>, k: nat)
    requires 0 < k <= |s|
    ensures RotL(s[k - 1..] + s[..k - 1]) == s[k..] + s[..k]
  {
    var L := |s|;
    var r := s[k - 1..] + s[..k - 1];
    var q := s[k..] + s[..k];
    assert RotL(r) == r[1..] + [r[0]];
    forall i | 0 <= i < L
      ensures RotL(r)[i] == q[i]
    {
      if i < L - 1 {
        assert RotL(r)[i] == r[i + 1];
      }
    }
  }

  /** `k <= |s|` right rotations move the last `k` elements to the front, in order. */
  lemma {:induction false} RotRTimesSplit<T>(s: seq<T>, k: nat)
    requires k <= |s|
    ensures RotRTimes(s, k) == s[|s| - k..] + s[..|s| - k]
    decreases k
  {
    if k == 0 {
      assert s[|s|..] + s[..|s|] == s;
    } else {
      RotRTimesSplit(s, k - 1);
      RotRShift(s, k);
    }
  }

  /** `k <= |s|` left rotations move the first `k` elements to the back, in order. */
  lemma {:induction false} RotLTimesSplit<T>(s: seq<T>, k: nat)
    requires k <= |s|
    ensures RotLTimes(s, k) == s[k..] + s[..k]
    decreases k
  {
    if k == 0 {
      assert s[0..] + s[..0] == s;
    } else {
      RotLTimesSplit(s, k - 1);
      RotLShift(s, k);
    }
  }

  /** Rotations compose by adding their step counts. */
  lemma {:induction false} RotRTimesAdd<T>(s: seq<T>, a: nat, b: nat)
    ensures RotRTimes(RotRTimes(s, a), b) == RotRTimes(s, a + b)
    decreases b
  {
    if b > 0 {
      RotRTimesAdd(s, a, b - 1);
    }
  }

  /** Rotations compose by adding their step counts. */
  lemma {:induction false} RotLTimesAdd<T>(s: seq<T>, a: nat, b: nat)
    ensures RotLTimes(RotLTimes(s, a), b) == RotLTimes(s, a + b)
    decreases b
  {
    if b > 0 {
      RotLTimesAdd(s, a, b - 1);
    }
  }

  /** Subtracting the modulus does not change the remainder. */
  lemma ModShift(n: int, L: int)
    requires 0 < L <= n
    ensures (n - L) % L == n % L
  {
    var m := n - L;
    var q := m / L;
    var r := m % L;
    assert m == L * q + r && 0 <= r < L;
    assert n == L * (q + 1) + r;
    ModUnique(n, L, q + 1, r);
  }

  /** The remainder is the only `r` in `[0, L)` with `a == L * q + r`. */
  lemma ModUnique(a: int, L: int, q: int, r: int)
    requires 0 < L && a == L * q + r && 0 <= r < L
    ensures a % L == r
  {
    var q' := a / L;
    var r' := a % L;
    assert a == L * q' + r' && 0 <= r' < L;
    var k := q - q';
    assert L * q == L * q' + L * k by { Distribute(L, q', k); }
    assert L * k == r' - r;
    if k > 0 {
      MulAtLeast(L, k);
    } else if k < 0 {
      assert L * (-k) == -(L * k);
      MulAtLeast(L, -k);
    }
  }

  /** Multiplication distributes over addition, stated on its own so that
      `ModUnique` can compare two quotients without nonlinear reasoning. */
  lemma Distribute(L: int, a: int, b: int)
    ensures L * (a + b) == L * a + L * b
  {
  }

  /** A positive multiple of a positive `L` is at least `L`: in `ModUnique`, two
      quotients that differ would make the remainders differ by `L` or more. */
  lemma MulAtLeast(L: int, k: int)
    requires L > 0 && k >= 1
    ensures L * k >= L
  {
  }

  /** Rotating by `n` steps is the same as rotating by `n mod |s|` steps. */
  lemma {:induction false} RotRTimesMod<T>(s: seq<T>, n: nat)
    requires |s| > 0
    ensures RotRTimes(s, n) == RotRTimes(s, n % |s|)
    decreases n
  {
    var L := |s|;
    if n >= L {
      var full := RotRTimes(s, L);
      RotRTimesSplit(s, L);
      assert full == s by {
        assert s[0..] + s[..0] == s;
      }
      RotRTimesAdd(s, L, n - L);
      RotRTimesMod(s, n - L);
      ModShift(n, L);
    } else {
      assert n % L == n;
    }
  }

  /** Rotating by `n` steps is the same as rotating by `n mod |s|` steps. */
  lemma {:induction false} RotLTimesMod<T>(s: seq<T>, n: nat)
    requires |s| > 0
    ensures RotLTimes(s, n) == RotLTimes(s, n % |s|)
    decreases n
  {
    var L := |s|;
    if n >= L {
      var full := RotLTimes(s, L);
      RotLTimesSplit(s, L);
      assert full == s by {
        assert s[L..] + s[..L] == s;
      }
      RotLTimesAdd(s, L, n - L);
      RotLTimesMod(s, n - L);
      ModShift(n, L);
    } else {
      assert n % L == n;
    }
  }

  /** A sequence of at most one element is unchanged by any rotation. */
  lemma {:induction false} RotShort<T>(s: seq<T>, n: nat)
    requires |s| <= 1
    ensures RotRTimes(s, n) == s && RotLTimes(s, n) == s
    decreases n
  {
    if n > 0 {
      RotShort(s, n - 1);
      if |s| == 1 {
        assert RotR(s) == s && RotL(s) == s;
      }
    }
  }
}
