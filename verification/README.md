# Bounded doubly linked deque, modelled in Dafny

This project models the deque of `pkg/deque.go`. The deque is a doubly linked list of nodes. It has a `head`, a `tail`, a length and a capacity. A negative capacity means unlimited. A non-negative capacity bounds the length. An insertion at one end that overflows the bound evicts the element at the other end.

The project models the internal, lock-free variants of the operations:
- `append` and `appendLeft`;
- `tryPop` and `tryPopLeft`;
- `Clear`, `Count` and `TryPeek` (walking from the nearer end), plus `Peek`;
- `Values`, `All` and `Copy`;
- `NewDeque`, `NewUnlimitedDeque` and `NewDequeFromSeq`;
- the capacity queries;
- `rotateRight`, `rotateLeft` and `Rotate`.

**Pointers.** The nodes live in an arena, `Nodes.Heap`. A pointer is `Nil` or the position of a node in the arena. Writing `p.next = q` produces a new arena. Nodes are only added, never removed, the way Go leaves unreachable nodes to the garbage collector.

**Panics.** The operations that follow pointers are pure functions returning `Run<R>`: `append`, `appendLeft`, the pops, `TryPeek`, the rotations and `NewDequeFromSeq`. A `Run<R>` is either `Ok(result)`, or `NilDeref` when the Go code would dereference a nil pointer and panic. `NewDeque`, `NewUnlimitedDeque`, `Clear` and the capacity queries never dereference a pointer and are plain functions. `Peek` is a plain function whose precondition rules out its panics. `Count`, `Values`, `All` and `Copy` are methods with loops. They walk `next` from the head until they reach nil, and they require the `next` links to form the list (`Deques.Forward`), so that nil comes right after the `len`-th node. The states this leaves out are named under "Left out".

**What a deque means.** Its meaning is `Deques.Elems`: the values met walking `next` from `head` for `len` steps. `Deques.Valid` is the representation invariant. It requires that:
- the walk visits `len` distinct nodes that end at `tail`;
- `prev` mirrors `next`;
- the length respects the bound.

Each operation is proved against a reference edit of `Elems` on plain sequences (module `Seqs`). `Seqs.PushBack` and `Seqs.PushFront` add an element and evict one at the other end. `Seqs.KeepLast` keeps the last `capacity` elements. `Seqs.RotRTimes` and `Seqs.RotLTimes` rotate the sequence.

**Rotation.** Rotation in the source breaks the `prev` links. It is modelled as written, under two weaker invariants:
- `Deques.Forward` keeps only the `next` half of the invariant;
- `Rotation.RightRotated(d, m)` additionally records that the first `m + 1` `prev` links are nil.

Corrected rotations are modelled alongside.

The pointer-following operations are functions that follow the Go statements one by one. The contracts of `append`, `appendLeft`, the pops and the rotations record only what a run that finishes keeps: the capacity, and for rotations the length. `TryPeek`'s contract also records when it reports `PeekError`. `NewDequeFromSeq`'s contract records the elements it holds. The rest of their behaviour is stated by the lemmas in the table below.

Modules, one per file:
- `Seqs` (seqs.dfy): the reference sequence operations.
- `Errors` (errors.dfy): the error types of `pkg/errors.go`.
- `Nodes` (nodes.dfy): nodes, the arena, pointer walks and list-splicing lemmas.
- `Deques` (deque.dfy): the deque record, its invariant, construction and the capacity queries.
- `Mutations` (mutate.dfy): insertion, removal, clearing and building from a sequence.
- `Lookup` (lookup.dfy): `TryPeek`, `Peek`, `Count`, `Values`, `All` and `Copy`.
- `Rotation` (rotate.dfy): rotation as written and as corrected.

The model follows the code. In four places the code falls short of what its own comments or data structure promise, and each is reported under Findings:
- The doc comments of `TryPop` and `TryPopLeft` (pkg/deque.go:215-216, 244-245) say they return the removed element. The internal pops return the zero value.
- `node` (pkg/deque.go:10-14) carries a `prev` link, which the insertions and pops keep mirroring `next`. The rotations leave it nil or stale.
- The comment on `Rotate` (pkg/deque.go:338) says it rotates by the given number of steps. A count of `len` or more panics instead.
- For the most negative 64-bit count, `Rotate` does nothing at all.

That the intended rotation by `n` steps equals rotating by `n mod len` steps is this model's own reading: `len` single steps give the list back.

## Model

| member | source | states |
|---|---|---|
| Deques.NewDeque | pkg/deque.go:37-39 | a new deque is valid and empty, with nil head and tail, and reports exactly the capacity it was given (negative included) |
| Deques.NewUnlimitedDeque | pkg/deque.go:42-44 | the unlimited constructor gives a valid empty deque of capacity -1, which is unlimited |
| Deques.IsEmpty | pkg/deque.go:61-63 | when the `next` links form the list, the deque is empty exactly when it holds no elements |
| Deques.IsUnlimited | pkg/deque.go:71-73 | a deque is unlimited exactly when sequences of every length fit its bound |
| Deques.IsFull | pkg/deque.go:76-78 | when the `next` links form the list, the deque is full exactly when it is bounded and holds at least `capacity` elements |
| Deques.IsOverflowing | pkg/deque.go:81-83 | a deque within its bound is never overflowing; when the `next` links form the list, it is overflowing exactly when its elements do not fit the bound |
| Deques.CapacityQueries | pkg/deque.go:61-83 | on a valid deque: empty iff no elements; full iff bounded and holding exactly `capacity` elements; unlimited implies not full; never overflowing; the elements fit the bound |
| Mutations.LinkBackCorrect | pkg/deque.go:127-144 | linking a new node after the tail (all three length cases) keeps the list doubly linked, appends `v` to the elements, and makes the new node the tail |
| Mutations.LinkFrontCorrect | pkg/deque.go:162-175 | linking a new node before the head keeps the list doubly linked, prepends `v`, and makes the new node the head |
| Mutations.UnlinkHeadCorrect | pkg/deque.go:228-239 | the non-empty branches of `tryPopLeft` drop exactly the first element and keep the list doubly linked |
| Mutations.UnlinkTailCorrect | pkg/deque.go:195-210 | the non-empty branches of `tryPop`, link clearing included, drop exactly the last element and keep the list doubly linked |
| Mutations.Append | pkg/deque.go:127-150 | its own contract states only that an `append` that finishes keeps the capacity; the behaviour is stated by `Mutations.AppendCorrect` |
| Mutations.AppendLeft | pkg/deque.go:162-180 | its own contract states only that an `appendLeft` that finishes keeps the capacity; the behaviour is stated by `Mutations.AppendLeftCorrect` |
| Mutations.TryPop | pkg/deque.go:192-213 | its own contract states only that a `tryPop` that finishes keeps the capacity; the behaviour is stated by `Mutations.TryPopCorrect` |
| Mutations.TryPopLeft | pkg/deque.go:225-242 | its own contract states only that a `tryPopLeft` that finishes keeps the capacity; the behaviour is stated by `Mutations.TryPopLeftCorrect` |
| Mutations.AppendCorrect | pkg/deque.go:127-150 | `append` on a valid deque never panics, stays valid, and yields `elems + [v]` with the first element evicted when bounded and over capacity; the tail holds `v` unless the capacity is 0, and capacity 0 leaves nil ends |
| Mutations.AppendLeftCorrect | pkg/deque.go:162-180 | `appendLeft` on a valid deque stays valid and yields `[v] + elems` with the last element evicted on overflow; the head holds `v` unless the capacity is 0 |
| Mutations.TryPopCorrect | pkg/deque.go:192-213 | on an empty deque `tryPop` reports `PopError` and leaves the deque as it was; otherwise it succeeds, removes exactly the last element, and the deque stays valid with the same capacity |
| Mutations.TryPopLeftCorrect | pkg/deque.go:225-242 | on an empty deque `tryPopLeft` reports `PopError` and changes nothing; otherwise it removes exactly the first element and the deque stays valid |
| Mutations.PopsLoseTheElement | pkg/deque.go:192-213 | as written, both pops return Go's zero value of `T` on success, which is not the removed element whenever the two differ |
| Mutations.PopRightReturnsLast | pkg/deque.go:215-216 | a pop that returns what its documentation promises leaves the same deque as `tryPop` and returns the former last element |
| Mutations.PopLeftReturnsFirst | pkg/deque.go:244-245 | a left pop as documented leaves the same deque as `tryPopLeft` and returns the former first element |
| Mutations.Clear | pkg/deque.go:254-261 | from any state, `Clear` gives a valid empty deque with nil ends and the same capacity |
| Mutations.AppendAllKeepsLast | pkg/deque.go:49-51 | appending the elements of `s` one by one to a deque holding the kept suffix of `p` gives the kept suffix of `p + s`, valid and with the same capacity |
| Mutations.NewDequeFromSeq | pkg/deque.go:47-53 | building from `s` never panics and gives a valid deque with the given capacity holding the last `capacity` elements of `s` in order |
| Mutations.FromSeqKeepsLast | pkg/deque.go:47-53 | `NewDequeFromSeq(s, c)` is valid and holds the last `min(|s|, c)` elements of `s` in order (all of `s` when `c < 0`), with capacity `c`, and is full exactly when `0 <= c <= |s|` |
| Seqs.PushBackShape | pkg/deque.go:144-148 | the reference right insertion keeps the bound, has length `min(old + 1, cap)`, ends with `v` unless the capacity is 0, and evicts the first element exactly when it was full |
| Seqs.PushFrontShape | pkg/deque.go:175-179 | the reference left insertion keeps the bound, has length `min(old + 1, cap)`, starts with `v` unless the capacity is 0, and evicts the last element exactly when it was full |
| Seqs.KeepLastShape | pkg/deque.go:47-53 | what is kept fits the bound, has length `min(|s|, cap)`, and is all of `s` exactly when `s` already fits |
| Lookup.TryPeek | pkg/deque.go:280-307 | a `TryPeek(i)` that finishes reports `PeekError{i}` exactly when `i < 0` or `i >= len`; the values found are stated by `Lookup.TryPeekCorrect` and `Lookup.TryPeekWithPrevFrom` |
| Mutations.CapacityReported | pkg/deque.go:66-68 | `GetCapacity` reports the capacity `NewDeque` and `NewDequeFromSeq` were given (-1 for `NewUnlimitedDeque`), and no `append`, `appendLeft`, pop or `Clear` changes it |
| Lookup.TryPeekCorrect | pkg/deque.go:280-307 | on a doubly linked deque `TryPeek(i)` never panics; it returns `PeekError{i}` exactly when `i < 0` or `i >= len`, and the `i`-th element otherwise |
| Lookup.TryPeekFrontHalf | pkg/deque.go:290-296 | an index in the first half is reached from the head along `next` alone, whatever state the `prev` links are in |
| Lookup.TryPeekWithPrevFrom | pkg/deque.go:280-307 | when the `prev` links are nil up to position `m`: out-of-range indices give `PeekError`; indices in the first half or at least `m` give the element; the others dereference nil on the backward walk |
| Lookup.Peek | pkg/deque.go:310-316 | `Peek(i)` of an index in range is the `i`-th element, on a doubly linked deque and, for an index in the first half, also on a deque whose `prev` links rotations have broken |
| Lookup.Count | pkg/deque.go:264-277 | walking `next` until nil counts exactly the occurrences of `v` among the elements |
| Lookup.Values | pkg/deque.go:86-97 | the values yielded walking `next` from the head until nil are the elements, in order |
| Lookup.All | pkg/deque.go:100-110 | `All` yields one pair `(i, elems[i])` per element, in order |
| Lookup.Copy | pkg/deque.go:113-124 | the copy is a valid deque with the same capacity and the same elements |
| Rotation.RotateRight | pkg/deque.go:319-326 | its own contract states only that a right step that finishes keeps the length and the capacity; the behaviour is stated by `Rotation.RotateRightStep` and `Rotation.RotateRightAtBreak` |
| Rotation.RotateLeft | pkg/deque.go:329-336 | its own contract states only that a left step that finishes keeps the length and the capacity; the behaviour is stated by `Rotation.RotateLeftStep` |
| Rotation.Rotate | pkg/deque.go:340-361 | its own contract states only that a `Rotate` that finishes, whatever `n` is, keeps the length and the capacity; the behaviour is stated by `Rotation.RotateAsWritten` |
| Rotation.RotateRightStep | pkg/deque.go:319-326 | a right step moves the last element to the front and keeps the `next` links a list; the `prev` links become nil at one more position |
| Rotation.RotateRightAtBreak | pkg/deque.go:321-323 | once the tail's `prev` is nil, a right step dereferences it |
| Rotation.TailWithoutPrev | pkg/deque.go:202-204 | when the tail's `prev` is nil and there are two or more elements, both `tryPop` and a right step dereference nil |
| Rotation.RotateRightTimesFrom | pkg/deque.go:358-360 | from `m` broken `prev` links, `n` more right steps succeed while `m + n < len` and rotate the elements right `n` times |
| Rotation.RotateRightTimesPanics | pkg/deque.go:358-360 | from `m` broken `prev` links, `n` right steps with `m + n >= len` dereference nil |
| Rotation.RotateLeftStep | pkg/deque.go:329-336 | a left step moves the first element to the end, keeps the `next` links a list, and changes no `prev` link |
| Rotation.RotateLeftTimesCorrect | pkg/deque.go:329-336 | any number of left steps succeed on a deque with intact `next` links and rotate its elements left that many times |
| Rotation.RotateAsWritten | pkg/deque.go:340-361 | `Rotate` on a valid deque: no-op below two elements; rotates right for `0 <= n < len` while leaving `n + 1` nil `prev` links; panics for `n >= len`; rotates left for other negative `n`, keeping only the `next` links; does nothing for the most negative 64-bit `n` |
| Rotation.RotateRightUnlinks | pkg/deque.go:319-326 | one right step on a doubly linked deque of two or more elements keeps the `next` list but breaks the doubly linked invariant |
| Rotation.RotateLeftUnlinks | pkg/deque.go:329-336 | one left step on a doubly linked deque of two or more elements keeps the `next` list but breaks the doubly linked invariant |
| Rotation.LeftThenStuck | pkg/deque.go:329-336 | after `Rotate(-1)` on two or more elements, both `tryPop` and `Rotate(1)` dereference nil |
| Rotation.PeekAfterRotate | pkg/deque.go:299-302 | after `Rotate(n)`, `0 <= n < len`, `TryPeek(i)` gives the rotated element except for `len/2 <= i < n`, where it dereferences nil |
| Rotation.RotateScenario | pkg/deque_test.go:478-496 | on [0, 1, 2] with capacity 3, each `Peek(0)` of the rotation test sees the value it expects, while `TryPeek(1)` after the second `Rotate(1)` dereferences nil |
| Rotation.MinIntScenario | pkg/deque.go:356-360 | on [0, 1, 2], `Rotate` by the most negative 64-bit count leaves the deque as it is, while the corrected one rotates left by 2^63 mod 3 = 2 steps to [2, 0, 1] |
| Rotation.StaleTailScenario | pkg/deque.go:329-336 | on the unlimited [0, 1, 2], `Rotate(-2)`, `tryPop`, `Rotate(-1)`, `tryPop` leave a deque of length 1 whose `next` links no longer reach its tail, whose `TryPeek(0)` is the removed 1, and whose `next` walk meets [0, 2] |
| Rotation.StaleTailScenarioFixed | pkg/deque.go:329-336 | the same calls with the corrected rotations leave a valid deque holding [0], and `TryPeek(0)` is 0 |
| Rotation.RotateRoundTrip | pkg/deque.go:340-361 | `Rotate(1)` followed by `Rotate(-1)` succeeds on a valid deque and restores its elements |
| Rotation.RotateRightFixedStep | pkg/deque.go:319-326 | the corrected right step keeps a doubly linked deque doubly linked and rotates its elements right |
| Rotation.RotateLeftFixedStep | pkg/deque.go:329-336 | the corrected left step keeps a doubly linked deque doubly linked and rotates its elements left |
| Rotation.RotateRightFixedTimesCorrect | pkg/deque.go:358-360 | any number of corrected right steps keep the deque doubly linked and rotate right that many times |
| Rotation.RotateLeftFixedTimesCorrect | pkg/deque.go:358-360 | any number of corrected left steps keep the deque doubly linked and rotate left that many times |
| Rotation.RotateFixedCorrect | pkg/deque.go:340-361 | the corrected `Rotate(n)` never panics on a valid deque, keeps it valid with the same capacity, and rotates by `n`, the same as rotating `abs(n) mod len` steps in that direction |
| Rotation.FixedAgreesWithAsWritten | pkg/deque.go:340-361 | wherever the as-written `Rotate` finishes, the corrected one yields the same elements, except at the most negative 64-bit count, where the as-written one leaves them in place |

## Left out

- The mutex, the public wrappers that only take the lock, and `GetLen` (pkg/deque.go:56-58) are not modelled. `GetLen` reads `len` without the lock; it is concurrency only.
- The `String` methods (pkg/deque.go:16-18, 29-33) and the `Error` message texts (pkg/errors.go:7-17) are diagnostics. Only the error kinds `PopError` and `PeekError(index)` are kept.
- Lazy iteration is not modelled. `Values` and `All` are consumed to the end, so the iterator protocol, early termination and holding the lock across `yield` are out.
- Lookup.Peek: requires an index in range instead of modelling the panic that `Peek` raises on a bad index. When the `prev` links are broken it also requires an index in the first half, because a second-half index may panic there (`Rotation.PeekAfterRotate`).
- Lookup.Count: requires the `next` links to form the list, so the walk ends at nil after `len` steps. Its result is not modelled for an arbitrary pointer graph.
- Lookup.TryPeek: its own contract states only when `PeekError` is reported. The element found is stated by `Lookup.TryPeekCorrect`, `Lookup.TryPeekFrontHalf` and `Lookup.TryPeekWithPrevFrom`.
- Lookup.Values: requires the `next` links to form the list. It says nothing about the states the as-written left rotations followed by pops reach. In the state of `Rotation.StaleTailScenario`, for example, the length is 1 but Go's walk yields [0, 2].
- Lookup.All: requires the `next` links to form the list, so like `Values` it says nothing about such states, where Go pairs indices with the values of the whole walk.
- Lookup.Copy: requires the `next` links to form the list, so like `Values` it says nothing about such states, where Go's copy would receive every value of the walk. It also requires the length to respect the bound; otherwise appending to the new deque would evict. "No shared nodes" holds by construction: each deque value carries its own arena, so the model cannot state sharing between two deques.
- `len` is an unbounded natural number. Go's 64-bit `int` overflow after 2^63 insertions is not modelled.
- Go's zero value of `T` has no Dafny counterpart, so the pops take it as a parameter, `zero`.
- Mutations.Append: its own contract states only that the capacity is kept. The elements and links it produces are stated by `Mutations.AppendCorrect`.
- Mutations.AppendLeft: its own contract states only that the capacity is kept. The elements and links it produces are stated by `Mutations.AppendLeftCorrect`.
- Mutations.TryPop: its own contract states only that the capacity is kept. The result is stated by `Mutations.TryPopCorrect`.
- Mutations.TryPopLeft: its own contract states only that the capacity is kept. The result is stated by `Mutations.TryPopLeftCorrect`.
- Rotation.RotateRight: its own contract states only that the length and the capacity are kept. The step is stated by `Rotation.RotateRightStep` and `Rotation.RotateRightAtBreak`.
- Rotation.RotateLeft: its own contract states only that the length and the capacity are kept. The step is stated by `Rotation.RotateLeftStep`.
- Rotation.Rotate: its own contract states only that the length and the capacity are kept; `Rotation.RotateAsWritten` states the rest. `n` is an unbounded integer. Of Go's 64-bit `int` only the wrap of `-n` at the most negative value is modelled, since no other value can reach the Go code.
- Rotation.FixedAgreesWithAsWritten: at the most negative 64-bit count it states only that the as-written `Rotate` keeps the elements in place, because there the corrected `Rotate` rotates and the two differ.

## Findings

| source | as written | input that shows it | evidently intended | confidence | as-written member | corrected member |
|---|---|---|---|---|---|---|
| pkg/deque.go:192-213 | `tryPop` returns its local `var value T`, which is never assigned, so the caller always gets the zero value | deque [7], `TryPop()` returns `(0, nil)` | return the removed last element, as the doc comment at lines 215-216 says | high, not executed | Mutations.PopsLoseTheElement | Mutations.PopRightReturnsLast |
| pkg/deque.go:225-242 | `tryPopLeft` returns the unassigned zero value in the same way | deque [7], `TryPopLeft()` returns `(0, nil)` | return the removed first element, as lines 244-245 say | high, not executed | Mutations.PopsLoseTheElement | Mutations.PopLeftReturnsFirst |
| pkg/deque.go:319-326 | `rotateRight` never sets the old head's `prev` to the moved node, so the `prev` links of the first nodes stay nil | [0, 1, 2], `Rotate(1)` twice, then `TryPeek(1)` walks `prev` from the tail into nil and panics | set `oldHead.prev = tail`, keeping the list doubly linked | high, not executed | Rotation.RotateScenario | Rotation.RotateRightFixedStep |
| pkg/deque.go:329-336 | `rotateLeft` never sets the moved node's `prev` to the old tail, nor clears the new head's `prev` | [0, 1], `Rotate(-1)`, then `TryPop()` reads the new tail's nil `prev` and panics | set `head.prev = tail` and `newHead.prev = nil` | high, not executed | Rotation.LeftThenStuck | Rotation.RotateLeftFixedStep |
| pkg/deque.go:329-336 | `rotateLeft` leaves the moved node's `prev` pointing at its old neighbour, and a later `tryPop` follows it to a node already removed | unlimited [0, 1, 2], `Rotate(-2)`, `TryPop()`, `Rotate(-1)`, `TryPop()`: `GetLen()` is 1, `Peek(0)` returns 1, which the first pop removed, and `Values` yields [0, 2] | with the `prev` links set, the deque holds [0] and `Peek(0)` is 0 | high, not executed | Rotation.StaleTailScenario | Rotation.StaleTailScenarioFixed |
| pkg/deque.go:340-361 | `Rotate(n)` with `n >= len` reaches a tail whose `prev` was cleared by the earlier steps and panics | [0, 1], `Rotate(2)` | rotate by `n mod len` steps without failing | high, not executed | Rotation.RotateRightTimesPanics | Rotation.RotateFixedCorrect |
| pkg/deque.go:356-360 | `n = -n` wraps around for the most negative `int` and leaves it negative, and ranging over a negative count runs no iterations | [0, 1, 2], `Rotate(math.MinInt64)` leaves [0, 1, 2] | rotate left by 2^63 steps, which on three elements is 2 steps, giving [2, 0, 1] | medium, not executed | Rotation.MinIntScenario | Rotation.RotateFixedCorrect |
