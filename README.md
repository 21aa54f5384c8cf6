# Array-backed heaps with an injected comparator

This project models the two priority queues of the `all-the-heaps` library in
Dafny. Each stores its elements in a growable array that *is* the tree, and
orders them with a comparator fixed at construction.

- `BinaryHeap`: parent `(i - 1) / 2`, children `2i + 1` and `2i + 2`.
- `DAryHeap`: the arity `n` is fixed at construction. Parent is `(i - 1) / n`,
  rounded down. The j-th child is `n * i + j`, for `j` in `1..n`.

Both offer `siftDown`, `siftUp`, `push`, `pop`, `peek` and a bulk build `from`.
The default comparator is `(a, b) => a - b`, which gives a min-heap.

The files:

- `common.dfy` (module `Common`) holds the shared pieces:
  - the comparator type;
  - its contract, `IsTotalPreorder`: swapping the arguments flips the sign, and
    "not after" (`cmp(x, y) <= 0`) is transitive;
  - the default `NumericCompare`;
  - `Option`, standing for `T | undefined`;
  - the slot exchange `Swap`.
- `binary_heap.dfy` (module `BinaryHeaps`) and `dary_heap.dfy` (module
  `DAryHeaps`) hold the two engines. They are independent, as in the library.
  Each has three parts:
  - Pure functions that follow the loops step by step: `SiftedDown`,
    `SiftedUp`, `Pushed`, `Popped`, `Built` and `Heapified`. `Drained` repeats
    pop until the heap is empty, and `PushedAll` repeats push.
  - Lemmas about those functions: multiset and length are preserved, heap order
    is restored, and the popped value is minimal.
  - A class (`BinaryHeap`, `DAryHeap`) whose field `elements` is the JS `array`
    field. It is renamed because `array` is a Dafny keyword. Its methods update
    the field in place with the source's `while` loops and swaps. Each method's
    postcondition says that it leaves `elements` exactly as the matching
    function describes, and then restates the guarantees from the lemmas.
  - The private `#compare` is the function `Compare`. The static `from` and the
    default-comparator constructor are module-level methods `From` and
    `NewDefault`.
- `scenarios.dfy` (module `HeapScenarios`) states the repository's test
  scenarios as lemmas. These cover concrete pop orders, the custom comparator,
  and the root after a long run of pushes.

The heap property is `IsHeap`: for every `0 < i < |a|`,
`cmp(a[parent(i)], a[i]) <= 0`. Each class's `Valid()` is "the comparator keeps
its contract and `elements` is a heap". `Pop` and `Push` promise
`old(Valid()) ==> Valid()`. They do not require it, because the library runs
them on any array.

On these points the model follows the code as written:

- In the d-ary `siftDown`, a tie between children goes to the **last** minimal
  child. The reduce keeps `b` unless `cmp(a, b) < 0`
  (src/dary-heap.ts:88-90). The binary engine also takes the right child on a
  tie (src/binary-heap.ts:99).
- Both `siftDown`s exchange on `cmp(node, child) == 0`.
- `DAryHeap` never checks `n`. The model takes `n >= 1` as a precondition (the
  `Arity` type) and has no error path.
- `BinaryHeap.from` takes no comparator and always uses the default one
  (src/binary-heap.ts:30-31).
- `push` and `pop` move elements by pairwise swaps (`#swap`, src/binary-heap.ts:75-78,
  src/dary-heap.ts:63-66).
- `DAryHeap.from` starts its loop at `Math.floor(length / n) - 1`. That start
  does not always produce a heap; see Findings.

## Model

| member | source | states |
|---|---|---|
| `Common.NumericCompare` | src/binary-heap.ts:54 | the default comparator is negative exactly when a < b and zero exactly when a == b |
| `Common.NumericCompareIsTotalPreorder` | src/common.ts:1-18 | the default comparator keeps the comparator contract (sign flips on exchange, "not after" transitive) |
| `Common.Reflexive` | src/common.ts:5-7 | under the contract every element compares equal (zero) to itself |
| `Common.Swap` | src/binary-heap.ts:75-78 | exchanging two slots swaps their values, leaves every other slot and the length alone, and keeps the multiset |
| `BinaryHeaps.ParentIndex` | src/binary-heap.ts:63-65 | the parent of the root is -1; every other index has a parent before it, of which it is the left or the right child |
| `BinaryHeaps.ParentOfChildren` | src/binary-heap.ts:63-73 | the parent of the left and of the right child of i is i; both children lie after i, right = left + 1 |
| `BinaryHeaps.SiftedDown` | src/binary-heap.ts:85-104 | sift-down keeps the length and the multiset and never touches slots before the starting index |
| `BinaryHeaps.SiftedUp` | src/binary-heap.ts:106-114 | sift-up keeps the length and the multiset |
| `BinaryHeaps.Pushed` | src/binary-heap.ts:126-129 | push adds exactly the item: length + 1, multiset plus the item |
| `BinaryHeaps.Popped` | src/binary-heap.ts:116-124 | pop of an empty array returns None and changes nothing; otherwise it returns the root and removes exactly that one element |
| `BinaryHeaps.Built` | src/binary-heap.ts:33-35 | the from loop keeps the length and the multiset |
| `BinaryHeaps.Drained` | src/binary-heap.ts:116-124 | popping until empty yields every element exactly once |
| `BinaryHeaps.PushedAll` | src/binary-heap.ts:126-129 | pushing a list of items adds exactly those items |
| `BinaryHeaps.RootIsMinimal` | src/binary-heap.ts:8-19 | in a heap the root is ordered before or equal to every element |
| `BinaryHeaps.SwapDownStep` | src/binary-heap.ts:99-102 | exchanging a node with its first-ordered child, when that child is not after it, moves the only break in heap order down to that child |
| `BinaryHeaps.SiftDownRestoresHeap` | src/binary-heap.ts:85-104 | sift-down restores heap order below its start when the only break was between the start and its children |
| `BinaryHeaps.SiftUpRestoresHeap` | src/binary-heap.ts:106-114 | sift-up restores heap order when the only break was between the index and its parent |
| `BinaryHeaps.PushKeepsHeap` | src/binary-heap.ts:126-129 | push keeps the heap property |
| `BinaryHeaps.PopKeepsHeap` | src/binary-heap.ts:116-124 | pop keeps the heap property and returns an element ordered before or equal to every element that was in the heap |
| `BinaryHeaps.BuiltIsHeap` | src/binary-heap.ts:33-35 | sifting i, i - 1, ..., 0 down, when every node beyond i is settled, yields a heap |
| `BinaryHeaps.HeapifiedIsHeap` | src/binary-heap.ts:30-37 | from(array) returns a heap under the default comparator that holds exactly the array's elements |
| `BinaryHeaps.DrainedIsSorted` | tests/heap-test.ts:65-75 | popping a heap until it is empty yields a sequence sorted by the comparator |
| `BinaryHeaps.PushedAllIsHeap` | tests/heap-test.ts:57-63 | any number of pushes keep the heap property |
| `BinaryHeaps.PushThenDrainIsSorted` | tests/heap-test.ts:65-75 | pushing items onto an empty heap and popping them all gives exactly those items, sorted |
| `BinaryHeaps.HeapifiedDrainsLikePushes` | src/binary-heap.ts:30-37 | under the default comparator, from(items) pops the same sequence as pushing the items one by one |
| `BinaryHeaps.BinaryHeap.constructor` | src/binary-heap.ts:54-61 | a new heap is empty and keeps the given comparator; it is valid when the comparator keeps the contract |
| `BinaryHeaps.BinaryHeap.SwapSlots` | src/binary-heap.ts:75-78 | #swap exchanges two slots of the array |
| `BinaryHeaps.BinaryHeap.SiftDown` | src/binary-heap.ts:85-104 | the while loop leaves the array as SiftedDown describes: same multiset, same length |
| `BinaryHeaps.BinaryHeap.SiftUp` | src/binary-heap.ts:106-114 | the while loop leaves the array as SiftedUp describes: same multiset, same length |
| `BinaryHeaps.BinaryHeap.Pop` | src/binary-heap.ts:116-124 | None and no change when empty; otherwise returns the old root, length - 1, that one element removed; a valid heap stays valid and the value is minimal |
| `BinaryHeaps.BinaryHeap.Push` | src/binary-heap.ts:126-129 | length + 1, multiset plus the item; a valid heap stays valid |
| `BinaryHeaps.BinaryHeap.Peek` | src/binary-heap.ts:131-133 | None when empty, otherwise the root without change; minimal in a valid heap |
| `BinaryHeaps.NewDefault` | src/binary-heap.ts:54-61 | new BinaryHeap() is an empty valid heap with the default comparator |
| `BinaryHeaps.From` | src/binary-heap.ts:30-37 | from(array) takes the array over, uses the default comparator, and leaves a valid heap holding exactly the array's elements |
| `DAryHeaps.ParentBelow` | src/dary-heap.ts:55-57 | for n >= 1 the rounded-down parent of a non-root index lies before it, and the root's is -1 |
| `DAryHeaps.ParentIndex` | src/dary-heap.ts:55-57 | the parent of the root is -1 and every other index has its parent before it |
| `DAryHeaps.ParentIndexIff` | src/dary-heap.ts:55-61 | the parent of i is k exactly when i lies between k's first child n*k + 1 and its n-th child n*k + n |
| `DAryHeaps.ParentOfNthChild` | src/dary-heap.ts:55-61 | for 1 <= j <= n the parent of the j-th child of i is i |
| `DAryHeaps.FirstChildBeyond` | src/dary-heap.ts:83 | the first child of a node lies after it, so sift-down moves forward |
| `DAryHeaps.SmallestChild` | src/dary-heap.ts:86-90 | the reduce picks a child in range, ordered before or equal to every in-bounds child and strictly before every later one (the last minimal child wins) |
| `DAryHeaps.InBoundsChildren` | src/dary-heap.ts:86-89 | the filtered child list is exactly the in-bounds nodes whose parent is the current node |
| `DAryHeaps.SmallestChildIsLastMinimal` | src/dary-heap.ts:83-90 | the chosen child is a child of the node, in [n*i + 1, min(n*i + n + 1, len)), minimal among the in-bounds children, and the last such |
| `DAryHeaps.SiftedDown` | src/dary-heap.ts:80-96 | sift-down keeps the length and the multiset and never touches slots before the starting index |
| `DAryHeaps.SiftedUp` | src/dary-heap.ts:98-106 | sift-up keeps the length and the multiset |
| `DAryHeaps.Pushed` | src/dary-heap.ts:118-121 | push adds exactly the item: length + 1, multiset plus the item |
| `DAryHeaps.Popped` | src/dary-heap.ts:108-116 | pop of an empty array returns None and changes nothing; otherwise it returns the root and removes exactly that one element |
| `DAryHeaps.Built` | src/dary-heap.ts:24-26 | the from loop keeps the length and the multiset |
| `DAryHeaps.Drained` | src/dary-heap.ts:108-116 | popping until empty yields every element exactly once |
| `DAryHeaps.PushedAll` | src/dary-heap.ts:118-121 | pushing a list of items adds exactly those items |
| `DAryHeaps.RootIsMinimal` | src/dary-heap.ts:3-10 | in a heap of any arity the root is ordered before or equal to every element |
| `DAryHeaps.SwapDownStep` | src/dary-heap.ts:91-94 | exchanging a node with its chosen child, when that child is not after it, moves the only break in heap order down to that child |
| `DAryHeaps.SiftDownRestoresHeap` | src/dary-heap.ts:80-96 | sift-down restores heap order below its start when the only break was between the start and its children |
| `DAryHeaps.SiftUpRestoresHeap` | src/dary-heap.ts:98-106 | sift-up restores heap order when the only break was between the index and its parent |
| `DAryHeaps.PushKeepsHeap` | src/dary-heap.ts:118-121 | push keeps the heap property for every arity n >= 1 |
| `DAryHeaps.PopKeepsHeap` | src/dary-heap.ts:108-116 | pop keeps the heap property and returns an element ordered before or equal to every element that was in the heap |
| `DAryHeaps.BuiltIsHeap` | src/dary-heap.ts:24-26 | sifting i, i - 1, ..., 0 down, when every node beyond i is settled, yields a heap |
| `DAryHeaps.FromStartCoversParents` | src/dary-heap.ts:24 | the start floor(len / n) - 1 lies at or beyond every node that has a child exactly when n <= 2 or len % n < 2 (both directions) |
| `DAryHeaps.HeapifiedIsHeap` | src/dary-heap.ts:16-28 | from(array, n, cmp) returns a heap holding exactly the array's elements when n <= 2 or len % n < 2 |
| `DAryHeaps.HeapifiedCounterexample` | src/dary-heap.ts:24 | from([0, 5, 1, 2, 3], 3) returns the array unchanged, which is not a heap (5 sits above its child 3) |
| `DAryHeaps.HeapifiedFromLastParentIsHeap` | src/dary-heap.ts:16-20 | starting the loop at the parent of the last slot yields a heap holding exactly the array's elements, for every array and arity |
| `DAryHeaps.DrainedIsSorted` | tests/heap-test.ts:65-75 | popping a heap until it is empty yields a sequence sorted by the comparator |
| `DAryHeaps.PushedAllIsHeap` | tests/heap-test.ts:57-63 | any number of pushes keep the heap property |
| `DAryHeaps.PushThenDrainIsSorted` | tests/heap-test.ts:65-75 | pushing items onto an empty heap and popping them all gives exactly those items, sorted |
| `DAryHeaps.HeapifiedDrainsLikePushes` | src/dary-heap.ts:16-28 | under the default comparator, from(items, n) pops the same sequence as pushing the items one by one, when from covers every parent |
| `DAryHeaps.DAryHeap.constructor` | src/dary-heap.ts:45-53 | a new heap is empty with the given arity (n >= 1) and comparator; valid when the comparator keeps the contract |
| `DAryHeaps.DAryHeap.SwapSlots` | src/dary-heap.ts:63-66 | #swap exchanges two slots of the array |
| `DAryHeaps.DAryHeap.SiftDown` | src/dary-heap.ts:80-96 | the while loop leaves the array as SiftedDown describes: same multiset, same length |
| `DAryHeaps.DAryHeap.SiftUp` | src/dary-heap.ts:98-106 | the while loop leaves the array as SiftedUp describes: same multiset, same length |
| `DAryHeaps.DAryHeap.Pop` | src/dary-heap.ts:108-116 | None and no change when empty; otherwise returns the old root, length - 1, that one element removed; a valid heap stays valid and the value is minimal |
| `DAryHeaps.DAryHeap.Push` | src/dary-heap.ts:118-121 | length + 1, multiset plus the item; a valid heap stays valid |
| `DAryHeaps.DAryHeap.Peek` | src/dary-heap.ts:123-125 | None when empty, otherwise the root without change; minimal in a valid heap |
| `DAryHeaps.NewDefault` | src/dary-heap.ts:45-53 | new DAryHeap(n) is an empty valid heap with the default comparator |
| `DAryHeaps.From` | src/dary-heap.ts:21-28 | from(array, n, cmp) takes the array over, keeps the multiset, and leaves a valid heap when n <= 2 or len % n < 2 |
| `HeapScenarios.RangeIsSorted` | tests/dary-heap.test.ts:53-59 | 0, 1, ..., count - 1 is in ascending order |
| `HeapScenarios.BinaryFromPopsAscending` | tests/binary-heap.test.ts:9-14 | a binary heap built by from pops its numbers in ascending order |
| `HeapScenarios.BinaryPushesPopAscending` | tests/heap-test.ts:65-75 | numbers pushed onto an empty binary heap pop in ascending order |
| `HeapScenarios.DAryFromPopsAscending` | tests/dary-heap.test.ts:9-15 | a d-ary heap built by from pops its numbers in ascending order when from covers every parent |
| `HeapScenarios.DAryPushesPopAscending` | tests/heap-test.ts:65-75 | numbers pushed onto an empty d-ary heap pop in ascending order, for every arity |
| `HeapScenarios.BinaryFromTestOrder` | tests/binary-heap.test.ts:9-14 | BinaryHeap.from([3, 2, 1]) pops 1, 2, 3 |
| `HeapScenarios.BinaryPushTestOrder` | tests/heap-test.ts:46-55 | pushing 1, 3, 2 onto an empty binary heap pops 1, 2, 3 |
| `HeapScenarios.DAryPushTestOrder` | tests/heap-test.ts:46-55 | pushing 1, 3, 2 onto an empty 3-ary heap pops 1, 2, 3 |
| `HeapScenarios.DAryFromTestOrder` | tests/dary-heap.test.ts:9-15 | DAryHeap.from([4, 3, 2, 1], 3) pops 1, 2, 3, 4 |
| `HeapScenarios.UnaryHeapTestOrder` | tests/dary-heap.test.ts:53-59 | DAryHeap.from(0..9, 1) pops 0, 1, ..., 9 |
| `HeapScenarios.TenAryHeapTestOrder` | tests/dary-heap.test.ts:61-67 | DAryHeap.from(0..99, 10) pops 0, 1, ..., 99 |
| `HeapScenarios.DAryCustomComparatorOrder` | tests/dary-heap.test.ts:17-30 | with a longer-name-first comparator, from(["woofer", "goof"], 3) pops "woofer" then "goof" |
| `HeapScenarios.BinaryCountdownRootIsOne` | tests/heap-test.ts:57-63 | after pushing count, ..., 1 onto an empty binary heap the root is 1 |
| `HeapScenarios.DAryCountdownRootIsOne` | tests/heap-test.ts:57-63 | after pushing count, ..., 1 onto an empty 3-ary heap the root is 1 |

## Left out

- `DAryHeap.logChildren` is not modelled. It only prints to the console.
- `src/index.ts` only re-exports, and the `Heap` interface in `src/common.ts`
  is a type declaration. Neither has content to model. The comparator's sign
  convention is modelled as the `IsTotalPreorder` contract.
- Aliasing is not modelled. `from` stores the caller's array (`heap.array =
  array`), so the library and the caller share it afterwards. The model's array
  is a value, so later changes through the caller's reference are not captured.
- `DAryHeaps.From`: its comparator is required. The source falls back to the
  constructor's default when the argument is falsy, which equals passing
  `NumericCompare`.
- The default comparator is modelled for integer elements only. With a
  non-numeric `T` the comparisons give `NaN` and the resulting order is
  arbitrary. The model does not capture that.
- JavaScript numbers are floating point. Comparator results are modelled as
  unbounded integers, so `NaN` and rounding in `a - b` are not captured.
- `n <= 0` is not modelled. The source never checks it, so the model makes
  `n >= 1` a constructor precondition.
- `BinaryHeaps.BinaryHeap.SiftUp`, `DAryHeaps.DAryHeap.SiftUp`: require an
  index below the length. The source assumes a valid index there. Given an
  index past the end, the comparison with the default comparator gives `NaN`
  and the loop stops. A comparator that reads its arguments throws.
- Time complexity is not modelled: the linear-time build, logarithmic push and
  pop, and the 1000 ms test timeouts are not functional properties.
- Two binary-heap tests are not modelled, because `from` ignores the
  comparator they pass (tests/binary-heap.test.ts:16-48):
  - the custom-comparator test;
  - the "is fast on huge array" test.
- The d-ary "is fast" test is not modelled. Only its timing bound goes beyond
  the sortedness lemmas.
- The "pushing, then popping random heaps" test (tests/heap-test.ts:65-75) is
  modelled by `PushThenDrainIsSorted` for all inputs. The test itself maps over
  a sparse `new Array(10_000)`, so it pushes nothing. JavaScript's default
  string sort of the expected array is not modelled.

## Findings

| source | as written | input that shows it | evidently intended | confidence | as-written member | corrected member |
|---|---|---|---|---|---|---|
| src/dary-heap.ts:24 | the bulk-build loop starts at `Math.floor(length / n) - 1`; when n >= 3 and length % n >= 2, node `Math.floor(length / n)` has a child but is never sifted down | `DAryHeap.from([0, 5, 1, 2, 3], 3)` returns `[0, 5, 1, 2, 3]`, where 5 at index 1 sits above its child 3 at index 4 | start at the last node that has a child, `Math.floor((length - 2) / n)`, so that from returns a heap as its doc comment (src/dary-heap.ts:16-20) says | high; not executed | `DAryHeaps.HeapifiedCounterexample` | `DAryHeaps.HeapifiedFromLastParentIsHeap` |

`DAryHeaps.From` and `DAryHeaps.Heapified` keep the loop as written. Their heap
guarantee holds only under `n <= 2 || length % n < 2`.
`DAryHeaps.FromStartCoversParents` proves that this condition is exactly when
the written start is enough. `DAryHeaps.HeapifiedFromLastParent` is the
corrected build. It starts at `ParentIndex(n, length - 1)` and yields a heap for
every input.
