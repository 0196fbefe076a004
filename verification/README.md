# Singly linked list (linked-list.js) in Dafny

This project models the closure-based singly linked list of `linked-list.js`.
`ListNode` is a mutable cell with a `value` and a `nextNode`. `LinkedList`
keeps three captured variables, `size`, `head` and `tail`, and offers
`append`, `prepend`, `insertAt`, `removeAt`, `pop`, `at`, `contains`, `find`,
`toString` and `size`. `insertAt`, `removeAt`, `at` and `pop` locate a node
with the recursive helper `findAt`.

The model is imperative, like the source.

- `LinkedLists.Node` is a class with the fields `value` and `next`.
- `LinkedLists.LinkedList` is a class with the real fields `size`, `head` and
  `tail`. It also has three ghost fields:
  - `contents`: the values in list order;
  - `nodes`: the node objects in list order;
  - `Repr`: the objects the list owns.
- `Valid()` is the list invariant:
  - `size == |contents| == |nodes|`;
  - node k holds `contents[k]` and links to node k+1;
  - no node appears twice;
  - `head` and `tail` are null exactly when the list is empty;
  - otherwise `head` is the first node and `tail` the last, and the last
    node's `next` is null.
- `FollowChain` proves that following `next` from `head` visits exactly
  `nodes` and then reaches null, so the chain has no cycle.

Each mutating method keeps `Valid()` and states its new `contents` and
`nodes` in terms of the old ones. Keeping `nodes` shows that a splice only
relinks: no surviving node is rebuilt, and the survivors keep their order.
`contains`, `find` and `toString` are methods whose loops walk a pointer, as
the source does; each is proved against `contents`. `findAt` becomes a loop
whose counter decreases. `at` uses `findAt` and has no loop of its own, and
`size` is a function of the state.

`toString` returns its text instead of logging it. The JavaScript template
literal turns a value into text; the model takes that conversion as a
parameter `show: T -> string`. `Render` is the reference definition of the
text: `"(head) => "`, then `"(" + show(x) + ") => "` for each element in
order, then `"(null)"`.

Where the code reports an error with `console.error` and returns, the model
returns `Fail(e)` or `Err(e)` and leaves every field and every node
unchanged. Each of the source's messages has its own `Error`:

| error | raised by | meaning |
|---|---|---|
| `IndexAboveSize(size)` | `insertAt`, `at` | index above the allowed bound |
| `NegativeIndex` | `insertAt`, `at` | index below 0 |
| `UndefinedIndex` | `removeAt` | called without an index |
| `IndexOutOfBounds` | `removeAt` | index outside [0, size) |
| `EmptyList` | `pop` | list is empty |

### Where the model follows the intended behaviour rather than the code

The comments at linked-list.js:75-76 and 196 say what is intended:

- `tail` is always the last node, and it is null only for an empty list.
- The new last node's `next` is null.

The code does not always do this. The model follows the intent. `AsWritten`
models `findAt`, `append`, `prepend`, `removeAt`, `pop` and `at` as they are
written (see "## Findings"):

- `append` and `prepend` on an empty list set `tail` to the new node.
- `append`'s branch for "head present, tail null" is unreachable once the
  invariant holds, so the model has no such branch.
- `removeAt(0)` on a one-element list sets `tail` to null.
- `removeAt(size - 1)` moves `tail` to the predecessor.
- `pop` on an empty list returns `Fail(EmptyList)`.
- `at` with a negative index returns `Err(NegativeIndex)`.

The code has no check for these last two cases and dereferences null. The
model adds the checks.

## Model

| member | source | states |
|---|---|---|
| `LinkedLists.Node.constructor` | linked-list.js:21-31 | a new node holds the given value and its `next` is null |
| `LinkedLists.LinkedList.constructor` | linked-list.js:36-38 | a new list is valid and empty: `size` is 0 and `head` and `tail` are null |
| `LinkedLists.LinkedList.FollowChain` | linked-list.js:40-46 | in a valid list, following `next` i times from the node at position k reaches the node at k+i, or null exactly when k+i is the size: the chain has no cycle and ends in null |
| `LinkedLists.LinkedList.FindAt` | linked-list.js:40-46 | the node returned is the one reached by following `next` `index` times from `start`; it is the node at position k+index and holds `contents[k+index]` |
| `LinkedLists.LinkedList.Size` | linked-list.js:278 | the cached size equals the number of values and the number of nodes on the chain |
| `LinkedLists.LinkedList.Append` | linked-list.js:54-78 | the contents become `contents + [v]` and the size grows by 1; the old nodes are kept in order; the new node is fresh, is `tail`, holds `v` and links to null; the invariant is kept |
| `LinkedLists.LinkedList.Prepend` | linked-list.js:84-99 | the contents become `[v] + contents` and the size grows by 1; the old nodes follow the new fresh `head`, which holds `v`; the invariant is kept |
| `LinkedLists.LinkedList.InsertAt` | linked-list.js:106-136 | an index above the size fails with `IndexAboveSize(size)`, a negative index fails with `NegativeIndex`, and on failure no field or node changes; for 0 <= i <= size, the contents become `contents[..i] + [v] + contents[i..]` and the size grows by 1; every old node keeps its place around one fresh node at i; so i = 0 behaves as `prepend` and i = size as `append` |
| `LinkedLists.LinkedList.LinkAfter` | linked-list.js:130-135 | linking a fresh node holding `v` after the node at i-1 gives `contents[..i] + [v] + contents[i..]` and keeps every old node in order |
| `LinkedLists.LinkedList.RemoveAt` | linked-list.js:142-169 | a missing index fails with `UndefinedIndex`, an index outside [0, size) fails with `IndexOutOfBounds`, and on failure no field or node changes; otherwise the contents become `contents[..i] + contents[i+1..]`, the size drops by 1, the surviving nodes keep their order, and `head`/`tail` stay correct (tail updated when the last node goes) |
| `LinkedLists.LinkedList.UnlinkHead` | linked-list.js:156-161 | moving `head` to its successor removes exactly the first element and the first node; the rest keep their order, and an emptied list has null `head` and `tail` |
| `LinkedLists.LinkedList.UnlinkAfter` | linked-list.js:163-168 | unlinking the node after the one at i-1 removes exactly element i and node i; every other node keeps its order |
| `LinkedLists.LinkedList.At` | linked-list.js:171-178 | for 0 <= i < size the result is `Ok(contents[i])`; i >= size gives `IndexAboveSize(size)` and a negative i gives `NegativeIndex` |
| `LinkedLists.LinkedList.Pop` | linked-list.js:183-198 | an empty list fails with `EmptyList` and nothing changes; otherwise exactly the last element and node are dropped; a one-element list ends with null `head` and `tail`; a longer one makes the former second-to-last node the `tail`, with `next` null |
| `LinkedLists.LinkedList.Contains` | linked-list.js:205-224 | the result is true exactly when `v` is among the contents (false for the empty list), and the list is not modified |
| `LinkedLists.LinkedList.Find` | linked-list.js:231-252 | the result is the least k with `contents[k] == v`, or -1 exactly when `v` is absent (including the empty list), and the list is not modified |
| `LinkedLists.LinkedList.ToString` | linked-list.js:257-275 | the text is `Render(contents, show)`: `"(head) => "`, one `"(x) => "` cell per element in order, then `"(null)"`; the list is not modified |
| `LinkedLists.CellsAppend` | linked-list.js:267-270 | the cells rendered for `s + t` are the cells of `s` followed by those of `t` |
| `LinkedLists.CellsSingle` | linked-list.js:267-270 | one element renders as exactly one cell `"(" + show(v) + ") => "` |
| `LinkedLists.RenderEmpty` | linked-list.js:262-265 | an empty list renders as `"(head) => (null)"` |
| `LinkedLists.RenderAppend` | linked-list.js:54-78 | after `append(v)`, the rendering gains exactly the cell of `v`, just before `"(null)"` |
| `LinkedLists.RenderRemoveAt` | linked-list.js:142-169 | after `removeAt(i)`, the rendering loses exactly the cell of element i; the cells around it are unchanged |
| `LinkedLists.RenderInsertAt` | linked-list.js:106-136 | after `insertAt(v, i)`, the rendering is the cells of `contents[..i]`, then the cell of `v`, then the cells of `contents[i..]` |
| `LinkedLists.RemoveMiddleExample` | linked-list.js:163-168 | append dog, cat and parrot, then `removeAt(1)`: the renderings are `(head) => (dog) => (cat) => (parrot) => (null)` and `(head) => (dog) => (parrot) => (null)`, and the size is 2 |
| `AsWritten.Empty` | linked-list.js:37-38 | the initial state has size 0 and an empty chain |
| `AsWritten.FindAt` | linked-list.js:40-46 | the code as written: index 0 returns the start node, and a negative index always ends in a null dereference |
| `AsWritten.Walk` | linked-list.js:267-270 | following `next` for at most `fuel` nodes lists at most `fuel` values, each a value of the arena |
| `AsWritten.Chain` | linked-list.js:258-272 | the values `toString` would show: at most one per node, and none when `head` is null |
| `AsWritten.FindAtWalk` | linked-list.js:40-46 | within the chain's length, `findAt(index)` reaches a node holding the value at position `index` of the chain |
| `AsWritten.Append` | linked-list.js:54-78 | the code as written: append always allocates one node and bumps `size`; on an empty list (null `head`) it sets `head` but leaves `tail` as it was |
| `AsWritten.Prepend` | linked-list.js:84-99 | the code as written: prepend allocates one node and bumps `size` but never changes `tail` |
| `AsWritten.RemoveAt` | linked-list.js:142-169 | the code as written: removeAt never changes `tail`, in any branch |
| `AsWritten.Pop` | linked-list.js:183-198 | the code as written: pop never adds or removes a value from the arena, and on any list of size below 1 it dereferences null |
| `AsWritten.At` | linked-list.js:171-178 | the code as written: the bound error is reported exactly when `index >= size` (so a negative index is not caught), and a negative index below the size always dereferences null |
| `AsWritten.AppendToEmptyLeavesTailNull` | linked-list.js:58-64 | append on an empty list gives size 1 and a head, but `tail` stays null |
| `AsWritten.PrependPrependAppendLosesNode` | linked-list.js:88-93 | prepend(1), prepend(2), append(3) leaves size 3 with the chain [2, 3] |
| `AsWritten.RemoveHeadKeepsStaleTail` | linked-list.js:156-161 | append(1), append(2), removeAt(0) twice, append(3) leaves size 1 with the chain [3, 2] |
| `AsWritten.RemoveLastKeepsStaleTail` | linked-list.js:163-168 | append 1, 2 and 3, then removeAt(2), append(4) leaves size 3 with the chain [1, 2] |
| `AsWritten.PopOnEmptyCrashes` | linked-list.js:193 | pop on an empty list dereferences null |
| `AsWritten.AtNegativeCrashes` | linked-list.js:177 | at(-1) on a one-element list dereferences null |

## Findings

| source | as written | input that shows it | evidently intended | confidence | as-written member | corrected member |
|---|---|---|---|---|---|---|
| linked-list.js:58-64 | `append` on an empty list sets `head` but leaves `tail` null | `append(1)`: size 1, `tail()` is null | `tail` is the new node (comment at linked-list.js:75-76) | high, not executed | `AsWritten.AppendToEmptyLeavesTailNull` | `LinkedLists.LinkedList.Append` |
| linked-list.js:88-93 | `prepend` on an empty list never sets `tail`, so a later `append` overwrites `head.nextNode` | `prepend(1)`, `prepend(2)`, `append(3)`: size 3, chain [2, 3] | chain [2, 1, 3] | high, not executed | `AsWritten.PrependPrependAppendLosesNode` | `LinkedLists.LinkedList.Prepend` |
| linked-list.js:156-161 | `removeAt(0)` that empties the list keeps `tail` on the removed node; the next `append` links that node back in | `append(1)`, `append(2)`, `removeAt(0)`, `removeAt(0)`, `append(3)`: size 1, chain [3, 2] | chain [3] | high, not executed | `AsWritten.RemoveHeadKeepsStaleTail` | `LinkedLists.LinkedList.RemoveAt` |
| linked-list.js:163-168 | `removeAt(size - 1)` keeps `tail` on the removed node; the next `append` is linked after it and lost | `append` 1, 2, 3, `removeAt(2)`, `append(4)`: size 3, chain [1, 2] | chain [1, 2, 4] | high, not executed | `AsWritten.RemoveLastKeepsStaleTail` | `LinkedLists.LinkedList.RemoveAt` |
| linked-list.js:183-198 | `pop` on an empty list calls `findAt(-2, null)`, which dereferences null | `pop()` on a new list | report an empty list and change nothing | high, not executed | `AsWritten.PopOnEmptyCrashes` | `LinkedLists.LinkedList.Pop` |
| linked-list.js:171-178 | `at` checks only `index >= size`; a negative index walks past the end of the chain | `append(1)`, `at(-1)` | report an out-of-range index | high, not executed | `AsWritten.AtNegativeCrashes` | `LinkedLists.LinkedList.At` |

`AsWritten` models the code on an arena of nodes:

- node k holds `values[k]` and `next[k]`;
- -1 stands for null;
- `None` marks a crash.

`AsWritten.FindAt` is the recursive `findAt`. Its `fuel` bound only makes
the function terminate. `AsWritten.Chain` is the sequence of values that
`toString` would show. `insertAt`, `contains`, `find` and `toString` have no
as-written counterpart: the defects above do not lie in them.

## Left out

- The calling script at linked-list.js:1-11 is not modelled. It only
  drives the list.
- Console output is not modelled. The model returns the error values and
  the rendered string instead of printing them.
- The getters and setters of `ListNode` (linked-list.js:25-30) become plain
  field reads and writes. Nothing in the list ever writes `value` after
  construction.
- The `head()` and `tail()` accessors (linked-list.js:279-280) are not
  separate members: they read the `head` and `tail` fields.
- JavaScript's dynamic typing is not modelled. The missing index of
  `removeAt` is an `Option<int>`; every index is an integer. A fractional
  index, which the source would pass on to `findAt` until it crashes, is
  not modelled.
- Strict inequality `!==` becomes Dafny equality on `T`. `NaN`, which is
  unequal to itself, is not modelled.
- The conversion of a value to text in a template literal is the `show`
  parameter of `ToString`, not JavaScript's `String` conversion.
- The null-dereference crashes of `pop` on an empty list and of `at` with a
  negative index are not reproduced by `LinkedLists`. They appear only in
  `AsWritten`.
- Memory reclamation of unlinked nodes is not modelled. `Repr` still
  contains the nodes removed by `removeAt` and `pop`, but `Valid()` no
  longer reaches them.
