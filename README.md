# Singly linked list of arbitrary values — Dafny model

This project models the Go singly linked list `List` (`singly_linked_list_interface.go`)
and the two helpers its tests are written with (`singly_linked_list_interface_test.go`).

A `List` is a node with a `next` pointer and a value. The list is the node that
the methods are called on, its head. There is no sentinel node. The model's
receiver is always a node; Go's nil `*List` receiver is listed under "Left out".

- an empty list is a head node whose value is absent (`nil`) and whose `next` is nil (`&List{}`);
- `append` and `prepend` on an empty list store the value in the head node itself;
- `prepend` on a non-empty list keeps the head node's identity: the head's old value and link move into one fresh node placed second;
- `delete` of a head match makes the head absorb its successor's value and link; if the head is the only node, its value is cleared back to absent;
- `length` counts nodes, so the empty list has length 1.

The model keeps this representation exactly.

- `Options.Option<T>` stands for Go's `interface{}` values, where `None` is `nil`. `T` is one equality type.
- `ListSpec` holds the value-level specification of `delete`:
  - `FirstIndex` is the position of the first occurrence;
  - `RemoveFirst` is the sequence without that occurrence;
  - lemmas tie the two together.
- `SinglyLinkedList.List` is a class with the source's two fields, `next: List?<T>` and `val: Option<T>`. Two ghost fields, meaningful on the head, give its abstract view:
  - `Nodes` is the chain of nodes reachable from the head, in order;
  - `Contents` is the sequence of stored values.
- `IsChain` / `Chain()` say that `Nodes` really is the chain: each node's `next` is the following node, the last one's is null, and no node repeats. So the chain is acyclic, and every traversal terminates.
- `Valid()` adds the representation invariant. Either the list is in the empty representation (one node, value absent), or there is one node per stored value and every value is present.
- Every method keeps `Valid()` and states its effect on `Contents` and on `Nodes`: which nodes are kept, which are fresh, and which are dropped.
- `ListTestHelpers` models the tests' helpers:
  - `Slice` and `ToSlice` model `toSlice`, which reads a chain's values and stops at the first absent one;
  - `CreateList` models `createList`;
  - one method per test case or test table returns what the test observes, and its `ensures` states the test's expected value.

`length` of `&List{}` is 1, as singly_linked_list_interface_test.go:137 expects, and the model states that.

Two statements of `delete` are modelled by helper methods with their own contracts, so that each proof stays small: `List.AbsorbNext` (singly_linked_list_interface.go:84-85) and `List.UnlinkAfter` (singly_linked_list_interface.go:95). `delete`'s control flow (head test, then the `prev`/`l` scan loop) stays in `List.Delete`.

## Model

| member | source | states |
|---|---|---|
| `SinglyLinkedList.List.constructor` | singly_linked_list_interface_test.go:22 | `&List{}` is a valid empty list: one node, value absent, `next` nil, no contents |
| `SinglyLinkedList.List.Node` | singly_linked_list_interface.go:5-9 | a fresh node holds exactly the given value and link; with a nil link it is a valid one-node list |
| `SinglyLinkedList.List.Append` | singly_linked_list_interface.go:11-27 | keeps the invariant; contents become old ++ [s]; on the empty list the head takes `s` and no node is allocated; otherwise exactly one fresh node is added after the old tail and the old chain is kept as its prefix |
| `SinglyLinkedList.List.Length` | singly_linked_list_interface.go:36-43 | returns the number of nodes reachable from the head, which is max(1, number of stored values): the empty list counts 1 |
| `SinglyLinkedList.List.Prepend` | singly_linked_list_interface.go:45-57 | keeps the invariant; contents become [s] ++ old; on the empty list the head takes `s`; otherwise the head keeps its identity, one fresh node is second, and the rest of the chain is unchanged |
| `SinglyLinkedList.List.Contains` | singly_linked_list_interface.go:59-72 | true iff some node holds `s`; for a present `s` iff `s` is stored; for the absent value iff the list is empty; so false for a present value on the empty list |
| `SinglyLinkedList.List.Delete` | singly_linked_list_interface.go:74-101 | keeps the invariant; contents lose exactly the first occurrence of `s`; without a match the chain is unchanged; no node is allocated; a head match with a successor drops the second node, a lone head match leaves the one node with no contents, which the invariant makes the empty representation (value absent, `next` nil), and a later match unlinks exactly that node |
| `SinglyLinkedList.List.AbsorbNext` | singly_linked_list_interface.go:84-85 | the head takes its successor's value and link; the chain loses its second node and the contents lose their first value |
| `SinglyLinkedList.List.UnlinkAfter` | singly_linked_list_interface.go:94-96 | relinking `prev` past `l` removes exactly node `k` from the chain and value `k` from the contents, and keeps the invariant |
| `ListSpec.FirstIndex` | singly_linked_list_interface.go:93-99 | the position the head-to-tail scan stops at: it holds the value, and no earlier position does |
| `ListSpec.RemoveFirst` | singly_linked_list_interface.go:74-101 | removing the first occurrence shortens the values by one when the value occurs, and by nothing otherwise |
| `ListSpec.RemoveFirstAbsent` | singly_linked_list_interface.go:93-100 | removing a value that does not occur leaves the values unchanged |
| `ListSpec.RemoveFirstAt` | singly_linked_list_interface.go:79-99 | when the first occurrence is at `i`, the result is the values before `i` followed by those after `i`, in order |
| `ListSpec.RemoveFirstAtFirstIndex` | singly_linked_list_interface.go:79-99 | the removed position is the one the scan finds first |
| `ListSpec.RemoveFirstMultiset` | singly_linked_list_interface_test.go:262-268 | exactly one occurrence goes (none if absent) and every other value keeps its multiplicity, so of duplicates only one is removed |
| `ListSpec.RemoveOnlyOccurrence` | singly_linked_list_interface_test.go:241-247 | deleting the only occurrence leaves none, so `contains` is then false |
| `ListSpec.Reverse` | singly_linked_list_interface_test.go:111-116 | the reference order that repeated prepending yields has as many values as its input |
| `ListSpec.ReverseAt` | singly_linked_list_interface_test.go:111-116 | position `i` of the reversed values is position `n - 1 - i` of the input |
| `ListTestHelpers.Slice` | singly_linked_list_interface_test.go:9-17 | the view has the values of a prefix of the chain, all present, and it ends at the chain's end or at the first absent value |
| `ListTestHelpers.SliceUnique` | singly_linked_list_interface_test.go:12 | those three properties determine the view: any sequence that has them is the view |
| `ListTestHelpers.SliceOfValid` | singly_linked_list_interface_test.go:9-17 | on a valid list the view is exactly the stored contents; the empty representation maps to the empty sequence |
| `ListTestHelpers.ToSlice` | singly_linked_list_interface_test.go:9-17 | a nil list gives the empty sequence; on any acyclic chain the loop returns the truncating view of it, and on a valid list it returns the contents; it changes nothing |
| `ListTestHelpers.CreateList` | singly_linked_list_interface_test.go:20-31 | returns a fresh valid list whose contents are the given values; no values give `&List{}`; otherwise exactly one fresh node per value |
| `ListTestHelpers.CreateThenSlice` | singly_linked_list_interface_test.go:20-31 | `toSlice(createList(vs)) == vs` |
| `ListTestHelpers.LengthOfCreated` | singly_linked_list_interface_test.go:140-148 | `length(createList(vs))` is the number of values for non-empty `vs`, and 1 for the empty list |
| `ListTestHelpers.AppendAll` | singly_linked_list_interface_test.go:61-71 | appending v1..vn to `&List{}` gives v1..vn |
| `ListTestHelpers.PrependAll` | singly_linked_list_interface_test.go:111-116 | prepending v1..vn to `&List{}` gives vn..v1 |
| `ListTestHelpers.PrependTo` | singly_linked_list_interface_test.go:82-99 | prepending `x` to `createList(initial)` gives `[x] ++ initial` |
| `ListTestHelpers.DeleteFrom` | singly_linked_list_interface_test.go:271-279 | deleting `x` from `createList(initial)` gives `RemoveFirst(initial, x)` |
| `ListTestHelpers.DeleteCases` | singly_linked_list_interface_test.go:220-268 | the seven delete cases give their expected slices, including [a,a,b] minus a = [a,b] and deleting from the empty list |
| `ListTestHelpers.LengthCases` | singly_linked_list_interface_test.go:134-148 | lengths are 1 for `&List{}`, 1 for one value, 5 for five values |
| `ListTestHelpers.ContainsCases` | singly_linked_list_interface_test.go:162-208 | first, middle and last values are found; a missing value and any value in `&List{}` are not |
| `ListTestHelpers.AppendDeletePrepend` | singly_linked_list_interface_test.go:284-295 | append b, append c, delete b, prepend a gives [a, c] |
| `ListTestHelpers.PrependsAndAppends` | singly_linked_list_interface_test.go:297-307 | append middle, prepend first, append last gives [first, middle, last] |
| `ListTestHelpers.DeleteAllOneByOne` | singly_linked_list_interface_test.go:309-319 | deleting every value of [a, b, c] gives the empty slice |
| `ListTestHelpers.IntegerCases` | singly_linked_list_interface_test.go:322-344 | appending 1, 2, 3 gives [1, 2, 3]; deleting 2 from [1, 2, 3] gives [1, 3] |

## Left out

- `print` (singly_linked_list_interface.go:29-34) and `main` (lines 103-125): they only write values to standard output.
- The nil `*List` receiver, with the `l == nil` branches at singly_linked_list_interface.go:12-13, 46-47, 60-62 and 75-77. The methods' receiver is a non-null `List` object here. In Go, `append` and `prepend` on nil dereference it and panic; `contains` returns false and `delete` returns at once; `length` returns 0, because its loop (line 38) never runs. The model does not represent these nil-receiver results. Only `ToSlice` accepts a nil list, and it returns the empty sequence, as `toSlice` does (singly_linked_list_interface_test.go:12).
- Go's dynamic `interface{}` equality is not modelled: its run-time panic on uncomparable values, and comparisons across different dynamic types. All values of one list have one equality type `T`, so the mixed-type and float test cases (singly_linked_list_interface_test.go:54-58) are not modelled.
- `reflect.DeepEqual`, `t.Run` and the rest of the `testing` harness: each test case is a method that returns the observed slice or value.
- SinglyLinkedList.List.Append: requires a present value unless the list is empty. Appending `nil` to a non-empty list builds a nil-valued interior node. `toSlice` silently truncates at such a node, so that list has no contents view.
- SinglyLinkedList.List.Prepend: requires a present value unless the list is empty, for the same reason: `nil` would become the value of a head that has successors.
- ListTestHelpers.CreateList: requires every value to be present, because a `nil` value would make an interior node or head that `toSlice` truncates at.
- ListTestHelpers.ToSlice: requires the chain from `l` to be acyclic and to end in nil. On a cycle with no absent value, the Go loop would not terminate.
- SinglyLinkedList.List.Length: returns an unbounded integer; Go's `int` could overflow only on a list with more than `math.MaxInt` nodes.
- Aliasing: the abstract view lives on the head node. A caller that keeps a pointer to an interior node and mutates the list through it is outside the model.
