/** The helpers the list's tests are written with: `toSlice`, the view of a
    chain as the sequence of its values, and `createList`, which builds a chain
    from a sequence. With them, the tests' expected outcomes are stated and
    checked against the list's contracts. */
module ListTestHelpers {
  import opened Options
  import opened ListSpec
  import opened SinglyLinkedList

  /** The values of a chain of nodes head to tail, stopping at the first node
      whose value is absent. */
  ghost function Slice<T>(ns: seq<List<T>>): (r: seq<T>)
    reads ns
    ensures |r| <= |ns|
    ensures forall i :: 0 <= i < |r| ==> ns[i].val == Some(r[i])
    ensures |r| < |ns| ==> ns[|r|].val == None
  {
    if ns == [] || ns[0].val == None then [] else [ns[0].val.value] + Slice(ns[1..])
  }

  /** The three properties in `Slice`'s contract determine it: any sequence
      that has them is `Slice(ns)`. */
  lemma SliceUnique<T>(ns: seq<List<T>>, r: seq<T>)
    requires |r| <= |ns|
    requires forall i :: 0 <= i < |r| ==> ns[i].val == Some(r[i])
    requires |r| < |ns| ==> ns[|r|].val == None
    ensures Slice(ns) == r
  {
  }

  /** On a valid list the truncating view is exactly the stored contents: only
      the empty representation holds an absent value. */
  lemma SliceOfValid<T>(l: List<T>)
    requires l.Valid()
    ensures Slice(l.Nodes) == l.Contents
  {
  }

  /** `toSlice`: walks the chain from `l` and collects values until the chain
      ends or a node's value is absent. A nil `l` gives the empty slice. */
  method ToSlice<T(==)>(l: List?<T>) returns (result: seq<T>)
    requires l != null ==> l.Chain()
    ensures l == null ==> result == []
    ensures l != null ==> result == Slice(l.Nodes)
    ensures l != null && l.Valid() ==> result == l.Contents
  {
    result := [];
    if l == null {
      return;
    }
    var cur: List?<T> := l;
    ghost var k := 0;
    while cur != null && cur.val != None
      invariant 0 <= k <= |l.Nodes| && |result| == k
      invariant cur == if k < |l.Nodes| then l.Nodes[k] else null
      invariant forall j :: 0 <= j < k ==> l.Nodes[j].val == Some(result[j])
      decreases |l.Nodes| - k
    {
      result := result + [cur.val.value];
      cur := cur.next;
      k := k + 1;
    }
    SliceUnique(l.Nodes, result);
    if l.Valid() {
      SliceOfValid(l);
    }
  }

  /** `createList`: an empty sequence gives `&List{}`; otherwise one fresh node
      per value, linked in order and ending in null. */
  method CreateList<T(==)>(values: seq<Option<T>>) returns (list: List<T>)
    requires forall i :: 0 <= i < |values| ==> values[i].Some?
    ensures fresh(list) && list.Valid()
    ensures |list.Contents| == |values|
    ensures forall i :: 0 <= i < |values| ==> values[i] == Some(list.Contents[i])
    ensures values == [] ==> list.Nodes == [list] && list.val == None && list.next == null
    ensures values != [] ==> |list.Nodes| == |values|
    ensures fresh(list.Nodes)
  {
    if |values| == 0 {
      list := new List();
      return;
    }
    list := new List.Node(values[0], null);
    var cur := list;
    ghost var ns := [list];
    for i := 1 to |values|
      invariant |ns| == i && ns[0] == list && ns[i - 1] == cur
      invariant IsChain(ns)
      invariant forall j :: 0 <= j < i ==> ns[j].val == values[j] && fresh(ns[j])
    {
      var node := new List.Node(values[i], null);
      cur.next := node;
      cur := cur.next;
      ns := ns + [node];
    }
    list.Nodes := ns;
    list.Contents := seq(|values|, j requires 0 <= j < |values| => values[j].value);
  }

  /** Every value present, in order: the argument `createList` is given in the
      tests. */
  function Wrap<T>(xs: seq<T>): seq<Option<T>>
  {
    seq(|xs|, i requires 0 <= i < |xs| => Some(xs[i]))
  }

  /** `toSlice(createList(values))` gives back the values the list was built from. */
  method CreateThenSlice<T(==)>(values: seq<T>) returns (got: seq<T>)
    ensures got == values
  {
    var list := CreateList(Wrap(values));
    got := ToSlice(list);
  }

  /** `length(createList(values))`: one node per value, and one node for the
      empty list. */
  method LengthOfCreated<T(==)>(values: seq<T>) returns (n: int)
    ensures n == if values == [] then 1 else |values|
  {
    var list := CreateList(Wrap(values));
    n := list.Length();
  }

  /** TestAppend: appending each value in turn to `&List{}` gives the values
      in the same order. */
  method AppendAll<T(==)>(values: seq<T>) returns (got: seq<T>)
    ensures got == values
  {
    var list := new List<T>();
    for i := 0 to |values|
      invariant list.Valid() && list.Contents == values[..i]
      invariant fresh(list.Nodes)
    {
      list.Append(Some(values[i]));
      assert values[..i + 1] == values[..i] + [values[i]];
    }
    assert values[..|values|] == values;
    got := ToSlice(list);
  }

  /** TestPrepend, "prepend multiple times": prepending each value in turn to
      `&List{}` gives the values in reverse order. */
  method PrependAll<T(==)>(values: seq<T>) returns (got: seq<T>)
    ensures |got| == |values|
    ensures forall i :: 0 <= i < |values| ==> got[i] == values[|values| - 1 - i]
  {
    var list := new List<T>();
    for i := 0 to |values|
      invariant list.Valid() && list.Contents == Reverse(values[..i])
      invariant fresh(list.Nodes)
    {
      list.Prepend(Some(values[i]));
      assert values[..i + 1][..i] == values[..i];
    }
    assert values[..|values|] == values;
    got := ToSlice(list);
    forall i | 0 <= i < |values|
      ensures got[i] == values[|values| - 1 - i]
    {
      ReverseAt(values, i);
    }
  }

  /** TestPrepend: prepending `x` to `createList(initial)` puts it in front of
      the initial values. */
  method PrependTo<T(==)>(initial: seq<T>, x: T) returns (got: seq<T>)
    ensures got == [x] + initial
  {
    var list := CreateList(Wrap(initial));
    assert list.Contents == initial;
    list.Prepend(Some(x));
    got := ToSlice(list);
  }

  /** TestDelete: deleting `x` from `createList(initial)` removes its first
      occurrence and keeps the rest in order. */
  method DeleteFrom<T(==)>(initial: seq<T>, x: T) returns (got: seq<T>)
    ensures got == RemoveFirst(initial, x)
  {
    var list := CreateList(Wrap(initial));
    assert list.Contents == initial;
    list.Delete(Some(x));
    got := ToSlice(list);
  }

  /** TestDelete's table of cases with their expected slices. */
  method DeleteCases() returns (first: seq<string>, middle: seq<string>, last: seq<string>,
                                only: seq<string>, missing: seq<string>, empty: seq<string>,
                                duplicate: seq<string>)
    ensures first == ["b", "c"] && middle == ["a", "c"] && last == ["a", "b"]
    ensures only == [] && missing == ["a", "b", "c"] && empty == []
    ensures duplicate == ["a", "b"]
  {
    first := DeleteFrom(["a", "b", "c"], "a");
    middle := DeleteFrom(["a", "b", "c"], "b");
    last := DeleteFrom(["a", "b", "c"], "c");
    only := DeleteFrom(["only"], "only");
    missing := DeleteFrom(["a", "b", "c"], "z");
    RemoveFirstAbsent(["a", "b", "c"], "z");
    empty := DeleteFrom([], "anything");
    duplicate := DeleteFrom(["a", "a", "b"], "a");
  }

  /** TestLength: the empty list counts its head node; built lists count one
      node per value. */
  method LengthCases() returns (empty: int, single: int, multiple: int)
    ensures empty == 1 && single == 1 && multiple == 5
  {
    var list := new List<int>();
    empty := list.Length();
    single := LengthOfCreated(["one"]);
    multiple := LengthOfCreated([1, 2, 3, 4, 5]);
  }

  /** TestContains: membership in `createList(["apple", "banana", "cherry"])`,
      and in `&List{}`. */
  method ContainsCases() returns (first: bool, middle: bool, last: bool,
                                  missing: bool, empty: bool)
    ensures first && middle && last
    ensures !missing && !empty
  {
    var list := CreateList(Wrap(["apple", "banana", "cherry"]));
    assert list.Contents == ["apple", "banana", "cherry"];
    first := list.Contains(Some("apple"));
    middle := list.Contains(Some("banana"));
    last := list.Contains(Some("cherry"));
    missing := list.Contains(Some("orange"));
    var emptyList := new List<string>();
    empty := emptyList.Contains(Some("anything"));
  }

  /** TestCombinedOperations, "append then delete then prepend". */
  method AppendDeletePrepend() returns (got: seq<string>)
    ensures got == ["a", "c"]
  {
    var list := new List<string>();
    list.Append(Some("b"));
    list.Append(Some("c"));
    assert list.Contents == ["b", "c"];
    list.Delete(Some("b"));
    assert list.Contents == ["c"];
    list.Prepend(Some("a"));
    got := ToSlice(list);
  }

  /** TestCombinedOperations, "multiple prepends and appends". */
  method PrependsAndAppends() returns (got: seq<string>)
    ensures got == ["first", "middle", "last"]
  {
    var list := new List<string>();
    list.Append(Some("middle"));
    list.Prepend(Some("first"));
    assert list.Contents == ["first", "middle"];
    list.Append(Some("last"));
    got := ToSlice(list);
  }

  /** TestCombinedOperations, "delete all elements one by one". */
  method DeleteAllOneByOne() returns (got: seq<string>)
    ensures got == []
  {
    var list := CreateList(Wrap(["a", "b", "c"]));
    assert list.Contents == ["a", "b", "c"];
    list.Delete(Some("b"));
    assert list.Contents == ["a", "c"];
    list.Delete(Some("a"));
    assert list.Contents == ["c"];
    list.Delete(Some("c"));
    assert list.Contents == [];
    got := ToSlice(list);
  }

  /** TestIntegerValues: the same operations on integer values. */
  method IntegerCases() returns (appended: seq<int>, deleted: seq<int>)
    ensures appended == [1, 2, 3] && deleted == [1, 3]
  {
    appended := AppendAll([1, 2, 3]);
    deleted := DeleteFrom([1, 2, 3], 2);
  }
}
