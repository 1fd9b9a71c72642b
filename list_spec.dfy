/** Value-level specification of the list operations: what `delete` does to
    the sequence of stored values, head to tail. */
module ListSpec {

  /** Index of the first occurrence of `x` in `xs`, scanning head to tail. */
  function FirstIndex<T(==)>(xs: seq<T>, x: T): (i: nat)
    requires x in xs
    ensures i < |xs| && xs[i] == x
    ensures forall j :: 0 <= j < i ==> xs[j] != x
  {
    if xs[0] == x then 0 else 1 + FirstIndex(xs[1..], x)
  }

  /** The values left after removing the first occurrence of `x`;
      `xs` itself when `x` does not occur. */
  function RemoveFirst<T(==)>(xs: seq<T>, x: T): (r: seq<T>)
    ensures |r| == if x in xs then |xs| - 1 else |xs|
  {
    if xs == [] then []
    else if xs[0] == x then xs[1..]
    else [xs[0]] + RemoveFirst(xs[1..], x)
  }

  /** Removing a value that does not occur changes nothing. */
  lemma {:induction false} RemoveFirstAbsent<T>(xs: seq<T>, x: T)
    requires x !in xs
    ensures RemoveFirst(xs, x) == xs
  {
    if xs != [] {
      RemoveFirstAbsent(xs[1..], x);
    }
  }

  /** When the first occurrence of `x` sits at index `i`, exactly that element
      goes and everything before and after it keeps its order. */
  lemma {:induction false} RemoveFirstAt<T>(xs: seq<T>, x: T, i: nat)
    requires i < |xs| && xs[i] == x
    requires forall j :: 0 <= j < i ==> xs[j] != x
    ensures RemoveFirst(xs, x) == xs[..i] + xs[i + 1..]
  {
    if i > 0 {
      RemoveFirstAt(xs[1..], x, i - 1);
      assert xs[1..][..i - 1] == xs[1..i];
      assert xs[1..][i..] == xs[i + 1..];
      assert [xs[0]] + xs[1..i] == xs[..i];
    }
  }

  /** The position `RemoveFirst` takes out is the one `FirstIndex` names. */
  lemma RemoveFirstAtFirstIndex<T>(xs: seq<T>, x: T)
    requires x in xs
    ensures RemoveFirst(xs, x) == xs[..FirstIndex(xs, x)] + xs[FirstIndex(xs, x) + 1..]
  {
  }

  /** Exactly one occurrence of `x` is removed (none when there is none),
      and every other value keeps its multiplicity. */
  lemma {:induction false} RemoveFirstMultiset<T>(xs: seq<T>, x: T)
    ensures multiset(RemoveFirst(xs, x)) == multiset(xs) - multiset{x}
  {
    if xs == [] {
    } else if xs[0] == x {
      assert xs == [xs[0]] + xs[1..];
    } else {
      RemoveFirstMultiset(xs[1..], x);
      assert xs == [xs[0]] + xs[1..];
    }
  }

  /** Removing the only occurrence of `x` leaves no occurrence behind. */
  lemma RemoveOnlyOccurrence<T>(xs: seq<T>, x: T)
    requires multiset(xs)[x] == 1
    ensures x !in RemoveFirst(xs, x)
  {
    RemoveFirstMultiset(xs, x);
    assert multiset(RemoveFirst(xs, x))[x] == 0;
  }

  /** The values in reverse order: what repeated prepending produces. */
  function Reverse<T>(xs: seq<T>): (r: seq<T>)
    ensures |r| == |xs|
  {
    if xs == [] then [] else [xs[|xs| - 1]] + Reverse(xs[..|xs| - 1])
  }

  /** Position `i` of the reversed values is position `|xs| - 1 - i` of `xs`. */
  lemma {:induction false} ReverseAt<T>(xs: seq<T>, i: nat)
    requires i < |xs|
    ensures Reverse(xs)[i] == xs[|xs| - 1 - i]
  {
    if i > 0 {
      ReverseAt(xs[..|xs| - 1], i - 1);
    }
  }
}
