/** The benchmark's stable insertion sort, which shifts elements in place. */
module StableSort {

  /** `less` is a strict weak order: equivalent elements form classes. */
  ghost predicate StrictWeakOrder<T(!new)>(less: (T, T) -> bool) {
    && (forall x :: !less(x, x))
    && (forall x, y, z :: less(x, y) && less(y, z) ==> less(x, z))
    && (forall x, y, z :: less(x, z) ==> less(x, y) || less(y, z))
  }

  /** Insert behind every element that is not greater. */
  function Insert<T>(s: seq<T>, x: T, less: (T, T) -> bool): (r: seq<T>)
    ensures |r| == |s| + 1
  {
    if s == [] || !less(x, s[|s| - 1]) then s + [x]
    else Insert(s[..|s| - 1], x, less) + [s[|s| - 1]]
  }

  function Sort<T>(s: seq<T>, less: (T, T) -> bool): (r: seq<T>)
    ensures |r| == |s|
  {
    if s == [] then [] else Insert(Sort(s[..|s| - 1], less), s[|s| - 1], less)
  }

  /** Shift greater elements up until the key's place is free. */
  method PreviousStableSort<T>(values: array<T>, less: (T, T) -> bool)
    modifies values
    ensures values[..] == Sort(old(values[..]), less)
  {
    hide Sort, Insert;
    ghost var input := values[..];
    SortShort(input, less);
    var index := 1;
    while index < values.Length
      invariant 1 <= index && (index <= values.Length || values.Length == 0)
      invariant values.Length > 0 ==> values[..index] == Sort(input[..index], less)
      invariant forall k | index <= k < values.Length :: values[k] == input[k]
    {
      Place(values, index, less);
      SortStep(input, less, index);
      index := index + 1;
    }
    assert values[..] == values[..values.Length] && input[..values.Length] == input;
  }

  /** The inner loop: move the element at `index` to its place in the sorted prefix. */
  method Place<T>(values: array<T>, index: nat, less: (T, T) -> bool)
    requires 0 < index < values.Length
    modifies values
    ensures values[..index + 1] == Insert(old(values[..index]), old(values[index]), less)
    ensures forall k | index < k < values.Length :: values[k] == old(values[k])
  {
    hide Insert, Above;
    ghost var input := values[..];
    ghost var sorted := values[..index];
    var key := values[index];
    var previous := index - 1;
    AboveEnd(sorted, key, less);
    while previous >= 0 && less(key, values[previous])
      invariant -1 <= previous < index && Above(sorted, key, less, previous + 1)
      invariant forall k | 0 <= k <= previous :: values[k] == sorted[k]
      invariant forall k | previous < k < index :: values[k + 1] == sorted[k]
      invariant forall k | index < k < values.Length :: values[k] == input[k]
    {
      AboveStep(sorted, key, less, previous);
      values[previous + 1] := values[previous];
      previous := previous - 1;
    }
    InsertSplit(sorted, key, less, previous + 1);
    values[previous + 1] := key;
    assert values[..index + 1] == sorted[..previous + 1] + [key] + sorted[previous + 1..];
  }

  /** From position `k` on, every element is greater than `x`. */
  ghost predicate Above<T>(s: seq<T>, x: T, less: (T, T) -> bool, k: nat) {
    k <= |s| && forall i | k <= i < |s| :: less(x, s[i])
  }

  lemma AboveEnd<T>(s: seq<T>, x: T, less: (T, T) -> bool)
    ensures Above(s, x, less, |s|)
  {
  }

  lemma AboveStep<T>(s: seq<T>, x: T, less: (T, T) -> bool, k: nat)
    requires k < |s| && less(x, s[k]) && Above(s, x, less, k + 1)
    ensures Above(s, x, less, k)
  {
  }

  lemma SortShort<T>(s: seq<T>, less: (T, T) -> bool)
    ensures if s == [] then Sort(s, less) == s else Sort(s[..1], less) == s[..1]
  {
    if s != [] {
      assert s[..1][..0] == [];
    }
  }

  lemma SortStep<T>(s: seq<T>, less: (T, T) -> bool, k: nat)
    requires k < |s|
    ensures Sort(s[..k + 1], less) == Insert(Sort(s[..k], less), s[k], less)
  {
    assert s[..k + 1][..k] == s[..k];
  }

  /** The key goes between the elements that are not greater and those that are. */
  lemma {:induction false} InsertSplit<T>(s: seq<T>, x: T, less: (T, T) -> bool, k: nat)
    requires Above(s, x, less, k) && (k > 0 ==> !less(x, s[k - 1]))
    ensures Insert(s, x, less) == s[..k] + [x] + s[k..]
    decreases |s|
  {
    if k < |s| {
      var init, last := s[..|s| - 1], s[|s| - 1];
      assert Insert(s, x, less) == Insert(init, x, less) + [last];
      assert Above(init, x, less, k);
      hide Insert, Above;
      InsertSplit(init, x, less, k);
      assert init[..k] == s[..k] && init[k..] + [last] == s[k..];
    } else {
      assert s[..k] == s && s[k..] == [];
    }
  }

  // ----- what the sort promises

  ghost predicate Sorted<T>(s: seq<T>, less: (T, T) -> bool) {
    forall i, j | 0 <= i < j < |s| :: !less(s[j], s[i])
  }

  lemma {:induction false} InsertSorted<T(!new)>(s: seq<T>, x: T, less: (T, T) -> bool)
    requires StrictWeakOrder(less) && Sorted(s, less)
    ensures Sorted(Insert(s, x, less), less)
    ensures forall y | y in Insert(s, x, less) :: y in s || y == x
    decreases |s|
  {
    if s != [] && less(x, s[|s| - 1]) {
      var init, last := s[..|s| - 1], s[|s| - 1];
      InsertSorted(init, x, less);
      var r := Insert(init, x, less);
      forall y | y in r
        ensures !less(last, y)
      {
        if y != x {
          assert y in init;
        }
      }
    }
  }

  lemma {:induction false} SortSorted<T(!new)>(s: seq<T>, less: (T, T) -> bool)
    requires StrictWeakOrder(less)
    ensures Sorted(Sort(s, less), less)
    decreases |s|
  {
    if s != [] {
      SortSorted(s[..|s| - 1], less);
      InsertSorted(Sort(s[..|s| - 1], less), s[|s| - 1], less);
    }
  }

  lemma {:induction false} InsertMultiset<T>(s: seq<T>, x: T, less: (T, T) -> bool)
    ensures multiset(Insert(s, x, less)) == multiset(s) + multiset{x}
    decreases |s|
  {
    if s != [] && less(x, s[|s| - 1]) {
      InsertMultiset(s[..|s| - 1], x, less);
      assert s == s[..|s| - 1] + [s[|s| - 1]];
    }
  }

  lemma {:induction false} SortPermutes<T>(s: seq<T>, less: (T, T) -> bool)
    ensures multiset(Sort(s, less)) == multiset(s)
    decreases |s|
  {
    if s != [] {
      SortPermutes(s[..|s| - 1], less);
      InsertMultiset(Sort(s[..|s| - 1], less), s[|s| - 1], less);
      assert s == s[..|s| - 1] + [s[|s| - 1]];
    }
  }

  /** The elements of `s` that compare equal to `e`, in their order. */
  function Class<T>(s: seq<T>, e: T, less: (T, T) -> bool): seq<T> {
    if s == [] then []
    else
      var last := s[|s| - 1];
      Class(s[..|s| - 1], e, less) + if !less(last, e) && !less(e, last) then [last] else []
  }

  lemma ClassSnoc<T>(s: seq<T>, x: T, e: T, less: (T, T) -> bool)
    ensures Class(s + [x], e, less) == Class(s, e, less) + if !less(x, e) && !less(e, x) then [x] else []
  {
    assert (s + [x])[..|s|] == s;
  }

  lemma {:induction false} InsertStable<T(!new)>(s: seq<T>, x: T, e: T, less: (T, T) -> bool)
    requires StrictWeakOrder(less)
    ensures Class(Insert(s, x, less), e, less) == Class(s, e, less) + if !less(x, e) && !less(e, x) then [x] else []
    decreases |s|
  {
    if s == [] || !less(x, s[|s| - 1]) {
      ClassSnoc(s, x, e, less);
    } else {
      var init, last := s[..|s| - 1], s[|s| - 1];
      InsertStable(init, x, e, less);
      ClassSnoc(Insert(init, x, less), last, e, less);
      ClassSnoc(init, last, e, less);
      assert s == init + [last];
      // x and last cannot both be in e's class, because x is less than last.
      assert !(!less(x, e) && !less(e, x) && !less(last, e) && !less(e, last));
    }
  }

  /** Stability: for every element, those equal to it keep their original order. */
  lemma {:induction false} SortStable<T(!new)>(s: seq<T>, e: T, less: (T, T) -> bool)
    requires StrictWeakOrder(less)
    ensures Class(Sort(s, less), e, less) == Class(s, e, less)
    decreases |s|
  {
    if s != [] {
      var init, last := s[..|s| - 1], s[|s| - 1];
      SortStable(init, e, less);
      SortSnoc(init, last, less);
      hide *;
      InsertStable(Sort(init, less), last, e, less);
      ClassSnoc(init, last, e, less);
      assert s == init + [last];
    }
  }

  lemma SortSnoc<T>(s: seq<T>, x: T, less: (T, T) -> bool)
    ensures Sort(s + [x], less) == Insert(Sort(s, less), x, less)
  {
    assert (s + [x])[..|s|] == s;
  }
}
