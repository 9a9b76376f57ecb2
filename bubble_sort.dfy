/**
 * A sorting driver that keeps a private copy of its input and sorts a
 * second copy one step ("tick") at a time, with bubble sort as the step:
 * tick number `time` bubbles the largest of the first `length - time`
 * elements up to position `length - 1 - time`. Elements are compared by
 * an integer key only, so items with equal keys but different payloads
 * show whether the sort is stable.
 */
module BubbleSorting {

  /** An element to sort: it is ordered by `key` alone. */
  datatype Item<P> = Item(key: int, payload: P)

  /** Keys ascend (not strictly) along `s`. */
  ghost predicate Sorted<P>(s: seq<Item<P>>) {
    forall i, j :: 0 <= i < j < |s| ==> s[i].key <= s[j].key
  }

  /** The items of `s` whose key is `k`, in their order in `s`. */
  function Filter<P>(s: seq<Item<P>>, k: int): (r: seq<Item<P>>)
    ensures |r| <= |s|
    ensures forall i :: 0 <= i < |r| ==> r[i].key == k
  {
    if s == [] then []
    else if s[|s| - 1].key == k then Filter(s[..|s| - 1], k) + [s[|s| - 1]]
    else Filter(s[..|s| - 1], k)
  }

  /**
   * `s` is a stable rearrangement of `t`: for every key, the items with
   * that key come in the same order in both.
   */
  ghost predicate Stable<P>(s: seq<Item<P>>, t: seq<Item<P>>) {
    forall k :: Filter(s, k) == Filter(t, k)
  }

  /** `s` with its adjacent pair at `i`, `i + 1` swapped when the right key is strictly smaller. */
  function Step<P>(s: seq<Item<P>>, i: int): seq<Item<P>>
    requires 0 <= i < |s| - 1
  {
    if s[i + 1].key < s[i].key then s[i := s[i + 1]][i + 1 := s[i]] else s
  }

  /** One bubble pass comparing the pairs at 0, 1, ..., m - 1, in that order. */
  function Pass<P>(s: seq<Item<P>>, m: int): (r: seq<Item<P>>)
    requires m <= 0 || m < |s|
    ensures |r| == |s|
    decreases m
  {
    if m <= 0 then s else Step(Pass(s, m - 1), m - 1)
  }

  /** Filtering distributes over concatenation. */
  lemma {:induction false} FilterAppend<P>(s: seq<Item<P>>, t: seq<Item<P>>, k: int)
    ensures Filter(s + t, k) == Filter(s, k) + Filter(t, k)
    decreases |t|
  {
    if t == [] {
      assert s + t == s;
    } else {
      var u := t[..|t| - 1];
      assert (s + t)[..|s + t| - 1] == s + u;
      assert (s + t)[|s + t| - 1] == t[|t| - 1];
      FilterAppend(s, u, k);
    }
  }

  /** Swapping an adjacent pair with different keys keeps every key's items in order. */
  lemma SwapKeepsFilters<P>(s: seq<Item<P>>, i: int, k: int)
    requires 0 <= i < |s| - 1 && s[i].key != s[i + 1].key
    ensures Filter(s[i := s[i + 1]][i + 1 := s[i]], k) == Filter(s, k)
  {
    var t := s[i := s[i + 1]][i + 1 := s[i]];
    assert s == s[..i] + [s[i], s[i + 1]] + s[i + 2..];
    assert t == s[..i] + [s[i + 1], s[i]] + s[i + 2..];
    FilterAppend(s[..i] + [s[i], s[i + 1]], s[i + 2..], k);
    FilterAppend(s[..i] + [s[i + 1], s[i]], s[i + 2..], k);
    FilterAppend(s[..i], [s[i], s[i + 1]], k);
    FilterAppend(s[..i], [s[i + 1], s[i]], k);
    FilterAppend([s[i]], [s[i + 1]], k);
    FilterAppend([s[i + 1]], [s[i]], k);
    assert [s[i], s[i + 1]] == [s[i]] + [s[i + 1]];
    assert [s[i + 1], s[i]] == [s[i + 1]] + [s[i]];
    assert Filter([s[i]], k) == (if s[i].key == k then [s[i]] else []) by {
      assert [s[i]][..0] == [];
    }
    assert Filter([s[i + 1]], k) == (if s[i + 1].key == k then [s[i + 1]] else []) by {
      assert [s[i + 1]][..0] == [];
    }
  }

  /** A pass only ever swaps items with different keys, so it is stable. */
  lemma {:induction false} PassStable<P>(s: seq<Item<P>>, m: int)
    requires m < |s|
    ensures Stable(Pass(s, m), s)
    decreases m
  {
    if m > 0 {
      PassStable(s, m - 1);
      var t := Pass(s, m - 1);
      if t[m].key < t[m - 1].key {
        forall k
          ensures Filter(Pass(s, m), k) == Filter(s, k)
        {
          SwapKeepsFilters(t, m - 1, k);
        }
      }
    }
  }

  /** Every item of `s` is among the items that share its key, as often as in `s`. */
  lemma {:induction false} FilterCount<P>(s: seq<Item<P>>, x: Item<P>)
    ensures multiset(Filter(s, x.key))[x] == multiset(s)[x]
    decreases |s|
  {
    if s != [] {
      var u := s[..|s| - 1];
      assert s == u + [s[|s| - 1]];
      FilterCount(u, x);
    }
  }

  /** A stable rearrangement is a rearrangement: it keeps how often each item occurs. */
  lemma StableIsPermutation<P>(s: seq<Item<P>>, t: seq<Item<P>>)
    requires Stable(s, t)
    ensures multiset(s) == multiset(t)
  {
    forall x
      ensures multiset(s)[x] == multiset(t)[x]
    {
      FilterCount(s, x);
      FilterCount(t, x);
    }
  }

  /** A pass over the pairs below `m` leaves every position after `m` alone. */
  lemma {:induction false} PassKeepsSuffix<P>(s: seq<Item<P>>, m: int)
    requires 0 <= m < |s|
    ensures Pass(s, m)[m + 1..] == s[m + 1..]
    decreases m
  {
    if m > 0 {
      PassKeepsSuffix(s, m - 1);
      var t := Pass(s, m - 1);
      assert t[m..] == s[m..];
    }
  }

  /** After a pass over the pairs below `m`, position `m` holds a largest key of the first m + 1. */
  lemma {:induction false} PassBubblesMax<P>(s: seq<Item<P>>, m: int)
    requires 0 <= m < |s|
    ensures forall j :: 0 <= j <= m ==> Pass(s, m)[j].key <= Pass(s, m)[m].key
    decreases m
  {
    if m > 0 {
      PassBubblesMax(s, m - 1);
    }
  }

  /** A pass keeps every key of the first m + 1 positions below a bound they were all below. */
  lemma {:induction false} PassKeepsBound<P>(s: seq<Item<P>>, m: int, v: int)
    requires 0 <= m < |s|
    requires forall j :: 0 <= j <= m ==> s[j].key <= v
    ensures forall j :: 0 <= j <= m ==> Pass(s, m)[j].key <= v
    decreases m
  {
    if m > 0 {
      PassKeepsBound(s, m - 1, v);
      PassKeepsSuffix(s, m - 1);
      assert Pass(s, m - 1)[m] == Pass(s, m - 1)[m..][0] == s[m..][0];
    }
  }

  /**
   * The last `t` positions of `s` hold its `t` largest keys in ascending
   * order: they are sorted, and nothing before them has a larger key.
   */
  ghost predicate Bubbled<P>(s: seq<Item<P>>, t: int)
    requires 0 <= t <= |s|
  {
    (forall i, j :: |s| - t <= i < j < |s| ==> s[i].key <= s[j].key) &&
    (forall i, j :: 0 <= i < |s| - t <= j < |s| ==> s[i].key <= s[j].key)
  }

  /** How many of the last positions are bubbled after `t` ticks over `n` elements. */
  function Settled(t: int, n: int): int
    requires 0 <= t && 0 <= n
  {
    if t < n then t else n
  }

  /**
   * Pass number `t` of a sequence whose last `t` positions are already
   * bubbled bubbles one more position.
   */
  lemma PassExtendsBubbled<P>(s: seq<Item<P>>, t: int)
    requires 0 <= t < |s| && Bubbled(s, t)
    ensures Bubbled(Pass(s, |s| - 1 - t), t + 1)
  {
    var m := |s| - 1 - t;
    PassBubblesMax(s, m);
    PassBelowSettled(s, m);
    PassKeepsSortedSuffix(s, m);
  }

  /** A pass over the pairs below `m` keeps everything up to `m` below what follows `m`. */
  lemma PassBelowSettled<P>(s: seq<Item<P>>, m: int)
    requires 0 <= m < |s|
    requires forall i, j :: 0 <= i <= m < j < |s| ==> s[i].key <= s[j].key
    ensures forall i, j :: 0 <= i <= m < j < |s| ==> Pass(s, m)[i].key <= Pass(s, m)[j].key
  {
    var r := Pass(s, m);
    PassKeepsSuffix(s, m);
    forall j | m < j < |s|
      ensures forall i :: 0 <= i <= m ==> r[i].key <= r[j].key
    {
      assert r[j] == r[m + 1..][j - m - 1] == s[m + 1..][j - m - 1] == s[j];
      PassKeepsBound(s, m, s[j].key);
    }
  }

  /** A pass over the pairs below `m` keeps the positions after `m` ascending. */
  lemma PassKeepsSortedSuffix<P>(s: seq<Item<P>>, m: int)
    requires 0 <= m < |s|
    requires forall i, j :: m < i < j < |s| ==> s[i].key <= s[j].key
    ensures forall i, j :: m < i < j < |s| ==> Pass(s, m)[i].key <= Pass(s, m)[j].key
  {
    var r := Pass(s, m);
    PassKeepsSuffix(s, m);
    forall i, j | m < i < j < |s|
      ensures r[i].key <= r[j].key
    {
      assert r[i] == r[m + 1..][i - m - 1] == s[m + 1..][i - m - 1];
      assert r[j] == r[m + 1..][j - m - 1] == s[m + 1..][j - m - 1];
    }
  }

  /** Once every position is bubbled, the whole sequence is sorted. */
  lemma BubbledAllSorted<P>(s: seq<Item<P>>)
    requires Bubbled(s, |s|)
    ensures Sorted(s)
  {
  }

  /**
   * The sorter: `data` is its private copy of the input, `sortedCopy` the
   * copy being sorted in place, and `time` the number of ticks so far.
   */
  class BubbleSort<P> {
    const data: seq<Item<P>>
    var sortedCopy: array<Item<P>>
    var time: int

    /**
     * The working copy is a stable rearrangement of the data whose last
     * `time` positions (all of them, once `time` reaches the length) are
     * bubbled.
     */
    ghost predicate Valid()
      reads this, sortedCopy
    {
      sortedCopy.Length == |data| && 0 <= time && Progress(sortedCopy[..], data, time)
    }

    /** Copies the input, so later changes to either array do not affect the other, and resets. */
    constructor (input: array<Item<P>>)
      ensures Valid() && fresh(sortedCopy)
      ensures data == input[..] && sortedCopy[..] == input[..] && time == 0
    {
      data := input[..];
      sortedCopy := new Item<P>[0];  // replaced by the reset below
      new;
      Reset();
    }

    function GetTime(): (t: int)
      reads this
      ensures t == time
    {
      time
    }

    /** Starts over: a fresh copy of the data, at time 0. */
    method Reset()
      modifies this
      ensures Valid() && fresh(sortedCopy) && sortedCopy[..] == data && time == 0
    {
      sortedCopy := new Item<P>[|data|](i requires 0 <= i < |data| => data[i]);
      time := 0;
      assert sortedCopy[..] == data;
      Bubbled0(data);
    }

    /**
     * One bubble pass over the pairs at 0 .. length - 2 - time, swapping
     * only where the right key is strictly smaller, then one more tick.
     */
    method Tick()
      requires Valid()
      modifies this, sortedCopy
      ensures Valid() && sortedCopy == old(sortedCopy) && time == old(time) + 1
      ensures sortedCopy[..] == Pass(old(sortedCopy[..]), sortedCopy.Length - 1 - old(time))
    {
      var t := time;
      time := t + 1;
      BubbleTick(sortedCopy, data, t);
    }

    /**
     * Ticks once for each remaining position, then answers a fresh copy
     * of the working array, which by then is sorted.
     */
    method Sort() returns (r: array<Item<P>>)
      requires Valid()
      modifies this, sortedCopy
      ensures Valid() && sortedCopy == old(sortedCopy) && fresh(r)
      ensures time == if old(time) < |data| then |data| else old(time)
      ensures r[..] == sortedCopy[..]
      ensures Sorted(r[..]) && Stable(r[..], data) && multiset(r[..]) == multiset(data)
    {
      var i := time;
      while i < sortedCopy.Length
        invariant Valid() && sortedCopy == old(sortedCopy)
        invariant time == if old(time) < i then i else old(time)
        invariant i <= sortedCopy.Length || i == old(time)
      {
        Tick();
        i := i + 1;
      }
      BubbledAllSorted(sortedCopy[..]);
      StableIsPermutation(sortedCopy[..], data);
      r := ToArray();
    }

    /** A fresh copy of the working array. */
    method ToArray() returns (r: array<Item<P>>)
      ensures fresh(r) && r[..] == sortedCopy[..]
    {
      r := CopyOf(sortedCopy);
    }
  }

  /**
   * Compares the adjacent pairs at 0, 1, ..., m - 1 of `a` in turn and
   * swaps a pair only when its right key is strictly smaller.
   */
  method BubblePass<P>(a: array<Item<P>>, m: int)
    requires m < a.Length || m <= 0
    modifies a
    ensures a[..] == Pass(old(a[..]), m)
  {
    ghost var s := a[..];
    var i := 0;
    while i < m
      invariant 0 <= i && (i <= m || i == 0)
      invariant a[..] == Pass(s, i)
    {
      ghost var before := a[..];
      if a[i + 1].key < a[i].key {
        var tmp := a[i];
        a[i] := a[i + 1];
        a[i + 1] := tmp;
      }
      assert a[..] == Step(before, i) == Pass(s, i + 1);
      i := i + 1;
    }
  }

  /**
   * Tick number `t` on the working array `a` of the data `d`: one bubble
   * pass over the pairs below length - 1 - t.
   */
  method BubbleTick<P>(a: array<Item<P>>, ghost d: seq<Item<P>>, t: int)
    requires a.Length == |d| && 0 <= t && Progress(a[..], d, t)
    modifies a
    ensures a[..] == Pass(old(a[..]), a.Length - 1 - t) && Progress(a[..], d, t + 1)
  {
    ghost var s := a[..];
    BubblePass(a, a.Length - 1 - t);
    TickKeeps(s, d, t);
  }

  /** A fresh array with the same elements. */
  method CopyOf<T>(a: array<T>) returns (b: array<T>)
    ensures fresh(b) && b[..] == a[..]
  {
    b := new T[a.Length](i requires 0 <= i < a.Length reads a => a[i]);
  }

  /** At time 0 the data itself is a valid working copy. */
  lemma Bubbled0<P>(s: seq<Item<P>>)
    ensures Progress(s, s, 0)
  {
  }

  /** Bubbling one more of the last positions is free once at most one position is left. */
  lemma BubbledGrows<P>(s: seq<Item<P>>, t: int)
    requires 0 <= t && |s| - 1 - t <= 0
    requires Bubbled(s, Settled(t, |s|))
    ensures Bubbled(s, Settled(t + 1, |s|))
  {
  }

  /**
   * After `t` ticks, the working copy `s` is a stable rearrangement of
   * the data `d` (a rearrangement by StableIsPermutation) whose last `t` positions (all of them, once `t` reaches
   * the length) are bubbled.
   */
  ghost predicate Progress<P>(s: seq<Item<P>>, d: seq<Item<P>>, t: int)
    requires 0 <= t
  {
    Stable(s, d) && Bubbled(s, Settled(t, |s|))
  }

  /**
   * Pass number `t` keeps the working copy a stable rearrangement of the
   * data and bubbles one more of its last positions.
   */
  lemma TickKeeps<P>(s: seq<Item<P>>, d: seq<Item<P>>, t: int)
    requires 0 <= t && Progress(s, d, t)
    ensures Progress(Pass(s, |s| - 1 - t), d, t + 1)
  {
    var m := |s| - 1 - t;
    if 0 < m {
      PassStable(s, m);
      PassExtendsBubbled(s, t);
      StableTrans(Pass(s, m), s, d);
    } else {
      BubbledGrows(s, t);
    }
  }

  /** Stable rearrangement is transitive. */
  lemma StableTrans<P>(a: seq<Item<P>>, b: seq<Item<P>>, c: seq<Item<P>>)
    requires Stable(a, b) && Stable(b, c)
    ensures Stable(a, c)
  {
  }
}
