/**
 * The questions a navigable set or map answers, stated over a set of keys:
 * the greatest key below a bound, the least key above one, the extremes;
 * and what the downEntry/upEntry walks of both trees know on the way down.
 */
module Navigation {
  import opened Wrappers
  import opened RedBlackTree

  /** `y` lies below `e`: strictly, or also equal when `inclusive`. */
  predicate Below(y: int, e: int, inclusive: bool) {
    y < e || (inclusive && y == e)
  }

  /** `y` lies above `e`: strictly, or also equal when `inclusive`. */
  predicate Above(y: int, e: int, inclusive: bool) {
    e < y || (inclusive && y == e)
  }

  /** `r` is the greatest element of `s` below `e`, or None when there is none. */
  ghost predicate IsGreatestBelow(s: set<int>, e: int, inclusive: bool, r: Option<int>) {
    (r.None? ==> forall y :: y in s ==> !Below(y, e, inclusive)) &&
    (r.Some? ==> r.value in s && Below(r.value, e, inclusive) &&
                 forall y :: y in s && Below(y, e, inclusive) ==> y <= r.value)
  }

  /** `r` is the least element of `s` above `e`, or None when there is none. */
  ghost predicate IsLeastAbove(s: set<int>, e: int, inclusive: bool, r: Option<int>) {
    (r.None? ==> forall y :: y in s ==> !Above(y, e, inclusive)) &&
    (r.Some? ==> r.value in s && Above(r.value, e, inclusive) &&
                 forall y :: y in s && Above(y, e, inclusive) ==> r.value <= y)
  }

  ghost predicate IsLeast(s: set<int>, m: int) {
    m in s && forall y :: y in s ==> m <= y
  }

  ghost predicate IsGreatest(s: set<int>, m: int) {
    m in s && forall y :: y in s ==> y <= m
  }

  /**
   * What downEntry knows while it walks down to subtree `t` of a set `s`:
   * `save` is the last entry passed on the right, below `e` and below all of
   * `t`, and every element below `e` outside `t` is at most `save`.
   */
  ghost predicate DownInvariant(s: set<int>, t: Tree, e: int, inclusive: bool, save: Option<int>) {
    Ordered(t) && Elements(t) <= s &&
    (save.Some? ==> save.value in s && save.value < e && forall y :: y in Elements(t) ==> save.value < y) &&
    (forall y :: y in s && Below(y, e, inclusive) && y !in Elements(t) ==> save.Some? && y <= save.value)
  }

  /** One step of downEntry keeps its invariant, and each way out answers correctly. */
  lemma DownStep(s: set<int>, t: Tree, e: int, inclusive: bool, save: Option<int>)
    requires t.Node? && DownInvariant(s, t, e, inclusive, save)
    ensures t.data > e ==> DownInvariant(s, t.left, e, inclusive, save)
    ensures t.data < e ==> DownInvariant(s, t.right, e, inclusive, Some(t.data))
    ensures t.data == e && inclusive ==> IsGreatestBelow(s, e, inclusive, Some(e))
    ensures t.data == e && !inclusive && t.left.Nil? ==> IsGreatestBelow(s, e, inclusive, save)
    ensures t.data == e && !inclusive && t.left.Node? ==>
      IsGreatestBelow(s, e, inclusive, Some(Max(t.left)))
    ensures t.left.Nil? && t.right.Nil? && t.data > e ==> IsGreatestBelow(s, e, inclusive, save)
    ensures t.left.Nil? && t.right.Nil? && t.data < e ==> IsGreatestBelow(s, e, inclusive, Some(t.data))
  {
    assert forall y :: y in Elements(t) && y !in Elements(t.left) ==> t.data <= y;
    assert forall y :: y in Elements(t) && y !in Elements(t.right) ==> y <= t.data;
    if t.left.Node? {
      MaxIsGreatest(t.left);
    }
  }

  /** The mirror image of DownInvariant, for upEntry. */
  ghost predicate UpInvariant(s: set<int>, t: Tree, e: int, inclusive: bool, save: Option<int>) {
    Ordered(t) && Elements(t) <= s &&
    (save.Some? ==> save.value in s && e < save.value && forall y :: y in Elements(t) ==> y < save.value) &&
    (forall y :: y in s && Above(y, e, inclusive) && y !in Elements(t) ==> save.Some? && save.value <= y)
  }

  lemma UpStep(s: set<int>, t: Tree, e: int, inclusive: bool, save: Option<int>)
    requires t.Node? && UpInvariant(s, t, e, inclusive, save)
    ensures t.data < e ==> UpInvariant(s, t.right, e, inclusive, save)
    ensures t.data > e ==> UpInvariant(s, t.left, e, inclusive, Some(t.data))
    ensures t.data == e && inclusive ==> IsLeastAbove(s, e, inclusive, Some(e))
    ensures t.data == e && !inclusive && t.right.Nil? ==> IsLeastAbove(s, e, inclusive, save)
    ensures t.data == e && !inclusive && t.right.Node? ==>
      IsLeastAbove(s, e, inclusive, Some(Min(t.right)))
    ensures t.left.Nil? && t.right.Nil? && t.data < e ==> IsLeastAbove(s, e, inclusive, save)
    ensures t.left.Nil? && t.right.Nil? && t.data > e ==> IsLeastAbove(s, e, inclusive, Some(t.data))
  {
    assert forall y :: y in Elements(t) && y !in Elements(t.left) ==> t.data <= y;
    assert forall y :: y in Elements(t) && y !in Elements(t.right) ==> y <= t.data;
    if t.right.Node? {
      MinIsLeast(t.right);
    }
  }
}
