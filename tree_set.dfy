/**
 * TreeSet: a navigable set of integers kept in a red-black tree, with its
 * ascending and descending iterators, its descending view and its range view.
 */
module TreeSets {
  import opened Wrappers
  import opened RedBlackTree
  import opened Navigation

  class TreeSet {
    var root: Tree
    var size: int

    ghost predicate Valid()
      reads this
    {
      IsRedBlack(root) && size == |Elements(root)|
    }

    ghost function Contents(): set<int>
      reads this
    {
      Elements(root)
    }

    constructor()
      ensures Valid() && Contents() == {}
    {
      root := Nil;
      size := 0;
    }

    /** size: the number of elements. */
    function Size(): (n: int)
      reads this
      requires Valid()
      ensures n == |Contents()|
    {
      size
    }

    /** isEmpty */
    function IsEmpty(): (b: bool)
      reads this
      requires Valid()
      ensures b <==> Contents() == {}
    {
      size == 0
    }

    /** getParent: the last entry on the search path before `x` (Nil for null). */
    method GetParent(x: int) returns (p: Tree)
      requires Valid()
      ensures p == SearchParent(root, x)
    {
      p := Nil;
      var t := root;
      while t.Node? && t.data != x
        invariant SearchParent(root, x) == if t.Nil? || t.data == x then p else SearchParent(t, x)
        decreases t
      {
        p := t;
        t := if x < t.data then t.left else t.right;
      }
    }

    /** contains */
    method Contains(x: int) returns (b: bool)
      requires Valid()
      ensures b <==> x in Contents()
    {
      if size == 0 {
        return false;
      }
      SearchParentFinds(root, x);
      if root.data == x {
        return true;
      }
      var p := GetParent(x);
      b := GetChild(p, x).Node?;
    }

    /**
     * add: a first element becomes a black root; otherwise a new red entry is
     * attached below the entry getParent finds and rebalanceInsert repairs the
     * colours. Returns whether the set changed.
     */
    method Add(e: int) returns (changed: bool)
      requires Valid()
      modifies this
      ensures Valid()
      ensures changed <==> e !in old(Contents())
      ensures Contents() == old(Contents()) + {e}
    {
      if size == 0 {
        root := Node(Black, Nil, e, Nil);
        size := 1;
        return true;
      }
      var p := GetParent(e);
      var existing := if p.Nil? then root else GetChild(p, e);
      SearchParentFinds(root, e);
      if existing.Node? {
        return false;
      }
      InsertKeepsRedBlack(root, e);
      root := RebalanceInsert(Attach(root, e), e);
      size := size + 1;
      return true;
    }

    /** Takes `x` out of a set that holds it, keeping the size in step. */
    method RemovePresent(x: int)
      requires Valid() && x in Contents()
      modifies this
      ensures Valid() && Contents() == old(Contents()) - {x}
    {
      DeleteKeepsRedBlack(root, x);
      assert Elements(root) == (Elements(root) - {x}) + {x};
      root := Delete(root, x);
      size := size - 1;
    }

    /**
     * remove: an element at the root goes through rootRemove, any other is
     * removed from the parent getParent finds. Returns whether it was present.
     */
    method Remove(x: int) returns (changed: bool)
      requires Valid()
      modifies this
      ensures Valid()
      ensures changed <==> x in old(Contents())
      ensures Contents() == old(Contents()) - {x}
    {
      if size == 0 {
        return false;
      }
      SearchParentFinds(root, x);
      if root.data != x {
        var p := GetParent(x);
        if GetChild(p, x).Nil? {
          return false;
        }
      }
      RemovePresent(x);
      return true;
    }

    /** clear */
    method Clear()
      modifies this
      ensures Valid() && Contents() == {}
    {
      root := Nil;
      size := 0;
    }

    /** firstParent: the parent of the leftmost entry, Nil when the root is leftmost. */
    method FirstParent() returns (p: Tree)
      requires Valid()
      ensures p.Nil? ==> root.Nil? || root.left.Nil?
      ensures p.Node? ==> root.Node? && p.left.Node? && p.left.left.Nil? && p.left.data == Min(root)
    {
      p := Nil;
      if size != 0 {
        var t := root;
        while t.left.Node?
          invariant t.Node? && Min(t) == Min(root)
          invariant p.Nil? ==> t == root
          invariant p.Node? ==> p.left == t
          decreases t
        {
          p := t;
          t := t.left;
        }
      }
    }

    /** lastParent: the parent of the rightmost entry, Nil when the root is rightmost. */
    method LastParent() returns (p: Tree)
      requires Valid() && root.Node?
      ensures p.Nil? ==> root.right.Nil?
      ensures p.Node? ==> p.right.Node? && p.right.right.Nil? && p.right.data == Max(root)
    {
      p := Nil;
      var t := root;
      while t.right.Node?
        invariant t.Node? && Max(t) == Max(root)
        invariant p.Nil? ==> t == root
        invariant p.Node? ==> p.right == t
        decreases t
      {
        p := t;
        t := t.right;
      }
    }

    /** first: the least element; NoSuchElementException when empty. */
    method First() returns (r: Result<int>)
      requires Valid()
      ensures r.Err? <==> Contents() == {}
      ensures r.Err? ==> r.error == NoSuchElement
      ensures r.Ok? ==> IsLeast(Contents(), r.value)
    {
      if size == 0 {
        return Err(NoSuchElement);
      }
      var p := FirstParent();
      MinIsLeast(root);
      r := Ok(if p.Nil? then root.data else p.left.data);
    }

    /** last: the greatest element; NoSuchElementException when empty. */
    method Last() returns (r: Result<int>)
      requires Valid()
      ensures r.Err? <==> Contents() == {}
      ensures r.Err? ==> r.error == NoSuchElement
      ensures r.Ok? ==> IsGreatest(Contents(), r.value)
    {
      if size == 0 {
        return Err(NoSuchElement);
      }
      var p := LastParent();
      MaxIsGreatest(root);
      r := Ok(if p.Nil? then root.data else p.right.data);
    }

    /**
     * downEntry: walks from the root remembering the last entry passed on the
     * right; an exact match answers itself when inclusive, else the greatest
     * entry of its left subtree (or the remembered entry when it has none).
     */
    method DownEntry(e: int, inclusive: bool) returns (r: Option<int>)
      requires Valid()
      ensures IsGreatestBelow(Contents(), e, inclusive, r)
    {
      if size == 0 {
        return None;
      }
      var save: Option<int> := None;
      var parent: Tree := Nil;
      var t := root;
      while t.Node?
        invariant DownInvariant(Contents(), t, e, inclusive, save)
        invariant parent.Nil? ==> t == root
        invariant parent.Node? && parent.data < e ==> save == Some(parent.data)
        decreases t
      {
        DownStep(Contents(), t, e, inclusive, save);
        if t.data > e {
          parent := t;
          t := t.left;
        } else if t.data < e {
          save := Some(t.data);
          parent := t;
          t := t.right;
        } else {
          if inclusive {
            return Some(t.data);
          }
          if t.left.Nil? {
            return save;
          }
          var m := t.left;
          while m.right.Node?
            invariant m.Node? && Max(m) == Max(t.left)
            decreases m
          {
            m := m.right;
          }
          return Some(m.data);
        }
      }
      return if parent.data < e then Some(parent.data) else save;
    }

    /** upEntry: the mirror image of downEntry. */
    method UpEntry(e: int, inclusive: bool) returns (r: Option<int>)
      requires Valid()
      ensures IsLeastAbove(Contents(), e, inclusive, r)
    {
      if size == 0 {
        return None;
      }
      var save: Option<int> := None;
      var parent: Tree := Nil;
      var t := root;
      while t.Node?
        invariant UpInvariant(Contents(), t, e, inclusive, save)
        invariant parent.Nil? ==> t == root
        invariant parent.Node? && e < parent.data ==> save == Some(parent.data)
        decreases t
      {
        UpStep(Contents(), t, e, inclusive, save);
        if t.data < e {
          parent := t;
          t := t.right;
        } else if t.data > e {
          save := Some(t.data);
          parent := t;
          t := t.left;
        } else {
          if inclusive {
            return Some(t.data);
          }
          if t.right.Nil? {
            return save;
          }
          var m := t.right;
          while m.left.Node?
            invariant m.Node? && Min(m) == Min(t.right)
            decreases m
          {
            m := m.left;
          }
          return Some(m.data);
        }
      }
      return if e < parent.data then Some(parent.data) else save;
    }

    /** lower: the greatest element strictly less than `e`. */
    method Lower(e: int) returns (r: Option<int>)
      requires Valid()
      ensures IsGreatestBelow(Contents(), e, false, r)
    {
      r := DownEntry(e, false);
    }

    /** floor: the greatest element less than or equal to `e`. */
    method Floor(e: int) returns (r: Option<int>)
      requires Valid()
      ensures IsGreatestBelow(Contents(), e, true, r)
    {
      r := DownEntry(e, true);
    }

    /** ceiling: the least element greater than or equal to `e`. */
    method Ceiling(e: int) returns (r: Option<int>)
      requires Valid()
      ensures IsLeastAbove(Contents(), e, true, r)
    {
      r := UpEntry(e, true);
    }

    /** higher: the least element strictly greater than `e`. */
    method Higher(e: int) returns (r: Option<int>)
      requires Valid()
      ensures IsLeastAbove(Contents(), e, false, r)
    {
      r := UpEntry(e, false);
    }

    /** pollFirst: removes and returns the least element; None when empty. */
    method PollFirst() returns (r: Option<int>)
      requires Valid()
      modifies this
      ensures Valid()
      ensures r.None? <==> old(Contents()) == {}
      ensures r.Some? ==> IsLeast(old(Contents()), r.value)
      ensures Contents() == if r.Some? then old(Contents()) - {r.value} else old(Contents())
    {
      if size == 0 {
        return None;
      }
      var p := FirstParent();
      MinIsLeast(root);
      var x := if p.Nil? then root.data else p.left.data;
      RemovePresent(x);
      return Some(x);
    }

    /** pollLast: removes and returns the greatest element; None when empty. */
    method PollLast() returns (r: Option<int>)
      requires Valid()
      modifies this
      ensures Valid()
      ensures r.None? <==> old(Contents()) == {}
      ensures r.Some? ==> IsGreatest(old(Contents()), r.value)
      ensures Contents() == if r.Some? then old(Contents()) - {r.value} else old(Contents())
    {
      if size == 0 {
        return None;
      }
      var p := LastParent();
      MaxIsGreatest(root);
      var x := if p.Nil? then root.data else p.right.data;
      RemovePresent(x);
      return Some(x);
    }

    /** iterator: an ascending iterator that has returned nothing yet. */
    method Iterator() returns (it: TreeSetIterator)
      requires Valid()
      ensures fresh(it) && it.Valid() && it.owner == this && !it.descending
      ensures it.yielded == [] && it.noRemove
    {
      it := new TreeSetIterator(this, false);
    }

    /** descendingIterator: the descending view's iterator. */
    method DescendingIterator() returns (it: TreeSetIterator)
      requires Valid()
      ensures fresh(it) && it.Valid() && it.owner == this && it.descending
      ensures it.yielded == [] && it.noRemove
    {
      it := new TreeSetIterator(this, true);
    }

    /** descendingSet: a reverse-order view backed by this set. */
    method DescendingSet() returns (d: DescendingTreeSet)
      requires Valid()
      ensures fresh(d) && d.base == this && d.Valid()
    {
      d := new DescendingTreeSet(this);
    }

    /**
     * subSet: a range view backed by this set; IllegalArgumentException when
     * `to` lies below `from`.
     */
    method SubSet(from: int, fromInclusive: bool, to: int, toInclusive: bool) returns (r: Result<SubTreeSet>)
      requires Valid()
      ensures r.Err? <==> to < from
      ensures r.Err? ==> r.error == IllegalArgument
      ensures r.Ok? ==> fresh(r.value) && r.value.Valid() && r.value.base == this
      ensures r.Ok? ==> r.value.Window() == set y | y in Contents() && Above(y, from, fromInclusive) && Below(y, to, toInclusive)
    {
      if to < from {
        return Err(IllegalArgument);
      }
      var v := new SubTreeSet(this, from, fromInclusive, to, toInclusive);
      r := Ok(v);
    }

    /**
     * headSet: the view from the least element up to `to`; the least element
     * does not exist in an empty set (NoSuchElementException) and lies above
     * `to` when `to` is below every element (IllegalArgumentException).
     */
    method HeadSet(to: int, inclusive: bool) returns (r: Result<SubTreeSet>)
      requires Valid()
      ensures Contents() == {} ==> r == Err(NoSuchElement)
      ensures Contents() != {} && (forall y :: y in Contents() ==> to < y) ==> r == Err(IllegalArgument)
      ensures (exists y :: y in Contents() && !(to < y)) ==> r.Ok?
      ensures r.Ok? ==> fresh(r.value) && r.value.Valid() && r.value.base == this
      ensures r.Ok? ==> r.value.Window() == set y | y in Contents() && Below(y, to, inclusive)
    {
      var f := First();
      if f.Err? {
        return Err(f.error);
      }
      r := SubSet(f.value, true, to, inclusive);
    }

    /**
     * tailSet: the view from `from` up to the greatest element, with the
     * same two ways to fail as headSet.
     */
    method TailSet(from: int, inclusive: bool) returns (r: Result<SubTreeSet>)
      requires Valid()
      ensures Contents() == {} ==> r == Err(NoSuchElement)
      ensures Contents() != {} && (forall y :: y in Contents() ==> y < from) ==> r == Err(IllegalArgument)
      ensures (exists y :: y in Contents() && !(y < from)) ==> r.Ok?
      ensures r.Ok? ==> fresh(r.value) && r.value.Valid() && r.value.base == this
      ensures r.Ok? ==> r.value.Window() == set y | y in Contents() && Above(y, from, inclusive)
    {
      var l := Last();
      if l.Err? {
        return Err(l.error);
      }
      r := SubSet(from, inclusive, l.value, true);
    }
  }

  /** `a` comes before `b` in ascending order, or in descending order. */
  predicate ComesBefore(descending: bool, a: int, b: int) {
    if descending then b < a else a < b
  }

  /**
   * What an iterator over `s` knows: it has returned `yielded` in order;
   * unless it is exhausted, `next` is an element of `s` after all of them;
   * and every element of `s` before `next` (all of `s`, once exhausted) has
   * been returned.
   */
  ghost predicate IterationState(s: set<int>, descending: bool, yielded: seq<int>, next: Option<int>, lastElement: bool) {
    (forall i, j :: 0 <= i < j < |yielded| ==> ComesBefore(descending, yielded[i], yielded[j])) &&
    (!lastElement ==>
       next.Some? && next.value in s &&
       forall i :: 0 <= i < |yielded| ==> ComesBefore(descending, yielded[i], next.value)) &&
    (forall y :: y in s && (lastElement || ComesBefore(descending, y, next.value)) ==> y in yielded)
  }

  /** Returning the set's last element in iteration order exhausts the iterator. */
  lemma AdvanceToEnd(s: set<int>, descending: bool, yielded: seq<int>, current: int)
    requires IterationState(s, descending, yielded, Some(current), false)
    requires if descending then IsLeast(s, current) else IsGreatest(s, current)
    ensures IterationState(s, descending, yielded + [current], Some(current), true)
    ensures forall y :: y in s && y !in yielded ==> y == current || ComesBefore(descending, current, y)
  {
    var y' := yielded + [current];
    forall y | y in s
      ensures y in y'
    {
      if y != current {
        assert ComesBefore(descending, y, current);
        assert y in yielded;
      }
      assert y' == yielded + [current];
    }
  }

  /**
   * Returning `current` and moving to its successor in iteration order keeps
   * the iterator's state, and `current` was the first element not yet
   * returned.
   */
  lemma AdvanceToNext(s: set<int>, descending: bool, yielded: seq<int>, current: int, after: Option<int>)
    requires IterationState(s, descending, yielded, Some(current), false)
    requires !(if descending then IsLeast(s, current) else IsGreatest(s, current))
    requires if descending then IsGreatestBelow(s, current, false, after) else IsLeastAbove(s, current, false, after)
    ensures IterationState(s, descending, yielded + [current], after, false)
    ensures forall y :: y in s && y !in yielded ==> y == current || ComesBefore(descending, current, y)
  {
    var y' := yielded + [current];
    if descending {
      var w :| w in s && w < current;
    } else {
      var w :| w in s && current < w;
    }
    assert after.Some?;
    forall y | y in s && ComesBefore(descending, y, after.value)
      ensures y in y'
    {
      if y != current {
        assert ComesBefore(descending, y, current);
        assert y in yielded;
      }
    }
  }

  /**
   * TreeSetIterator and DescendingTreeSetIterator. Both start at the view's
   * first element, step with the view's higher and stop once they have
   * returned the view's last element. On the descending view first, higher
   * and last are the base set's last, lower and first; `descending` selects
   * which of the two iterators this is.
   */
  class TreeSetIterator {
    const owner: TreeSet
    const descending: bool
    var next: Option<int>
    var toRemove: Option<int>
    var lastElement: bool
    var noRemove: bool
    /** The elements returned so far, in the order they were returned. */
    ghost var yielded: seq<int>

    /** `a` comes before `b` in this iterator's order. */
    predicate Precedes(a: int, b: int) {
      ComesBefore(descending, a, b)
    }

    ghost predicate Valid()
      reads this, owner
    {
      owner.Valid() &&
      IterationState(owner.Contents(), descending, yielded, next, lastElement) &&
      (!noRemove ==> |yielded| > 0 && toRemove == Some(yielded[|yielded| - 1]))
    }

    constructor(s: TreeSet, descending: bool)
      requires s.Valid()
      ensures Valid() && owner == s && this.descending == descending
      ensures yielded == [] && noRemove
    {
      owner := s;
      this.descending := descending;
      var empty := s.IsEmpty();
      lastElement := empty;
      if !empty {
        var f: Result<int>;
        if descending {
          f := s.Last();
        } else {
          f := s.First();
        }
        next := Some(f.value);
      } else {
        next := None;
      }
      toRemove := None;
      noRemove := true;
      yielded := [];
    }

    /** hasNext: some element of the set has not been returned yet. */
    function HasNext(): (b: bool)
      reads this, owner
      requires Valid()
      ensures b <==> exists y :: y in owner.Contents() && y !in yielded
    {
      !lastElement
    }

    /**
     * next: returns the first element, in this iterator's order, that has
     * not been returned yet; IllegalStateException once exhausted.
     */
    method Next() returns (r: Result<int>)
      requires Valid()
      modifies this
      ensures Valid()
      ensures old(lastElement) ==> r == Err(IllegalState) && unchanged(this)
      ensures !old(lastElement) ==>
        r.Ok? && r.value in owner.Contents() && yielded == old(yielded) + [r.value] && !noRemove
      ensures !old(lastElement) ==>
        forall y :: y in owner.Contents() && y !in old(yielded) ==> y == r.value || Precedes(r.value, y)
    {
      if lastElement {
        return Err(IllegalState);
      }
      var current := next.value;
      toRemove := next;
      noRemove := false;
      var last: Result<int>;
      if descending {
        last := owner.First();
      } else {
        last := owner.Last();
      }
      ghost var s := owner.Contents();
      if current == last.value {
        AdvanceToEnd(s, descending, yielded, current);
        lastElement := true;
      } else {
        if descending {
          next := owner.Lower(current);
        } else {
          next := owner.Higher(current);
        }
        AdvanceToNext(s, descending, yielded, current, next);
      }
      yielded := yielded + [current];
      r := Ok(current);
    }

    /**
     * remove: removes the element the last next returned; a second remove,
     * or one before any next, is an IllegalStateException.
     */
    method Remove() returns (r: Result<()>)
      requires Valid()
      modifies this, owner
      ensures Valid() && noRemove
      ensures yielded == old(yielded) && next == old(next) && lastElement == old(lastElement)
      ensures old(noRemove) ==> r == Err(IllegalState) && owner.Contents() == old(owner.Contents())
      ensures !old(noRemove) ==>
        r == Ok(()) && owner.Contents() == old(owner.Contents()) - {old(toRemove).value}
    {
      if noRemove {
        return Err(IllegalState);
      }
      var _ := owner.Remove(toRemove.value);
      noRemove := true;
      r := Ok(());
    }
  }

  /**
   * The least element of `s` above the lower bound, kept only when it also
   * lies below the upper bound, is the least element of the range `w`; when
   * it is not kept, the range is empty.
   */
  lemma ClampLeast(s: set<int>, w: set<int>, lo: int, loInclusive: bool, hi: int, hiInclusive: bool, c: Option<int>)
    requires forall y :: y in w <==> y in s && Above(y, lo, loInclusive) && Below(y, hi, hiInclusive)
    requires IsLeastAbove(s, lo, loInclusive, c)
    ensures (c.Some? && Below(c.value, hi, hiInclusive)) <==> w != {}
    ensures c.Some? && Below(c.value, hi, hiInclusive) ==> IsLeast(w, c.value)
  {
    if !(c.Some? && Below(c.value, hi, hiInclusive)) {
      assert forall y :: y !in w;
    }
  }

  /** The mirror image of ClampLeast, for the greatest element below the upper bound. */
  lemma ClampGreatest(s: set<int>, w: set<int>, lo: int, loInclusive: bool, hi: int, hiInclusive: bool, c: Option<int>)
    requires forall y :: y in w <==> y in s && Above(y, lo, loInclusive) && Below(y, hi, hiInclusive)
    requires IsGreatestBelow(s, hi, hiInclusive, c)
    ensures (c.Some? && Above(c.value, lo, loInclusive)) <==> w != {}
    ensures c.Some? && Above(c.value, lo, loInclusive) ==> IsGreatest(w, c.value)
  {
    if !(c.Some? && Above(c.value, lo, loInclusive)) {
      assert forall y :: y !in w;
    }
  }

  /**
   * DescendingTreeSet: the base set seen in reverse order. Its first and
   * last are the base set's last and first, and each navigation method asks
   * the base set the mirrored question.
   */
  class DescendingTreeSet {
    const base: TreeSet

    constructor(base: TreeSet)
      requires base.Valid()
      ensures this.base == base && Valid()
    {
      this.base := base;
    }

    ghost predicate Valid()
      reads base
    {
      base.Valid()
    }

    /** first: the greatest element of the base set. */
    method First() returns (r: Result<int>)
      requires Valid()
      ensures r.Err? <==> base.Contents() == {}
      ensures r.Err? ==> r.error == NoSuchElement
      ensures r.Ok? ==> IsGreatest(base.Contents(), r.value)
    {
      r := base.Last();
    }

    /** last: the least element of the base set. */
    method Last() returns (r: Result<int>)
      requires Valid()
      ensures r.Err? <==> base.Contents() == {}
      ensures r.Err? ==> r.error == NoSuchElement
      ensures r.Ok? ==> IsLeast(base.Contents(), r.value)
    {
      r := base.First();
    }

    /** lower in reverse order: the least element strictly above `e`. */
    method Lower(e: int) returns (r: Option<int>)
      requires Valid()
      ensures IsLeastAbove(base.Contents(), e, false, r)
    {
      r := base.Higher(e);
    }

    /** floor in reverse order: the least element at or above `e`. */
    method Floor(e: int) returns (r: Option<int>)
      requires Valid()
      ensures IsLeastAbove(base.Contents(), e, true, r)
    {
      r := base.Ceiling(e);
    }

    /** ceiling in reverse order: the greatest element at or below `e`. */
    method Ceiling(e: int) returns (r: Option<int>)
      requires Valid()
      ensures IsGreatestBelow(base.Contents(), e, true, r)
    {
      r := base.Floor(e);
    }

    /** higher in reverse order: the greatest element strictly below `e`. */
    method Higher(e: int) returns (r: Option<int>)
      requires Valid()
      ensures IsGreatestBelow(base.Contents(), e, false, r)
    {
      r := base.Lower(e);
    }

    /** pollFirst: removes and returns the greatest element of the base set. */
    method PollFirst() returns (r: Option<int>)
      requires Valid()
      modifies base
      ensures Valid()
      ensures r.None? <==> old(base.Contents()) == {}
      ensures r.Some? ==> IsGreatest(old(base.Contents()), r.value)
      ensures base.Contents() == if r.Some? then old(base.Contents()) - {r.value} else old(base.Contents())
    {
      r := base.PollLast();
    }

    /** pollLast: removes and returns the least element of the base set. */
    method PollLast() returns (r: Option<int>)
      requires Valid()
      modifies base
      ensures Valid()
      ensures r.None? <==> old(base.Contents()) == {}
      ensures r.Some? ==> IsLeast(old(base.Contents()), r.value)
      ensures base.Contents() == if r.Some? then old(base.Contents()) - {r.value} else old(base.Contents())
    {
      r := base.PollFirst();
    }

    /** iterator: the descending iterator over the base set. */
    method Iterator() returns (it: TreeSetIterator)
      requires Valid()
      ensures fresh(it) && it.Valid() && it.owner == base && it.descending
      ensures it.yielded == [] && it.noRemove
    {
      it := new TreeSetIterator(base, true);
    }

    /** descendingSet: reversing the reverse view gives back the base set. */
    method DescendingSet() returns (s: TreeSet)
      ensures s == base
    {
      s := base;
    }
  }

  /**
   * SubTreeSet: the elements of a base set between `from` and `to`, each
   * bound inclusive or exclusive. The view stores no elements of its own:
   * every query and update goes to the base set.
   */
  class SubTreeSet {
    const base: TreeSet
    const from: int
    const fromInclusive: bool
    const to: int
    const toInclusive: bool

    /** The range must not be inverted; the factories report that case. */
    constructor(base: TreeSet, from: int, fromInclusive: bool, to: int, toInclusive: bool)
      requires base.Valid() && !(to < from)
      ensures this.base == base && this.from == from && this.fromInclusive == fromInclusive
      ensures this.to == to && this.toInclusive == toInclusive
      ensures Valid()
    {
      this.base := base;
      this.from := from;
      this.fromInclusive := fromInclusive;
      this.to := to;
      this.toInclusive := toInclusive;
    }

    ghost predicate Valid()
      reads base
    {
      base.Valid() && from <= to
    }

    /** inBounds: `e` lies inside the range, each bound honouring its inclusivity. */
    function InBounds(e: int): (b: bool)
      ensures b <==> Above(e, from, fromInclusive) && Below(e, to, toInclusive)
    {
      if (if fromInclusive then e < from else e <= from) then false
      else if (if toInclusive then to < e else to <= e) then false
      else true
    }

    /** The elements of the base set that the view shows. */
    ghost function Window(): set<int>
      reads base
    {
      set y | y in base.Contents() && InBounds(y)
    }

    /** contains: only elements inside the range are reported. */
    method Contains(o: int) returns (b: bool)
      requires Valid()
      ensures b <==> o in Window()
    {
      if !InBounds(o) {
        return false;
      }
      b := base.Contains(o);
    }

    /** add: IllegalArgumentException outside the range, else the base set's add. */
    method Add(e: int) returns (r: Result<bool>)
      requires Valid()
      modifies base
      ensures Valid()
      ensures !InBounds(e) ==> r == Err(IllegalArgument) && base.Contents() == old(base.Contents())
      ensures InBounds(e) ==> r == Ok(e !in old(Window())) && base.Contents() == old(base.Contents()) + {e}
    {
      if !InBounds(e) {
        return Err(IllegalArgument);
      }
      var changed := base.Add(e);
      r := Ok(changed);
    }

    /** remove: false outside the range, else the base set's remove. */
    method Remove(o: int) returns (changed: bool)
      requires Valid()
      modifies base
      ensures Valid()
      ensures changed <==> o in old(Window())
      ensures base.Contents() == old(base.Contents()) - (if InBounds(o) then {o} else {})
    {
      if !InBounds(o) {
        return false;
      }
      changed := base.Remove(o);
    }

    /** remove as written: inside the range it calls the base set's add. */
    method RemoveAsWritten(o: int) returns (changed: bool)
      requires Valid()
      modifies base
      ensures Valid()
      ensures !InBounds(o) ==> !changed && base.Contents() == old(base.Contents())
      ensures InBounds(o) ==> (changed <==> o !in old(Window())) && base.Contents() == old(base.Contents()) + {o}
    {
      if !InBounds(o) {
        return false;
      }
      changed := base.Add(o);
    }

    /** first as written: the base set's ceiling (or higher) of `from`, whatever its upper bound. */
    method FirstAsWritten() returns (r: Option<int>)
      requires Valid()
      ensures IsLeastAbove(base.Contents(), from, fromInclusive, r)
    {
      if fromInclusive {
        r := base.Ceiling(from);
      } else {
        r := base.Higher(from);
      }
    }

    /** last as written: the base set's floor (or lower) of `to`, whatever its lower bound. */
    method LastAsWritten() returns (r: Option<int>)
      requires Valid()
      ensures IsGreatestBelow(base.Contents(), to, toInclusive, r)
    {
      if toInclusive {
        r := base.Floor(to);
      } else {
        r := base.Lower(to);
      }
    }

    /** first: the least element inside the range; None when the view is empty. */
    method First() returns (r: Option<int>)
      requires Valid()
      ensures r.None? <==> Window() == {}
      ensures r.Some? ==> IsLeast(Window(), r.value)
    {
      var c := FirstAsWritten();
      r := if c.Some? && InBounds(c.value) then c else None;
      ClampLeast(base.Contents(), Window(), from, fromInclusive, to, toInclusive, c);
    }

    /** last: the greatest element inside the range; None when the view is empty. */
    method Last() returns (r: Option<int>)
      requires Valid()
      ensures r.None? <==> Window() == {}
      ensures r.Some? ==> IsGreatest(Window(), r.value)
    {
      var c := LastAsWritten();
      r := if c.Some? && InBounds(c.value) then c else None;
      ClampGreatest(base.Contents(), Window(), from, fromInclusive, to, toInclusive, c);
    }

    /** lower: the greatest element of the view strictly below `e`. */
    method Lower(e: int) returns (r: Option<int>)
      requires Valid()
      ensures IsGreatestBelow(Window(), e, false, r)
    {
      if !InBounds(e) {
        if to <= e {
          r := Last();
        } else {
          r := None;
        }
        return;
      }
      var c := base.Lower(e);
      r := if c.Some? && InBounds(c.value) then c else None;
    }

    /** floor: the greatest element of the view at or below `e`. */
    method Floor(e: int) returns (r: Option<int>)
      requires Valid()
      ensures IsGreatestBelow(Window(), e, true, r)
    {
      if !InBounds(e) {
        if to <= e {
          r := Last();
        } else {
          r := None;
        }
        return;
      }
      var c := base.Floor(e);
      r := if c.Some? && InBounds(c.value) then c else None;
    }

    /** ceiling: the least element of the view at or above `e`. */
    method Ceiling(e: int) returns (r: Option<int>)
      requires Valid()
      ensures IsLeastAbove(Window(), e, true, r)
    {
      if !InBounds(e) {
        if e <= from {
          r := First();
        } else {
          r := None;
        }
        return;
      }
      var c := base.Ceiling(e);
      r := if c.Some? && InBounds(c.value) then c else None;
    }

    /** higher: the least element of the view strictly above `e`. */
    method Higher(e: int) returns (r: Option<int>)
      requires Valid()
      ensures IsLeastAbove(Window(), e, false, r)
    {
      if !InBounds(e) {
        if e <= from {
          r := First();
        } else {
          r := None;
        }
        return;
      }
      var c := base.Higher(e);
      r := if c.Some? && InBounds(c.value) then c else None;
    }

    /**
     * floor as written: outside the range it answers last() only when `e`
     * lies strictly above `to`, and otherwise null; inside it answers the
     * base set's floor.
     */
    method FloorAsWritten(e: int) returns (r: Option<int>)
      requires Valid()
      ensures !InBounds(e) && !(to < e) ==> r.None?
      ensures !InBounds(e) && to < e ==> IsGreatestBelow(base.Contents(), to, toInclusive, r)
      ensures InBounds(e) ==> IsGreatestBelow(base.Contents(), e, true, r)
    {
      if !InBounds(e) {
        if to < e {
          r := LastAsWritten();
        } else {
          r := None;
        }
        return;
      }
      r := base.Floor(e);
    }

    /**
     * higher as written: outside the range it answers first() only when `e`
     * lies strictly below `from`, and otherwise null; inside it answers the
     * base set's higher.
     */
    method HigherAsWritten(e: int) returns (r: Option<int>)
      requires Valid()
      ensures !InBounds(e) && !(e < from) ==> r.None?
      ensures !InBounds(e) && e < from ==> IsLeastAbove(base.Contents(), from, fromInclusive, r)
      ensures InBounds(e) ==> IsLeastAbove(base.Contents(), e, false, r)
    {
      if !InBounds(e) {
        if e < from {
          r := FirstAsWritten();
        } else {
          r := None;
        }
        return;
      }
      r := base.Higher(e);
    }

    /**
     * lower as written: outside the range it answers last() when `e` lies
     * at or above `to`, and otherwise null; inside it answers the base set's
     * lower, even one below the range.
     */
    method LowerAsWritten(e: int) returns (r: Option<int>)
      requires Valid()
      ensures !InBounds(e) && e < to ==> r.None?
      ensures !InBounds(e) && to <= e ==> IsGreatestBelow(base.Contents(), to, toInclusive, r)
      ensures InBounds(e) ==> IsGreatestBelow(base.Contents(), e, false, r)
    {
      if !InBounds(e) {
        if to <= e {
          r := LastAsWritten();
        } else {
          r := None;
        }
        return;
      }
      r := base.Lower(e);
    }

    /**
     * ceiling as written: outside the range it answers first() when `e`
     * lies at or below `from`, and otherwise null; inside it answers the
     * base set's ceiling, even one above the range.
     */
    method CeilingAsWritten(e: int) returns (r: Option<int>)
      requires Valid()
      ensures !InBounds(e) && from < e ==> r.None?
      ensures !InBounds(e) && e <= from ==> IsLeastAbove(base.Contents(), from, fromInclusive, r)
      ensures InBounds(e) ==> IsLeastAbove(base.Contents(), e, true, r)
    {
      if !InBounds(e) {
        if e <= from {
          r := FirstAsWritten();
        } else {
          r := None;
        }
        return;
      }
      r := base.Ceiling(e);
    }

    /** pollFirst: removes and returns the least element of the view. */
    method PollFirst() returns (r: Option<int>)
      requires Valid()
      modifies base
      ensures Valid()
      ensures r.None? <==> old(Window()) == {}
      ensures r.Some? ==> IsLeast(old(Window()), r.value)
      ensures base.Contents() == if r.Some? then old(base.Contents()) - {r.value} else old(base.Contents())
    {
      r := First();
      if r.Some? {
        var _ := base.Remove(r.value);
      }
    }

    /** pollLast: removes and returns the greatest element of the view. */
    method PollLast() returns (r: Option<int>)
      requires Valid()
      modifies base
      ensures Valid()
      ensures r.None? <==> old(Window()) == {}
      ensures r.Some? ==> IsGreatest(old(Window()), r.value)
      ensures base.Contents() == if r.Some? then old(base.Contents()) - {r.value} else old(base.Contents())
    {
      r := Last();
      if r.Some? {
        var _ := base.Remove(r.value);
      }
    }

    /**
     * pollFirst as written: `first()` as written, then `remove` as written,
     * which adds instead of removing, so the base set never changes. When
     * nothing lies above the lower bound, `remove(null)` compares null with
     * the bound and throws NullPointerException.
     */
    method PollFirstAsWritten() returns (r: Result<int>)
      requires Valid()
      modifies base
      ensures Valid()
      ensures r.Err? ==> r == Err(NullPointer)
      ensures IsLeastAbove(old(base.Contents()), from, fromInclusive, if r.Ok? then Some(r.value) else None)
      ensures base.Contents() == old(base.Contents())
    {
      var ret := FirstAsWritten();
      if ret.None? {
        return Err(NullPointer);
      }
      var _ := RemoveAsWritten(ret.value);
      r := Ok(ret.value);
    }

    /** pollLast as written, the mirror of PollFirstAsWritten. */
    method PollLastAsWritten() returns (r: Result<int>)
      requires Valid()
      modifies base
      ensures Valid()
      ensures r.Err? ==> r == Err(NullPointer)
      ensures IsGreatestBelow(old(base.Contents()), to, toInclusive, if r.Ok? then Some(r.value) else None)
      ensures base.Contents() == old(base.Contents())
    {
      var ret := LastAsWritten();
      if ret.None? {
        return Err(NullPointer);
      }
      var _ := RemoveAsWritten(ret.value);
      r := Ok(ret.value);
    }

    /**
     * subSet: both new bounds must lie inside this range
     * (IllegalArgumentException); the new view is taken on the base set.
     */
    method SubSet(lo: int, loInclusive: bool, hi: int, hiInclusive: bool) returns (r: Result<SubTreeSet>)
      requires Valid()
      ensures !InBounds(lo) || !InBounds(hi) ==> r == Err(IllegalArgument)
      ensures InBounds(lo) && InBounds(hi) ==> (r.Err? <==> hi < lo)
      ensures r.Ok? ==> fresh(r.value) && r.value.Valid() && r.value.base == base
      ensures r.Ok? ==> r.value.Window() == set y | y in base.Contents() && Above(y, lo, loInclusive) && Below(y, hi, hiInclusive)
    {
      if !InBounds(lo) || !InBounds(hi) {
        return Err(IllegalArgument);
      }
      r := base.SubSet(lo, loInclusive, hi, hiInclusive);
    }
  }

  /**
   * With only 10 in the set, the view [5, 6] is empty, yet first() as
   * written answers 10; the clamped first answers None.
   */
  method FirstEscapesRange() returns (asWritten: Option<int>, corrected: Option<int>)
    ensures asWritten == Some(10) && corrected == None
  {
    var s := new TreeSet();
    var _ := s.Add(10);
    var v := new SubTreeSet(s, 5, true, 6, true);
    asWritten := v.FirstAsWritten();
    assert v.Window() == {};
    corrected := v.First();
  }

  /**
   * With 5 in the set and the view [0, 10), floor(10) as written answers
   * null although 5 is in the view and below 10; the corrected floor answers 5.
   */
  method FloorAtExclusiveBound() returns (asWritten: Option<int>, corrected: Option<int>)
    ensures asWritten == None && corrected == Some(5)
  {
    var s := new TreeSet();
    var _ := s.Add(5);
    var v := new SubTreeSet(s, 0, true, 10, false);
    asWritten := v.FloorAsWritten(10);
    assert v.Window() == {5};
    corrected := v.Floor(10);
  }

  /**
   * With 5 in the set and the view (0, 10], higher(0) as written answers
   * null although 5 is in the view and above 0; the corrected higher answers 5.
   */
  method HigherAtExclusiveBound() returns (asWritten: Option<int>, corrected: Option<int>)
    ensures asWritten == None && corrected == Some(5)
  {
    var s := new TreeSet();
    var _ := s.Add(5);
    var v := new SubTreeSet(s, 0, false, 10, true);
    asWritten := v.HigherAsWritten(0);
    assert v.Window() == {5};
    corrected := v.Higher(0);
  }

  /**
   * With 1, 5 and 20 in the set and the view [3, 10], lower(4) and floor(4)
   * as written answer 1, which lies below the view; the corrected ones
   * answer None, since 5 is the only element of the view.
   */
  method LowerEscapesRange() returns (lowerAsWritten: Option<int>, floorAsWritten: Option<int>,
                                      lower: Option<int>, floor: Option<int>)
    ensures lowerAsWritten == Some(1) && floorAsWritten == Some(1)
    ensures lower == None && floor == None
  {
    var s := new TreeSet();
    var _ := s.Add(1);
    var _ := s.Add(5);
    var _ := s.Add(20);
    var v := new SubTreeSet(s, 3, true, 10, true);
    lowerAsWritten := v.LowerAsWritten(4);
    floorAsWritten := v.FloorAsWritten(4);
    assert v.Window() == {5};
    lower := v.Lower(4);
    floor := v.Floor(4);
  }

  /**
   * With 1, 5 and 20 in the set and the view [3, 10], ceiling(6) and
   * higher(6) as written answer 20, which lies above the view; the
   * corrected ones answer None.
   */
  method CeilingEscapesRange() returns (ceilingAsWritten: Option<int>, higherAsWritten: Option<int>,
                                        ceiling: Option<int>, higher: Option<int>)
    ensures ceilingAsWritten == Some(20) && higherAsWritten == Some(20)
    ensures ceiling == None && higher == None
  {
    var s := new TreeSet();
    var _ := s.Add(1);
    var _ := s.Add(5);
    var _ := s.Add(20);
    var v := new SubTreeSet(s, 3, true, 10, true);
    ceilingAsWritten := v.CeilingAsWritten(6);
    higherAsWritten := v.HigherAsWritten(6);
    assert v.Window() == {5};
    ceiling := v.Ceiling(6);
    higher := v.Higher(6);
  }

  /**
   * Removing 5 through the view [0, 10] as written leaves 5 in the set and
   * answers false; the corrected remove takes it out and answers true.
   */
  method RemoveThroughRange() returns (asWritten: bool, asWrittenKeeps: bool, corrected: bool, correctedKeeps: bool)
    ensures !asWritten && asWrittenKeeps
    ensures corrected && !correctedKeeps
  {
    var s := new TreeSet();
    var _ := s.Add(5);
    var v := new SubTreeSet(s, 0, true, 10, true);
    asWritten := v.RemoveAsWritten(5);
    asWrittenKeeps := s.Contains(5);
    corrected := v.Remove(5);
    correctedKeeps := s.Contains(5);
  }

  /**
   * Polling the view [0, 10] of the set {5} as written returns 5 from
   * either end and leaves it in the set; the corrected pollFirst returns 5
   * and removes it.
   */
  method PollThroughRange() returns (firstAsWritten: Result<int>, lastAsWritten: Result<int>, asWrittenKeeps: bool,
                                     corrected: Option<int>, correctedKeeps: bool)
    ensures firstAsWritten == Ok(5) && lastAsWritten == Ok(5) && asWrittenKeeps
    ensures corrected == Some(5) && !correctedKeeps
  {
    var s := new TreeSet();
    var _ := s.Add(5);
    var v := new SubTreeSet(s, 0, true, 10, true);
    firstAsWritten := v.PollFirstAsWritten();
    lastAsWritten := v.PollLastAsWritten();
    asWrittenKeeps := s.Contains(5);
    assert v.Window() == {5};
    corrected := v.PollFirst();
    correctedKeeps := s.Contains(5);
  }
}
