/**
 * A doubly linked list with head and foot sentinel nodes. Every list
 * operation works through a list iterator, which splices nodes in and out
 * between the sentinels. The list's ghost view is the sequence of its
 * elements, `Contents`; the node chain is `nodes`, head and foot included.
 */
module LinkedLists {
  import opened Wrappers

  /** `s` with `x` inserted so that it sits at position `i`. */
  function Inserted<E>(s: seq<E>, i: int, x: E): (r: seq<E>)
    requires 0 <= i <= |s|
    ensures |r| == |s| + 1 && r[i] == x
    ensures r[..i] == s[..i] && r[i + 1..] == s[i..]
  {
    s[..i] + [x] + s[i..]
  }

  /** `s` without the element at position `i`. */
  function Removed<E>(s: seq<E>, i: int): (r: seq<E>)
    requires 0 <= i < |s|
    ensures |r| == |s| - 1
    ensures r[..i] == s[..i] && r[i..] == s[i + 1..]
  {
    s[..i] + s[i + 1..]
  }

  /** Removing a position takes exactly that one element out of the multiset of elements. */
  lemma RemovedCount<E>(s: seq<E>, i: int)
    requires 0 <= i < |s|
    ensures multiset(Removed(s, i)) == multiset(s) - multiset{s[i]}
  {
    assert s == s[..i] + [s[i]] + s[i + 1..];
  }

  /** Removing what was just inserted gives back the original sequence. */
  lemma RemovedInserted<E>(s: seq<E>, i: int, x: E)
    requires 0 <= i <= |s|
    ensures Removed(Inserted(s, i, x), i) == s
  {
    var t := Inserted(s, i, x);
    assert Removed(t, i) == t[..i] + t[i + 1..];
    assert s == s[..i] + s[i..];
  }

  /** The position of the first occurrence of `x` in `s`, or -1. */
  function FirstIndex<E(==)>(s: seq<E>, x: E): (i: int)
    ensures -1 <= i < |s|
    ensures i == -1 <==> x !in s
    ensures 0 <= i ==> s[i] == x && x !in s[..i]
  {
    if |s| == 0 then -1
    else if s[0] == x then 0
    else
      var j := FirstIndex(s[1..], x);
      assert s == [s[0]] + s[1..];
      if j == -1 then -1
      else
        assert s[..j + 1] == [s[0]] + s[1..][..j];
        j + 1
  }

  /** The position of the last occurrence of `x` in `s`, or -1. */
  function LastIndex<E(==)>(s: seq<E>, x: E): (i: int)
    ensures -1 <= i < |s|
    ensures i == -1 <==> x !in s
    ensures 0 <= i ==> s[i] == x && x !in s[i + 1..]
  {
    if |s| == 0 then -1
    else if s[|s| - 1] == x then |s| - 1
    else
      var j := LastIndex(s[..|s| - 1], x);
      assert s == s[..|s| - 1] + [s[|s| - 1]];
      if j == -1 then -1
      else
        assert s[j + 1..] == s[..|s| - 1][j + 1..] + [s[|s| - 1]];
        j
  }

  /** A position holding `x` with no `x` before it is the first index of `x`. */
  lemma FirstIndexAt<E>(s: seq<E>, x: E, i: int)
    requires 0 <= i < |s| && s[i] == x && x !in s[..i]
    ensures FirstIndex(s, x) == i
  {
  }

  /** A position holding `x` with no `x` after it is the last index of `x`. */
  lemma LastIndexAt<E>(s: seq<E>, x: E, i: int)
    requires 0 <= i < |s| && s[i] == x && x !in s[i + 1..]
    ensures LastIndex(s, x) == i
  {
  }

  /** `s` without the first occurrence of `x`; `s` itself when there is none. */
  function WithoutFirst<E(==)>(s: seq<E>, x: E): (r: seq<E>)
  {
    var i := FirstIndex(s, x);
    if i == -1 then s else Removed(s, i)
  }

  /**
   * Removing the first occurrence takes exactly one `x` out of the
   * multiset of elements, and keeps every other element where it was
   * relative to the rest.
   */
  lemma {:induction false} WithoutFirstTakesOne<E>(s: seq<E>, x: E)
    ensures multiset(WithoutFirst(s, x)) == multiset(s) - multiset{x}
    ensures x in s ==> |WithoutFirst(s, x)| == |s| - 1
    ensures x !in s ==> WithoutFirst(s, x) == s
  {
    var i := FirstIndex(s, x);
    if i != -1 {
      RemovedCount(s, i);
    } else {
      assert multiset(s)[x] == 0;
      assert multiset(s) - multiset{x} == multiset(s);
    }
  }

  /** No element occurs twice in `s`. */
  ghost predicate Distinct<T>(s: seq<T>) {
    forall i, j :: 0 <= i < j < |s| ==> s[i] != s[j]
  }

  /** Putting a new item after position `k` keeps the items distinct. */
  lemma InsertedDistinct<T>(s: seq<T>, k: int, x: T)
    requires Distinct(s) && x !in s && 0 <= k < |s|
    ensures Distinct(s[..k + 1] + [x] + s[k + 1..])
  {
    var t := s[..k + 1] + [x] + s[k + 1..];
    forall i, j | 0 <= i < j < |t|
      ensures t[i] != t[j]
    {
      if i != k + 1 && j != k + 1 {
        var i' := if i <= k then i else i - 1;
        var j' := if j <= k then j else j - 1;
        assert t[i] == s[i'] && t[j] == s[j'];
      }
    }
  }

  /** Dropping the item at position `k + 1` keeps the items distinct. */
  lemma RemovedDistinct<T>(s: seq<T>, k: int)
    requires Distinct(s) && 0 <= k && k + 1 < |s|
    ensures Distinct(s[..k + 1] + s[k + 2..])
  {
    var t := s[..k + 1] + s[k + 2..];
    forall i, j | 0 <= i < j < |t|
      ensures t[i] != t[j]
    {
      var i' := if i <= k then i else i + 1;
      var j' := if j <= k then j else j + 1;
      assert t[i] == s[i'] && t[j] == s[j'];
    }
  }

  /** A list node. The two sentinels carry no element. */
  class Node<E> {
    var data: Option<E>
    var prev: Node?<E>
    var next: Node?<E>

    constructor (data: Option<E>)
      ensures this.data == data && prev == null && next == null
    {
      this.data := data;
      prev := null;
      next := null;
    }
  }

  /**
   * `ns` is a chain of distinct nodes, each linked forwards and backwards
   * to its neighbours, whose inner nodes hold the elements `cs` in order.
   */
  ghost predicate Chain<E>(ns: seq<Node<E>>, cs: seq<E>)
    reads ns
  {
    |ns| == |cs| + 2 && Distinct(ns) &&
    (forall i :: 0 <= i < |ns| - 1 ==> ns[i].next == ns[i + 1]) &&
    (forall i :: 0 < i < |ns| ==> ns[i].prev == ns[i - 1]) &&
    (forall i :: 0 <= i < |cs| ==> ns[i + 1].data == Some(cs[i]))
  }

  /**
   * The nodes of a chain holding `cs`, the position `k` a splice acts at,
   * and for a splice in, the new node and its element. (Bundled into one
   * value so that the two-state lemmas below take a single argument.)
   */
  datatype Splice<E> = Splice(ns: seq<Node<E>>, cs: seq<E>, k: int, node: Node?<E>, e: Option<E>)

  /**
   * Linking the new node in between the chain's nodes at positions `k` and
   * `k + 1`, leaving every other node as it was, gives a chain holding the
   * new element at position `k`.
   */
  twostate lemma SpliceIn<E>(sp: Splice<E>)
    requires sp.node != null && sp.e.Some? && sp.node !in sp.ns && 0 <= sp.k <= |sp.cs|
    requires old(Chain(sp.ns, sp.cs))
    requires forall i :: 0 <= i < |sp.ns| && i != sp.k && i != sp.k + 1 ==>
      sp.ns[i].next == old(sp.ns[i].next) && sp.ns[i].prev == old(sp.ns[i].prev) && sp.ns[i].data == old(sp.ns[i].data)
    requires sp.ns[sp.k].next == sp.node && sp.node.next == sp.ns[sp.k + 1]
    requires sp.ns[sp.k + 1].prev == sp.node && sp.node.prev == sp.ns[sp.k] && sp.node.data == sp.e
    requires sp.ns[sp.k].prev == old(sp.ns[sp.k].prev) && sp.ns[sp.k].data == old(sp.ns[sp.k].data)
    requires sp.ns[sp.k + 1].next == old(sp.ns[sp.k + 1].next) && sp.ns[sp.k + 1].data == old(sp.ns[sp.k + 1].data)
    ensures Chain(sp.ns[..sp.k + 1] + [sp.node] + sp.ns[sp.k + 1..], Inserted(sp.cs, sp.k, sp.e.value))
  {
    var ns, cs, k, node := sp.ns, sp.cs, sp.k, sp.node;
    var t := ns[..k + 1] + [node] + ns[k + 1..];
    var ds := Inserted(cs, k, sp.e.value);
    forall i | 0 <= i < |t|
      ensures i <= k ==> t[i] == ns[i]
      ensures k + 1 < i ==> t[i] == ns[i - 1]
    {
    }
    InsertedDistinct(ns, k, node);
    forall i | 0 <= i < |t| - 1
      ensures t[i].next == t[i + 1]
    {
      if i < k {
        assert old(ns[i].next) == ns[i + 1];
      } else if k + 1 < i {
        assert old(ns[i - 1].next) == ns[i];
      }
    }
    forall i | 0 < i < |t|
      ensures t[i].prev == t[i - 1]
    {
      if i <= k {
        assert old(ns[i].prev) == ns[i - 1];
      } else if k + 2 < i {
        assert old(ns[i - 1].prev) == ns[i - 2];
      }
    }
    forall i | 0 <= i < |ds|
      ensures t[i + 1].data == Some(ds[i])
    {
      if i < k {
        assert old(ns[i + 1].data) == Some(cs[i]);
      } else if k < i {
        assert old(ns[i].data) == Some(cs[i - 1]);
      }
    }
  }

  /**
   * Linking the chain's nodes at positions `k` and `k + 2` to each other,
   * leaving every other node but the one between them as it was, gives a
   * chain without the element at position `k`.
   */
  twostate lemma SpliceOut<E>(sp: Splice<E>)
    requires 0 <= sp.k < |sp.cs| && old(Chain(sp.ns, sp.cs))
    requires forall i :: 0 <= i < |sp.ns| && i != sp.k && i != sp.k + 1 && i != sp.k + 2 ==>
      sp.ns[i].next == old(sp.ns[i].next) && sp.ns[i].prev == old(sp.ns[i].prev) && sp.ns[i].data == old(sp.ns[i].data)
    requires sp.ns[sp.k].next == sp.ns[sp.k + 2] && sp.ns[sp.k + 2].prev == sp.ns[sp.k]
    requires sp.ns[sp.k].prev == old(sp.ns[sp.k].prev) && sp.ns[sp.k].data == old(sp.ns[sp.k].data)
    requires sp.ns[sp.k + 2].next == old(sp.ns[sp.k + 2].next) && sp.ns[sp.k + 2].data == old(sp.ns[sp.k + 2].data)
    ensures Chain(sp.ns[..sp.k + 1] + sp.ns[sp.k + 2..], Removed(sp.cs, sp.k))
  {
    var ns, cs, p := sp.ns, sp.cs, sp.k;
    var t := ns[..p + 1] + ns[p + 2..];
    var ds := Removed(cs, p);
    forall i | 0 <= i < |t|
      ensures i <= p ==> t[i] == ns[i]
      ensures p < i ==> t[i] == ns[i + 1]
    {
    }
    RemovedDistinct(ns, p);
    forall i | 0 <= i < |t| - 1
      ensures t[i].next == t[i + 1]
    {
      if i < p {
        assert old(ns[i].next) == ns[i + 1];
      } else if p < i {
        assert old(ns[i + 1].next) == ns[i + 2];
      }
    }
    forall i | 0 < i < |t|
      ensures t[i].prev == t[i - 1]
    {
      if i <= p {
        assert old(ns[i].prev) == ns[i - 1];
      } else if p + 1 < i {
        assert old(ns[i + 1].prev) == ns[i];
      }
    }
    forall i | 0 <= i < |ds|
      ensures t[i + 1].data == Some(ds[i])
    {
      if i < p {
        assert old(ns[i + 1].data) == Some(cs[i]);
      } else {
        assert old(ns[i + 2].data) == Some(cs[i + 1]);
      }
    }
  }

  /**
   * Links `node`, holding `e`, in between the nodes at positions `k` and
   * `k + 1` of a chain.
   */
  method Relink<E>(before: Node<E>, node: Node<E>, after: Node<E>,
                   ghost ns: seq<Node<E>>, ghost cs: seq<E>, ghost k: int, ghost e: E)
    requires Chain(ns, cs) && 0 <= k <= |cs| && node !in ns && node.data == Some(e)
    requires before == ns[k] && after == ns[k + 1]
    modifies before, node, after
    ensures Chain(ns[..k + 1] + [node] + ns[k + 1..], Inserted(cs, k, e))
  {
    after.prev := node;
    node.next := after;
    before.next := node;
    node.prev := before;
    forall i | 0 <= i < |ns| && i != k && i != k + 1
      ensures ns[i].next == old(ns[i].next) && ns[i].prev == old(ns[i].prev)
      ensures ns[i].data == old(ns[i].data)
    {
      assert ns[i] != before && ns[i] != after && ns[i] != node;
    }
    SpliceIn(Splice(ns, cs, k, node, Some(e)));
  }

  /** Unlinks the node at position `k + 1` of a chain and clears its links. */
  method Unsplice<E>(target: Node<E>, ghost ns: seq<Node<E>>, ghost cs: seq<E>, ghost k: int)
    requires Chain(ns, cs) && 0 <= k < |cs| && target == ns[k + 1]
    modifies ns[k], target, ns[k + 2]
    ensures Chain(ns[..k + 1] + ns[k + 2..], Removed(cs, k))
  {
    var before, after := target.prev, target.next;
    before.next := after;
    after.prev := before;
    target.prev := null;
    target.next := null;
    forall i | 0 <= i < |ns| && i != k && i != k + 1 && i != k + 2
      ensures ns[i].next == old(ns[i].next) && ns[i].prev == old(ns[i].prev)
      ensures ns[i].data == old(ns[i].data)
    {
      assert ns[i] != before && ns[i] != target && ns[i] != after;
    }
    SpliceOut(Splice(ns, cs, k, null, None));
  }

  class LinkedList<E(==)> {
    var head: Node<E>
    var foot: Node<E>
    var size: int
    ghost var nodes: seq<Node<E>>  // head, the element nodes in order, foot
    ghost var Contents: seq<E>

    ghost predicate Valid()
      reads this, nodes
    {
      Chain(nodes, Contents) && size == |Contents| &&
      nodes[0] == head && nodes[|nodes| - 1] == foot
    }

    /** A new list is empty: the head sentinel links straight to the foot sentinel. */
    constructor ()
      ensures Valid() && fresh(nodes) && Contents == []
      ensures head.next == foot && foot.prev == head && size == 0
    {
      var h := new Node(None);
      var f := new Node(None);
      h.next := f;
      f.prev := h;
      head := h;
      foot := f;
      size := 0;
      nodes := [h, f];
      Contents := [];
    }

    /** The links around the node at position `i` of the chain. */
    lemma Links(i: int)
      requires Valid() && 0 <= i < |nodes|
      ensures i < |nodes| - 1 ==> nodes[i].next == nodes[i + 1]
      ensures 0 < i ==> nodes[i].prev == nodes[i - 1]
      ensures 0 < i < |nodes| - 1 ==> nodes[i].data == Some(Contents[i - 1])
      ensures forall j :: 0 <= j < |nodes| && j != i ==> nodes[j] != nodes[i]
    {
    }

    /**
     * Splices a new node holding `e` in after `before`, the node at chain
     * position `k`, and counts it in size.
     */
    method LinkAfter(before: Node<E>, ghost k: int, e: E) returns (node: Node<E>)
      requires Valid() && 0 <= k <= size && before == nodes[k]
      modifies this, nodes[k], nodes[k + 1]
      ensures Valid() && fresh(node)
      ensures nodes == old(nodes[..k + 1]) + [node] + old(nodes[k + 1..])
      ensures Contents == Inserted(old(Contents), k, e)
    {
      var after := before.next;
      node := new Node(Some(e));
      Relink(before, node, after, nodes, Contents, k, e);
      size := size + 1;
      nodes := nodes[..k + 1] + [node] + nodes[k + 1..];
      Contents := Inserted(Contents, k, e);
    }

    /**
     * Unlinks `target`, the node of the element at position `p`, clears
     * its links, and no longer counts it in size.
     */
    method Unlink(target: Node<E>, ghost p: int)
      requires Valid() && 0 <= p < size && target == nodes[p + 1]
      modifies this, nodes[p], nodes[p + 1], nodes[p + 2]
      ensures Valid()
      ensures nodes == old(nodes[..p + 1]) + old(nodes[p + 2..])
      ensures Contents == Removed(old(Contents), p)
    {
      Unsplice(target, nodes, Contents, p);
      size := size - 1;
      nodes := nodes[..p + 1] + nodes[p + 2..];
      Contents := Removed(Contents, p);
    }

    /**
     * Inserts `e` so that it becomes the element at `index`; later
     * elements shift one place on. Fails for an index outside 0..size.
     */
    method AddAt(index: int, e: E) returns (r: Result<()>)
      requires Valid()
      modifies this, nodes
      ensures Valid()
      ensures 0 <= index <= |old(Contents)| ==>
        r == Ok(()) && Contents == Inserted(old(Contents), index, e)
      ensures !(0 <= index <= |old(Contents)|) ==>
        r == Err(IndexOutOfBounds) && Contents == old(Contents)
    {
      if index < 0 || index > size {
        return Err(IndexOutOfBounds);
      }
      var it := new ListIterator(this, index);
      it.Add(e);
      r := Ok(());
    }

    /** Appends `e`; always answers true. */
    method Add(e: E) returns (b: bool)
      requires Valid()
      modifies this, nodes
      ensures Valid() && b && Contents == old(Contents) + [e]
    {
      var _ := AddAt(size, e);
      b := true;
    }

    /** Inserts `e` in front of every other element. */
    method AddFirst(e: E)
      requires Valid()
      modifies this, nodes
      ensures Valid() && Contents == [e] + old(Contents)
    {
      var _ := AddAt(0, e);
    }

    /** The iterator whose first next answers the element at `index`. */
    method ListIteratorAt(index: int) returns (r: Result<ListIterator<E>>)
      requires Valid()
      ensures r.Ok? <==> 0 <= index <= |Contents|
      ensures r.Ok? ==>
        fresh(r.value) && r.value.Valid() && r.value.list == this &&
        r.value.index == index && r.value.Pending() == None
      ensures r.Err? ==> r.error == IndexOutOfBounds
    {
      if index < 0 || index > size {
        return Err(IndexOutOfBounds);
      }
      var it := new ListIterator(this, index);
      r := Ok(it);
    }

    /** The element at `index`; fails for an index outside 0..size-1. */
    method Get(index: int) returns (r: Result<E>)
      requires Valid()
      ensures 0 <= index < |Contents| ==> r == Ok(Contents[index])
      ensures !(0 <= index < |Contents|) ==> r == Err(IndexOutOfBounds)
    {
      if index < 0 || index >= size {
        return Err(IndexOutOfBounds);
      }
      var it := new ListIterator(this, index);
      r := it.Next();
    }

    /** The position of the first element equal to `o`, or -1. */
    method IndexOf(o: E) returns (i: int)
      requires Valid()
      ensures i == FirstIndex(Contents, o)
    {
      var it := new ListIterator(this, 0);
      i := 0;
      while it.HasNext()
        invariant it.Valid() && it.list == this && it.index == i
        invariant o !in Contents[..i]
        decreases |Contents| - i
      {
        var x := it.Next();
        if x.value == o {
          FirstIndexAt(Contents, o, i);
          return;
        }
        assert Contents[..i + 1] == Contents[..i] + [Contents[i]];
        i := i + 1;
      }
      assert Contents[..i] == Contents;
      i := -1;
    }

    /** The position of the last element equal to `o`, or -1. */
    method LastIndexOf(o: E) returns (i: int)
      requires Valid()
      ensures i == LastIndex(Contents, o)
    {
      var it := new ListIterator(this, size);
      i := size - 1;
      while it.HasPrevious()
        invariant it.Valid() && it.list == this && it.index == i + 1
        invariant o !in Contents[i + 1..]
        decreases i
      {
        var x := it.Previous();
        if x.value == o {
          LastIndexAt(Contents, o, i);
          return;
        }
        assert Contents[i..] == [Contents[i]] + Contents[i + 1..];
        i := i - 1;
      }
      assert Contents[i + 1..] == Contents;
      i := -1;
    }

    /** Whether some element equals `o`. */
    method Contains(o: E) returns (b: bool)
      requires Valid()
      ensures b <==> o in Contents
    {
      var i := IndexOf(o);
      b := i != -1;
    }

    /**
     * Removes the element at `index` and answers it; later elements shift
     * one place back. Fails for an index outside 0..size-1.
     */
    method RemoveAt(index: int) returns (r: Result<E>)
      requires Valid()
      modifies this, nodes
      ensures Valid()
      ensures 0 <= index < |old(Contents)| ==>
        r == Ok(old(Contents)[index]) && Contents == Removed(old(Contents), index)
      ensures !(0 <= index < |old(Contents)|) ==>
        r == Err(IndexOutOfBounds) && Contents == old(Contents)
    {
      if index < 0 || index >= size {
        return Err(IndexOutOfBounds);
      }
      var it := new ListIterator(this, index);
      r := it.Next();
      var _ := it.Remove();
    }

    /** Removes the first element equal to `o`, answering whether there was one. */
    method RemoveElement(o: E) returns (b: bool)
      requires Valid()
      modifies this, nodes
      ensures Valid()
      ensures b <==> o in old(Contents)
      ensures Contents == WithoutFirst(old(Contents), o)
    {
      var it := new ListIterator(this, 0);
      while it.HasNext()
        invariant it.Valid() && it.list == this && Contents == old(Contents) && nodes == old(nodes)
        invariant o !in Contents[..it.index]
        decreases |Contents| - it.index
      {
        var i := it.index;
        var x := it.Next();
        if x.value == o {
          FirstIndexAt(Contents, o, i);
          var _ := it.Remove();
          return true;
        }
        assert Contents[..i + 1] == Contents[..i] + [Contents[i]];
      }
      assert Contents[..it.index] == Contents;
      b := false;
    }

    /** Removes the last element equal to `o`, answering whether there was one. */
    method RemoveLastOccurrence(o: E) returns (b: bool)
      requires Valid()
      modifies this, nodes
      ensures Valid()
      ensures b <==> o in old(Contents)
      ensures b ==> Contents == Removed(old(Contents), LastIndex(old(Contents), o))
      ensures !b ==> Contents == old(Contents)
    {
      var i := LastIndexOf(o);
      b := i != -1;
      if b {
        var _ := RemoveAt(i);
      }
    }

    /**
     * Replaces the element at `index` and answers the one it replaced. As
     * it goes through an iterator, an index of exactly size fails the way
     * next does at the end of the list.
     */
    method Set(index: int, e: E) returns (r: Result<E>)
      requires Valid()
      modifies this, nodes
      ensures Valid()
      ensures 0 <= index < |old(Contents)| ==>
        r == Ok(old(Contents)[index]) && Contents == old(Contents)[index := e]
      ensures index == |old(Contents)| ==> r == Err(NoSuchElement) && Contents == old(Contents)
      ensures !(0 <= index <= |old(Contents)|) ==>
        r == Err(IndexOutOfBounds) && Contents == old(Contents)
    {
      if index < 0 || index > size {
        return Err(IndexOutOfBounds);
      }
      var it := new ListIterator(this, index);
      r := it.Next();
      if r.Ok? {
        var _ := it.Set(e);
      }
    }

    /** Removes every element, one iterator step at a time. */
    method Clear()
      requires Valid()
      modifies this, nodes
      ensures Valid() && Contents == []
    {
      var it := new ListIterator(this, 0);
      while it.HasNext()
        invariant it.Valid() && it.list == this && it.index == 0 && it.Pending() == None
        invariant forall j :: 0 <= j < |nodes| ==> nodes[j] in old(nodes)
        decreases |Contents|
      {
        TakeNext(it);
      }
    }

    /** The first element; fails on an empty list. */
    method GetFirst() returns (r: Result<E>)
      requires Valid()
      ensures Contents != [] ==> r == Ok(Contents[0])
      ensures Contents == [] ==> r == Err(NoSuchElement)
    {
      if IsEmpty() {
        return Err(NoSuchElement);
      }
      r := Get(0);
    }

    /** The last element; fails on an empty list. */
    method GetLast() returns (r: Result<E>)
      requires Valid()
      ensures Contents != [] ==> r == Ok(Contents[|Contents| - 1])
      ensures Contents == [] ==> r == Err(NoSuchElement)
    {
      if IsEmpty() {
        return Err(NoSuchElement);
      }
      r := Get(size - 1);
    }

    /** The first element, or None on an empty list. */
    method PeekFirst() returns (r: Option<E>)
      requires Valid()
      ensures Contents != [] ==> r == Some(Contents[0])
      ensures Contents == [] ==> r == None
    {
      if IsEmpty() {
        return None;
      }
      var x := GetFirst();
      r := Some(x.value);
    }

    /** The last element, or None on an empty list. */
    method PeekLast() returns (r: Option<E>)
      requires Valid()
      ensures Contents != [] ==> r == Some(Contents[|Contents| - 1])
      ensures Contents == [] ==> r == None
    {
      if IsEmpty() {
        return None;
      }
      var x := GetLast();
      r := Some(x.value);
    }

    /** Removes and answers the first element; fails on an empty list. */
    method RemoveFirst() returns (r: Result<E>)
      requires Valid()
      modifies this, nodes
      ensures Valid()
      ensures old(Contents) != [] ==> r == Ok(old(Contents)[0]) && Contents == old(Contents)[1..]
      ensures old(Contents) == [] ==> r == Err(NoSuchElement) && Contents == []
    {
      if IsEmpty() {
        return Err(NoSuchElement);
      }
      r := RemoveAt(0);
    }

    /** Removes and answers the last element; fails on an empty list. */
    method RemoveLast() returns (r: Result<E>)
      requires Valid()
      modifies this, nodes
      ensures Valid()
      ensures old(Contents) != [] ==>
        r == Ok(old(Contents)[|old(Contents)| - 1]) && Contents == old(Contents)[..|old(Contents)| - 1]
      ensures old(Contents) == [] ==> r == Err(NoSuchElement) && Contents == []
    {
      if IsEmpty() {
        return Err(NoSuchElement);
      }
      r := RemoveAt(size - 1);
    }

    /** Removes and answers the first element, or None on an empty list. */
    method PollFirst() returns (r: Option<E>)
      requires Valid()
      modifies this, nodes
      ensures Valid()
      ensures old(Contents) != [] ==> r == Some(old(Contents)[0]) && Contents == old(Contents)[1..]
      ensures old(Contents) == [] ==> r == None && Contents == []
    {
      if IsEmpty() {
        return None;
      }
      var x := RemoveFirst();
      r := Some(x.value);
    }

    /** Removes and answers the last element, or None on an empty list. */
    method PollLast() returns (r: Option<E>)
      requires Valid()
      modifies this, nodes
      ensures Valid()
      ensures old(Contents) != [] ==>
        r == Some(old(Contents)[|old(Contents)| - 1]) && Contents == old(Contents)[..|old(Contents)| - 1]
      ensures old(Contents) == [] ==> r == None && Contents == []
    {
      if IsEmpty() {
        return None;
      }
      var x := RemoveLast();
      r := Some(x.value);
    }

    /**
     * Whether `other` holds equal elements in the same order, compared
     * pairwise by walking both lists.
     */
    method Equals(other: LinkedList<E>) returns (b: bool)
      requires Valid() && other.Valid()
      ensures b <==> Contents == other.Contents
    {
      var it := new ListIterator(this, 0);
      var ot := new ListIterator(other, 0);
      b := SameRemainder(it, ot);
    }

    function Size(): (n: int)
      requires Valid()
      reads this, nodes
      ensures n == |Contents|
    {
      size
    }

    function IsEmpty(): (b: bool)
      requires Valid()
      reads this, nodes
      ensures b <==> Contents == []
    {
      size == 0
    }
  }

  /**
   * A cursor between two elements of `list`: `index` elements lie before
   * it, `prev` is the node just before it, and `toRemove` is the node the
   * last next or previous returned, which remove and set act on.
   */
  class ListIterator<E(==)> {
    const list: LinkedList<E>
    var prev: Node<E>
    var toRemove: Node?<E>
    var index: int

    ghost predicate Valid()
      reads this, list, list.nodes
    {
      list.Valid() &&
      0 <= index <= list.size && prev == list.nodes[index] &&
      (toRemove == null ||
       (0 < index && toRemove == list.nodes[index]) ||
       (index < list.size && toRemove == list.nodes[index + 1]))
    }

    /** The position in the list of the element remove and set act on, if any. */
    ghost function Pending(): (p: Option<int>)
      requires Valid()
      reads this, list, list.nodes
      ensures p.Some? ==> 0 <= p.value < |list.Contents|
    {
      if toRemove == null then None
      else if toRemove == prev then Some(index - 1)
      else Some(index)
    }

    /**
     * An iterator whose first next answers the element at `index`. It walks
     * from whichever sentinel is nearer. Nothing is pending for remove or
     * set until next or previous is called.
     */
    constructor (list: LinkedList<E>, index: int)
      requires list.Valid() && 0 <= index <= list.size
      ensures Valid() && this.list == list && this.index == index && Pending() == None
    {
      var it := list.head;
      if index != 0 {
        if index <= list.size / 2 {
          var i := 0;
          while i < index
            invariant 0 <= i <= index && it == list.nodes[i]
          {
            it := it.next;
            i := i + 1;
          }
        } else {
          var i := list.size;
          it := list.foot;
          while i >= index
            invariant index - 1 <= i <= list.size && it == list.nodes[i + 1]
          {
            it := it.prev;
            i := i - 1;
          }
        }
      }
      this.list := list;
      prev := it;
      toRemove := null;
      this.index := index;
    }

    function HasNext(): (b: bool)
      requires Valid()
      reads this, list, list.nodes
      ensures b <==> index < |list.Contents|
    {
      NextIndex() < list.size
    }

    function HasPrevious(): (b: bool)
      requires Valid()
      reads this, list, list.nodes
      ensures b <==> 0 < index
    {
      PreviousIndex() >= 0
    }

    function NextIndex(): (i: int)
      requires Valid()
      reads this, list, list.nodes
      ensures 0 <= i <= |list.Contents|
      ensures list.Contents[..i] == list.Contents[..index]
    {
      index
    }

    function PreviousIndex(): (i: int)
      requires Valid()
      reads this, list, list.nodes
      ensures -1 <= i < |list.Contents|
      ensures i + 1 == NextIndex()
    {
      index - 1
    }

    /** Answers the element after the cursor and steps over it. */
    method Next() returns (r: Result<E>)
      requires Valid()
      modifies this
      ensures Valid()
      ensures old(index) < |list.Contents| ==>
        r == Ok(list.Contents[old(index)]) && index == old(index) + 1 && Pending() == Some(old(index))
      ensures old(index) >= |list.Contents| ==> r == Err(NoSuchElement) && unchanged(this)
    {
      if !HasNext() {
        return Err(NoSuchElement);
      }
      list.Links(index);
      list.Links(index + 1);
      prev := prev.next;
      index := index + 1;
      toRemove := prev;
      r := Ok(prev.data.value);
    }

    /** Answers the element before the cursor and steps back over it. */
    method Previous() returns (r: Result<E>)
      requires Valid()
      modifies this
      ensures Valid()
      ensures 0 < old(index) ==>
        r == Ok(list.Contents[old(index) - 1]) && index == old(index) - 1 && Pending() == Some(index)
      ensures old(index) == 0 ==> r == Err(NoSuchElement) && unchanged(this)
    {
      if !HasPrevious() {
        return Err(NoSuchElement);
      }
      list.Links(index);
      toRemove := prev;
      r := Ok(prev.data.value);
      prev := prev.prev;
      index := index - 1;
    }

    /**
     * Inserts `e` just before the cursor, so that a following next is
     * unaffected and a following previous answers `e`.
     */
    method Add(e: E)
      requires Valid()
      modifies this, list, list.nodes
      ensures Valid()
      ensures list.Contents == Inserted(old(list.Contents), old(index), e)
      ensures index == old(index) + 1 && Pending() == None
      ensures fresh(prev) && list.nodes == old(list.nodes[..index + 1]) + [prev] + old(list.nodes[index + 1..])
    {
      var node := list.LinkAfter(prev, index, e);
      toRemove := null;
      prev := node;
      index := index + 1;
    }

    /**
     * Unlinks the element the last next or previous answered. Fails when
     * nothing is pending: before any next or previous, after an add, or
     * after a remove.
     */
    method Remove() returns (r: Result<()>)
      requires Valid()
      modifies this, list, list.nodes
      ensures Valid()
      ensures old(Pending()).None? ==>
        r == Err(IllegalState) && list.Contents == old(list.Contents) && index == old(index)
      ensures old(Pending()).Some? ==>
        r == Ok(()) && list.Contents == Removed(old(list.Contents), old(Pending()).value) &&
        index == old(Pending()).value && Pending() == None &&
        list.nodes == old(list.nodes[..Pending().value + 1] + list.nodes[Pending().value + 2..])
    {
      if toRemove == null {
        return Err(IllegalState);
      }
      ghost var p := Pending().value;
      list.Links(p + 1);
      var target := toRemove;
      if prev == target {
        prev := target.prev;
        index := index - 1;
      }
      toRemove := null;
      list.Unlink(target, p);
      r := Ok(());
    }

    /** Replaces the element the last next or previous answered. */
    method Set(e: E) returns (r: Result<()>)
      requires Valid()
      modifies list, list.nodes
      ensures Valid() && Pending() == old(Pending())
      ensures old(Pending()).None? ==> r == Err(IllegalState) && list.Contents == old(list.Contents)
      ensures old(Pending()).Some? ==>
        r == Ok(()) && list.Contents == old(list.Contents)[old(Pending()).value := e]
    {
      if toRemove == null {
        return Err(IllegalState);
      }
      ghost var p := Pending().value;
      toRemove.data := Some(e);
      list.Contents := list.Contents[p := e];
      r := Ok(());
    }
  }

  /**
   * Walks two iterators in step, given that the elements before them
   * agree, and answers whether both lists agree entirely.
   */
  method SameRemainder<E(==)>(it: ListIterator<E>, ot: ListIterator<E>) returns (b: bool)
    requires it != ot && it.Valid() && ot.Valid() && it.index == ot.index
    requires forall j :: 0 <= j < it.index ==> it.list.Contents[j] == ot.list.Contents[j]
    modifies it, ot
    ensures b <==> it.list.Contents == ot.list.Contents
  {
    while it.HasNext() && ot.HasNext()
      invariant it.Valid() && ot.Valid() && it.index == ot.index
      invariant forall j :: 0 <= j < it.index ==> it.list.Contents[j] == ot.list.Contents[j]
      decreases |it.list.Contents| - it.index
    {
      var same := StepBoth(it, ot);
      if !same {
        return false;
      }
    }
    b := !it.HasNext() && !ot.HasNext();
  }

  /** Steps both iterators over one element and answers whether the two agree. */
  method StepBoth<E(==)>(it: ListIterator<E>, ot: ListIterator<E>) returns (same: bool)
    requires it != ot && it.Valid() && ot.Valid() && it.index == ot.index
    requires it.index < |it.list.Contents| && ot.index < |ot.list.Contents|
    modifies it, ot
    ensures it.Valid() && ot.Valid() && it.index == ot.index == old(it.index) + 1
    ensures same <==> it.list.Contents[old(it.index)] == ot.list.Contents[old(it.index)]
  {
    var x := it.Next();
    var y := ot.Next();
    same := x.value == y.value;
  }

  /** Steps over the first element and removes it, leaving the cursor at the front. */
  method TakeNext<E(==)>(it: ListIterator<E>)
    requires it.Valid() && it.index == 0 && 0 < |it.list.Contents|
    modifies it, it.list, it.list.nodes
    ensures it.Valid() && it.index == 0 && it.Pending() == None
    ensures it.list.Contents == old(it.list.Contents)[1..]
    ensures forall j :: 0 <= j < |it.list.nodes| ==> it.list.nodes[j] in old(it.list.nodes)
  {
    var _ := it.Next();
    ghost var ns := it.list.nodes;
    var _ := it.Remove();
    assert forall j :: 0 <= j < |it.list.nodes| ==> it.list.nodes[j] == ns[if j == 0 then 0 else j + 1];
  }

  /*
   * The iterator as the source writes it, on chain positions: position 0
   * is the head sentinel, position i + 1 holds element i, and position
   * |xs| + 1 is the foot sentinel. These exist to exhibit three defects;
   * the iterator above is the corrected one.
   */

  /** A cursor as written: the chain positions of prev and to_remove, and index. */
  datatype Cursor = Cursor(prev: int, toRemove: Option<int>, index: int)

  /** What the node at chain position `pos` holds: nothing for a sentinel. */
  function NodeData<E>(xs: seq<E>, pos: int): (d: Option<E>)
    ensures d.Some? <==> 1 <= pos <= |xs|
    ensures d.Some? ==> d.value == xs[pos - 1]
  {
    if 1 <= pos <= |xs| then Some(xs[pos - 1]) else None
  }

  /** The constructor as written arms to_remove with prev whenever index > 0. */
  function StartAsWritten(index: int): Cursor
  {
    Cursor(index, if index == 0 then None else Some(index), index)
  }

  /** next as written: steps prev on and answers what it now holds. */
  function NextAsWritten<E>(xs: seq<E>, c: Cursor): (Option<E>, Cursor)
  {
    (NodeData(xs, c.prev + 1), Cursor(c.prev + 1, Some(c.prev + 1), c.index + 1))
  }

  /** previous as written: answers what prev holds and steps prev back. */
  function PreviousAsWritten<E>(xs: seq<E>, c: Cursor): (Option<E>, Cursor)
  {
    (NodeData(xs, c.prev), Cursor(c.prev - 1, Some(c.prev), c.index - 1))
  }

  /** add as written: splices after prev but leaves prev where it was. */
  function AddAsWritten<E>(xs: seq<E>, c: Cursor, e: E): (seq<E>, Cursor)
    requires 0 <= c.prev <= |xs|
  {
    (Inserted(xs, c.prev, e), Cursor(c.prev, None, c.index + 1))
  }

  /**
   * remove as written: unlinks to_remove, moves prev back only when it is
   * the removed node, and decrements index in every case.
   */
  function RemoveAsWritten<E>(xs: seq<E>, c: Cursor): (r: Result<(seq<E>, Cursor)>)
    requires c.toRemove.Some? ==> 1 <= c.toRemove.value <= |xs|
    ensures c.toRemove.None? <==> r == Err(IllegalState)
    ensures r.Ok? ==> r.value.0 == Removed(xs, c.toRemove.value - 1) && r.value.1.index == c.index - 1
  {
    match c.toRemove
    case None => Err(IllegalState)
    case Some(t) =>
      var p := if c.prev == t then t - 1 else if c.prev > t then c.prev - 1 else c.prev;
      Ok((Removed(xs, t - 1), Cursor(p, None, c.index - 1)))
  }

  /**
   * After add, next answers the element just added instead of the one
   * that followed the cursor: on [5], add(1) at the front and then next
   * answers 1, where the list is [1, 5] and the cursor sits before 5.
   */
  lemma AddAsWrittenRepeats()
    ensures var (ys, c) := AddAsWritten([5], StartAsWritten(0), 1);
      ys == [1, 5] && c.index == 1 && NextAsWritten(ys, c).0 == Some(1) && ys[c.index] == 5
  {
    var (ys, c) := AddAsWritten([5], StartAsWritten(0), 1);
    assert ys == [1] + [5];
  }

  /**
   * remove after previous leaves index one too small: on [1, 2], start at
   * 2, previous, remove; index is 0 with one element left, yet next then
   * answers the foot sentinel's empty data.
   */
  lemma RemoveAfterPreviousAsWrittenSkips()
    ensures var (x, c) := PreviousAsWritten([1, 2], StartAsWritten(2));
      var r := RemoveAsWritten([1, 2], c);
      x == Some(2) && r.Ok? && r.value.0 == [1] && r.value.1.index == 0 &&
      r.value.1.index < |r.value.0| && NextAsWritten(r.value.0, r.value.1).0 == None
  {
    var (x, c) := PreviousAsWritten([1, 2], StartAsWritten(2));
    assert Removed([1, 2], 1) == [1];
  }

  /**
   * An iterator started at index 1 lets remove succeed before any next or
   * previous, and removes element 0: on [7, 8] it leaves [8].
   */
  lemma StartAsWrittenArmsRemove()
    ensures RemoveAsWritten([7, 8], StartAsWritten(1)).Ok?
    ensures RemoveAsWritten([7, 8], StartAsWritten(1)).value.0 == [8]
  {
    assert Removed([7, 8], 0) == [8];
  }
}
