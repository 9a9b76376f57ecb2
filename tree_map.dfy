/**
 * TreeMap: a map from integer keys to values kept in a binary search tree.
 * Its rebalance step is empty, so the tree is never restructured: put hangs
 * new entries where the search fell off, and remove splices entries out,
 * taking the in-order predecessor when the entry has two children.
 */
module TreeMaps {
  import opened Wrappers
  import RB = RedBlackTree
  import opened Navigation

  datatype MapTree<V> = Leaf | Entry(left: MapTree<V>, key: int, value: V, right: MapTree<V>)

  /** A key with its value, as the *Entry methods hand it out. */
  datatype MapEntry<V> = MapEntry(key: int, value: V)

  /** The shape of `t` with only its keys, so that the set's order facts apply. */
  function KeyTree<V>(t: MapTree<V>): RB.Tree {
    match t
    case Leaf => RB.Nil
    case Entry(l, k, _, r) => RB.Node(RB.Black, KeyTree(l), k, KeyTree(r))
  }

  function Keys<V>(t: MapTree<V>): set<int> {
    RB.Elements(KeyTree(t))
  }

  /** Every left descendant's key is smaller and every right descendant's larger. */
  ghost predicate Sorted<V>(t: MapTree<V>) {
    RB.Ordered(KeyTree(t))
  }

  /** The mapping the tree stands for; an entry's own key wins over its subtrees. */
  ghost function AsMap<V>(t: MapTree<V>): map<int, V> {
    match t
    case Leaf => map[]
    case Entry(l, k, v, r) => (AsMap(l) + AsMap(r))[k := v]
  }

  lemma {:induction false} AsMapKeys<V>(t: MapTree<V>)
    ensures AsMap(t).Keys == Keys(t)
  {
    if t.Entry? {
      AsMapKeys(t.left);
      AsMapKeys(t.right);
    }
  }

  /** Every mapping of `sub` is also a mapping of `whole`. */
  ghost predicate Within<V>(sub: MapTree<V>, whole: MapTree<V>) {
    forall x :: x in AsMap(sub) ==> x in AsMap(whole) && AsMap(whole)[x] == AsMap(sub)[x]
  }

  /** In a sorted tree no subtree's mapping is hidden by another's. */
  lemma ChildrenWithin<V>(t: MapTree<V>)
    requires t.Entry? && Sorted(t)
    ensures Within(t.left, t) && Within(t.right, t)
    ensures t.key in AsMap(t) && AsMap(t)[t.key] == t.value
  {
    AsMapKeys(t.left);
    AsMapKeys(t.right);
    forall x | x in AsMap(t.left)
      ensures x in AsMap(t) && AsMap(t)[x] == AsMap(t.left)[x]
    {
      assert x < t.key;
      assert x !in AsMap(t.right);
    }
  }

  /** The child the search for `k` goes to: left when the entry's key is greater. */
  function ChildToward<V>(t: MapTree<V>, k: int): MapTree<V>
    requires t.Entry?
  {
    if t.key > k then t.left else t.right
  }

  /** getChild: the child whose key equals `k` (left checked first), or Leaf for null. */
  function GetChild<V>(p: MapTree<V>, k: int): MapTree<V> {
    if p.Entry? && p.left.Entry? && p.left.key == k then p.left
    else if p.Entry? && p.right.Entry? && p.right.key == k then p.right
    else Leaf
  }

  /** Stepping toward `k` keeps every fact about `k` and stays inside the tree. */
  lemma SearchStep<V>(t: MapTree<V>, k: int)
    requires t.Entry? && Sorted(t) && t.key != k
    ensures Sorted(ChildToward(t, k)) && Within(ChildToward(t, k), t)
    ensures k in AsMap(t) <==> k in AsMap(ChildToward(t, k))
  {
    ChildrenWithin(t);
    AsMapKeys(t.left);
    AsMapKeys(t.right);
    AsMapKeys(t);
  }

  /** In a sorted tree getChild finds `k` exactly when the child toward `k` holds it. */
  lemma GetChildFinds<V>(p: MapTree<V>, k: int)
    requires p.Entry? && Sorted(p)
    ensures GetChild(p, k) == if ChildToward(p, k).Entry? && ChildToward(p, k).key == k then ChildToward(p, k) else Leaf
  {
    if p.left.Entry? {
      assert p.left.key in Keys(p.left);
    }
    if p.right.Entry? {
      assert p.right.key in Keys(p.right);
    }
  }

  /**
   * put on the tree: the entry with key `k` takes value `v`, or a new leaf
   * entry hangs where the search for `k` fell off, on the side the
   * comparison chose.
   */
  function Insert<V>(t: MapTree<V>, k: int, v: V): MapTree<V> {
    match t
    case Leaf => Entry(Leaf, k, v, Leaf)
    case Entry(l, key, value, r) =>
      if key > k then Entry(Insert(l, k, v), key, value, r)
      else if key < k then Entry(l, key, value, Insert(r, k, v))
      else Entry(l, key, v, r)
  }

  /** Rebuilding an entry over a left subtree that gained `x`. */
  lemma AddLeft<V>(a: map<int, V>, b: map<int, V>, k: int, v: V, x: int, w: V)
    requires x != k && x !in b
    ensures (a[x := w] + b)[k := v] == (a + b)[k := v][x := w]
  {
  }

  /** Rebuilding an entry over a right subtree that gained `x`. */
  lemma AddRight<V>(a: map<int, V>, b: map<int, V>, k: int, v: V, x: int, w: V)
    requires x != k
    ensures (a + b[x := w])[k := v] == (a + b)[k := v][x := w]
  {
  }

  /** Rebuilding an entry over a left subtree that lost `x`. */
  lemma DropLeft<V>(a: map<int, V>, b: map<int, V>, k: int, v: V, x: int)
    requires x != k && x !in b
    ensures ((a - {x}) + b)[k := v] == (a + b)[k := v] - {x}
  {
  }

  /** Rebuilding an entry over a right subtree that lost `x`. */
  lemma DropRight<V>(a: map<int, V>, b: map<int, V>, k: int, v: V, x: int)
    requires x != k && x !in a
    ensures (a + (b - {x}))[k := v] == (a + b)[k := v] - {x}
  {
  }

  /** Dropping an entry's own key leaves its subtrees' mappings. */
  lemma DropOwn<V>(a: map<int, V>, b: map<int, V>, k: int, v: V)
    requires k !in a && k !in b
    ensures (a + b)[k := v] - {k} == a + b
  {
  }

  /** Moving the predecessor `x` up into the place of the entry's own key `k`. */
  lemma MoveUp<V>(a: map<int, V>, b: map<int, V>, k: int, v: V, x: int)
    requires k !in a && k !in b && x in a && x !in b
    ensures ((a - {x}) + b)[x := a[x]] == (a + b)[k := v] - {k}
  {
  }

  lemma {:induction false} InsertSpec<V>(t: MapTree<V>, k: int, v: V)
    requires Sorted(t)
    ensures Sorted(Insert(t, k, v))
    ensures Keys(Insert(t, k, v)) == Keys(t) + {k}
    ensures AsMap(Insert(t, k, v)) == AsMap(t)[k := v]
  {
    match t
    case Leaf =>
    case Entry(l, key, value, r) =>
      AsMapKeys(l);
      AsMapKeys(r);
      if key > k {
        InsertSpec(l, k, v);
        AddLeft(AsMap(l), AsMap(r), key, value, k, v);
      } else if key < k {
        InsertSpec(r, k, v);
        AddRight(AsMap(l), AsMap(r), key, value, k, v);
      }
  }

  /** A new key ends up in a new leaf: an entry with no children. */
  lemma {:induction false} InsertAddsLeaf<V>(t: MapTree<V>, k: int, v: V)
    requires k !in Keys(t)
    ensures Contains(Insert(t, k, v), Entry(Leaf, k, v, Leaf))
  {
    if t.Entry? {
      if t.key > k {
        InsertAddsLeaf(t.left, k, v);
      } else {
        InsertAddsLeaf(t.right, k, v);
      }
    }
  }

  /** `sub` is one of the subtrees of `t`, `t` itself included. */
  ghost predicate Contains<V>(t: MapTree<V>, sub: MapTree<V>) {
    t == sub || (t.Entry? && (Contains(t.left, sub) || Contains(t.right, sub)))
  }

  /** The rightmost entry of a tree: the one with the greatest key. */
  function MaxEntry<V>(t: MapTree<V>): (e: MapEntry<V>)
    requires t.Entry?
    ensures e.key == RB.Max(KeyTree(t))
  {
    if t.right.Leaf? then MapEntry(t.key, t.value) else MaxEntry(t.right)
  }

  function MinEntry<V>(t: MapTree<V>): (e: MapEntry<V>)
    requires t.Entry?
    ensures e.key == RB.Min(KeyTree(t))
  {
    if t.left.Leaf? then MapEntry(t.key, t.value) else MinEntry(t.left)
  }

  /** The tree without its rightmost entry, whose left subtree takes its place. */
  function RemoveMax<V>(t: MapTree<V>): MapTree<V>
    requires t.Entry?
  {
    if t.right.Leaf? then t.left else Entry(t.left, t.key, t.value, RemoveMax(t.right))
  }

  lemma {:induction false} RemoveMaxKeys<V>(t: MapTree<V>)
    requires t.Entry? && Sorted(t)
    ensures Sorted(RemoveMax(t))
    ensures Keys(RemoveMax(t)) == Keys(t) - {MaxEntry(t).key}
  {
    RB.MaxIsGreatest(KeyTree(t));
    assert Keys(t) == Keys(t.left) + {t.key} + Keys(t.right);
    assert t.key !in Keys(t.left);
    if t.right.Entry? {
      RemoveMaxKeys(t.right);
      assert MaxEntry(t).key != t.key && MaxEntry(t).key !in Keys(t.left);
      assert MaxEntry(t) == MaxEntry(t.right);
      assert MaxEntry(t).key in Keys(t.right);
      assert Keys(RemoveMax(t.right)) <= Keys(t.right);
      assert KeyTree(RemoveMax(t)) == RB.Node(RB.Black, KeyTree(t.left), t.key, KeyTree(RemoveMax(t.right)));
      assert Keys(RemoveMax(t)) == Keys(t.left) + {t.key} + Keys(RemoveMax(t.right));
    }
  }

  lemma {:induction false} RemoveMaxMap<V>(t: MapTree<V>)
    requires t.Entry? && Sorted(t)
    ensures var m := MaxEntry(t);
      m.key in AsMap(t) && AsMap(t)[m.key] == m.value && AsMap(RemoveMax(t)) == AsMap(t) - {m.key}
  {
    ChildrenWithin(t);
    AsMapKeys(t.left);
    AsMapKeys(t.right);
    RB.MaxIsGreatest(KeyTree(t));
    if t.right.Entry? {
      RemoveMaxMap(t.right);
      var m := MaxEntry(t);
      assert m.key in Keys(t.right);
      DropRight(AsMap(t.left), AsMap(t.right), t.key, t.value, m.key);
    } else {
      DropOwn(AsMap(t.left), AsMap(t.right), t.key, t.value);
    }
  }

  /**
   * TreeMapEntry.remove on the entry `t` itself: with one child missing the
   * other takes its place; with two, the entry takes the key and value of
   * its in-order predecessor, which is removed from the left subtree.
   */
  function Splice<V>(t: MapTree<V>): MapTree<V>
    requires t.Entry?
  {
    if t.left.Entry? && t.right.Entry? then
      var m := MaxEntry(t.left);
      Entry(RemoveMax(t.left), m.key, m.value, t.right)
    else if t.left.Entry? then t.left
    else t.right
  }

  lemma SpliceKeys<V>(t: MapTree<V>)
    requires t.Entry? && Sorted(t)
    ensures Sorted(Splice(t))
    ensures Keys(Splice(t)) == Keys(t) - {t.key}
  {
    assert Keys(t) == Keys(t.left) + {t.key} + Keys(t.right);
    assert t.key !in Keys(t.left) && t.key !in Keys(t.right);
    if t.left.Entry? && t.right.Entry? {
      RemoveMaxKeys(t.left);
      RB.MaxIsGreatest(KeyTree(t.left));
      var m := MaxEntry(t.left).key;
      assert m in Keys(t.left);
      assert forall y :: y in Keys(RemoveMax(t.left)) ==> y < m;
      assert forall y :: y in Keys(t.right) ==> m < y;
      assert KeyTree(Splice(t)) == RB.Node(RB.Black, KeyTree(RemoveMax(t.left)), m, KeyTree(t.right));
      assert Keys(Splice(t)) == Keys(RemoveMax(t.left)) + {m} + Keys(t.right);
    }
  }

  lemma SpliceMap<V>(t: MapTree<V>)
    requires t.Entry? && Sorted(t)
    ensures AsMap(Splice(t)) == AsMap(t) - {t.key}
  {
    AsMapKeys(t.left);
    AsMapKeys(t.right);
    assert t.key !in AsMap(t.left) && t.key !in AsMap(t.right);
    DropOwn(AsMap(t.left), AsMap(t.right), t.key, t.value);
    if t.left.Entry? && t.right.Entry? {
      RemoveMaxMap(t.left);
      var m := MaxEntry(t.left);
      assert m.key in Keys(t.left);
      assert m.key !in AsMap(t.right);
      MoveUp(AsMap(t.left), AsMap(t.right), t.key, t.value, m.key);
    }
  }

  /** remove on the tree: the search for `k` ends at the entry to splice out. */
  function RemoveKey<V>(t: MapTree<V>, k: int): MapTree<V> {
    match t
    case Leaf => Leaf
    case Entry(l, key, v, r) =>
      if key == k then Splice(t)
      else if key > k then Entry(RemoveKey(l, k), key, v, r)
      else Entry(l, key, v, RemoveKey(r, k))
  }

  lemma {:induction false} RemoveKeyKeys<V>(t: MapTree<V>, k: int)
    requires Sorted(t)
    ensures Sorted(RemoveKey(t, k)) && Keys(RemoveKey(t, k)) == Keys(t) - {k}
  {
    match t
    case Leaf =>
    case Entry(l, key, v, r) =>
      if key == k {
        SpliceKeys(t);
      } else if key > k {
        RemoveKeyKeys(l, k);
        assert KeyTree(RemoveKey(t, k)) == RB.Node(RB.Black, KeyTree(RemoveKey(l, k)), key, KeyTree(r));
        assert k !in Keys(r);
      } else {
        RemoveKeyKeys(r, k);
        assert KeyTree(RemoveKey(t, k)) == RB.Node(RB.Black, KeyTree(l), key, KeyTree(RemoveKey(r, k)));
        assert k !in Keys(l);
      }
  }

  lemma {:induction false} RemoveKeyMap<V>(t: MapTree<V>, k: int)
    requires Sorted(t)
    ensures AsMap(RemoveKey(t, k)) == AsMap(t) - {k}
  {
    match t
    case Leaf =>
    case Entry(l, key, v, r) =>
      AsMapKeys(l);
      AsMapKeys(r);
      if key == k {
        SpliceMap(t);
      } else if key > k {
        RemoveKeyMap(l, k);
        assert k !in AsMap(r);
        DropLeft(AsMap(l), AsMap(r), key, v, k);
      } else {
        RemoveKeyMap(r, k);
        assert k !in AsMap(l);
        DropRight(AsMap(l), AsMap(r), key, v, k);
      }
  }

  /** Removing `k` from a sorted tree removes exactly the mapping for `k`. */
  lemma RemoveKeySpec<V>(t: MapTree<V>, k: int)
    requires Sorted(t)
    ensures Sorted(RemoveKey(t, k)) && Keys(RemoveKey(t, k)) == Keys(t) - {k}
    ensures AsMap(RemoveKey(t, k)) == AsMap(t) - {k}
  {
    RemoveKeyKeys(t, k);
    RemoveKeyMap(t, k);
  }

  /** containsValueHelper: an in-order scan for an entry holding `value`. */
  function ContainsValueHelper<V(==)>(t: MapTree<V>, value: V): bool {
    match t
    case Leaf => false
    case Entry(l, _, v, r) => ContainsValueHelper(l, value) || v == value || ContainsValueHelper(r, value)
  }

  /** The scan finds `value` exactly when some key maps to it. */
  lemma {:induction false} ContainsValueMeans<V>(t: MapTree<V>, value: V)
    requires Sorted(t)
    ensures ContainsValueHelper(t, value) <==> exists k :: k in AsMap(t) && AsMap(t)[k] == value
  {
    if t.Entry? {
      ChildrenWithin(t);
      ContainsValueMeans(t.left, value);
      ContainsValueMeans(t.right, value);
      if ContainsValueHelper(t.left, value) {
        var k :| k in AsMap(t.left) && AsMap(t.left)[k] == value;
        assert k in AsMap(t) && AsMap(t)[k] == value;
      }
      if ContainsValueHelper(t.right, value) {
        var k :| k in AsMap(t.right) && AsMap(t.right)[k] == value;
        assert k in AsMap(t) && AsMap(t)[k] == value;
      }
      forall k | k in AsMap(t) && AsMap(t)[k] == value
        ensures ContainsValueHelper(t, value)
      {
        if k != t.key {
          if k in AsMap(t.right) {
            assert AsMap(t.right)[k] == value;
            assert exists k' :: k' in AsMap(t.right) && AsMap(t.right)[k'] == value;
          } else {
            assert k in AsMap(t.left) && AsMap(t.left)[k] == value;
            assert exists k' :: k' in AsMap(t.left) && AsMap(t.left)[k'] == value;
          }
        }
      }
    }
  }

  /** `r`, when present, is an entry of the map `m`. */
  ghost predicate IsEntryOf<V>(m: map<int, V>, r: Option<MapEntry<V>>) {
    r.Some? ==> r.value.key in m && m[r.value.key] == r.value.value
  }

  function KeyOf<V>(r: Option<MapEntry<V>>): Option<int> {
    if r.Some? then Some(r.value.key) else None
  }

  /**
   * downEntry as written: when the walk turns right it remembers the entry
   * it came from (save = tmp_p) rather than the entry it turns at. `parent`
   * is tmp_p; the final answer dereferences it, so an empty map fails.
   */
  function DownWalkAsWritten<V>(t: MapTree<V>, key: int, inclusive: bool,
                                save: Option<MapEntry<V>>, parent: Option<MapEntry<V>>): Result<Option<MapEntry<V>>>
  {
    match t
    case Leaf =>
      if parent.None? then Err(NullPointer)
      else Ok(if parent.value.key < key then parent else save)
    case Entry(l, k, v, r) =>
      if k > key then DownWalkAsWritten(l, key, inclusive, save, Some(MapEntry(k, v)))
      else if k < key then DownWalkAsWritten(r, key, inclusive, parent, Some(MapEntry(k, v)))
      else if inclusive then Ok(Some(MapEntry(k, v)))
      else if l.Leaf? then Ok(save)
      else Ok(Some(MaxEntry(l)))
  }

  function DownEntryAsWritten<V>(t: MapTree<V>, key: int, inclusive: bool): Result<Option<MapEntry<V>>> {
    DownWalkAsWritten(t, key, inclusive, None, None)
  }

  /**
   * After put(10) and put(20), lowerEntry(20) as written answers nothing,
   * although 10 is a key below 20.
   */
  lemma LowerEntryAsWrittenMissesKey()
    ensures var t := Insert(Insert(Leaf, 10, 0), 20, 0);
      DownEntryAsWritten(t, 20, false) == Ok(None) && 10 in Keys(t) && 10 < 20
  {
  }

  /**
   * upEntry as written, the mirror of DownWalkAsWritten: when the walk turns
   * left it remembers the entry it came from (save = tmp_p) rather than the
   * entry it turns at.
   */
  function UpWalkAsWritten<V>(t: MapTree<V>, key: int, inclusive: bool,
                              save: Option<MapEntry<V>>, parent: Option<MapEntry<V>>): Result<Option<MapEntry<V>>>
  {
    match t
    case Leaf =>
      if parent.None? then Err(NullPointer)
      else Ok(if parent.value.key > key then parent else save)
    case Entry(l, k, v, r) =>
      if k < key then UpWalkAsWritten(r, key, inclusive, save, Some(MapEntry(k, v)))
      else if k > key then UpWalkAsWritten(l, key, inclusive, parent, Some(MapEntry(k, v)))
      else if inclusive then Ok(Some(MapEntry(k, v)))
      else if r.Leaf? then Ok(save)
      else Ok(Some(MinEntry(r)))
  }

  function UpEntryAsWritten<V>(t: MapTree<V>, key: int, inclusive: bool): Result<Option<MapEntry<V>>> {
    UpWalkAsWritten(t, key, inclusive, None, None)
  }

  /**
   * After put(20) and put(10), higherEntry(10) and ceilingEntry(15) as
   * written answer nothing, although 20 lies above both.
   */
  lemma HigherEntryAsWrittenMissesKey()
    ensures var t := Insert(Insert(Leaf, 20, 0), 10, 0);
      UpEntryAsWritten(t, 10, false) == Ok(None) && UpEntryAsWritten(t, 15, true) == Ok(None) &&
      20 in Keys(t) && 10 < 20 && 15 < 20
  {
  }

  /**
   * lastEntry as written: a map of one entry answers the root; any other
   * asks lastParent for the parent of the rightmost entry, which is null
   * (and then dereferenced) when the root itself is rightmost, and which
   * dereferences the null root of an empty map.
   */
  function LastEntryAsWritten<V>(t: MapTree<V>, size: int): Result<Option<MapEntry<V>>> {
    if size == 1 then Ok(if t.Entry? then Some(MapEntry(t.key, t.value)) else None)
    else if t.Leaf? || t.right.Leaf? then Err(NullPointer)
    else Ok(Some(MaxEntry(t)))
  }

  /**
   * After put(10) and put(5), lastEntry (and so lastKey) as written fails,
   * although 10 is the greatest key.
   */
  lemma LastEntryAsWrittenFailsAtRoot()
    ensures var t := Insert(Insert(Leaf, 10, 0), 5, 0);
      LastEntryAsWritten(t, 2) == Err(NullPointer) && IsGreatest(Keys(t), 10)
  {
  }

  /**
   * put as written: a key equal to the root's, or an empty tree under a
   * nonzero size, makes getParent answer null, which put then dereferences;
   * every other case is Insert.
   */
  function PutAsWritten<V>(t: MapTree<V>, size: int, k: int, v: V): Result<(MapTree<V>, int)> {
    if size == 0 then Ok((Entry(Leaf, k, v, Leaf), 1))
    else if t.Leaf? || t.key == k then Err(NullPointer)
    else Ok((Insert(t, k, v), if k in Keys(t) then size else size + 1))
  }

  /** put(1, 2) on the map {1 -> 0} fails as written instead of replacing the value. */
  lemma PutAsWrittenFailsOnRootKey()
    ensures PutAsWritten(Entry(Leaf, 1, 0, Leaf), 1, 1, 2) == Err(NullPointer)
    ensures AsMap(Insert(Entry(Leaf, 1, 0, Leaf), 1, 2)) == map[1 := 2]
  {
  }

  /**
   * The relinking step of TreeMapEntry.remove as written, at the parent `p`
   * of an entry `c` with at most one child: the side to relink is the left
   * one when p's left child "equals" `c`, and TreeMapEntry.equals compares
   * only the values of two entries whose value is not null. So a left
   * sibling holding the same value is taken for `c`.
   */
  function UnlinkAsWritten<V(==)>(p: MapTree<V>, c: MapTree<V>): MapTree<V>
    requires p.Entry? && c.Entry?
  {
    var g := if c.left.Entry? then c.left else c.right;
    if p.left.Entry? && p.left.value == c.value then p.(left := g) else p.(right := g)
  }

  /**
   * The predecessor search of TreeMapEntry.remove as written, below `p`
   * whose right child is on the path: it walks right to the last entry and
   * unlinks it from its parent through UnlinkAsWritten.
   */
  function DropMaxAsWritten<V(==)>(p: MapTree<V>): MapTree<V>
    requires p.Entry? && p.right.Entry?
    decreases p
  {
    if p.right.right.Entry? then p.(right := DropMaxAsWritten(p.right))
    else UnlinkAsWritten(p, p.right)
  }

  /**
   * TreeMapEntry.remove as written, on the subtree rooted at the parent `p`
   * whose child on side `left` is to go: with two children it copies the
   * predecessor's key and value into the parent instead of the child. It
   * answers the new subtree and how often it decremented size.
   */
  function EntryRemoveAsWritten<V(==)>(p: MapTree<V>, left: bool): (MapTree<V>, int)
    requires p.Entry? && (if left then p.left.Entry? else p.right.Entry?)
  {
    var c := if left then p.left else p.right;
    if c.left.Entry? && c.right.Entry? then
      var m := MaxEntry(c.left);
      var c' := if c.left.right.Entry? then c.(left := DropMaxAsWritten(c.left)) else UnlinkAsWritten(c, c.left);
      (if left then Entry(c', m.key, m.value, p.right) else Entry(p.left, m.key, m.value, c'), 1)
    else
      (UnlinkAsWritten(p, c), 1)
  }

  /** The search below the root for the parent of `k`, then the entry removal, as written. */
  function RemoveBelowAsWritten<V(==)>(t: MapTree<V>, size: int, k: int): (MapTree<V>, int)
    requires t.Entry? && t.key != k
    decreases t
  {
    var toLeft := t.key > k;
    var c := if toLeft then t.left else t.right;
    if c.Leaf? then (t, size)
    else if c.key == k then
      var (t', n) := EntryRemoveAsWritten(t, toLeft);
      (t', size - n - 1)
    else
      var (c', size') := RemoveBelowAsWritten(c, size, k);
      (if toLeft then t.(left := c') else t.(right := c'), size')
  }

  /**
   * TreeMap.remove as written, answering the new tree and size. The root is
   * removed through a stand-in parent, so with two children the root keeps
   * its own key and its predecessor disappears; and every removal
   * decrements size twice, once in TreeMapEntry.remove and once after it.
   */
  function RemoveAsWritten<V(==)>(t: MapTree<V>, size: int, k: int): (MapTree<V>, int) {
    if size == 0 || t.Leaf? then (t, size)
    else if t.key == k then
      var (d, n) := EntryRemoveAsWritten(Entry(t, t.key, t.value, Leaf), true);
      (d.left, size - n - 1)
    else RemoveBelowAsWritten(t, size, k)
  }

  /**
   * As written, removing 5 from {3, 5, 7, 10} leaves the keys {3, 5, 7} and
   * a size of 2; removing the only key of {1} leaves a size of -1.
   */
  lemma RemoveAsWrittenLosesEntries()
    ensures var t := Entry(Entry(Entry(Leaf, 3, 0, Leaf), 5, 0, Entry(Leaf, 7, 0, Leaf)), 10, 0, Leaf);
      Keys(RemoveAsWritten(t, 4, 5).0) == {3, 5, 7} && RemoveAsWritten(t, 4, 5).1 == 2
    ensures RemoveAsWritten(Entry(Leaf, 1, 0, Leaf), 1, 1).1 == -1
  {
    var t := Entry(Entry(Entry(Leaf, 3, 0, Leaf), 5, 0, Entry(Leaf, 7, 0, Leaf)), 10, 0, Leaf);
    assert RemoveAsWritten(t, 4, 5).0 == Entry(Entry(Leaf, 5, 0, Entry(Leaf, 7, 0, Leaf)), 3, 0, Leaf);
  }

  /**
   * After put(5, 0), put(3, 0) and put(7, 0), remove(7) as written takes
   * the left child 3, whose value equals 7's, for the entry to unlink: key
   * 3 is lost, key 7 stays, and size drops to 1.
   */
  lemma RemoveAsWrittenUnlinksWrongSide()
    ensures var t := Insert(Insert(Insert(Leaf, 5, 0), 3, 0), 7, 0);
      Keys(RemoveAsWritten(t, 3, 7).0) == {5, 7} && RemoveAsWritten(t, 3, 7).1 == 1
  {
    var t := Insert(Insert(Insert(Leaf, 5, 0), 3, 0), 7, 0);
    assert t == Entry(Entry(Leaf, 3, 0, Leaf), 5, 0, Entry(Leaf, 7, 0, Leaf));
    assert RemoveAsWritten(t, 3, 7).0 == Entry(Leaf, 5, 0, Entry(Leaf, 7, 0, Leaf));
  }

  /**
   * pollFirstEntry as written: the root goes through rootRemove when it has
   * no left child, otherwise the leftmost entry through TreeMapEntry.remove
   * at its parent; either way size is decremented there and once more after.
   */
  function PollFirstAsWritten<V(==)>(t: MapTree<V>, size: int): (Option<MapEntry<V>>, MapTree<V>, int) {
    if size == 0 || t.Leaf? then (None, t, size)
    else if t.left.Leaf? then
      var (d, n) := EntryRemoveAsWritten(Entry(t, t.key, t.value, Leaf), true);
      (Some(MapEntry(t.key, t.value)), d.left, size - n - 1)
    else
      var (e, t', n) := PollFirstBelowAsWritten(t);
      (Some(e), t', size - n - 1)
  }

  function PollFirstBelowAsWritten<V(==)>(t: MapTree<V>): (MapEntry<V>, MapTree<V>, int)
    requires t.Entry? && t.left.Entry?
    decreases t
  {
    if t.left.left.Entry? then
      var (e, l, n) := PollFirstBelowAsWritten(t.left);
      (e, t.(left := l), n)
    else
      var (t', n) := EntryRemoveAsWritten(t, true);
      (MapEntry(t.left.key, t.left.value), t', n)
  }

  /** pollLastEntry as written, the mirror of PollFirstAsWritten. */
  function PollLastAsWritten<V(==)>(t: MapTree<V>, size: int): (Option<MapEntry<V>>, MapTree<V>, int) {
    if size == 0 || t.Leaf? then (None, t, size)
    else if t.right.Leaf? then
      var (d, n) := EntryRemoveAsWritten(Entry(t, t.key, t.value, Leaf), true);
      (Some(MapEntry(t.key, t.value)), d.left, size - n - 1)
    else
      var (e, t', n) := PollLastBelowAsWritten(t);
      (Some(e), t', size - n - 1)
  }

  function PollLastBelowAsWritten<V(==)>(t: MapTree<V>): (MapEntry<V>, MapTree<V>, int)
    requires t.Entry? && t.right.Entry?
    decreases t
  {
    if t.right.right.Entry? then
      var (e, r, n) := PollLastBelowAsWritten(t.right);
      (e, t.(right := r), n)
    else
      var (t', n) := EntryRemoveAsWritten(t, false);
      (MapEntry(t.right.key, t.right.value), t', n)
  }

  /**
   * On {1 -> 0, 2 -> 0}, pollFirstEntry as written returns 1 and leaves
   * key 2 in place with a size of 0.
   */
  lemma PollFirstAsWrittenMiscounts()
    ensures var r := PollFirstAsWritten(Insert(Insert(Leaf, 1, 0), 2, 0), 2);
      r.0 == Some(MapEntry(1, 0)) && Keys(r.1) == {2} && r.2 == 0
  {
    var t := Insert(Insert(Leaf, 1, 0), 2, 0);
    assert t == Entry(Leaf, 1, 0, Entry(Leaf, 2, 0, Leaf));
  }

  /**
   * After put(5, 0), put(3, 0) and put(7, 0), pollLastEntry as written
   * returns 7 but unlinks 3, whose value equals 7's: the keys left are
   * {5, 7} and size is 1.
   */
  lemma PollLastAsWrittenUnlinksWrongSide()
    ensures var r := PollLastAsWritten(Insert(Insert(Insert(Leaf, 5, 0), 3, 0), 7, 0), 3);
      r.0 == Some(MapEntry(7, 0)) && Keys(r.1) == {5, 7} && r.2 == 1
  {
    var t := Insert(Insert(Insert(Leaf, 5, 0), 3, 0), 7, 0);
    assert t == Entry(Entry(Leaf, 3, 0, Leaf), 5, 0, Entry(Leaf, 7, 0, Leaf));
    assert PollLastAsWritten(t, 3).1 == Entry(Leaf, 5, 0, Entry(Leaf, 7, 0, Leaf));
  }

  /**
   * The *Key methods as written: when no entry qualifies they fall back to
   * the root's key instead of answering null.
   */
  function KeyAsWritten<V>(e: Option<MapEntry<V>>, root: MapTree<V>): Option<int> {
    if e.Some? then Some(e.value.key)
    else if root.Leaf? then None
    else Some(root.key)
  }

  /** In the map {10 -> 0}, lowerKey(5) as written answers 10, though no key lies below 5. */
  lemma LowerKeyAsWrittenFallsBack()
    ensures var t := Entry(Leaf, 10, 0, Leaf);
      KeyAsWritten(None, t) == Some(10) && IsGreatestBelow(Keys(t), 5, false, None)
  {
  }

  class TreeMap<V(==)> {
    var root: MapTree<V>
    var size: int

    ghost predicate Valid()
      reads this
    {
      Sorted(root) && size == |Keys(root)|
    }

    ghost function Model(): map<int, V>
      reads this
    {
      AsMap(root)
    }

    constructor()
      ensures Valid() && Model() == map[]
    {
      root := Leaf;
      size := 0;
    }

    /** size: the number of mappings. */
    function Size(): (n: int)
      reads this
      requires Valid()
      ensures n == |Model()|
    {
      AsMapKeys(root);
      size
    }

    /** isEmpty */
    function IsEmpty(): (b: bool)
      reads this
      requires Valid()
      ensures b <==> Model() == map[]
    {
      AsMapKeys(root);
      assert root.Entry? ==> root.key in Keys(root);
      size == 0
    }

    /**
     * getParent: the last entry on the search path before the entry with key
     * `k`, or before the search falls off the tree (Leaf for null).
     */
    method GetParent(k: int) returns (p: MapTree<V>)
      requires Valid()
      ensures root.Leaf? || root.key == k ==> p.Leaf?
      ensures root.Entry? && root.key != k ==> p.Entry? && Sorted(p) && Within(p, root) && p.key != k
      ensures root.Entry? && root.key != k ==> (k in Model() <==> GetChild(p, k).Entry?)
      ensures GetChild(p, k).Entry? ==> k in Model() && Model()[k] == GetChild(p, k).value
    {
      p := Leaf;
      var t := root;
      while t.Entry? && t.key != k
        invariant Sorted(t) && Within(t, root)
        invariant k in AsMap(root) <==> k in AsMap(t)
        invariant p.Leaf? ==> t == root
        invariant p.Entry? ==> root.Entry? && root.key != k
        invariant p.Entry? ==> Sorted(p) && Within(p, root) && p.key != k && t == ChildToward(p, k)
        decreases t
      {
        SearchStep(t, k);
        p := t;
        t := ChildToward(t, k);
      }
      if p.Entry? {
        GetChildFinds(p, k);
        if t.Entry? {
          ChildrenWithin(t);
        }
      }
    }

    /** containsKey: false on an empty map, else whether some entry has key `k`. */
    method ContainsKey(k: int) returns (b: bool)
      requires Valid()
      ensures b <==> k in Model()
    {
      if IsEmpty() {
        return false;
      }
      if root.key == k {
        ChildrenWithin(root);
        return true;
      }
      var p := GetParent(k);
      b := GetChild(p, k).Entry?;
    }

    /** containsValue: whether some key maps to `value`. */
    function ContainsValue(value: V): (b: bool)
      reads this
      requires Valid()
      ensures b <==> exists k :: k in Model() && Model()[k] == value
    {
      ContainsValueMeans(root, value);
      assert Model() == AsMap(root);
      ContainsValueHelper(root, value)
    }

    /** get: the value stored under `k`, or None when `k` is absent. */
    method Get(k: int) returns (r: Option<V>)
      requires Valid()
      ensures r.Some? <==> k in Model()
      ensures r.Some? ==> r.value == Model()[k]
    {
      if IsEmpty() {
        return None;
      }
      if root.key == k {
        ChildrenWithin(root);
        return Some(root.value);
      }
      var p := GetParent(k);
      var c := GetChild(p, k);
      r := if c.Entry? then Some(c.value) else None;
    }

    /**
     * put: maps `k` to `v` and answers the value it replaced, or None when
     * `k` is new, in which case size grows by one.
     */
    method Put(k: int, v: V) returns (r: Option<V>)
      requires Valid()
      modifies this
      ensures Valid()
      ensures Model() == old(Model())[k := v]
      ensures r.Some? <==> k in old(Model())
      ensures r.Some? ==> r.value == old(Model())[k]
      ensures size == old(size) + (if k in old(Model()) then 0 else 1)
    {
      AsMapKeys(root);
      if IsEmpty() {
        root := Entry(Leaf, k, v, Leaf);
        size := 1;
        return None;
      }
      var found: MapTree<V>;
      if root.key == k {
        ChildrenWithin(root);
        found := root;
      } else {
        var p := GetParent(k);
        found := GetChild(p, k);
      }
      assert found.Entry? <==> k in Model();
      r := if found.Entry? then Some(found.value) else None;
      if found.Leaf? {
        size := size + 1;
      }
      InsertSpec(root, k, v);
      root := Insert(root, k, v);
    }

    /**
     * remove: takes the mapping for `k` out and answers its value; None, with
     * nothing changed, when the map is empty or `k` is absent.
     */
    method Remove(k: int) returns (r: Option<V>)
      requires Valid()
      modifies this
      ensures Valid()
      ensures Model() == old(Model()) - {k}
      ensures r.Some? <==> k in old(Model())
      ensures r.Some? ==> r.value == old(Model())[k]
      ensures size == old(size) - (if k in old(Model()) then 1 else 0)
    {
      AsMapKeys(root);
      if IsEmpty() {
        assert Model() - {k} == Model();
        return None;
      }
      if root.key == k {
        ChildrenWithin(root);
        r := Some(root.value);
      } else {
        var p := GetParent(k);
        var c := GetChild(p, k);
        if c.Leaf? {
          assert k !in Model();
          assert Model() - {k} == Model();
          return None;
        }
        r := Some(c.value);
      }
      Detach(k);
    }

    /** The structural part of remove: takes the entry with key `k` out of the tree. */
    method Detach(k: int)
      requires Valid() && k in Model()
      modifies this
      ensures Valid() && Model() == old(Model()) - {k} && size == old(size) - 1
    {
      AsMapKeys(root);
      RemoveKeySpec(root, k);
      root := RemoveKey(root, k);
      size := size - 1;
    }

    /** clear: leaves the map empty. */
    method Clear()
      modifies this
      ensures Valid() && Model() == map[]
    {
      root := Leaf;
      size := 0;
    }

    /** firstParent: the parent of the leftmost entry (Leaf for null). */
    method FirstParent() returns (p: MapTree<V>)
      requires Valid()
      ensures root.Entry? ==>
        var f := if p.Leaf? then root else p.left;
        f.Entry? && f.key == RB.Min(KeyTree(root)) && Sorted(f) && Within(f, root)
    {
      p := Leaf;
      if size == 0 {
        return;
      }
      var t := root;
      while t.left.Entry?
        invariant t.Entry? && Sorted(t) && Within(t, root)
        invariant RB.Min(KeyTree(t)) == RB.Min(KeyTree(root))
        invariant p.Leaf? ==> t == root
        invariant p.Entry? ==> t == p.left
        decreases t
      {
        ChildrenWithin(t);
        p := t;
        t := t.left;
      }
    }

    /** lastParent: the parent of the rightmost entry (Leaf for null). */
    method LastParent() returns (p: MapTree<V>)
      requires Valid() && root.Entry?
      ensures var f := if p.Leaf? then root else p.right;
        f.Entry? && f.key == RB.Max(KeyTree(root)) && Sorted(f) && Within(f, root)
    {
      p := Leaf;
      var t := root;
      while t.right.Entry?
        invariant t.Entry? && Sorted(t) && Within(t, root)
        invariant RB.Max(KeyTree(t)) == RB.Max(KeyTree(root))
        invariant p.Leaf? ==> t == root
        invariant p.Entry? ==> t == p.right
        decreases t
      {
        ChildrenWithin(t);
        p := t;
        t := t.right;
      }
    }

    /** firstEntry: the entry with the least key; None when empty. */
    method FirstEntry() returns (r: Option<MapEntry<V>>)
      requires Valid()
      ensures r.None? <==> Model() == map[]
      ensures r.Some? ==> IsLeast(Model().Keys, r.value.key) && IsEntryOf(Model(), r)
    {
      AsMapKeys(root);
      if IsEmpty() {
        return None;
      }
      var p := FirstParent();
      var f := if p.Leaf? then root else p.left;
      ChildrenWithin(f);
      RB.MinIsLeast(KeyTree(root));
      r := Some(MapEntry(f.key, f.value));
    }

    /** lastEntry: the entry with the greatest key; None when empty. */
    method LastEntry() returns (r: Option<MapEntry<V>>)
      requires Valid()
      ensures r.None? <==> Model() == map[]
      ensures r.Some? ==> IsGreatest(Model().Keys, r.value.key) && IsEntryOf(Model(), r)
    {
      AsMapKeys(root);
      if IsEmpty() {
        return None;
      }
      var p := LastParent();
      var f := if p.Leaf? then root else p.right;
      ChildrenWithin(f);
      RB.MaxIsGreatest(KeyTree(root));
      r := Some(MapEntry(f.key, f.value));
    }

    /** firstKey: the least key; NoSuchElementException when empty. */
    method FirstKey() returns (r: Result<int>)
      requires Valid()
      ensures r.Err? <==> Model() == map[]
      ensures r.Err? ==> r.error == NoSuchElement
      ensures r.Ok? ==> IsLeast(Model().Keys, r.value)
    {
      if IsEmpty() {
        return Err(NoSuchElement);
      }
      var e := FirstEntry();
      r := Ok(e.value.key);
    }

    /** lastKey: the greatest key; NoSuchElementException when empty. */
    method LastKey() returns (r: Result<int>)
      requires Valid()
      ensures r.Err? <==> Model() == map[]
      ensures r.Err? ==> r.error == NoSuchElement
      ensures r.Ok? ==> IsGreatest(Model().Keys, r.value)
    {
      if IsEmpty() {
        return Err(NoSuchElement);
      }
      var e := LastEntry();
      r := Ok(e.value.key);
    }

    /** pollFirstEntry: removes and answers the entry with the least key. */
    method PollFirstEntry() returns (r: Option<MapEntry<V>>)
      requires Valid()
      modifies this
      ensures Valid()
      ensures r.None? <==> old(Model()) == map[]
      ensures r.Some? ==> IsLeast(old(Model()).Keys, r.value.key) && IsEntryOf(old(Model()), r)
      ensures Model() == if r.Some? then old(Model()) - {r.value.key} else old(Model())
    {
      r := FirstEntry();
      if r.Some? {
        RemoveKeySpec(root, r.value.key);
        AsMapKeys(root);
        root := RemoveKey(root, r.value.key);
        size := size - 1;
      }
    }

    /** pollLastEntry: removes and answers the entry with the greatest key. */
    method PollLastEntry() returns (r: Option<MapEntry<V>>)
      requires Valid()
      modifies this
      ensures Valid()
      ensures r.None? <==> old(Model()) == map[]
      ensures r.Some? ==> IsGreatest(old(Model()).Keys, r.value.key) && IsEntryOf(old(Model()), r)
      ensures Model() == if r.Some? then old(Model()) - {r.value.key} else old(Model())
    {
      r := LastEntry();
      if r.Some? {
        RemoveKeySpec(root, r.value.key);
        AsMapKeys(root);
        root := RemoveKey(root, r.value.key);
        size := size - 1;
      }
    }

    /**
     * downEntry: walks from the root remembering the last entry passed on
     * the right; an exact match answers itself when inclusive, else the
     * greatest entry of its left subtree (or the remembered entry).
     */
    method DownEntry(e: int, inclusive: bool) returns (r: Option<MapEntry<V>>)
      requires Valid()
      ensures IsGreatestBelow(Model().Keys, e, inclusive, KeyOf(r)) && IsEntryOf(Model(), r)
    {
      AsMapKeys(root);
      if IsEmpty() {
        return None;
      }
      var save: Option<MapEntry<V>> := None;
      var parent: MapTree<V> := Leaf;
      var t := root;
      while t.Entry?
        invariant DownInvariant(Keys(root), KeyTree(t), e, inclusive, KeyOf(save))
        invariant Sorted(t) && Within(t, root) && IsEntryOf(AsMap(root), save)
        invariant parent.Leaf? ==> t == root
        invariant parent.Entry? && parent.key < e ==> save == Some(MapEntry(parent.key, parent.value))
        decreases t
      {
        DownStep(Keys(root), KeyTree(t), e, inclusive, KeyOf(save));
        ChildrenWithin(t);
        if t.key > e {
          parent := t;
          t := t.left;
        } else if t.key < e {
          save := Some(MapEntry(t.key, t.value));
          parent := t;
          t := t.right;
        } else {
          if inclusive {
            return Some(MapEntry(t.key, t.value));
          }
          if t.left.Leaf? {
            return save;
          }
          var m := t.left;
          while m.right.Entry?
            invariant m.Entry? && Sorted(m) && Within(m, root)
            invariant RB.Max(KeyTree(m)) == RB.Max(KeyTree(t.left))
            decreases m
          {
            ChildrenWithin(m);
            m := m.right;
          }
          ChildrenWithin(m);
          return Some(MapEntry(m.key, m.value));
        }
      }
      return if parent.key < e then Some(MapEntry(parent.key, parent.value)) else save;
    }

    /** upEntry: the mirror image of downEntry. */
    method UpEntry(e: int, inclusive: bool) returns (r: Option<MapEntry<V>>)
      requires Valid()
      ensures IsLeastAbove(Model().Keys, e, inclusive, KeyOf(r)) && IsEntryOf(Model(), r)
    {
      AsMapKeys(root);
      if IsEmpty() {
        return None;
      }
      var save: Option<MapEntry<V>> := None;
      var parent: MapTree<V> := Leaf;
      var t := root;
      while t.Entry?
        invariant UpInvariant(Keys(root), KeyTree(t), e, inclusive, KeyOf(save))
        invariant Sorted(t) && Within(t, root) && IsEntryOf(AsMap(root), save)
        invariant parent.Leaf? ==> t == root
        invariant parent.Entry? && e < parent.key ==> save == Some(MapEntry(parent.key, parent.value))
        decreases t
      {
        UpStep(Keys(root), KeyTree(t), e, inclusive, KeyOf(save));
        ChildrenWithin(t);
        if t.key < e {
          parent := t;
          t := t.right;
        } else if t.key > e {
          save := Some(MapEntry(t.key, t.value));
          parent := t;
          t := t.left;
        } else {
          if inclusive {
            return Some(MapEntry(t.key, t.value));
          }
          if t.right.Leaf? {
            return save;
          }
          var m := t.right;
          while m.left.Entry?
            invariant m.Entry? && Sorted(m) && Within(m, root)
            invariant RB.Min(KeyTree(m)) == RB.Min(KeyTree(t.right))
            decreases m
          {
            ChildrenWithin(m);
            m := m.left;
          }
          ChildrenWithin(m);
          return Some(MapEntry(m.key, m.value));
        }
      }
      return if e < parent.key then Some(MapEntry(parent.key, parent.value)) else save;
    }

    /** lowerEntry: the entry with the greatest key strictly below `e`. */
    method LowerEntry(e: int) returns (r: Option<MapEntry<V>>)
      requires Valid()
      ensures IsGreatestBelow(Model().Keys, e, false, KeyOf(r)) && IsEntryOf(Model(), r)
    {
      r := DownEntry(e, false);
    }

    /** floorEntry: the entry with the greatest key at or below `e`. */
    method FloorEntry(e: int) returns (r: Option<MapEntry<V>>)
      requires Valid()
      ensures IsGreatestBelow(Model().Keys, e, true, KeyOf(r)) && IsEntryOf(Model(), r)
    {
      r := DownEntry(e, true);
    }

    /** ceilingEntry: the entry with the least key at or above `e`. */
    method CeilingEntry(e: int) returns (r: Option<MapEntry<V>>)
      requires Valid()
      ensures IsLeastAbove(Model().Keys, e, true, KeyOf(r)) && IsEntryOf(Model(), r)
    {
      r := UpEntry(e, true);
    }

    /** higherEntry: the entry with the least key strictly above `e`. */
    method HigherEntry(e: int) returns (r: Option<MapEntry<V>>)
      requires Valid()
      ensures IsLeastAbove(Model().Keys, e, false, KeyOf(r)) && IsEntryOf(Model(), r)
    {
      r := UpEntry(e, false);
    }

    /** lowerKey: the greatest key strictly below `e`, or None. */
    method LowerKey(e: int) returns (r: Option<int>)
      requires Valid()
      ensures IsGreatestBelow(Model().Keys, e, false, r)
    {
      var x := DownEntry(e, false);
      r := KeyOf(x);
    }

    /** floorKey: the greatest key at or below `e`, or None. */
    method FloorKey(e: int) returns (r: Option<int>)
      requires Valid()
      ensures IsGreatestBelow(Model().Keys, e, true, r)
    {
      var x := DownEntry(e, true);
      r := KeyOf(x);
    }

    /** ceilingKey: the least key at or above `e`, or None. */
    method CeilingKey(e: int) returns (r: Option<int>)
      requires Valid()
      ensures IsLeastAbove(Model().Keys, e, true, r)
    {
      var x := UpEntry(e, true);
      r := KeyOf(x);
    }

    /** higherKey: the least key strictly above `e`, or None. */
    method HigherKey(e: int) returns (r: Option<int>)
      requires Valid()
      ensures IsLeastAbove(Model().Keys, e, false, r)
    {
      var x := UpEntry(e, false);
      r := KeyOf(x);
    }
  }
}
