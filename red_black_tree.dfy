/**
 * The red-black tree behind TreeSet, as a value. A `Node` is one TreeSetEntry:
 * its colour, its two children and its element. Entries are owned by exactly
 * one parent and carry no parent pointer, so a value tree describes the linked
 * structure completely.
 */
module RedBlackTree {
  import opened Wrappers

  datatype Color = Red | Black

  datatype Tree = Nil | Node(color: Color, left: Tree, data: int, right: Tree)

  /* ---------------------------------------------------------------------- */
  /* Views of a tree                                                        */
  /* ---------------------------------------------------------------------- */

  /** The elements stored in a tree. */
  function Elements(t: Tree): set<int> {
    match t
    case Nil => {}
    case Node(_, l, x, r) => Elements(l) + {x} + Elements(r)
  }

  /** The elements in left-to-right (in-order) order. */
  function InOrder(t: Tree): seq<int> {
    match t
    case Nil => []
    case Node(_, l, x, r) => InOrder(l) + [x] + InOrder(r)
  }

  ghost predicate Increasing(s: seq<int>) {
    forall i, j :: 0 <= i < j < |s| ==> s[i] < s[j]
  }

  /** Binary-search-tree order: every left descendant is smaller, every right one larger. */
  ghost predicate Ordered(t: Tree) {
    match t
    case Nil => true
    case Node(_, l, x, r) =>
      (forall y :: y in Elements(l) ==> y < x) &&
      (forall y :: y in Elements(r) ==> x < y) &&
      Ordered(l) && Ordered(r)
  }

  predicate IsRed(t: Tree) {
    t.Node? && t.color == Red
  }

  /** No red entry has a red child. */
  ghost predicate NoRedRed(t: Tree) {
    match t
    case Nil => true
    case Node(c, l, _, r) =>
      (c == Red ==> !IsRed(l) && !IsRed(r)) && NoRedRed(l) && NoRedRed(r)
  }

  /**
   * The black depth as the tree verifier counts it: an absent child counts 1,
   * and an entry adds 1 when it is black.
   */
  function BlackHeight(t: Tree): (h: nat)
    ensures h >= 1
  {
    match t
    case Nil => 1
    case Node(c, l, _, _) => BlackHeight(l) + (if c == Red then 0 else 1)
  }

  /** Both children of every entry have the same black depth. */
  ghost predicate BlackBalanced(t: Tree) {
    match t
    case Nil => true
    case Node(_, l, _, r) =>
      BlackHeight(l) == BlackHeight(r) && BlackBalanced(l) && BlackBalanced(r)
  }

  /** The red-black invariants the set keeps between operations. */
  ghost predicate IsRedBlack(t: Tree) {
    Ordered(t) && !IsRed(t) && NoRedRed(t) && BlackBalanced(t)
  }

  /** The smallest element: the data of the leftmost entry. */
  function Min(t: Tree): (m: int)
    requires t.Node?
    ensures m in Elements(t)
  {
    if t.left.Nil? then t.data else Min(t.left)
  }

  /** The largest element: the data of the rightmost entry. */
  function Max(t: Tree): (m: int)
    requires t.Node?
    ensures m in Elements(t)
  {
    if t.right.Nil? then t.data else Max(t.right)
  }

  lemma {:induction false} MinIsLeast(t: Tree)
    requires t.Node? && Ordered(t)
    ensures forall y :: y in Elements(t) ==> Min(t) <= y
  {
    if t.left.Node? {
      MinIsLeast(t.left);
    }
  }

  lemma {:induction false} MaxIsGreatest(t: Tree)
    requires t.Node? && Ordered(t)
    ensures forall y :: y in Elements(t) ==> y <= Max(t)
  {
    if t.right.Node? {
      MaxIsGreatest(t.right);
    }
  }

  /** The elements of a tree are exactly the entries of its in-order sequence. */
  lemma {:induction false} ElementsAreInOrder(t: Tree)
    ensures forall y :: y in Elements(t) <==> y in InOrder(t)
  {
    match t
    case Nil =>
    case Node(_, l, _, r) =>
      ElementsAreInOrder(l);
      ElementsAreInOrder(r);
  }

  lemma IncreasingAround(a: seq<int>, x: int, b: seq<int>)
    ensures Increasing(a + [x] + b) <==>
      Increasing(a) && Increasing(b) &&
      (forall y :: y in a ==> y < x) && (forall y :: y in b ==> x < y)
  {
    var s := a + [x] + b;
    if Increasing(s) {
      assert forall i :: 0 <= i < |a| ==> s[i] == a[i];
      assert forall i :: 0 <= i < |b| ==> s[|a| + 1 + i] == b[i];
      assert s[|a|] == x;
    }
    if Increasing(a) && Increasing(b) &&
       (forall y :: y in a ==> y < x) && (forall y :: y in b ==> x < y) {
      forall i, j | 0 <= i < j < |s|
        ensures s[i] < s[j]
      {
        if j < |a| {
        } else if i < |a| && j == |a| {
          assert s[i] in a;
        } else if i < |a| {
          assert s[i] in a && s[j] in b;
        } else if i == |a| {
          assert s[j] in b;
        }
      }
    }
  }

  /** A tree is a search tree exactly when its in-order sequence increases. */
  lemma {:induction false} OrderedIffIncreasing(t: Tree)
    ensures Ordered(t) <==> Increasing(InOrder(t))
  {
    match t
    case Nil =>
    case Node(_, l, x, r) =>
      OrderedIffIncreasing(l);
      OrderedIffIncreasing(r);
      ElementsAreInOrder(l);
      ElementsAreInOrder(r);
      IncreasingAround(InOrder(l), x, InOrder(r));
  }

  /** Trees with the same in-order sequence hold the same elements and are equally ordered. */
  lemma SameInOrder(t: Tree, u: Tree)
    requires InOrder(t) == InOrder(u)
    ensures Elements(t) == Elements(u)
    ensures Ordered(t) <==> Ordered(u)
  {
    ElementsAreInOrder(t);
    ElementsAreInOrder(u);
    forall y
      ensures y in Elements(t) <==> y in Elements(u)
    {
    }
    OrderedIffIncreasing(t);
    OrderedIffIncreasing(u);
  }

  /* ---------------------------------------------------------------------- */
  /* Searching (getParent, getChild)                                        */
  /* ---------------------------------------------------------------------- */

  /** TreeSetEntry.getChild: the child holding `x`, checking the left child first. */
  function GetChild(parent: Tree, x: int): (c: Tree)
    requires parent.Node?
    ensures c.Nil? || (c.data == x && (c == parent.left || c == parent.right))
  {
    if parent.left.Node? && parent.left.data == x then parent.left
    else if parent.right.Node? && parent.right.data == x then parent.right
    else Nil
  }

  /**
   * TreeSet.getParent: the last entry visited before the walk from the root
   * reaches `x` or falls off the tree; Nil when the root holds `x` or the tree
   * is empty.
   */
  function SearchParent(t: Tree, x: int): (p: Tree)
    ensures t.Node? && t.data != x ==> p.Node? && p.data in Elements(t)
    ensures t.Nil? || t.data == x ==> p.Nil?
  {
    match t
    case Nil => Nil
    case Node(_, l, y, r) =>
      if x == y then Nil
      else
        var next := if x < y then l else r;
        if next.Nil? || next.data == x then t else SearchParent(next, x)
  }

  /** The entry whose element is `k`, found by the search walk. */
  function Subtree(t: Tree, k: int): Tree {
    match t
    case Nil => Nil
    case Node(_, l, y, r) =>
      if k == y then t else if k < y then Subtree(l, k) else Subtree(r, k)
  }

  /** contains: the root holds `x`, or the entry getParent finds has it as a child. */
  lemma {:induction false} SearchParentFinds(t: Tree, x: int)
    requires Ordered(t)
    ensures x in Elements(t) <==>
      t.Node? && (t.data == x || GetChild(SearchParent(t, x), x).Node?)
  {
    match t
    case Nil =>
    case Node(_, l, y, r) =>
      if x < y {
        if l.Node? && l.data != x {
          SearchParentFinds(l, x);
        }
      } else if y < x {
        if r.Node? && r.data != x {
          SearchParentFinds(r, x);
        }
      }
  }

  /* ---------------------------------------------------------------------- */
  /* Colours and rotations                                                  */
  /* ---------------------------------------------------------------------- */

  function Paint(t: Tree, c: Color): Tree {
    match t
    case Nil => Nil
    case Node(_, l, x, r) => Node(c, l, x, r)
  }

  /**
   * TreeSetEntry.swapColor between an entry and one of its children: the two
   * colours are exchanged (nothing changes when they are equal).
   */
  function SwapColor(t: Tree, withRight: bool): Tree
    requires t.Node? && (if withRight then t.right.Node? else t.left.Node?)
  {
    if withRight then Node(t.right.color, t.left, t.data, Paint(t.right, t.color))
    else Node(t.left.color, Paint(t.left, t.color), t.data, t.right)
  }

  /** The relinking of rotLL: the left child becomes the top of the subtree. */
  function RotateRight(t: Tree): Tree
    requires t.Node? && t.left.Node?
  {
    var l := t.left;
    Node(l.color, l.left, l.data, Node(t.color, l.right, t.data, t.right))
  }

  /** The relinking of rotRR: the right child becomes the top of the subtree. */
  function RotateLeft(t: Tree): Tree
    requires t.Node? && t.right.Node?
  {
    var r := t.right;
    Node(r.color, Node(t.color, t.left, t.data, r.left), r.data, r.right)
  }

  /**
   * The relinking of rotLR: the left child's right child is first lifted above
   * the left child, then rotLL is applied.
   */
  function RotateLeftRight(t: Tree): Tree
    requires t.Node? && t.left.Node? && t.left.right.Node?
  {
    var p := t.left;
    var c := p.right;
    RotateRight(Node(t.color, Node(c.color, Node(p.color, p.left, p.data, c.left), c.data, c.right), t.data, t.right))
  }

  /** The relinking of rotRL, the mirror image of rotLR. */
  function RotateRightLeft(t: Tree): Tree
    requires t.Node? && t.right.Node? && t.right.left.Node?
  {
    var p := t.right;
    var c := p.left;
    RotateLeft(Node(t.color, t.left, t.data, Node(c.color, c.left, c.data, Node(p.color, c.right, p.data, p.right))))
  }

  datatype Rotation = LL | LR | RL | RR

  /** The shape each entry rotation demands of its pivot; any other shape is "Invalid rotation". */
  predicate RotationShape(pivot: Tree, kind: Rotation) {
    pivot.Node? &&
    match kind
    case LL => pivot.left.Node? && pivot.left.left.Node?
    case LR => pivot.left.Node? && pivot.left.right.Node?
    case RL => pivot.right.Node? && pivot.right.left.Node?
    case RR => pivot.right.Node? && pivot.right.right.Node?
  }

  function Rotate(pivot: Tree, kind: Rotation): Tree
    requires RotationShape(pivot, kind)
  {
    match kind
    case LL => RotateRight(pivot)
    case LR => RotateLeftRight(pivot)
    case RL => RotateRightLeft(pivot)
    case RR => RotateLeft(pivot)
  }

  lemma RotateRightKeepsInOrder(t: Tree)
    requires t.Node? && t.left.Node?
    ensures InOrder(RotateRight(t)) == InOrder(t)
  {
  }

  lemma RotateLeftKeepsInOrder(t: Tree)
    requires t.Node? && t.right.Node?
    ensures InOrder(RotateLeft(t)) == InOrder(t)
  {
  }

  /** Every rotation keeps the in-order sequence of the rotated subtree. */
  lemma RotationKeepsInOrder(pivot: Tree, kind: Rotation)
    requires RotationShape(pivot, kind)
    ensures InOrder(Rotate(pivot, kind)) == InOrder(pivot)
  {
    match kind
    case LL => RotateRightKeepsInOrder(pivot);
    case RR => RotateLeftKeepsInOrder(pivot);
    case LR =>
      var p := pivot.left;
      RotateLeftKeepsInOrder(p);
      var lifted := Node(pivot.color, RotateLeft(p), pivot.data, pivot.right);
      RotateRightKeepsInOrder(lifted);
      assert InOrder(lifted) == InOrder(pivot);
    case RL =>
      var p := pivot.right;
      RotateRightKeepsInOrder(p);
      var lifted := Node(pivot.color, pivot.left, pivot.data, RotateRight(p));
      RotateLeftKeepsInOrder(lifted);
      assert InOrder(lifted) == InOrder(pivot);
  }

  /**
   * An entry rotation (TreeSetEntry.rotLL, rotLR, rotRL, rotRR) applied by
   * `parent` to `pivot`; Nil stands for null. The rotated subtree hangs where
   * the pivot hung. The side is chosen by asking the parent's left child, so a
   * right-hand pivot of a parent without a left child ends in a
   * NullPointerException.
   */
  function RotateChild(parent: Tree, pivot: Tree, kind: Rotation): (r: Result<Tree>)
    requires parent.Node?
    ensures pivot.Nil? ==> r == Err(NullPointer)
    ensures pivot.Node? && GetChild(parent, pivot.data).Nil? ==> r == Err(IllegalArgument)
    ensures pivot.Node? && GetChild(parent, pivot.data).Node? && !RotationShape(pivot, kind) ==>
      r == Err(IllegalState)
    ensures r.Ok? <==> (pivot.Node? && GetChild(parent, pivot.data).Node? &&
                        RotationShape(pivot, kind) && parent.left.Node?)
    ensures r.Ok? && pivot == GetChild(parent, pivot.data) ==>
      InOrder(r.value) == InOrder(parent) &&
      r.value.data == parent.data && r.value.color == parent.color &&
      (if pivot == parent.left then r.value.right == parent.right else r.value.left == parent.left)
  {
    if pivot.Nil? then Err(NullPointer)
    else if GetChild(parent, pivot.data).Nil? then Err(IllegalArgument)
    else if !RotationShape(pivot, kind) then Err(IllegalState)
    else if parent.left.Nil? then Err(NullPointer)
    else
      RotationKeepsInOrder(pivot, kind);
      if parent.left.data == pivot.data then Ok(Node(parent.color, Rotate(pivot, kind), parent.data, parent.right))
      else Ok(Node(parent.color, parent.left, parent.data, Rotate(pivot, kind)))
  }

  /* ---------------------------------------------------------------------- */
  /* Insertion: add attaches a red leaf, rebalanceInsert repairs            */
  /* ---------------------------------------------------------------------- */

  /** add: a new red entry hung where the search for `x` falls off the tree. */
  function Attach(t: Tree, x: int): Tree {
    match t
    case Nil => Node(Red, Nil, x, Nil)
    case Node(c, l, y, r) =>
      if x < y then Node(c, Attach(l, x), y, r)
      else if y < x then Node(c, l, y, Attach(r, x))
      else t
  }

  /** The child of `p` on the search path towards `x`. */
  function ChildToward(p: Tree, x: int): Tree
    requires p.Node?
  {
    if x < p.data then p.left else if p.data < x then p.right else Nil
  }

  /**
   * One step of rebalanceInsert at grandparent `g`, whose left child is the
   * parent on the path to `x`. When parent and child are both red: a red uncle
   * is recoloured together with the parent (the grandparent turns red and the
   * repair continues above it); a black uncle calls for rotLL (child on the
   * left) or rotLR (child on the right) at `g` followed by swapColor.
   */
  function FixLeft(g: Tree, x: int): Tree
    requires g.Node?
  {
    var p := g.left;
    if IsRed(p) && IsRed(ChildToward(p, x)) then
      if IsRed(g.right) then Node(Red, Paint(p, Black), g.data, Paint(g.right, Black))
      else if x < p.data then SwapColor(RotateRight(g), true)
      else SwapColor(RotateLeftRight(g), true)
    else g
  }

  /** The mirror image of FixLeft: rotRL and rotRR under a black uncle. */
  function FixRight(g: Tree, x: int): Tree
    requires g.Node?
  {
    var p := g.right;
    if IsRed(p) && IsRed(ChildToward(p, x)) then
      if IsRed(g.left) then Node(Red, Paint(g.left, Black), g.data, Paint(p, Black))
      else if x < p.data then SwapColor(RotateRightLeft(g), false)
      else SwapColor(RotateLeft(g), false)
    else g
  }

  /** The repairs of rebalanceInsert along the path to `x`, bottom-up. */
  function FixPath(t: Tree, x: int): Tree {
    match t
    case Nil => Nil
    case Node(c, l, y, r) =>
      if x < y then FixLeft(Node(c, FixPath(l, x), y, r), x)
      else if y < x then FixRight(Node(c, l, y, FixPath(r, x)), x)
      else t
  }

  /**
   * rebalanceInsert after add attached `x`: the path repairs, then the root is
   * painted black (the recolouring that reaches the root).
   */
  function RebalanceInsert(t: Tree, x: int): Tree {
    Paint(FixPath(t, x), Black)
  }

  /** The root is red, its child toward `x` is red and its other child is not. */
  ghost predicate RedRedToward(t: Tree, x: int) {
    t.Node? && t.color == Red && x != t.data &&
    NoRedRed(t.left) && NoRedRed(t.right) &&
    (x < t.data ==> IsRed(t.left) && !IsRed(t.right)) &&
    (t.data < x ==> IsRed(t.right) && !IsRed(t.left))
  }

  lemma FixLeftRepairs(g: Tree, x: int)
    requires g.Node? && g.color == Black && x < g.data
    requires NoRedRed(g.left) || RedRedToward(g.left, x)
    requires NoRedRed(g.right)
    requires BlackBalanced(g)
    ensures NoRedRed(FixLeft(g, x)) && BlackBalanced(FixLeft(g, x))
    ensures BlackHeight(FixLeft(g, x)) == BlackHeight(g)
  {
    var p := g.left;
    if IsRed(p) && IsRed(ChildToward(p, x)) {
      assert RedRedToward(p, x);
      if !IsRed(g.right) && x >= p.data {
        var c := p.right;
        assert BlackBalanced(p) && BlackBalanced(c);
        assert BlackHeight(c.left) == BlackHeight(c) == BlackHeight(c.right);
        assert BlackHeight(p.left) == BlackHeight(p) == BlackHeight(g.right);
      }
    }
  }

  lemma FixRightRepairs(g: Tree, x: int)
    requires g.Node? && g.color == Black && g.data < x
    requires NoRedRed(g.right) || RedRedToward(g.right, x)
    requires NoRedRed(g.left)
    requires BlackBalanced(g)
    ensures NoRedRed(FixRight(g, x)) && BlackBalanced(FixRight(g, x))
    ensures BlackHeight(FixRight(g, x)) == BlackHeight(g)
  {
    var p := g.right;
    if IsRed(p) && IsRed(ChildToward(p, x)) {
      assert RedRedToward(p, x);
      if !IsRed(g.left) && x < p.data {
        var c := p.left;
        assert BlackBalanced(p) && BlackBalanced(c);
        assert BlackHeight(c.left) == BlackHeight(c) == BlackHeight(c.right);
        assert BlackHeight(p.right) == BlackHeight(p) == BlackHeight(g.left);
      }
    }
  }

  /**
   * Attaching a red leaf and repairing the path keeps every black depth; below
   * a black entry no red-red pair survives, below a red one at most the pair
   * at the top, on the path to `x`.
   */
  lemma {:induction false} FixPathAttachColours(t: Tree, x: int)
    requires NoRedRed(t) && BlackBalanced(t)
    ensures var r := FixPath(Attach(t, x), x);
      BlackBalanced(r) && BlackHeight(r) == BlackHeight(t) &&
      (if IsRed(t) then NoRedRed(r) || RedRedToward(r, x) else NoRedRed(r))
  {
    match t
    case Nil =>
    case Node(c, l, y, r) =>
      if x < y {
        FixPathAttachColours(l, x);
        if c == Black {
          FixLeftRepairs(Node(c, FixPath(Attach(l, x), x), y, r), x);
        }
      } else if y < x {
        FixPathAttachColours(r, x);
        if c == Black {
          FixRightRepairs(Node(c, l, y, FixPath(Attach(r, x), x)), x);
        }
      }
  }

  lemma {:induction false} FixPathKeepsInOrder(t: Tree, x: int)
    ensures InOrder(FixPath(t, x)) == InOrder(t)
  {
    match t
    case Nil =>
    case Node(c, l, y, r) =>
      if x < y {
        FixPathKeepsInOrder(l, x);
        var g := Node(c, FixPath(l, x), y, r);
        var p := g.left;
        if IsRed(p) && IsRed(ChildToward(p, x)) && !IsRed(g.right) {
          if x < p.data {
            RotationKeepsInOrder(g, LL);
          } else {
            RotationKeepsInOrder(g, LR);
          }
        }
      } else if y < x {
        FixPathKeepsInOrder(r, x);
        var g := Node(c, l, y, FixPath(r, x));
        var p := g.right;
        if IsRed(p) && IsRed(ChildToward(p, x)) && !IsRed(g.left) {
          if x < p.data {
            RotationKeepsInOrder(g, RL);
          } else {
            RotationKeepsInOrder(g, RR);
          }
        }
      }
  }

  lemma {:induction false} AttachKeys(t: Tree, x: int)
    requires Ordered(t)
    ensures Ordered(Attach(t, x)) && Elements(Attach(t, x)) == Elements(t) + {x}
  {
    match t
    case Nil =>
    case Node(c, l, y, r) =>
      if x < y {
        AttachKeys(l, x);
      } else if y < x {
        AttachKeys(r, x);
      }
  }

  /**
   * add followed by rebalanceInsert: from a red-black tree, the result is a
   * red-black tree holding exactly one more element, `x` (none if `x` was present).
   */
  lemma InsertKeepsRedBlack(t: Tree, x: int)
    requires IsRedBlack(t)
    ensures IsRedBlack(RebalanceInsert(Attach(t, x), x))
    ensures Elements(RebalanceInsert(Attach(t, x), x)) == Elements(t) + {x}
  {
    var a := Attach(t, x);
    var f := FixPath(a, x);
    FixPathAttachColours(t, x);
    FixPathKeepsInOrder(a, x);
    AttachKeys(t, x);
    SameInOrder(a, f);
    assert InOrder(Paint(f, Black)) == InOrder(f);
    SameInOrder(f, Paint(f, Black));
  }

  /**
   * add hangs the new red entry as a child of the entry getParent returns, on
   * the side given by comparing with that entry, in a slot that was empty.
   */
  lemma {:induction false} AttachBelowParent(t: Tree, x: int)
    requires Ordered(t) && t.Node? && x !in Elements(t)
    ensures var p := SearchParent(t, x);
      p.Node? && ChildToward(p, x).Nil? && Subtree(t, p.data) == p &&
      Subtree(Attach(t, x), p.data) ==
        if x < p.data then Node(p.color, Node(Red, Nil, x, Nil), p.data, p.right)
        else Node(p.color, p.left, p.data, Node(Red, Nil, x, Nil))
  {
    var y := t.data;
    if x < y {
      if t.left.Node? {
        AttachBelowParent(t.left, x);
      }
    } else {
      if t.right.Node? {
        AttachBelowParent(t.right, x);
      }
    }
  }

  /* ---------------------------------------------------------------------- */
  /* Removal: remove splices an entry out, rebalanceRemove repairs          */
  /* ---------------------------------------------------------------------- */

  /** A subtree after a removal, and whether its black depth dropped by one. */
  datatype Removal = Removal(tree: Tree, short: bool)

  /**
   * An entry with at most one child is replaced by that child. Removing a red
   * entry needs no repair; a red replacement is painted black; otherwise the
   * replacement is one black level short.
   */
  function Splice(t: Tree): Removal
    requires t.Node? && (t.left.Nil? || t.right.Nil?)
  {
    var child := if t.left.Node? then t.left else t.right;
    if t.color == Red then Removal(child, false)
    else if IsRed(child) then Removal(Paint(child, Black), false)
    else Removal(child, true)
  }

  /**
   * The left child of `n` is one black level short and its sibling is black.
   * Both nephews black: the sibling turns red and the shortage moves up to `n`
   * (absorbed when `n` is red, which turns black). Otherwise the far nephew is
   * made red first (near nephew red: rotLL at the sibling with swapColor), and
   * FarNephewLeft finishes.
   */
  function SiblingBlackLeft(n: Tree): Removal
    requires n.Node?
  {
    var s := n.right;
    if s.Nil? then Removal(n, true)
    else if !IsRed(s.left) && !IsRed(s.right) then
      Removal(Node(Black, n.left, n.data, Paint(s, Red)), n.color == Black)
    else if !IsRed(s.right) then
      FarNephewLeft(Node(n.color, n.left, n.data, SwapColor(RotateRight(s), true)))
    else FarNephewLeft(n)
  }

  /**
   * Far nephew red: the sibling takes the parent's colour, the parent and the
   * far nephew turn black, and rotRR at the parent restores the black depth.
   */
  function FarNephewLeft(n: Tree): Removal
    requires n.Node? && n.right.Node? && IsRed(n.right.right)
  {
    var s := n.right;
    Removal(RotateLeft(Node(Black, n.left, n.data, Node(n.color, s.left, s.data, Paint(s.right, Black)))), false)
  }

  /**
   * rebalanceRemove when the left child of `n` is one black level short. A red
   * sibling is painted black, the parent red, and rotRR at the parent gives the
   * short child a black sibling; SiblingBlackLeft does the rest.
   */
  function FixShortLeft(n: Tree): Removal
    requires n.Node?
  {
    if IsRed(n.right) then
      var r := RotateLeft(Node(Red, n.left, n.data, Paint(n.right, Black)));
      var d := SiblingBlackLeft(r.left);
      Removal(Node(r.color, d.tree, r.data, r.right), d.short)
    else SiblingBlackLeft(n)
  }

  /** The mirror image of SiblingBlackLeft. */
  function SiblingBlackRight(n: Tree): Removal
    requires n.Node?
  {
    var s := n.left;
    if s.Nil? then Removal(n, true)
    else if !IsRed(s.left) && !IsRed(s.right) then
      Removal(Node(Black, Paint(s, Red), n.data, n.right), n.color == Black)
    else if !IsRed(s.left) then
      FarNephewRight(Node(n.color, SwapColor(RotateLeft(s), false), n.data, n.right))
    else FarNephewRight(n)
  }

  /** The mirror image of FarNephewLeft, with rotLL at the parent. */
  function FarNephewRight(n: Tree): Removal
    requires n.Node? && n.left.Node? && IsRed(n.left.left)
  {
    var s := n.left;
    Removal(RotateRight(Node(Black, Node(n.color, Paint(s.left, Black), s.data, s.right), n.data, n.right)), false)
  }

  /** The mirror image of FixShortLeft. */
  function FixShortRight(n: Tree): Removal
    requires n.Node?
  {
    if IsRed(n.left) then
      var r := RotateRight(Node(Red, Paint(n.left, Black), n.data, n.right));
      var d := SiblingBlackRight(r.right);
      Removal(Node(r.color, r.left, r.data, d.tree), d.short)
    else SiblingBlackRight(n)
  }

  /**
   * remove of `x` below `t`: an entry with two children takes over the
   * element of its in-order predecessor (the rightmost entry of its left
   * subtree), which is removed instead; an entry with at most one child is
   * spliced out. Each shortened subtree is repaired on the way up.
   */
  function Del(t: Tree, x: int): Removal {
    match t
    case Nil => Removal(Nil, false)
    case Node(c, l, y, r) =>
      if x < y then RejoinLeft(c, Del(l, x), y, r)
      else if y < x then RejoinRight(c, l, y, Del(r, x))
      else if l.Node? && r.Node? then RejoinLeft(c, Del(l, Max(l)), Max(l), r)
      else Splice(t)
  }

  /** Puts a subtree with an entry removed back as the left child, repairing it when short. */
  function RejoinLeft(c: Color, d: Removal, y: int, r: Tree): Removal {
    var n := Node(c, d.tree, y, r);
    if d.short then FixShortLeft(n) else Removal(n, false)
  }

  /** The mirror image of RejoinLeft. */
  function RejoinRight(c: Color, l: Tree, y: int, d: Removal): Removal {
    var n := Node(c, l, y, d.tree);
    if d.short then FixShortRight(n) else Removal(n, false)
  }

  /** The tree after removing `x`. */
  function Delete(t: Tree, x: int): Tree {
    Del(t, x).tree
  }

  lemma FarNephewLeftRepairs(n: Tree)
    requires n.Node? && n.right.Node? && n.right.color == Black && IsRed(n.right.right)
    requires NoRedRed(n.left) && NoRedRed(n.right) && BlackBalanced(n.left) && BlackBalanced(n.right)
    requires BlackHeight(n.left) + 1 == BlackHeight(n.right)
    ensures var f := FarNephewLeft(n);
      NoRedRed(f.tree) && BlackBalanced(f.tree) && !f.short &&
      BlackHeight(f.tree) == BlackHeight(n.right) + (if n.color == Black then 1 else 0) &&
      (n.color == Black ==> !IsRed(f.tree))
  {
    var s := n.right;
    assert BlackHeight(s.right.left) == BlackHeight(s.right);
  }

  lemma FarNephewRightRepairs(n: Tree)
    requires n.Node? && n.left.Node? && n.left.color == Black && IsRed(n.left.left)
    requires NoRedRed(n.left) && NoRedRed(n.right) && BlackBalanced(n.left) && BlackBalanced(n.right)
    requires BlackHeight(n.right) + 1 == BlackHeight(n.left)
    ensures var f := FarNephewRight(n);
      NoRedRed(f.tree) && BlackBalanced(f.tree) && !f.short &&
      BlackHeight(f.tree) == BlackHeight(n.left) + (if n.color == Black then 1 else 0) &&
      (n.color == Black ==> !IsRed(f.tree))
  {
    var s := n.left;
    assert BlackHeight(s.left.left) == BlackHeight(s.left);
  }

  lemma SiblingBlackLeftRepairs(n: Tree)
    requires n.Node? && !IsRed(n.left) && !IsRed(n.right)
    requires NoRedRed(n.left) && NoRedRed(n.right) && BlackBalanced(n.left) && BlackBalanced(n.right)
    requires BlackHeight(n.left) + 1 == BlackHeight(n.right)
    ensures var f := SiblingBlackLeft(n);
      NoRedRed(f.tree) && BlackBalanced(f.tree) &&
      BlackHeight(f.tree) + (if f.short then 1 else 0) ==
        BlackHeight(n.right) + (if n.color == Black then 1 else 0) &&
      (n.color == Black ==> !IsRed(f.tree)) && (n.color == Red ==> !f.short)
  {
    var s := n.right;
    assert s.Node?;
    if !IsRed(s.left) && !IsRed(s.right) {
    } else if !IsRed(s.right) {
      var sl := s.left;
      assert BlackHeight(sl.left) == BlackHeight(sl);
      var s2 := SwapColor(RotateRight(s), true);
      FarNephewLeftRepairs(Node(n.color, n.left, n.data, s2));
    } else {
      FarNephewLeftRepairs(n);
    }
  }

  lemma SiblingBlackRightRepairs(n: Tree)
    requires n.Node? && !IsRed(n.left) && !IsRed(n.right)
    requires NoRedRed(n.left) && NoRedRed(n.right) && BlackBalanced(n.left) && BlackBalanced(n.right)
    requires BlackHeight(n.right) + 1 == BlackHeight(n.left)
    ensures var f := SiblingBlackRight(n);
      NoRedRed(f.tree) && BlackBalanced(f.tree) &&
      BlackHeight(f.tree) + (if f.short then 1 else 0) ==
        BlackHeight(n.left) + (if n.color == Black then 1 else 0) &&
      (n.color == Black ==> !IsRed(f.tree)) && (n.color == Red ==> !f.short)
  {
    var s := n.left;
    assert s.Node?;
    if !IsRed(s.left) && !IsRed(s.right) {
    } else if !IsRed(s.left) {
      var sr := s.right;
      assert BlackHeight(sr.left) == BlackHeight(sr);
      var s2 := SwapColor(RotateLeft(s), false);
      FarNephewRightRepairs(Node(n.color, s2, n.data, n.right));
    } else {
      FarNephewRightRepairs(n);
    }
  }

  /** rebalanceRemove on a short left child restores the black depth or passes the shortage up. */
  lemma FixShortLeftRepairs(n: Tree)
    requires n.Node? && !IsRed(n.left) && (n.color == Red ==> !IsRed(n.right))
    requires NoRedRed(n.left) && NoRedRed(n.right) && BlackBalanced(n.left) && BlackBalanced(n.right)
    requires BlackHeight(n.left) + 1 == BlackHeight(n.right)
    ensures var f := FixShortLeft(n);
      NoRedRed(f.tree) && BlackBalanced(f.tree) &&
      BlackHeight(f.tree) + (if f.short then 1 else 0) ==
        BlackHeight(n.right) + (if n.color == Black then 1 else 0) &&
      (n.color == Black ==> !IsRed(f.tree)) && (n.color == Red ==> !f.short)
  {
    if IsRed(n.right) {
      var s := n.right;
      var r := RotateLeft(Node(Red, n.left, n.data, Paint(s, Black)));
      SiblingBlackLeftRepairs(r.left);
    } else {
      SiblingBlackLeftRepairs(n);
    }
  }

  /** The mirror image of FixShortLeftRepairs. */
  lemma FixShortRightRepairs(n: Tree)
    requires n.Node? && !IsRed(n.right) && (n.color == Red ==> !IsRed(n.left))
    requires NoRedRed(n.left) && NoRedRed(n.right) && BlackBalanced(n.left) && BlackBalanced(n.right)
    requires BlackHeight(n.right) + 1 == BlackHeight(n.left)
    ensures var f := FixShortRight(n);
      NoRedRed(f.tree) && BlackBalanced(f.tree) &&
      BlackHeight(f.tree) + (if f.short then 1 else 0) ==
        BlackHeight(n.left) + (if n.color == Black then 1 else 0) &&
      (n.color == Black ==> !IsRed(f.tree)) && (n.color == Red ==> !f.short)
  {
    if IsRed(n.left) {
      var s := n.left;
      var r := RotateRight(Node(Red, Paint(s, Black), n.data, n.right));
      SiblingBlackRightRepairs(r.right);
    } else {
      SiblingBlackRightRepairs(n);
    }
  }

  /**
   * Removal keeps the colour rules: no red-red pair, equal black depths, a
   * black depth that drops by one exactly when the result says so, never a
   * drop below a red entry, and never a red top where a black one was.
   */
  lemma {:induction false} DelColours(t: Tree, x: int)
    requires NoRedRed(t) && BlackBalanced(t)
    ensures var d := Del(t, x);
      NoRedRed(d.tree) && BlackBalanced(d.tree) &&
      BlackHeight(d.tree) + (if d.short then 1 else 0) == BlackHeight(t) &&
      (!IsRed(t) ==> !IsRed(d.tree)) && (IsRed(t) ==> !d.short)
  {
    match t
    case Nil =>
    case Node(c, l, y, r) =>
      if x < y {
        DelColours(l, x);
        var d := Del(l, x);
        if d.short {
          FixShortLeftRepairs(Node(c, d.tree, y, r));
        }
      } else if y < x {
        DelColours(r, x);
        var d := Del(r, x);
        if d.short {
          FixShortRightRepairs(Node(c, l, y, d.tree));
        }
      } else if l.Node? && r.Node? {
        var m := Max(l);
        DelColours(l, m);
        var d := Del(l, m);
        if d.short {
          FixShortLeftRepairs(Node(c, d.tree, m, r));
        }
      } else {
        var child := if l.Node? then l else r;
        if child.Node? {
          assert BlackHeight(child.left) == BlackHeight(child);
        }
      }
  }

  lemma FixShortLeftKeepsInOrder(n: Tree)
    requires n.Node?
    ensures InOrder(FixShortLeft(n).tree) == InOrder(n)
  {
    if IsRed(n.right) {
      var r := RotateLeft(Node(Red, n.left, n.data, Paint(n.right, Black)));
      SiblingBlackLeftKeepsInOrder(r.left);
    } else {
      SiblingBlackLeftKeepsInOrder(n);
    }
  }

  lemma SiblingBlackLeftKeepsInOrder(n: Tree)
    requires n.Node?
    ensures InOrder(SiblingBlackLeft(n).tree) == InOrder(n)
  {
    var s := n.right;
    if s.Nil? {
    } else if !IsRed(s.left) && !IsRed(s.right) {
      assert InOrder(Paint(s, Red)) == InOrder(s);
    } else if !IsRed(s.right) {
      NearNephewLeftKeepsInOrder(n);
    } else {
      FarNephewLeftKeepsInOrder(n);
    }
  }

  /** Near nephew red: rotLL at the sibling turns it into the far-nephew case. */
  lemma NearNephewLeftKeepsInOrder(n: Tree)
    requires n.Node? && n.right.Node? && IsRed(n.right.left)
    ensures InOrder(FarNephewLeft(Node(n.color, n.left, n.data, SwapColor(RotateRight(n.right), true))).tree) == InOrder(n)
  {
    var s := n.right;
    var sl := s.left;
    var m := Node(n.color, n.left, n.data, SwapColor(RotateRight(s), true));
    assert InOrder(s) == InOrder(sl.left) + [sl.data] + InOrder(sl.right) + [s.data] + InOrder(s.right);
    assert InOrder(m.right) == InOrder(s);
    FarNephewLeftKeepsInOrder(m);
  }

  lemma FarNephewLeftKeepsInOrder(n: Tree)
    requires n.Node? && n.right.Node? && IsRed(n.right.right)
    ensures InOrder(FarNephewLeft(n).tree) == InOrder(n)
  {
    var s := n.right;
    assert InOrder(Paint(s.right, Black)) == InOrder(s.right);
  }

  lemma FixShortRightKeepsInOrder(n: Tree)
    requires n.Node?
    ensures InOrder(FixShortRight(n).tree) == InOrder(n)
  {
    if IsRed(n.left) {
      var r := RotateRight(Node(Red, Paint(n.left, Black), n.data, n.right));
      SiblingBlackRightKeepsInOrder(r.right);
    } else {
      SiblingBlackRightKeepsInOrder(n);
    }
  }

  lemma SiblingBlackRightKeepsInOrder(n: Tree)
    requires n.Node?
    ensures InOrder(SiblingBlackRight(n).tree) == InOrder(n)
  {
    var s := n.left;
    if s.Nil? {
    } else if !IsRed(s.left) && !IsRed(s.right) {
      assert InOrder(Paint(s, Red)) == InOrder(s);
    } else if !IsRed(s.left) {
      NearNephewRightKeepsInOrder(n);
    } else {
      FarNephewRightKeepsInOrder(n);
    }
  }

  /** The mirror image of NearNephewLeftKeepsInOrder, with rotRR at the sibling. */
  lemma NearNephewRightKeepsInOrder(n: Tree)
    requires n.Node? && n.left.Node? && IsRed(n.left.right)
    ensures InOrder(FarNephewRight(Node(n.color, SwapColor(RotateLeft(n.left), false), n.data, n.right)).tree) == InOrder(n)
  {
    var s := n.left;
    var sr := s.right;
    var m := Node(n.color, SwapColor(RotateLeft(s), false), n.data, n.right);
    assert InOrder(s) == InOrder(s.left) + [s.data] + InOrder(sr.left) + [sr.data] + InOrder(sr.right);
    assert InOrder(m.left) == InOrder(s);
    FarNephewRightKeepsInOrder(m);
  }

  lemma FarNephewRightKeepsInOrder(n: Tree)
    requires n.Node? && n.left.Node? && IsRed(n.left.left)
    ensures InOrder(FarNephewRight(n).tree) == InOrder(n)
  {
    var s := n.left;
    assert InOrder(Paint(s.left, Black)) == InOrder(s.left);
  }

  /** Rejoining on the left keeps the elements and the search order. */
  lemma RejoinLeftKeys(c: Color, d: Removal, y: int, r: Tree)
    requires Ordered(Node(c, d.tree, y, r))
    ensures var j := RejoinLeft(c, d, y, r);
      Ordered(j.tree) && Elements(j.tree) == Elements(Node(c, d.tree, y, r))
  {
    var n := Node(c, d.tree, y, r);
    if d.short {
      FixShortLeftKeepsInOrder(n);
      SameInOrder(n, FixShortLeft(n).tree);
    }
  }

  /** Rejoining on the right keeps the elements and the search order. */
  lemma RejoinRightKeys(c: Color, l: Tree, y: int, d: Removal)
    requires Ordered(Node(c, l, y, d.tree))
    ensures var j := RejoinRight(c, l, y, d);
      Ordered(j.tree) && Elements(j.tree) == Elements(Node(c, l, y, d.tree))
  {
    var n := Node(c, l, y, d.tree);
    if d.short {
      FixShortRightKeepsInOrder(n);
      SameInOrder(n, FixShortRight(n).tree);
    }
  }

  /** Removal keeps the search order and takes out exactly `x`. */
  lemma {:induction false} DelKeys(t: Tree, x: int)
    requires Ordered(t)
    ensures Ordered(Del(t, x).tree) && Elements(Del(t, x).tree) == Elements(t) - {x}
  {
    match t
    case Nil =>
    case Node(c, l, y, r) =>
      if x < y {
        DelKeys(l, x);
        RejoinLeftKeys(c, Del(l, x), y, r);
      } else if y < x {
        DelKeys(r, x);
        RejoinRightKeys(c, l, y, Del(r, x));
      } else if l.Node? && r.Node? {
        DelKeys(l, Max(l));
        PromoteKeys(c, l, y, r);
      } else {
        var child := if l.Node? then l else r;
        assert InOrder(Paint(child, Black)) == InOrder(child);
        SameInOrder(child, Paint(child, Black));
      }
  }

  /**
   * Removing an entry with two children, given that removing the greatest
   * element of its left subtree works: that element takes the entry's place.
   */
  lemma PromoteKeys(c: Color, l: Tree, y: int, r: Tree)
    requires l.Node? && r.Node? && Ordered(Node(c, l, y, r))
    requires Ordered(Del(l, Max(l)).tree) && Elements(Del(l, Max(l)).tree) == Elements(l) - {Max(l)}
    ensures var t := RejoinLeft(c, Del(l, Max(l)), Max(l), r).tree;
      Ordered(t) && Elements(t) == Elements(Node(c, l, y, r)) - {y}
  {
    var m := Max(l);
    MaxIsGreatest(l);
    assert forall z :: z in Elements(r) ==> m < z by {
      assert m < y;
    }
    RejoinLeftKeys(c, Del(l, m), m, r);
  }

  /** remove keeps a red-black tree red-black and takes out exactly `x`. */
  lemma DeleteKeepsRedBlack(t: Tree, x: int)
    requires IsRedBlack(t)
    ensures IsRedBlack(Delete(t, x))
    ensures Elements(Delete(t, x)) == Elements(t) - {x}
  {
    DelColours(t, x);
    DelKeys(t, x);
  }

  /* ---------------------------------------------------------------------- */
  /* rebalanceVerify                                                        */
  /* ---------------------------------------------------------------------- */

  /** The reasons rebalanceVerify gives for an IllegalStateException. */
  datatype Violation = RedRoot | NotSorted | RedChildOfRed | UnequalBlackDepth

  /** rebalanceVerifyHelper: the black depth of a subtree, or the first violation met. */
  datatype Check = Passed(depth: nat) | Failed(reason: Violation)

  /** Each entry is ordered against its direct children only, as the verifier checks. */
  ghost predicate LocallyOrdered(t: Tree) {
    match t
    case Nil => true
    case Node(_, l, x, r) =>
      (l.Node? ==> l.data <= x) && (r.Node? ==> x <= r.data) &&
      LocallyOrdered(l) && LocallyOrdered(r)
  }

  /**
   * rebalanceVerifyHelper: checks the order against the direct children, then
   * the red rule, then both subtrees, then that their black depths agree.
   */
  function VerifyHelper(t: Tree): Check {
    match t
    case Nil => Passed(1)
    case Node(c, l, x, r) =>
      if (l.Node? && x < l.data) || (r.Node? && r.data < x) then Failed(NotSorted)
      else if c == Red && (IsRed(l) || IsRed(r)) then Failed(RedChildOfRed)
      else
        var ld := VerifyHelper(l);
        if ld.Failed? then ld
        else
          var rd := VerifyHelper(r);
          if rd.Failed? then rd
          else if ld.depth != rd.depth then Failed(UnequalBlackDepth)
          else Passed(ld.depth + (if c == Red then 0 else 1))
  }

  /** rebalanceVerify: None when the tree passes, else the reason it throws. */
  function RebalanceVerify(t: Tree): Option<Violation> {
    if IsRed(t) then Some(RedRoot)
    else
      match VerifyHelper(t)
      case Failed(v) => Some(v)
      case Passed(_) => None
  }

  /**
   * The helper passes exactly on locally ordered trees with no red-red pair and
   * equal black depths, and then reports the black depth.
   */
  lemma {:induction false} VerifyHelperCorrect(t: Tree)
    ensures VerifyHelper(t).Passed? <==> LocallyOrdered(t) && NoRedRed(t) && BlackBalanced(t)
    ensures VerifyHelper(t).Passed? ==> VerifyHelper(t).depth == BlackHeight(t)
  {
    match t
    case Nil =>
    case Node(_, l, _, r) =>
      VerifyHelperCorrect(l);
      VerifyHelperCorrect(r);
  }

  lemma {:induction false} OrderedIsLocallyOrdered(t: Tree)
    requires Ordered(t)
    ensures LocallyOrdered(t)
  {
    match t
    case Nil =>
    case Node(_, l, _, r) =>
      assert l.Node? ==> l.data in Elements(l);
      assert r.Node? ==> r.data in Elements(r);
      OrderedIsLocallyOrdered(l);
      OrderedIsLocallyOrdered(r);
  }

  /** Every red-black tree passes rebalanceVerify. */
  lemma RedBlackPassesVerify(t: Tree)
    requires IsRedBlack(t)
    ensures RebalanceVerify(t).None?
  {
    VerifyHelperCorrect(t);
    OrderedIsLocallyOrdered(t);
  }

  /**
   * Passing rebalanceVerify establishes the colour rules and a black root, but
   * the order is checked only between parent and child.
   */
  lemma VerifyPassMeans(t: Tree)
    requires RebalanceVerify(t).None?
    ensures !IsRed(t) && NoRedRed(t) && BlackBalanced(t) && LocallyOrdered(t)
  {
    VerifyHelperCorrect(t);
  }

  /** A tree that passes rebalanceVerify although it is not a search tree. */
  lemma LocalOrderIsWeaker()
    ensures var t := Node(Black, Node(Black, Nil, 3, Node(Red, Nil, 7, Nil)), 5, Node(Black, Nil, 6, Nil));
      RebalanceVerify(t).None? && !Ordered(t)
  {
    var t := Node(Black, Node(Black, Nil, 3, Node(Red, Nil, 7, Nil)), 5, Node(Black, Nil, 6, Nil));
    assert 7 in Elements(t.left);
  }
}
