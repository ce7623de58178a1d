/** The three structural edits the treap makes, as functions on `Tree`:
    hanging a new leaf in an empty child slot (insert_), lifting a node over
    its parent (rotate_right / rotate_left), and replacing a node by the merge
    of its two subtrees (erase_).  Each comes with what it does to the
    in-order sequence, the node set and heap order. */
module TreeEdits {
  import opened Trees

  function Leaf(x: int, k: int, pr: int): Tree {
    Node(Nil, x, k, pr, Nil)
  }

  lemma LeafElems(x: int, k: int, pr: int)
    ensures Elems(Leaf(x, k, pr)) == [Item(x, k)] && Ids(Leaf(x, k, pr)) == {x}
  {
    assert [] + [Item(x, k)] + [] == [Item(x, k)];
  }

  /** `t` with node `x` hung as the left (or right) child of `y`. */
  function Graft(t: Tree, y: int, left: bool, x: int, k: int, pr: int): Tree {
    var s := Sub(t, y);
    if s.Nil? then t
    else Replace(t, y, if left then s.(left := Leaf(x, k, pr)) else s.(right := Leaf(x, k, pr)))
  }

  /** rotate_right at node `p` (its left child moves up). */
  function RotateRightAt(t: Tree, p: int): Tree {
    var s := Sub(t, p);
    if s.Node? && s.left.Node? then Replace(t, p, RotateRightTree(s)) else t
  }

  /** rotate_left at node `p` (its right child moves up). */
  function RotateLeftAt(t: Tree, p: int): Tree {
    var s := Sub(t, p);
    if s.Node? && s.right.Node? then Replace(t, p, RotateLeftTree(s)) else t
  }

  /** erase_ at node `y`: its subtree becomes the merge of its children. */
  function EraseNode(t: Tree, y: int): Tree {
    var s := Sub(t, y);
    if s.Nil? then t else Replace(t, y, MergeTree(s.left, s.right))
  }

  /** Key `k` belongs exactly at position `i` and is not present. */
  predicate Fits(s: seq<Item>, k: int, i: int) {
    0 <= i <= |s| &&
    (forall j :: 0 <= j < i ==> s[j].key < k) &&
    (forall j :: i <= j < |s| ==> k < s[j].key)
  }

  // ---------------------------------------------------------------------
  // In-order sequences around one node: before ++ (left ++ [v] ++ right) ++ after

  lemma SplitSeq(e: seq<Item>, bf: seq<Item>, l: seq<Item>, v: Item, r: seq<Item>, af: seq<Item>)
    requires e == bf + (l + [v] + r) + af
    ensures |bf| + |l| < |e| && e[|bf| + |l|] == v
    ensures e[..|bf| + |l|] == bf + l && e[|bf| + |l| + 1..] == r + af
  {
    assert e == (bf + l) + [v] + (r + af);
  }

  lemma InsertLeftSeq(e: seq<Item>, bf: seq<Item>, v: Item, r: seq<Item>, af: seq<Item>, w: Item)
    requires e == bf + ([] + [v] + r) + af
    ensures bf + ([w] + [v] + r) + af == e[..|bf|] + [w] + e[|bf|..]
  {
    assert e[..|bf|] == bf;
    assert e[|bf|..] == [v] + r + af;
  }

  lemma InsertRightSeq(e: seq<Item>, bf: seq<Item>, l: seq<Item>, v: Item, af: seq<Item>, w: Item)
    requires e == bf + (l + [v] + []) + af
    ensures bf + (l + [v] + [w]) + af == e[..|bf| + |l| + 1] + [w] + e[|bf| + |l| + 1..]
  {
    assert e[..|bf| + |l| + 1] == bf + l + [v];
    assert e[|bf| + |l| + 1..] == af;
  }

  lemma RemoveSeq(e: seq<Item>, bf: seq<Item>, l: seq<Item>, v: Item, r: seq<Item>, af: seq<Item>,
                  lr: seq<Item>, i: int)
    requires e == bf + (l + [v] + r) + af && lr == l + r && i == |bf| + |l|
    ensures 0 <= i < |e| && bf + lr + af == e[..i] + e[i + 1..]
  {
    SplitSeq(e, bf, l, v, r, af);
  }

  // ---------------------------------------------------------------------
  // Subtrees under replacement

  lemma {:induction false} ReplaceSub(t: Tree, y: int, s: Tree)
    requires Distinct(t) && y in Ids(t) && s.Node? && s.id !in Ids(t) - Ids(Sub(t, y))
    ensures s.id in Ids(Replace(t, y, s)) && Sub(Replace(t, y, s), s.id) == s
  {
    match t
    case Node(l, i, _, _, r) =>
      if i == y {
      } else if y in Ids(l) {
        SubFacts(l, y);
        ReplaceSub(l, y, s);
        assert s.id !in Ids(l) - Ids(Sub(l, y));
      } else {
        SubFacts(r, y);
        ReplaceSub(r, y, s);
      }
  }

  lemma {:induction false} SubHeap(t: Tree, b: int, y: int)
    requires Heap(t, b) && y in Ids(t)
    ensures Heap(Sub(t, y), BoundAt(t, b, y)) && Sub(t, y).Node? && Sub(t, y).pri <= BoundAt(t, b, y)
  {
    match t
    case Node(l, i, _, p, r) =>
      if i == y {
      } else if y in Ids(l) {
        SubHeap(l, p, y);
      } else {
        SubHeap(r, p, y);
      }
  }

  lemma {:induction false} ReplaceHeap(t: Tree, b: int, y: int, s: Tree)
    requires Heap(t, b) && y in Ids(t) && Heap(s, BoundAt(t, b, y))
    ensures Heap(Replace(t, y, s), b)
  {
    match t
    case Node(l, i, _, p, r) =>
      if i == y {
      } else if y in Ids(l) {
        ReplaceHeap(l, p, y, s);
      } else {
        ReplaceHeap(r, p, y, s);
      }
  }

  /** Where node `y` sits in the in-order sequence. */
  lemma SubPosition(t: Tree, y: int)
    requires Distinct(t) && y in Ids(t)
    ensures Sub(t, y).Node? && Sub(t, y).id == y
    ensures var i := |Before(t, y)| + |Elems(Sub(t, y).left)|;
            i < |Elems(t)| && Elems(t)[i].id == y &&
            Elems(t) == Before(t, y) + (Elems(Sub(t, y).left) + [Item(y, Sub(t, y).key)] + Elems(Sub(t, y).right)) + After(t, y)
  {
    SubSplit(t, y);
    var s := Sub(t, y);
    SplitSeq(Elems(t), Before(t, y), Elems(s.left), Item(y, s.key), Elems(s.right), After(t, y));
  }

  /** The one position of node `y` in the in-order sequence. */
  lemma SubIndex(t: Tree, y: int, i: int)
    requires Distinct(t) && y in Ids(t) && 0 <= i < |Elems(t)| && Elems(t)[i].id == y
    ensures Sub(t, y).Node? && i == |Before(t, y)| + |Elems(Sub(t, y).left)|
  {
    SubPosition(t, y);
    DistinctUnique(t);
    SamePosition(Elems(t), i, |Before(t, y)| + |Elems(Sub(t, y).left)|);
  }

  /** Positions of a node are unique. */
  lemma SamePosition(e: seq<Item>, i: int, j: int)
    requires UniqueIds(e) && 0 <= i < |e| && 0 <= j < |e| && e[i].id == e[j].id
    ensures i == j
  {
  }

  // ---------------------------------------------------------------------
  // Grafting a leaf

  lemma GraftFacts(t: Tree, y: int, left: bool, x: int, k: int, pr: int, b: int)
    requires Distinct(t) && y in Ids(t) && x !in Ids(t) && Heap(t, b)
    requires Sub(t, y).Node? && (if left then Sub(t, y).left.Nil? else Sub(t, y).right.Nil?)
    ensures var t' := Graft(t, y, left, x, k, pr);
            Distinct(t') && Ids(t') == Ids(t) + {x} && HeapExcept(t', b, x) &&
            Sub(t', x) == Leaf(x, k, pr)
  {
    GraftIds(t, y, left, x, k, pr);
    GraftHeap(t, y, left, x, k, pr, b);
    GraftSub(t, y, left, x, k, pr);
  }

  lemma GraftIds(t: Tree, y: int, left: bool, x: int, k: int, pr: int)
    requires Distinct(t) && y in Ids(t) && x !in Ids(t)
    requires Sub(t, y).Node? && (if left then Sub(t, y).left.Nil? else Sub(t, y).right.Nil?)
    ensures Distinct(Graft(t, y, left, x, k, pr)) && Ids(Graft(t, y, left, x, k, pr)) == Ids(t) + {x}
  {
    SubFacts(t, y);
    var s := Sub(t, y);
    var s' := if left then s.(left := Leaf(x, k, pr)) else s.(right := Leaf(x, k, pr));
    LeafElems(x, k, pr);
    assert Ids(s) == Ids(s.left) + {y} + Ids(s.right);
    assert Ids(s') == Ids(s) + {x};
    ReplaceIds(t, y, s');
    AddOne(Ids(t), Ids(s), x);
  }

  lemma AddOne(a: set<int>, u: set<int>, x: int)
    requires u <= a
    ensures (a - u) + (u + {x}) == a + {x}
  {
  }

  lemma GraftHeap(t: Tree, y: int, left: bool, x: int, k: int, pr: int, b: int)
    requires Distinct(t) && y in Ids(t) && x !in Ids(t) && Heap(t, b)
    requires Sub(t, y).Node? && (if left then Sub(t, y).left.Nil? else Sub(t, y).right.Nil?)
    ensures HeapExcept(Graft(t, y, left, x, k, pr), b, x)
  {
    SubFacts(t, y);
    var s := Sub(t, y);
    var s' := if left then s.(left := Leaf(x, k, pr)) else s.(right := Leaf(x, k, pr));
    SubHeap(t, b, y);
    HeapExceptAbsent(t, b, x);
    HeapExceptAbsent(s.left, s.pri, x);
    HeapExceptAbsent(s.right, s.pri, x);
    assert HeapExcept(s', BoundAt(t, b, y), x);
    ReplaceHeapExcept(t, b, y, s', x);
  }

  lemma GraftSub(t: Tree, y: int, left: bool, x: int, k: int, pr: int)
    requires Distinct(t) && y in Ids(t) && x !in Ids(t)
    requires Sub(t, y).Node? && (if left then Sub(t, y).left.Nil? else Sub(t, y).right.Nil?)
    ensures Sub(Graft(t, y, left, x, k, pr), x) == Leaf(x, k, pr)
  {
    SubFacts(t, y);
    var s := Sub(t, y);
    var s' := if left then s.(left := Leaf(x, k, pr)) else s.(right := Leaf(x, k, pr));
    var t' := Replace(t, y, s');
    GraftIds(t, y, left, x, k, pr);
    ReplaceSub(t, y, s');
    SubChildren(t', y);
    if left {
      assert Sub(t', x) == s'.left;
    } else {
      assert Sub(t', x) == s'.right;
    }
  }

  /** A leaf hung left of the node at position `i` lands at position `i`. */
  lemma GraftLeftElems(t: Tree, y: int, x: int, k: int, pr: int, i: int)
    requires Distinct(t) && 0 <= i < |Elems(t)| && Elems(t)[i].id == y
    requires y in Ids(t) && Sub(t, y).Node? && Sub(t, y).left.Nil?
    ensures Elems(Graft(t, y, true, x, k, pr)) == Elems(t)[..i] + [Item(x, k)] + Elems(t)[i..]
  {
    var e := Elems(t);
    var s := Sub(t, y);
    var s' := s.(left := Leaf(x, k, pr));
    var bf, af := Before(t, y), After(t, y);
    SubIndex(t, y, i);
    SubPosition(t, y);
    ReplaceElems(t, y, s');
    LeafElems(x, k, pr);
    assert Elems(s') == [Item(x, k)] + [Item(y, s.key)] + Elems(s.right);
    InsertLeftSeq(e, bf, Item(y, s.key), Elems(s.right), af, Item(x, k));
  }

  /** A leaf hung right of the node at position `i - 1` lands at position `i`. */
  lemma GraftRightElems(t: Tree, y: int, x: int, k: int, pr: int, i: int)
    requires Distinct(t) && 0 < i <= |Elems(t)| && Elems(t)[i - 1].id == y
    requires y in Ids(t) && Sub(t, y).Node? && Sub(t, y).right.Nil?
    ensures Elems(Graft(t, y, false, x, k, pr)) == Elems(t)[..i] + [Item(x, k)] + Elems(t)[i..]
  {
    var e := Elems(t);
    var s := Sub(t, y);
    var s' := s.(right := Leaf(x, k, pr));
    var bf, af := Before(t, y), After(t, y);
    SubIndex(t, y, i - 1);
    SubPosition(t, y);
    ReplaceElems(t, y, s');
    LeafElems(x, k, pr);
    assert Elems(s') == Elems(s.left) + [Item(y, s.key)] + [Item(x, k)];
    InsertRightSeq(e, bf, Elems(s.left), Item(y, s.key), af, Item(x, k));
  }

  lemma OrderedInsert(e: seq<Item>, k: int, i: int, x: int)
    requires Ordered(e) && Fits(e, k, i)
    ensures Ordered(e[..i] + [Item(x, k)] + e[i..])
  {
    var e' := e[..i] + [Item(x, k)] + e[i..];
    forall a, b | 0 <= a < b < |e'| ensures e'[a].key < e'[b].key {
      if b < i {
        assert e'[a] == e[a] && e'[b] == e[b];
      } else if b == i {
        assert e'[a] == e[a];
      } else if a < i {
        assert e'[a] == e[a] && e'[b] == e[b - 1];
      } else if a == i {
        assert e'[b] == e[b - 1];
      } else {
        assert e'[a] == e[a - 1] && e'[b] == e[b - 1];
      }
    }
  }

  // ---------------------------------------------------------------------
  // Rotations

  /** Trees with the same in-order sequence agree on having no repeated node. */
  lemma SameElemsDistinct(s: Tree, r: Tree)
    requires Distinct(s) && Elems(r) == Elems(s)
    ensures Distinct(r)
  {
    DistinctUnique(s);
    UniqueDistinct(r);
  }

  /** A rotation rearranges the subtree but keeps its nodes and order. */
  lemma {:induction false} RotateRightLocal(s: Tree)
    requires s.Node? && s.left.Node?
    ensures Ids(RotateRightTree(s)) == Ids(s) && Elems(RotateRightTree(s)) == Elems(s)
    ensures Distinct(s) ==> Distinct(RotateRightTree(s))
    ensures |Elems(RotateRightTree(s))| > |Elems(s.left)|
  {
    match s
    case Node(Node(a, x, xk, xp, b), y, yk, yp, c) =>
      var r := Node(a, x, xk, xp, Node(b, y, yk, yp, c));
      assert RotateRightTree(s) == r;
      var ea, eb, ec := Elems(a), Elems(b), Elems(c);
      assert Elems(r) == ea + [Item(x, xk)] + (eb + [Item(y, yk)] + ec);
      assert Elems(s) == (ea + [Item(x, xk)] + eb) + [Item(y, yk)] + ec;
      assert Ids(r) == Ids(a) + {x} + (Ids(b) + {y} + Ids(c));
      assert Ids(s) == (Ids(a) + {x} + Ids(b)) + {y} + Ids(c);
      if Distinct(s) {
        SameElemsDistinct(s, r);
      }
  }

  lemma RotateRightAtShape(t: Tree, p: int)
    requires Distinct(t) && p in Ids(t) && Sub(t, p).Node? && Sub(t, p).left.Node?
    ensures var x, t' := Sub(t, p).left.id, RotateRightAt(t, p);
            Elems(t') == Elems(t) && Ids(t') == Ids(t) && Distinct(t') &&
            x in Ids(t) && Sub(t', x) == RotateRightTree(Sub(t, p)) &&
            |Elems(Sub(t', x))| > |Elems(Sub(t, x))|
  {
    var s := Sub(t, p);
    var rot := RotateRightTree(s);
    SubFacts(t, p);
    SubChildren(t, p);
    RotateRightLocal(s);
    ReplaceElems(t, p, rot);
    ReplaceIds(t, p, rot);
    ReplaceSub(t, p, rot);
  }

  /** Lifting `x` over a parent of lower priority moves the single heap
      exception up with it. */
  lemma RotateRightAtHeap(t: Tree, b: int, p: int)
    requires Distinct(t) && p in Ids(t) && Sub(t, p).Node? && Sub(t, p).left.Node?
    requires HeapExcept(t, b, Sub(t, p).left.id) && Sub(t, p).pri < Sub(t, p).left.pri
    ensures HeapExcept(RotateRightAt(t, p), b, Sub(t, p).left.id)
  {
    var s := Sub(t, p);
    var x := s.left.id;
    var rot := RotateRightTree(s);
    SubFacts(t, p);
    SubChildren(t, p);
    RotateRightLocal(s);
    SubHeapExcept(t, b, p, x);
    RotateRightHeap(s, BoundAt(t, b, p));
    ReplaceHeapExcept(t, b, p, rot, x);
  }

  /** A rotation rearranges the subtree but keeps its nodes and order. */
  lemma {:induction false} RotateLeftLocal(s: Tree)
    requires s.Node? && s.right.Node?
    ensures Ids(RotateLeftTree(s)) == Ids(s) && Elems(RotateLeftTree(s)) == Elems(s)
    ensures Distinct(s) ==> Distinct(RotateLeftTree(s))
    ensures |Elems(RotateLeftTree(s))| > |Elems(s.right)|
  {
    match s
    case Node(a, y, yk, yp, Node(b, x, xk, xp, c)) =>
      var r := Node(Node(a, y, yk, yp, b), x, xk, xp, c);
      assert RotateLeftTree(s) == r;
      var ea, eb, ec := Elems(a), Elems(b), Elems(c);
      assert Elems(r) == (ea + [Item(y, yk)] + eb) + [Item(x, xk)] + ec;
      assert Elems(s) == ea + [Item(y, yk)] + (eb + [Item(x, xk)] + ec);
      assert Ids(r) == (Ids(a) + {y} + Ids(b)) + {x} + Ids(c);
      assert Ids(s) == Ids(a) + {y} + (Ids(b) + {x} + Ids(c));
      if Distinct(s) {
        SameElemsDistinct(s, r);
      }
  }

  lemma RotateLeftAtShape(t: Tree, p: int)
    requires Distinct(t) && p in Ids(t) && Sub(t, p).Node? && Sub(t, p).right.Node?
    ensures var x, t' := Sub(t, p).right.id, RotateLeftAt(t, p);
            Elems(t') == Elems(t) && Ids(t') == Ids(t) && Distinct(t') &&
            x in Ids(t) && Sub(t', x) == RotateLeftTree(Sub(t, p)) &&
            |Elems(Sub(t', x))| > |Elems(Sub(t, x))|
  {
    var s := Sub(t, p);
    var rot := RotateLeftTree(s);
    SubFacts(t, p);
    SubChildren(t, p);
    RotateLeftLocal(s);
    ReplaceElems(t, p, rot);
    ReplaceIds(t, p, rot);
    ReplaceSub(t, p, rot);
  }

  /** Lifting `x` over a parent of lower priority moves the single heap
      exception up with it. */
  lemma RotateLeftAtHeap(t: Tree, b: int, p: int)
    requires Distinct(t) && p in Ids(t) && Sub(t, p).Node? && Sub(t, p).right.Node?
    requires HeapExcept(t, b, Sub(t, p).right.id) && Sub(t, p).pri < Sub(t, p).right.pri
    ensures HeapExcept(RotateLeftAt(t, p), b, Sub(t, p).right.id)
  {
    var s := Sub(t, p);
    var x := s.right.id;
    var rot := RotateLeftTree(s);
    SubFacts(t, p);
    SubChildren(t, p);
    RotateLeftLocal(s);
    SubHeapExcept(t, b, p, x);
    RotateLeftHeap(s, BoundAt(t, b, p));
    ReplaceHeapExcept(t, b, p, rot, x);
  }

  // ---------------------------------------------------------------------
  // Erasing a node

  lemma EraseFacts(t: Tree, y: int, b: int, i: int)
    requires Distinct(t) && y in Ids(t) && Heap(t, b)
    requires 0 <= i < |Elems(t)| && Elems(t)[i].id == y
    ensures var t' := EraseNode(t, y);
            Elems(t') == Elems(t)[..i] + Elems(t)[i + 1..] &&
            Ids(t') == Ids(t) - {y} && Distinct(t') && Heap(t', b)
  {
    EraseElems(t, y, i);
    EraseIdsHeap(t, y, b);
  }

  lemma EraseElems(t: Tree, y: int, i: int)
    requires Distinct(t) && y in Ids(t)
    requires 0 <= i < |Elems(t)| && Elems(t)[i].id == y
    ensures Elems(EraseNode(t, y)) == Elems(t)[..i] + Elems(t)[i + 1..]
  {
    var s := Sub(t, y);
    SubIndex(t, y, i);
    SubPosition(t, y);
    var m := MergeTree(s.left, s.right);
    assert EraseNode(t, y) == Replace(t, y, m);
    MergeElems(s.left, s.right);
    ReplaceElems(t, y, m);
    RemoveSeq(Elems(t), Before(t, y), Elems(s.left), Item(y, s.key), Elems(s.right), After(t, y), Elems(m), i);
  }

  /** Erasing a node removes exactly one item. */
  lemma EraseSize(t: Tree, y: int)
    requires Distinct(t) && y in Ids(t)
    ensures |Elems(EraseNode(t, y))| == |Elems(t)| - 1
  {
    SubPosition(t, y);
    EraseElems(t, y, |Before(t, y)| + |Elems(Sub(t, y).left)|);
  }

  lemma EraseIdsHeap(t: Tree, y: int, b: int)
    requires Distinct(t) && y in Ids(t) && Heap(t, b)
    ensures var t' := EraseNode(t, y);
            Ids(t') == Ids(t) - {y} && Distinct(t') && Heap(t', b)
  {
    var s := Sub(t, y);
    SubFacts(t, y);
    var m := MergeTree(s.left, s.right);
    MergeTreeFacts(s.left, s.right, s.pri);
    assert Ids(s) == Ids(s.left) + {y} + Ids(s.right);
    ReplaceIds(t, y, m);
    SubHeap(t, b, y);
    HeapWeaken(m, s.pri, BoundAt(t, b, y));
    ReplaceHeap(t, b, y, m);
  }

  lemma OrderedRemove(e: seq<Item>, i: int)
    requires Ordered(e) && 0 <= i < |e|
    ensures Ordered(e[..i] + e[i + 1..])
  {
    var e' := e[..i] + e[i + 1..];
    forall a, b | 0 <= a < b < |e'| ensures e'[a].key < e'[b].key {
      if b < i {
        assert e'[a] == e[a] && e'[b] == e[b];
      } else if a < i {
        assert e'[a] == e[a] && e'[b] == e[b + 1];
      } else {
        assert e'[a] == e[a + 1] && e'[b] == e[b + 1];
      }
    }
  }
}
