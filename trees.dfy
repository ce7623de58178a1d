/** The shape of a treap as a value: which node sits where, with the key and
    the priority each node keeps for its whole life.  Node ids are the arena
    indices used by module Treaps; id 0 is the header and never occurs in a
    tree, and NIL stands for a null child or parent pointer. */
module Trees {

  const HEADER: int := 0
  const NIL: int := -1
  const UINT32_MAX: int := 0xFFFF_FFFF

  /** One in-order position: the node that is there and its key. */
  datatype Item = Item(id: int, key: int)

  datatype Tree = Nil | Node(left: Tree, id: int, key: int, pri: int, right: Tree)

  function Root(t: Tree): int {
    if t.Nil? then NIL else t.id
  }

  function Ids(t: Tree): set<int> {
    match t
    case Nil => {}
    case Node(l, i, _, _, r) => Ids(l) + {i} + Ids(r)
  }

  /** The in-order sequence: what iterating from begin() to end() visits. */
  function Elems(t: Tree): seq<Item> {
    match t
    case Nil => []
    case Node(l, i, k, _, r) => Elems(l) + [Item(i, k)] + Elems(r)
  }

  function Keys(s: seq<Item>): seq<int> {
    seq(|s|, i requires 0 <= i < |s| => s[i].key)
  }

  /** No node occurs twice (no node is its own ancestor). */
  predicate Distinct(t: Tree) {
    match t
    case Nil => true
    case Node(l, i, _, _, r) =>
      Distinct(l) && Distinct(r) && i !in Ids(l) && i !in Ids(r) && Ids(l) !! Ids(r)
  }

  /** Binary-search-tree order: in-order keys strictly increase. */
  predicate Ordered(s: seq<Item>) {
    forall i, j :: 0 <= i < j < |s| ==> s[i].key < s[j].key
  }

  /** In an ordered sequence the keys after position `m` are at least its key. */
  lemma OrderedAbove(s: seq<Item>, m: int)
    requires Ordered(s) && 0 <= m < |s|
    ensures forall j :: m <= j < |s| ==> s[m].key <= s[j].key
  {
  }

  /** In an ordered sequence the keys before position `m` are at most its key. */
  lemma OrderedBelow(s: seq<Item>, m: int)
    requires Ordered(s) && 0 <= m < |s|
    ensures forall j :: 0 <= j <= m ==> s[j].key <= s[m].key
  {
  }

  predicate UniqueIds(s: seq<Item>) {
    forall i, j :: 0 <= i < j < |s| ==> s[i].id != s[j].id
  }

  function Min(a: int, b: int): int {
    if a <= b then a else b
  }

  /** Max-heap order on priorities, every priority at most `b`. */
  predicate Heap(t: Tree, b: int) {
    match t
    case Nil => true
    case Node(l, _, _, p, r) => p <= b && Heap(l, p) && Heap(r, p)
  }

  /** Heap order except on the edge into node `x`: `x` may outrank its
      parent, but its children are still bounded by both `x` and that parent.
      This is what holds while a freshly grafted node is rotated upwards. */
  predicate HeapExcept(t: Tree, b: int, x: int) {
    match t
    case Nil => true
    case Node(l, i, _, p, r) =>
      if i == x then Heap(l, Min(p, b)) && Heap(r, Min(p, b))
      else p <= b && HeapExcept(l, p, x) && HeapExcept(r, p, x)
  }

  /** The subtree rooted at node `y` (Nil when `y` is not in `t`). */
  function Sub(t: Tree, y: int): Tree {
    match t
    case Nil => Nil
    case Node(l, i, _, _, r) =>
      if i == y then t else if y in Ids(l) then Sub(l, y) else Sub(r, y)
  }

  /** In-order items before, and after, the subtree rooted at `y`. */
  function Before(t: Tree, y: int): seq<Item> {
    match t
    case Nil => []
    case Node(l, i, k, _, r) =>
      if i == y then [] else if y in Ids(l) then Before(l, y)
      else Elems(l) + [Item(i, k)] + Before(r, y)
  }

  function After(t: Tree, y: int): seq<Item> {
    match t
    case Nil => []
    case Node(l, i, k, _, r) =>
      if i == y then [] else if y in Ids(l) then After(l, y) + [Item(i, k)] + Elems(r)
      else After(r, y)
  }

  /** The priority of `y`'s parent, or `b` when `y` is the root. */
  function BoundAt(t: Tree, b: int, y: int): int {
    match t
    case Nil => b
    case Node(l, i, _, p, r) =>
      if i == y then b else if y in Ids(l) then BoundAt(l, p, y) else BoundAt(r, p, y)
  }

  /** `t` with the subtree rooted at `y` replaced by `s`. */
  function Replace(t: Tree, y: int, s: Tree): Tree {
    match t
    case Nil => Nil
    case Node(l, i, k, p, r) =>
      if i == y then s
      else if y in Ids(l) then Node(Replace(l, y, s), i, k, p, r)
      else Node(l, i, k, p, Replace(r, y, s))
  }

  /** rotate_right at a parent whose left child moves up. */
  function RotateRightTree(t: Tree): Tree
    requires t.Node? && t.left.Node?
  {
    match t
    case Node(Node(a, x, xk, xp, b), y, yk, yp, c) => Node(a, x, xk, xp, Node(b, y, yk, yp, c))
  }

  /** rotate_left at a parent whose right child moves up. */
  function RotateLeftTree(t: Tree): Tree
    requires t.Node? && t.right.Node?
  {
    match t
    case Node(a, y, yk, yp, Node(b, x, xk, xp, c)) => Node(Node(a, y, yk, yp, b), x, xk, xp, c)
  }

  /** The result of merge(lhs, rhs): the higher priority root wins, ties go
      to the left-hand tree. */
  function MergeTree(l: Tree, r: Tree): Tree
    decreases l, r
  {
    if l.Nil? then r
    else if r.Nil? then l
    else if l.pri < r.pri then Node(MergeTree(l, r.left), r.id, r.key, r.pri, r.right)
    else Node(l.left, l.id, l.key, l.pri, MergeTree(l.right, r))
  }

  // ---------------------------------------------------------------------
  // In-order contents

  lemma {:induction false} ElemsIds(t: Tree)
    ensures |Elems(t)| == |Ids(t)| || !Distinct(t)
    ensures forall i :: 0 <= i < |Elems(t)| ==> Elems(t)[i].id in Ids(t)
    ensures forall y :: y in Ids(t) ==> exists i :: 0 <= i < |Elems(t)| && Elems(t)[i].id == y
  {
    ElemsCount(t);
    ElemIdsIn(t);
    IdsInElems(t);
  }

  /** Every in-order item is a node of the tree. */
  lemma {:induction false} ElemIdsIn(t: Tree)
    ensures forall i :: 0 <= i < |Elems(t)| ==> Elems(t)[i].id in Ids(t)
  {
    match t
    case Nil =>
    case Node(l, x, k, _, r) =>
      ElemIdsIn(l);
      ElemIdsIn(r);
      var e, el, er := Elems(t), Elems(l), Elems(r);
      assert e == el + [Item(x, k)] + er;
      forall i | 0 <= i < |e| ensures e[i].id in Ids(t) {
        if i < |el| { assert e[i] == el[i]; }
        else if i > |el| { assert e[i] == er[i - |el| - 1]; }
      }
  }

  /** Every node of the tree is an in-order item. */
  lemma {:induction false} IdsInElems(t: Tree)
    ensures forall y :: y in Ids(t) ==> exists i :: 0 <= i < |Elems(t)| && Elems(t)[i].id == y
  {
    match t
    case Nil =>
    case Node(l, x, k, _, r) =>
      IdsInElems(l);
      IdsInElems(r);
      var e, el, er := Elems(t), Elems(l), Elems(r);
      assert e == el + [Item(x, k)] + er;
      assert Ids(t) == Ids(l) + {x} + Ids(r);
      forall y | y in Ids(t) ensures exists i :: 0 <= i < |e| && e[i].id == y {
        if y in Ids(l) {
          var j :| 0 <= j < |el| && el[j].id == y;
          assert e[j] == el[j];
        } else if y == x {
          assert e[|el|].id == y;
        } else {
          var j :| 0 <= j < |er| && er[j].id == y;
          assert e[|el| + 1 + j] == er[j];
        }
      }
      assert e == Elems(t);
  }

  /** A tree without repeated nodes has as many items as nodes. */
  lemma {:induction false} ElemsCount(t: Tree)
    ensures |Elems(t)| == |Ids(t)| || !Distinct(t)
  {
    match t
    case Nil =>
    case Node(l, x, k, _, r) =>
      ElemsCount(l);
      ElemsCount(r);
      if Distinct(t) {
        assert Ids(t) == Ids(l) + Ids(r) + {x};
        assert |Ids(l) + Ids(r)| == |Ids(l)| + |Ids(r)|;
      }
  }

  lemma {:induction false} DistinctUnique(t: Tree)
    requires Distinct(t)
    ensures UniqueIds(Elems(t))
  {
    match t
    case Nil =>
    case Node(l, x, k, _, r) =>
      DistinctUnique(l);
      DistinctUnique(r);
      ElemIdsIn(l);
      ElemIdsIn(r);
      var e, el, er := Elems(t), Elems(l), Elems(r);
      var n := |el|;
      forall i, j | 0 <= i < j < |e| ensures e[i].id != e[j].id {
        if j < n {
          assert e[i] == el[i] && e[j] == el[j];
        } else if i > n {
          assert e[i] == er[i - n - 1] && e[j] == er[j - n - 1];
        } else if i == n {
          assert e[j] == er[j - n - 1];
        } else if j == n {
          assert e[i] == el[i];
        } else {
          assert e[i] == el[i] && e[j] == er[j - n - 1];
        }
      }
  }

  /** Splitting a sequence of different ids around one item. */
  lemma UniqueSplit(e: seq<Item>, el: seq<Item>, v: Item, er: seq<Item>)
    requires e == el + [v] + er && UniqueIds(e)
    ensures UniqueIds(el) && UniqueIds(er)
    ensures forall j :: 0 <= j < |el| ==> el[j].id != v.id
    ensures forall j :: 0 <= j < |er| ==> er[j].id != v.id
    ensures forall j1, j2 :: 0 <= j1 < |el| && 0 <= j2 < |er| ==> el[j1].id != er[j2].id
  {
    var n := |el|;
    forall i, j | 0 <= i < j < n ensures el[i].id != el[j].id {
      assert e[i] == el[i] && e[j] == el[j];
    }
    forall i, j | 0 <= i < j < |er| ensures er[i].id != er[j].id {
      assert e[n + 1 + i] == er[i] && e[n + 1 + j] == er[j];
    }
    forall j | 0 <= j < n ensures el[j].id != v.id {
      assert e[j] == el[j] && e[n] == v;
    }
    forall j | 0 <= j < |er| ensures er[j].id != v.id {
      assert e[n + 1 + j] == er[j] && e[n] == v;
    }
    forall j1, j2 | 0 <= j1 < n && 0 <= j2 < |er| ensures el[j1].id != er[j2].id {
      assert e[j1] == el[j1] && e[n + 1 + j2] == er[j2];
    }
  }

  /** The converse of DistinctUnique: a tree whose in-order ids are all
      different has no repeated node. */
  lemma {:induction false} UniqueDistinct(t: Tree)
    requires UniqueIds(Elems(t))
    ensures Distinct(t)
  {
    match t
    case Nil =>
    case Node(l, x, k, _, r) =>
      var el, er := Elems(l), Elems(r);
      UniqueSplit(Elems(t), el, Item(x, k), er);
      UniqueDistinct(l);
      UniqueDistinct(r);
      IdsInElems(l);
      IdsInElems(r);
      forall y | y in Ids(l) ensures y !in Ids(r) {
        var j1 :| 0 <= j1 < |el| && el[j1].id == y;
      }
  }

  // ---------------------------------------------------------------------
  // Subtrees and replacement

  lemma {:induction false} SubFacts(t: Tree, y: int)
    requires y in Ids(t)
    ensures Sub(t, y).Node? && Sub(t, y).id == y
    ensures Ids(Sub(t, y)) <= Ids(t)
    ensures Elems(t) == Before(t, y) + Elems(Sub(t, y)) + After(t, y)
    ensures Distinct(t) ==> Distinct(Sub(t, y))
  {
    match t
    case Node(l, i, k, _, r) =>
      if i == y {
      } else if y in Ids(l) {
        SubFacts(l, y);
        Regroup(Before(l, y) + Elems(Sub(l, y)), After(l, y), [Item(i, k)], Elems(r));
      } else {
        SubFacts(r, y);
        Regroup(Elems(l) + [Item(i, k)], Before(r, y), Elems(Sub(r, y)), After(r, y));
      }
  }

  lemma {:induction false} ReplaceElems(t: Tree, y: int, s: Tree)
    requires y in Ids(t)
    ensures Elems(Replace(t, y, s)) == Before(t, y) + Elems(s) + After(t, y)
  {
    match t
    case Node(l, i, k, p, r) =>
      if i == y {
      } else if y in Ids(l) {
        ReplaceElems(l, y, s);
        Regroup(Before(l, y) + Elems(s), After(l, y), [Item(i, k)], Elems(r));
      } else {
        ReplaceElems(r, y, s);
        Regroup(Elems(l) + [Item(i, k)], Before(r, y), Elems(s), After(r, y));
      }
  }

  /** Regrouping a concatenation of four pieces. */
  lemma Regroup(a: seq<Item>, b: seq<Item>, c: seq<Item>, d: seq<Item>)
    ensures a + b + c + d == a + (b + c + d)
    ensures a + (b + c) + d == a + b + c + d
  {
  }

  lemma {:induction false} ReplaceIds(t: Tree, y: int, s: Tree)
    requires y in Ids(t) && Distinct(t) && Distinct(s)
    requires Ids(s) !! (Ids(t) - Ids(Sub(t, y)))
    ensures Distinct(Replace(t, y, s))
    ensures Ids(Replace(t, y, s)) == (Ids(t) - Ids(Sub(t, y))) + Ids(s)
  {
    match t
    case Node(l, i, k, p, r) =>
      if i == y {
      } else if y in Ids(l) {
        SubFacts(l, y);
        SwapSide(Ids(l), {i}, Ids(r), Ids(Sub(l, y)), Ids(s));
        ReplaceIds(l, y, s);
      } else {
        SubFacts(r, y);
        SwapSide(Ids(r), {i}, Ids(l), Ids(Sub(r, y)), Ids(s));
        ReplaceIds(r, y, s);
      }
  }

  /** Replacing the part `u` of one side `a` by `s`, next to the parts `b`
      and `c` that `u` does not meet. */
  lemma SwapSide(a: set<int>, b: set<int>, c: set<int>, u: set<int>, s: set<int>)
    requires u <= a && a !! b && a !! c
    ensures (a - u) + s + b + c == (a + b + c - u) + s
    ensures c + b + ((a - u) + s) == (c + b + a - u) + s
    ensures s !! (a + b + c - u) ==> s !! (a - u) && s !! b && s !! c
    ensures s !! (c + b + a - u) ==> s !! (a - u) && s !! b && s !! c
  {
  }

  /** Nodes of the subtree at `u` have the same subtree in `t` and in it. */
  lemma {:induction false} SubOfSub(t: Tree, u: int, y: int)
    requires Distinct(t) && u in Ids(t) && y in Ids(Sub(t, u))
    ensures Sub(t, y) == Sub(Sub(t, u), y)
  {
    match t
    case Node(l, i, k, p, r) =>
      if i == u {
      } else if u in Ids(l) {
        SubFacts(l, u);
        SubOfSub(l, u, y);
      } else {
        SubFacts(r, u);
        SubOfSub(r, u, y);
      }
  }

  /** A strict ancestor-or-self of `y` is never inside `y`'s subtree. */
  lemma {:induction false} SubChildren(t: Tree, y: int)
    requires Distinct(t) && y in Ids(t)
    ensures Sub(t, y).Node?
    ensures Sub(t, y).left.Node? ==> Sub(t, Sub(t, y).left.id) == Sub(t, y).left
    ensures Sub(t, y).right.Node? ==> Sub(t, Sub(t, y).right.id) == Sub(t, y).right
  {
    SubFacts(t, y);
    var s := Sub(t, y);
    if s.left.Node? {
      SubOfSub(t, y, s.left.id);
    }
    if s.right.Node? {
      SubOfSub(t, y, s.right.id);
    }
  }

  // ---------------------------------------------------------------------
  // Heap order

  lemma {:induction false} HeapWeaken(t: Tree, b: int, b': int)
    requires Heap(t, b) && b <= b'
    ensures Heap(t, b')
  {
  }

  lemma {:induction false} HeapExceptAbsent(t: Tree, b: int, x: int)
    requires x !in Ids(t)
    ensures HeapExcept(t, b, x) == Heap(t, b)
  {
    match t
    case Nil =>
    case Node(l, i, _, p, r) =>
      HeapExceptAbsent(l, p, x);
      HeapExceptAbsent(r, p, x);
  }

  /** Once `x` no longer outranks its parent, heap order holds everywhere. */
  lemma {:induction false} HeapExceptClose(t: Tree, b: int, x: int)
    requires Distinct(t) && x in Ids(t) && HeapExcept(t, b, x)
    requires Sub(t, x).Node? && Sub(t, x).pri <= BoundAt(t, b, x)
    ensures Heap(t, b)
  {
    match t
    case Node(l, i, _, p, r) =>
      if i == x {
        HeapWeaken(l, Min(p, b), p);
        HeapWeaken(r, Min(p, b), p);
      } else if x in Ids(l) {
        HeapExceptClose(l, p, x);
        HeapExceptAbsent(r, p, x);
      } else {
        HeapExceptClose(r, p, x);
        HeapExceptAbsent(l, p, x);
      }
  }

  /** The subtree at `y` keeps the property under its parent's priority. */
  lemma {:induction false} SubHeapExcept(t: Tree, b: int, y: int, x: int)
    requires Distinct(t) && y in Ids(t) && HeapExcept(t, b, x)
    requires x !in Ids(t) - Ids(Sub(t, y))
    ensures HeapExcept(Sub(t, y), BoundAt(t, b, y), x)
  {
    match t
    case Node(l, i, _, p, r) =>
      if i == y {
      } else if y in Ids(l) {
        SubFacts(l, y);
        SubHeapExcept(l, p, y, x);
      } else {
        SubFacts(r, y);
        SubHeapExcept(r, p, y, x);
      }
  }

  lemma {:induction false} ReplaceHeapExcept(t: Tree, b: int, y: int, s: Tree, x: int)
    requires Distinct(t) && y in Ids(t) && HeapExcept(t, b, x)
    requires x !in Ids(t) - Ids(Sub(t, y))
    requires HeapExcept(s, BoundAt(t, b, y), x)
    ensures HeapExcept(Replace(t, y, s), b, x)
  {
    match t
    case Node(l, i, _, p, r) =>
      if i == y {
      } else if y in Ids(l) {
        SubFacts(l, y);
        ReplaceHeapExcept(l, p, y, s, x);
      } else {
        SubFacts(r, y);
        ReplaceHeapExcept(r, p, y, s, x);
      }
  }

  /** A right rotation that lifts `x` over a lower-priority parent keeps the
      single exception at `x`. */
  lemma RotateRightHeap(t: Tree, b: int)
    requires t.Node? && t.left.Node? && Distinct(t)
    requires HeapExcept(t, b, t.left.id) && t.pri < t.left.pri
    ensures HeapExcept(RotateRightTree(t), b, t.left.id)
  {
    var x := t.left.id;
    HeapExceptAbsent(t.right, t.pri, x);
    HeapWeaken(t.left.left, t.pri, Min(t.left.pri, b));
  }

  lemma RotateLeftHeap(t: Tree, b: int)
    requires t.Node? && t.right.Node? && Distinct(t)
    requires HeapExcept(t, b, t.right.id) && t.pri < t.right.pri
    ensures HeapExcept(RotateLeftTree(t), b, t.right.id)
  {
    var x := t.right.id;
    HeapExceptAbsent(t.left, t.pri, x);
    HeapWeaken(t.right.right, t.pri, Min(t.right.pri, b));
  }

  // ---------------------------------------------------------------------
  // Merge

  lemma MergeTreeFacts(l: Tree, r: Tree, b: int)
    ensures Elems(MergeTree(l, r)) == Elems(l) + Elems(r)
    ensures Ids(MergeTree(l, r)) == Ids(l) + Ids(r)
    ensures Distinct(l) && Distinct(r) && Ids(l) !! Ids(r) ==> Distinct(MergeTree(l, r))
    ensures Heap(l, b) && Heap(r, b) ==> Heap(MergeTree(l, r), b)
  {
    MergeElems(l, r);
    MergeIds(l, r);
    if Distinct(l) && Distinct(r) && Ids(l) !! Ids(r) {
      MergeDistinct(l, r);
    }
    if Heap(l, b) && Heap(r, b) {
      MergeHeap(l, r, b);
    }
  }

  lemma {:induction false} MergeElems(l: Tree, r: Tree)
    ensures Elems(MergeTree(l, r)) == Elems(l) + Elems(r)
    decreases l, r
  {
    if l.Nil? || r.Nil? {
    } else if l.pri < r.pri {
      MergeElems(l, r.left);
      assert Elems(r) == Elems(r.left) + [Item(r.id, r.key)] + Elems(r.right);
    } else {
      MergeElems(l.right, r);
      assert Elems(l) == Elems(l.left) + [Item(l.id, l.key)] + Elems(l.right);
    }
  }

  lemma {:induction false} MergeIds(l: Tree, r: Tree)
    ensures Ids(MergeTree(l, r)) == Ids(l) + Ids(r)
    decreases l, r
  {
    if l.Nil? || r.Nil? {
    } else if l.pri < r.pri {
      MergeIds(l, r.left);
    } else {
      MergeIds(l.right, r);
    }
  }

  lemma {:induction false} MergeDistinct(l: Tree, r: Tree)
    requires Distinct(l) && Distinct(r) && Ids(l) !! Ids(r)
    ensures Distinct(MergeTree(l, r))
    decreases l, r
  {
    if l.Nil? || r.Nil? {
    } else if l.pri < r.pri {
      MergeDistinct(l, r.left);
      MergeIds(l, r.left);
    } else {
      MergeDistinct(l.right, r);
      MergeIds(l.right, r);
    }
  }

  lemma {:induction false} MergeHeap(l: Tree, r: Tree, b: int)
    requires Heap(l, b) && Heap(r, b)
    ensures Heap(MergeTree(l, r), b)
    decreases l, r
  {
    if l.Nil? || r.Nil? {
    } else if l.pri < r.pri {
      MergeHeap(l, r.left, r.pri);
    } else {
      MergeHeap(l.right, r, l.pri);
    }
  }

  /** A subtree covering the in-order range [lo, hi) splits at its root. */
  lemma SplitRange(e: seq<Item>, lo: int, hi: int, t: Tree)
    requires t.Node? && 0 <= lo <= hi <= |e| && Elems(t) == e[lo..hi]
    ensures lo + |Elems(t.left)| < hi
    ensures e[lo + |Elems(t.left)|] == Item(t.id, t.key)
    ensures Elems(t.left) == e[lo..lo + |Elems(t.left)|]
    ensures Elems(t.right) == e[lo + |Elems(t.left)| + 1..hi]
  {
    var el, er := Elems(t.left), Elems(t.right);
    assert Elems(t) == el + [Item(t.id, t.key)] + er;
    SliceSplit(e, lo, hi, el, Item(t.id, t.key), er);
  }

  lemma SliceSplit(e: seq<Item>, lo: int, hi: int, l: seq<Item>, v: Item, r: seq<Item>)
    requires 0 <= lo <= hi <= |e| && e[lo..hi] == l + [v] + r
    ensures lo + |l| < hi && e[lo + |l|] == v
    ensures e[lo..lo + |l|] == l && e[lo + |l| + 1..hi] == r
  {
    var s := e[lo..hi];
    var m := lo + |l|;
    assert s[|l|] == v;
    assert s[..|l|] == l;
    assert s[|l| + 1..] == r;
    assert e[lo..m] == s[..|l|];
    assert e[m + 1..hi] == s[|l| + 1..];
  }

  // ---------------------------------------------------------------------
  // In-order positions: what iterator ++ and -- must produce

  function FirstId(s: seq<Item>): int {
    if s == [] then HEADER else s[0].id
  }

  function LastId(s: seq<Item>): int {
    if s == [] then HEADER else s[|s| - 1].id
  }

  /** Position of node `x` in `s`, or |s| when it is absent. */
  function IndexOf(s: seq<Item>, x: int): (i: nat)
    ensures i <= |s|
    ensures i < |s| ==> s[i].id == x
    ensures i == |s| ==> forall j :: 0 <= j < |s| ==> s[j].id != x
  {
    if s == [] then 0 else if s[0].id == x then 0 else 1 + IndexOf(s[1..], x)
  }

  lemma IndexOfUnique(s: seq<Item>, i: int)
    requires UniqueIds(s) && 0 <= i < |s|
    ensures IndexOf(s, s[i].id) == i
  {
  }

  /** The in-order successor of node `x`, HEADER (end()) after the last. */
  function Successor(s: seq<Item>, x: int): int {
    var i := IndexOf(s, x);
    if i + 1 < |s| then s[i + 1].id else HEADER
  }

  /** The in-order predecessor of node `x`; the predecessor of end() is the
      last node. */
  function Predecessor(s: seq<Item>, x: int): int {
    if x == HEADER then LastId(s)
    else
      var i := IndexOf(s, x);
      if 0 < i < |s| then s[i - 1].id else HEADER
  }

  /** Applying ++ `n` times. */
  function Advance(s: seq<Item>, x: int, n: nat): int
    decreases n
  {
    if n == 0 then x else Advance(s, Successor(s, x), n - 1)
  }

  /** The first node of a subtree is its root or the first of its left subtree. */
  lemma FirstIdNode(t: Tree)
    requires t.Node?
    ensures FirstId(Elems(t)) == if t.left.Nil? then t.id else FirstId(Elems(t.left))
  {
    assert Elems(t) == Elems(t.left) + [Item(t.id, t.key)] + Elems(t.right);
    if t.left.Node? {
      assert Elems(t.left) == Elems(t.left.left) + [Item(t.left.id, t.left.key)] + Elems(t.left.right);
    }
  }

  /** The last node of a subtree is its root or the last of its right subtree. */
  lemma LastIdNode(t: Tree)
    requires t.Node?
    ensures LastId(Elems(t)) == if t.right.Nil? then t.id else LastId(Elems(t.right))
  {
    assert Elems(t) == Elems(t.left) + [Item(t.id, t.key)] + Elems(t.right);
    if t.right.Node? {
      assert Elems(t.right) == Elems(t.right.left) + [Item(t.right.id, t.right.key)] + Elems(t.right.right);
    }
  }

  /** The last node has no successor: ++ on it reaches end(). */
  lemma LastSuccessor(s: seq<Item>)
    requires UniqueIds(s) && s != []
    ensures Successor(s, LastId(s)) == HEADER
  {
    IndexOfUnique(s, |s| - 1);
  }

  lemma RightSubtreeSuccessor(t: Tree, n: int)
    requires Distinct(t) && n in Ids(t)
    requires Sub(t, n).Node? && Sub(t, n).right.Node?
    ensures Successor(Elems(t), n) == FirstId(Elems(Sub(t, n).right))
  {
    SubFacts(t, n);
    DistinctUnique(t);
    var s := Sub(t, n);
    var e := Elems(t);
    var i := |Before(t, n)| + |Elems(s.left)|;
    assert Elems(s) == Elems(s.left) + [Item(n, s.key)] + Elems(s.right);
    assert e[i].id == n;
    IndexOfUnique(e, i);
    assert e[i + 1] == Elems(s.right)[0];
  }

  /** The neighbours of a node in the in-order sequence of the whole tree. */
  lemma Neighbours(e: seq<Item>, bf: seq<Item>, l: seq<Item>, v: Item, r: seq<Item>, af: seq<Item>)
    requires e == bf + (l + [v] + r) + af
    ensures |bf| + |l| < |e| && e[|bf| + |l|] == v
    ensures |l| > 0 ==> e[|bf| + |l| - 1] == l[|l| - 1]
    ensures |r| > 0 ==> e[|bf| + |l| + 1] == r[0]
  {
    assert e == (bf + l) + [v] + (r + af);
  }

  /** The in-order position of node `g`, with its subtree spelled out. */
  lemma SubSplit(t: Tree, g: int)
    requires g in Ids(t)
    ensures Sub(t, g).Node? && Sub(t, g).id == g
    ensures Elems(t) == Before(t, g) + (Elems(Sub(t, g).left) + [Item(g, Sub(t, g).key)] + Elems(Sub(t, g).right)) + After(t, g)
  {
    SubFacts(t, g);
    var s := Sub(t, g);
    assert Elems(s) == Elems(s.left) + [Item(g, s.key)] + Elems(s.right);
  }

  /** Successor and predecessor read off a known position. */
  lemma SuccessorAt(e: seq<Item>, i: int)
    requires UniqueIds(e) && 0 <= i && i + 1 < |e|
    ensures Successor(e, e[i].id) == e[i + 1].id
  {
    IndexOfUnique(e, i);
  }

  lemma PredecessorAt(e: seq<Item>, i: int)
    requires UniqueIds(e) && 0 < i < |e| && e[i].id != HEADER
    ensures Predecessor(e, e[i].id) == e[i - 1].id
  {
    IndexOfUnique(e, i);
  }

  lemma LeftChildSuccessor(t: Tree, g: int)
    requires Distinct(t) && g in Ids(t)
    requires Sub(t, g).Node? && Sub(t, g).left.Node?
    ensures Successor(Elems(t), LastId(Elems(Sub(t, g).left))) == g
  {
    SubSplit(t, g);
    DistinctUnique(t);
    var s := Sub(t, g);
    var e := Elems(t);
    var el := Elems(s.left);
    assert el == Elems(s.left.left) + [Item(s.left.id, s.left.key)] + Elems(s.left.right);
    Neighbours(e, Before(t, g), el, Item(g, s.key), Elems(s.right), After(t, g));
    SuccessorAt(e, |Before(t, g)| + |el| - 1);
  }

  lemma LeftSubtreePredecessor(t: Tree, n: int)
    requires Distinct(t) && n in Ids(t) && n != HEADER
    requires Sub(t, n).Node? && Sub(t, n).left.Node?
    ensures Predecessor(Elems(t), n) == LastId(Elems(Sub(t, n).left))
  {
    SubSplit(t, n);
    DistinctUnique(t);
    var s := Sub(t, n);
    var e := Elems(t);
    var el := Elems(s.left);
    assert el == Elems(s.left.left) + [Item(s.left.id, s.left.key)] + Elems(s.left.right);
    Neighbours(e, Before(t, n), el, Item(n, s.key), Elems(s.right), After(t, n));
    PredecessorAt(e, |Before(t, n)| + |el|);
  }

  lemma RightChildPredecessor(t: Tree, g: int)
    requires Distinct(t) && g in Ids(t) && HEADER !in Ids(t)
    requires Sub(t, g).Node? && Sub(t, g).right.Node?
    ensures Predecessor(Elems(t), FirstId(Elems(Sub(t, g).right))) == g
  {
    SubSplit(t, g);
    DistinctUnique(t);
    ElemIdsIn(t);
    var s := Sub(t, g);
    var e := Elems(t);
    var er := Elems(s.right);
    assert er == Elems(s.right.left) + [Item(s.right.id, s.right.key)] + Elems(s.right.right);
    Neighbours(e, Before(t, g), Elems(s.left), Item(g, s.key), er, After(t, g));
    PredecessorAt(e, |Before(t, g)| + |Elems(s.left)| + 1);
  }

  /** prev(next(it)) == it, for every node. */
  lemma PredecessorOfSuccessor(s: seq<Item>, x: int)
    requires UniqueIds(s) && forall j :: 0 <= j < |s| ==> s[j].id != HEADER
    requires exists j :: 0 <= j < |s| && s[j].id == x
    ensures Predecessor(s, Successor(s, x)) == x
  {
    var i := IndexOf(s, x);
    if i + 1 < |s| {
      IndexOfUnique(s, i + 1);
    }
  }

  /** next(prev(it)) == it, for every node but the first, and for end(). */
  lemma SuccessorOfPredecessor(s: seq<Item>, x: int)
    requires UniqueIds(s) && forall j :: 0 <= j < |s| ==> s[j].id != HEADER
    requires (x == HEADER && s != []) || exists j :: 0 < j < |s| && s[j].id == x
    ensures Successor(s, Predecessor(s, x)) == x
  {
    if x == HEADER {
      IndexOfUnique(s, |s| - 1);
    } else {
      var j :| 0 < j < |s| && s[j].id == x;
      IndexOfUnique(s, j);
      IndexOfUnique(s, j - 1);
    }
  }

  /** Starting at begin(), the k-th increment reaches the k-th node, and
      exactly |s| increments reach end(): size() == distance(begin, end). */
  lemma {:induction false} AdvanceFromFirst(s: seq<Item>, k: nat)
    requires UniqueIds(s) && k <= |s|
    requires forall j :: 0 <= j < |s| ==> s[j].id != HEADER
    ensures Advance(s, FirstId(s), k) == if k < |s| then s[k].id else HEADER
    ensures Advance(s, FirstId(s), k) == HEADER <==> k == |s|
  {
    if k == 0 {
    } else {
      AdvanceFromFirst(s, k - 1);
      AdvanceStep(s, FirstId(s), k - 1);
      IndexOfUnique(s, k - 1);
    }
  }

  lemma {:induction false} AdvanceStep(s: seq<Item>, x: int, n: nat)
    decreases n
    ensures Advance(s, x, n + 1) == Successor(s, Advance(s, x, n))
  {
    if n > 0 {
      AdvanceStep(s, Successor(s, x), n - 1);
    }
  }

  // ---------------------------------------------------------------------
  // Shape of in-order neighbours

  lemma {:induction false} LastHasNoRight(t: Tree)
    requires Distinct(t) && t.Node?
    ensures Elems(t) != [] && Sub(t, LastId(Elems(t))).Node?
    ensures Sub(t, LastId(Elems(t))).right.Nil?
  {
    var l, i, r := t.left, t.id, t.right;
    assert Elems(t) == Elems(l) + [Item(i, t.key)] + Elems(r);
    if r.Node? {
      LastHasNoRight(r);
      SubRight(t, |Elems(r)| - 1);
      assert LastId(Elems(t)) == LastId(Elems(r));
    }
  }

  lemma {:induction false} FirstHasNoLeft(t: Tree)
    requires Distinct(t) && t.Node?
    ensures Elems(t) != [] && Sub(t, FirstId(Elems(t))).Node?
    ensures Sub(t, FirstId(Elems(t))).left.Nil?
  {
    var l, i, r := t.left, t.id, t.right;
    assert Elems(t) == Elems(l) + [Item(i, t.key)] + Elems(r);
    if l.Node? {
      FirstHasNoLeft(l);
      SubLeft(t, 0);
      assert FirstId(Elems(t)) == FirstId(Elems(l));
    }
  }

  /** Of two in-order neighbours, the first has no right child or the second
      has no left child: one of them is a leaf-side slot for a new node. */
  lemma {:induction false} NeighbourSlots(t: Tree, n: int)
    requires Distinct(t) && 0 <= n < |Elems(t)| - 1
    ensures Sub(t, Elems(t)[n].id).Node? && Sub(t, Elems(t)[n + 1].id).Node?
    ensures Sub(t, Elems(t)[n].id).right.Nil? || Sub(t, Elems(t)[n + 1].id).left.Nil?
  {
    match t
    case Node(l, i, k, _, r) =>
      var e, el, er := Elems(t), Elems(l), Elems(r);
      var m := |el|;
      assert e == el + [Item(i, k)] + er;
      if n + 1 < m {
        assert e[n] == el[n] && e[n + 1] == el[n + 1];
        NeighbourSlots(l, n);
        SubLeft(t, n);
        SubLeft(t, n + 1);
      } else if n + 1 == m {
        assert e[n] == el[n] && e[n + 1].id == i;
        LastHasNoRight(l);
        SubLeft(t, n);
      } else if n == m {
        assert e[n].id == i && e[n + 1] == er[0];
        FirstHasNoLeft(r);
        SubRight(t, 0);
      } else {
        assert e[n] == er[n - m - 1] && e[n + 1] == er[n - m];
        NeighbourSlots(r, n - m - 1);
        SubRight(t, n - m - 1);
        SubRight(t, n - m);
      }
  }

  /** The subtree at the `j`-th node of the left subtree is found there. */
  lemma SubLeft(t: Tree, j: int)
    requires t.Node? && Distinct(t) && 0 <= j < |Elems(t.left)|
    ensures Elems(t.left)[j].id in Ids(t.left)
    ensures Sub(t, Elems(t.left)[j].id) == Sub(t.left, Elems(t.left)[j].id)
  {
    ElemIdsIn(t.left);
  }

  /** The subtree at the `j`-th node of the right subtree is found there. */
  lemma SubRight(t: Tree, j: int)
    requires t.Node? && Distinct(t) && 0 <= j < |Elems(t.right)|
    ensures Elems(t.right)[j].id in Ids(t.right)
    ensures Sub(t, Elems(t.right)[j].id) == Sub(t.right, Elems(t.right)[j].id)
  {
    ElemIdsIn(t.right);
  }
}
