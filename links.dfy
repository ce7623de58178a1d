/** The node arena of a treap and how it realises a `Tree`: every node's
    left/right slots name its children, its par slot names its parent, and
    its key and priority are those the tree records for it. */
module Links {
  import opened Trees

  /** One node of the arena: the record (key and, for the map variant, the
      mapped value), the priority, and the three links.  NIL is nullptr. */
  datatype NodeRec = NodeRec(key: int, val: int, pri: int, left: int, right: int, par: int)

  /** The arena realises `t`, whose root's parent slot is `q`. */
  predicate Linked(t: Tree, q: int, ns: seq<NodeRec>) {
    match t
    case Nil => true
    case Node(l, i, k, p, r) =>
      0 < i < |ns| && ns[i].key == k && ns[i].pri == p && ns[i].par == q &&
      ns[i].left == Root(l) && ns[i].right == Root(r) &&
      Linked(l, i, ns) && Linked(r, i, ns)
  }

  /** The fields a node of `t` is checked on, except its parent link. */
  predicate SameLinks(a: NodeRec, b: NodeRec) {
    a.key == b.key && a.pri == b.pri && a.left == b.left && a.right == b.right
  }

  lemma {:induction false} LinkedIds(t: Tree, q: int, ns: seq<NodeRec>)
    requires Linked(t, q, ns)
    ensures forall j :: j in Ids(t) ==> 0 < j < |ns|
  {
    match t
    case Nil =>
    case Node(l, i, _, _, r) =>
      LinkedIds(l, i, ns);
      LinkedIds(r, i, ns);
  }

  /** Parent consistency on every edge: a child's par names its parent, and
      children and parents of tree nodes are tree nodes (or NIL / `q`). */
  lemma {:induction false} LinkedEdges(t: Tree, q: int, ns: seq<NodeRec>)
    requires Linked(t, q, ns)
    ensures forall j :: j in Ids(t) ==> 0 < j < |ns|
    ensures forall j :: j in Ids(t) && ns[j].left != NIL ==>
              ns[j].left in Ids(t) && ns[ns[j].left].par == j
    ensures forall j :: j in Ids(t) && ns[j].right != NIL ==>
              ns[j].right in Ids(t) && ns[ns[j].right].par == j
    ensures forall j :: j in Ids(t) ==> ns[j].par == q || ns[j].par in Ids(t)
  {
    LinkedIds(t, q, ns);
    match t
    case Nil =>
    case Node(l, i, _, _, r) =>
      LinkedEdges(l, i, ns);
      LinkedEdges(r, i, ns);
  }

  /** Changing nodes outside `t`, and possibly the root's parent link, keeps
      `t` linked. */
  lemma {:induction false} LinkedFrame(t: Tree, q: int, q': int, ns: seq<NodeRec>, ns': seq<NodeRec>)
    requires Distinct(t) && Linked(t, q, ns)
    requires forall j :: j in Ids(t) ==> 0 <= j < |ns| && 0 <= j < |ns'| && SameLinks(ns[j], ns'[j])
    requires forall j :: j in Ids(t) && j != Root(t) ==> 0 <= j < |ns| && 0 <= j < |ns'| && ns'[j].par == ns[j].par
    requires t.Node? ==> 0 <= t.id < |ns'| && ns'[t.id].par == q'
    ensures Linked(t, q', ns')
  {
    match t
    case Nil =>
    case Node(l, i, _, _, r) =>
      LinkedFrame(l, i, i, ns, ns');
      LinkedFrame(r, i, i, ns, ns');
  }

  lemma {:induction false} LinkedKeys(t: Tree, q: int, ns: seq<NodeRec>)
    requires Linked(t, q, ns)
    ensures forall n :: 0 <= n < |Elems(t)| ==>
              0 < Elems(t)[n].id < |ns| && ns[Elems(t)[n].id].key == Elems(t)[n].key
  {
    match t
    case Nil =>
    case Node(l, i, k, _, r) =>
      LinkedKeys(l, i, ns);
      LinkedKeys(r, i, ns);
      var e, el, er := Elems(t), Elems(l), Elems(r);
      forall n | 0 <= n < |e| ensures 0 < e[n].id < |ns| && ns[e[n].id].key == e[n].key {
        if n < |el| { assert e[n] == el[n]; }
        else if n > |el| { assert e[n] == er[n - |el| - 1]; }
      }
  }

  /** The subtree at `y` is linked below `y`'s parent. */
  lemma {:induction false} LinkedSub(t: Tree, q: int, ns: seq<NodeRec>, y: int)
    requires Distinct(t) && Linked(t, q, ns) && y in Ids(t)
    ensures 0 < y < |ns| && Linked(Sub(t, y), ns[y].par, ns)
  {
    LinkedIds(t, q, ns);
    match t
    case Node(l, i, _, _, r) =>
      if i == y {
      } else if y in Ids(l) {
        LinkedSub(l, i, ns, y);
      } else {
        LinkedSub(r, i, ns, y);
      }
  }

  /** The child links of a node name the subtrees below it. */
  lemma ChildSubs(t: Tree, q: int, ns: seq<NodeRec>, m: int)
    requires Distinct(t) && Linked(t, q, ns) && m in Ids(t)
    ensures 0 < m < |ns| && Sub(t, m).Node?
    ensures ns[m].left == Root(Sub(t, m).left) && ns[m].right == Root(Sub(t, m).right)
    ensures ns[m].left != NIL ==> ns[m].left in Ids(t) && Sub(t, ns[m].left) == Sub(t, m).left
    ensures ns[m].right != NIL ==> ns[m].right in Ids(t) && Sub(t, ns[m].right) == Sub(t, m).right
  {
    LinkedSub(t, q, ns, m);
    SubFacts(t, m);
    SubChildren(t, m);
    LinkedEdges(t, q, ns);
  }

  /** Climbing one par link from a node of `t`: either it was the root and
      lands on `q`, or it lands on the node whose left or right subtree it
      roots. */
  lemma ParentOf(t: Tree, q: int, ns: seq<NodeRec>, m: int)
    requires Distinct(t) && Linked(t, q, ns) && m in Ids(t) && q !in Ids(t)
    ensures 0 < m < |ns|
    ensures ns[m].par == q <==> m == Root(t)
    ensures ns[m].par != q ==>
              var g := ns[m].par;
              g in Ids(t) && 0 < g < |ns| && Sub(t, g).Node? &&
              ((ns[g].left == m && ns[g].right != m && Sub(t, g).left == Sub(t, m)) ||
               (ns[g].right == m && ns[g].left != m && Sub(t, g).right == Sub(t, m)))
  {
    LinkedEdges(t, q, ns);
    LinkedSub(t, q, ns, m);
    var g := ns[m].par;
    if m == Root(t) {
    } else {
      RootParentIn(t, q, ns, m);
      ChildSubs(t, q, ns, g);
      SubFacts(t, m);
      SubFacts(t, g);
    }
  }

  lemma {:induction false} RootParentIn(t: Tree, q: int, ns: seq<NodeRec>, m: int)
    requires Distinct(t) && Linked(t, q, ns) && m in Ids(t) && m != Root(t)
    ensures 0 < m < |ns|
    ensures ns[m].par in Ids(t) && 0 < ns[m].par < |ns| && (ns[ns[m].par].left == m || ns[ns[m].par].right == m)
  {
    LinkedIds(t, q, ns);
    match t
    case Node(l, i, _, _, r) =>
      if m in Ids(l) {
        if m != Root(l) { RootParentIn(l, i, ns, m); }
      } else {
        if m != Root(r) { RootParentIn(r, i, ns, m); }
      }
  }

  /** The heap bound on `y` is its parent's priority. */
  lemma {:induction false} BoundAtParent(t: Tree, q: int, ns: seq<NodeRec>, y: int)
    requires Distinct(t) && Linked(t, q, ns) && y in Ids(t) && 0 <= q < |ns|
    ensures 0 < y < |ns| && 0 <= ns[y].par < |ns|
    ensures BoundAt(t, ns[q].pri, y) == ns[ns[y].par].pri
  {
    LinkedIds(t, q, ns);
    match t
    case Node(l, i, _, _, r) =>
      if i == y {
      } else if y in Ids(l) {
        BoundAtParent(l, i, ns, y);
      } else {
        BoundAtParent(r, i, ns, y);
      }
  }

  /** Node `j` keeps its key, priority and parent, and a child slot of it
      that held `y` now holds `c`. */
  predicate Spliced(j: int, y: int, c: int, ns: seq<NodeRec>, ns': seq<NodeRec>) {
    0 <= j < |ns| && 0 <= j < |ns'| &&
    ns'[j].key == ns[j].key && ns'[j].pri == ns[j].pri && ns'[j].par == ns[j].par &&
    ns'[j].left == (if ns[j].left == y then c else ns[j].left) &&
    ns'[j].right == (if ns[j].right == y then c else ns[j].right)
  }

  /** A subtree none of whose nodes points at `y` is unaffected by a splice
      at `y`. */
  lemma SpliceFrame(t: Tree, q: int, ns: seq<NodeRec>, ns': seq<NodeRec>, y: int, c: int)
    requires Distinct(t) && Linked(t, q, ns) && y !in Ids(t) && y != NIL
    requires forall j :: j in Ids(t) ==> Spliced(j, y, c, ns, ns')
    ensures Linked(t, q, ns')
  {
    LinkedEdges(t, q, ns);
    forall j | j in Ids(t)
      ensures 0 <= j < |ns| && 0 <= j < |ns'| && SameLinks(ns[j], ns'[j]) && ns'[j].par == ns[j].par
    {
      assert Spliced(j, y, c, ns, ns');
    }
    LinkedFrame(t, q, q, ns, ns');
  }

  /** Splicing a linked subtree `s` in place of the subtree at `y`: the
      nodes outside keep their links, except that whichever of them pointed
      at `y` now points at the root of `s`. */
  lemma {:induction false} ReplaceLinked(t: Tree, q: int, ns: seq<NodeRec>, ns': seq<NodeRec>, y: int, s: Tree)
    requires Distinct(t) && Linked(t, q, ns) && y in Ids(t)
    requires 0 < y < |ns| && Linked(s, ns[y].par, ns')
    requires forall j :: j in Ids(t) - Ids(Sub(t, y)) ==> Spliced(j, y, Root(s), ns, ns')
    ensures Linked(Replace(t, y, s), q, ns')
  {
    match t
    case Node(l, i, k, p, r) =>
      if i == y {
      } else if y in Ids(l) {
        SubFacts(l, y);
        assert Sub(t, y) == Sub(l, y);
        assert y !in Ids(r);
        SpliceFrame(r, i, ns, ns', y, Root(s));
        ReplaceLinked(l, i, ns, ns', y, s);
        assert Spliced(i, y, Root(s), ns, ns');
      } else {
        SubFacts(r, y);
        assert Sub(t, y) == Sub(r, y);
        assert y !in Ids(l);
        SpliceFrame(l, i, ns, ns', y, Root(s));
        ReplaceLinked(r, i, ns, ns', y, s);
        assert Spliced(i, y, Root(s), ns, ns');
      }
  }

  /** `t` is linked below whatever its root's par slot names. */
  predicate Hangs(t: Tree, ns: seq<NodeRec>) {
    t.Nil? || (0 < t.id < |ns| && Linked(t, ns[t.id].par, ns))
  }

  /** The subtrees of a hanging tree hang below its root. */
  lemma HangsChildren(t: Tree, ns: seq<NodeRec>)
    requires t.Node? && Hangs(t, ns)
    ensures Hangs(t.left, ns) && Hangs(t.right, ns)
    ensures ns[t.id].left == Root(t.left) && ns[t.id].right == Root(t.right)
    ensures t.left.Node? ==> ns[t.left.id].par == t.id
    ensures t.right.Node? ==> ns[t.right.id].par == t.id
  {
    assert Linked(t, ns[t.id].par, ns);
    assert Linked(t.left, t.id, ns) && Linked(t.right, t.id, ns);
  }

  /** A node's parent is neither inside its subtree nor one of its children. */
  lemma ParentNotChild(t: Tree, ns: seq<NodeRec>, m: int)
    requires Distinct(t) && Linked(t, HEADER, ns) && m in Ids(t) && HEADER !in Ids(t)
    ensures 0 < m < |ns| && ns[m].par !in Ids(Sub(t, m))
    ensures ns[m].left != ns[m].par && ns[m].right != ns[m].par
  {
    ParentOf(t, HEADER, ns, m);
    ChildSubs(t, HEADER, ns, m);
    SubFacts(t, m);
    var g := ns[m].par;
    var s := Sub(t, m);
    assert Ids(s) == Ids(s.left) + {m} + Ids(s.right);
    if g != HEADER {
      SubFacts(t, g);
      var sg := Sub(t, g);
      assert Ids(sg) == Ids(sg.left) + {g} + Ids(sg.right);
      assert g !in Ids(s);
    }
    if ns[m].left != NIL {
      assert ns[m].left in Ids(s);
    }
    if ns[m].right != NIL {
      assert ns[m].right in Ids(s);
    }
  }

  /** Only a node's parent holds it in a child slot. */
  lemma OnlyParentPoints(t: Tree, q: int, ns: seq<NodeRec>, y: int)
    requires Linked(t, q, ns) && y in Ids(t) && 0 < y < |ns|
    ensures forall j :: j in Ids(t) && 0 <= j < |ns| && (ns[j].left == y || ns[j].right == y) ==> ns[y].par == j
  {
    LinkedEdges(t, q, ns);
  }

  /** The arena after rotate_right at `p`: its left child `c` takes its
      place under `g`, `p` becomes `c`'s right child and adopts `c`'s old
      right subtree (rooted at `b`). */
  predicate RotatedRight(ns: seq<NodeRec>, ns': seq<NodeRec>, p: int, c: int, g: int, b: int) {
    |ns'| == |ns| && 0 < p < |ns| && 0 < c < |ns| && 0 <= g < |ns| && -1 <= b < |ns| &&
    ns'[c] == ns[c].(par := g, right := p) && ns'[p] == ns[p].(par := c, left := b) &&
    (b != NIL ==> ns'[b] == ns[b].(par := p)) &&
    (g != HEADER ==> ns'[g] == if ns[g].left == p then ns[g].(left := c) else ns[g].(right := c)) &&
    forall j :: 0 < j < |ns| && j != g && j != c && j != p && j != b ==> ns'[j] == ns[j]
  }

  predicate RotatedLeft(ns: seq<NodeRec>, ns': seq<NodeRec>, p: int, c: int, g: int, b: int) {
    |ns'| == |ns| && 0 < p < |ns| && 0 < c < |ns| && 0 <= g < |ns| && -1 <= b < |ns| &&
    ns'[c] == ns[c].(par := g, left := p) && ns'[p] == ns[p].(par := c, right := b) &&
    (b != NIL ==> ns'[b] == ns[b].(par := p)) &&
    (g != HEADER ==> ns'[g] == if ns[g].left == p then ns[g].(left := c) else ns[g].(right := c)) &&
    forall j :: 0 < j < |ns| && j != g && j != c && j != p && j != b ==> ns'[j] == ns[j]
  }

  /** The grandparent step of a rotation: the node `r` that held `p` (as
      its root slot when `r` is the header, otherwise as a child) now holds
      `c` there. */
  function Redirected(r: NodeRec, p: int, c: int): NodeRec {
    if r.par == p then r.(par := c) else if r.left == p then r.(left := c) else r.(right := c)
  }

  /** Keys, mapped values and priorities of the first |ns| nodes are as in
      `ns`: only links have changed (and nodes may have been appended). */
  predicate SameRecords(ns: seq<NodeRec>, ns': seq<NodeRec>) {
    |ns| <= |ns'| &&
    forall j :: 0 <= j < |ns| ==> ns'[j].key == ns[j].key && ns'[j].val == ns[j].val && ns'[j].pri == ns[j].pri
  }

  /** The writes of rotate_right, in the order the source makes them, give
      the rotated arena. */
  lemma RotateRightWrites(ns: seq<NodeRec>, ns1: seq<NodeRec>, ns': seq<NodeRec>, p: int, c: int, g: int, b: int)
    requires 0 < p < |ns| && 0 < c < |ns| && 0 <= g < |ns| && p != c && g != p && g != c
    requires b == NIL || (0 < b < |ns| && b != p && b != c && b != g)
    requires ns[g].par == p <==> g == HEADER
    requires g != HEADER ==> ns[g].left == p || ns[g].right == p
    requires ns1 == ns[g := Redirected(ns[g], p, c)]
    requires ns' == if b == NIL then ns1[c := ns1[c].(par := g, right := p)][p := ns1[p].(par := c, left := b)]
                    else ns1[c := ns1[c].(par := g, right := p)][b := ns1[b].(par := p)][p := ns1[p].(par := c, left := b)]
    ensures RotatedRight(ns, ns', p, c, g, b) && SameRecords(ns, ns') && |ns'| == |ns|
    ensures ns'[HEADER] == if g == HEADER then ns[HEADER].(par := c) else ns[HEADER]
  {
  }

  lemma RotateLeftWrites(ns: seq<NodeRec>, ns1: seq<NodeRec>, ns': seq<NodeRec>, p: int, c: int, g: int, b: int)
    requires 0 < p < |ns| && 0 < c < |ns| && 0 <= g < |ns| && p != c && g != p && g != c
    requires b == NIL || (0 < b < |ns| && b != p && b != c && b != g)
    requires ns[g].par == p <==> g == HEADER
    requires g != HEADER ==> ns[g].left == p || ns[g].right == p
    requires ns1 == ns[g := Redirected(ns[g], p, c)]
    requires ns' == if b == NIL then ns1[p := ns1[p].(par := c, right := b)][c := ns1[c].(par := g, left := p)]
                    else ns1[p := ns1[p].(par := c, right := b)][c := ns1[c].(par := g, left := p)][b := ns1[b].(par := p)]
    ensures RotatedLeft(ns, ns', p, c, g, b) && SameRecords(ns, ns') && |ns'| == |ns|
    ensures ns'[HEADER] == if g == HEADER then ns[HEADER].(par := c) else ns[HEADER]
  {
  }

  /** The rotated subtree is linked in the rotated arena. */
  lemma RotateRightLocal(s: Tree, g: int, ns: seq<NodeRec>, ns': seq<NodeRec>)
    requires s.Node? && s.left.Node? && Distinct(s) && Linked(s, g, ns) && g !in Ids(s)
    requires RotatedRight(ns, ns', s.id, s.left.id, g, Root(s.left.right))
    ensures Linked(RotateRightTree(s), g, ns')
  {
    var a, bb, rr := s.left.left, s.left.right, s.right;
    LinkedIds(s, g, ns);
    LinkedFrame(a, s.left.id, s.left.id, ns, ns');
    LinkedFrame(bb, s.left.id, s.id, ns, ns');
    LinkedFrame(rr, s.id, s.id, ns, ns');
  }

  lemma RotateLeftLocal(s: Tree, g: int, ns: seq<NodeRec>, ns': seq<NodeRec>)
    requires s.Node? && s.right.Node? && Distinct(s) && Linked(s, g, ns) && g !in Ids(s)
    requires RotatedLeft(ns, ns', s.id, s.right.id, g, Root(s.right.left))
    ensures Linked(RotateLeftTree(s), g, ns')
  {
    var a, bb, rr := s.left, s.right.left, s.right.right;
    LinkedIds(s, g, ns);
    LinkedFrame(a, s.id, s.id, ns, ns');
    LinkedFrame(bb, s.right.id, s.id, ns, ns');
    LinkedFrame(rr, s.right.id, s.right.id, ns, ns');
  }

  /** Outside the subtree at `p`, only `p`'s parent `g` changes, and only in
      the slot that held `p`. */
  lemma RotateSpliced(t: Tree, ns: seq<NodeRec>, ns': seq<NodeRec>, p: int, c: int, g: int, b: int)
    requires Distinct(t) && Linked(t, HEADER, ns) && HEADER !in Ids(t) && p in Ids(t)
    requires 0 < p < |ns| && g == ns[p].par && c in Ids(Sub(t, p)) && (b == NIL || b in Ids(Sub(t, p)))
    requires |ns'| == |ns|
    requires g != HEADER ==> 0 < g < |ns| && ns'[g] == if ns[g].left == p then ns[g].(left := c) else ns[g].(right := c)
    requires forall j :: 0 < j < |ns| && j != g && j != c && j != p && j != b ==> ns'[j] == ns[j]
    ensures forall j :: j in Ids(t) - Ids(Sub(t, p)) ==> Spliced(j, p, c, ns, ns')
  {
    LinkedIds(t, HEADER, ns);
    OnlyParentPoints(t, HEADER, ns, p);
    SubFacts(t, p);
    if g != HEADER {
      ParentOf(t, HEADER, ns, p);
    }
  }

  /** rotate_right keeps the arena a faithful image of the rotated tree. */
  lemma RotateRightLinked(t: Tree, ns: seq<NodeRec>, ns': seq<NodeRec>, p: int)
    requires Distinct(t) && Linked(t, HEADER, ns) && HEADER !in Ids(t) && p in Ids(t)
    requires 0 < p < |ns| && 0 < ns[p].left < |ns| && 0 <= ns[p].par < |ns|
    requires RotatedRight(ns, ns', p, ns[p].left, ns[p].par, ns[ns[p].left].right)
    ensures Sub(t, p).Node? && Sub(t, p).left.Node?
    ensures Linked(Replace(t, p, RotateRightTree(Sub(t, p))), HEADER, ns')
  {
    var c, g := ns[p].left, ns[p].par;
    ChildSubs(t, HEADER, ns, p);
    ChildSubs(t, HEADER, ns, c);
    ParentNotChild(t, ns, p);
    LinkedSub(t, HEADER, ns, p);
    SubFacts(t, p);
    var s := Sub(t, p);
    assert Ids(s) == Ids(s.left) + {p} + Ids(s.right);
    assert Ids(s.left) == Ids(s.left.left) + {c} + Ids(s.left.right);
    RotateRightLocal(s, g, ns, ns');
    RotateSpliced(t, ns, ns', p, c, g, ns[c].right);
    ReplaceLinked(t, HEADER, ns, ns', p, RotateRightTree(s));
  }

  lemma RotateLeftLinked(t: Tree, ns: seq<NodeRec>, ns': seq<NodeRec>, p: int)
    requires Distinct(t) && Linked(t, HEADER, ns) && HEADER !in Ids(t) && p in Ids(t)
    requires 0 < p < |ns| && 0 < ns[p].right < |ns| && 0 <= ns[p].par < |ns|
    requires RotatedLeft(ns, ns', p, ns[p].right, ns[p].par, ns[ns[p].right].left)
    ensures Sub(t, p).Node? && Sub(t, p).right.Node?
    ensures Linked(Replace(t, p, RotateLeftTree(Sub(t, p))), HEADER, ns')
  {
    var c, g := ns[p].right, ns[p].par;
    ChildSubs(t, HEADER, ns, p);
    ChildSubs(t, HEADER, ns, c);
    ParentNotChild(t, ns, p);
    LinkedSub(t, HEADER, ns, p);
    SubFacts(t, p);
    var s := Sub(t, p);
    assert Ids(s) == Ids(s.left) + {p} + Ids(s.right);
    assert Ids(s.right) == Ids(s.right.left) + {c} + Ids(s.right.right);
    RotateLeftLocal(s, g, ns, ns');
    RotateSpliced(t, ns, ns', p, c, g, ns[c].left);
    ReplaceLinked(t, HEADER, ns, ns', p, RotateLeftTree(s));
  }

  /** What the arena says about a node of the tree: its subtree, key and
      priority. */
  lemma NodeAt(t: Tree, q: int, ns: seq<NodeRec>, m: int)
    requires Distinct(t) && Linked(t, q, ns) && m in Ids(t)
    ensures 0 < m < |ns| && Sub(t, m).Node? && Sub(t, m).id == m
    ensures ns[m].key == Sub(t, m).key && ns[m].pri == Sub(t, m).pri
  {
    LinkedSub(t, q, ns, m);
    SubFacts(t, m);
  }

  /** Appending a record to the arena keeps every tree linked. */
  lemma {:induction false} LinkedAppend(t: Tree, q: int, ns: seq<NodeRec>, r: NodeRec)
    requires Linked(t, q, ns)
    ensures Linked(t, q, ns + [r])
  {
    match t
    case Nil =>
    case Node(l, i, _, _, rr) =>
      assert (ns + [r])[i] == ns[i];
      LinkedAppend(l, i, ns, r);
      LinkedAppend(rr, i, ns, r);
  }

  /** The child `c` of `p` and `c`'s own children are distinct tree nodes. */
  lemma ChildPoints(t: Tree, ns: seq<NodeRec>, p: int, c: int)
    requires Distinct(t) && Linked(t, HEADER, ns) && p in Ids(t)
    requires 0 < p < |ns| && c != NIL && (c == ns[p].left || c == ns[p].right)
    ensures HEADER !in Ids(t) && c in Ids(t) && 0 < c < |ns| && c != p && ns[c].par == p
    ensures Sub(t, p).Node? && ns[p].left == Root(Sub(t, p).left) && ns[p].right == Root(Sub(t, p).right)
    ensures c in Ids(Sub(t, p)) && p in Ids(Sub(t, p))
    ensures ns[c].left == NIL || (0 < ns[c].left < |ns| && ns[c].left != p && ns[c].left != c && ns[c].left in Ids(Sub(t, p)))
    ensures ns[c].right == NIL || (0 < ns[c].right < |ns| && ns[c].right != p && ns[c].right != c && ns[c].right in Ids(Sub(t, p)))
  {
    LinkedIds(t, HEADER, ns);
    ChildSubs(t, HEADER, ns, p);
    SubFacts(t, p);
    var s := Sub(t, p);
    assert Ids(s) == Ids(s.left) + {p} + Ids(s.right);
    ChildSubs(t, HEADER, ns, c);
    SubFacts(t, c);
    LinkedEdges(t, HEADER, ns);
    var sc := Sub(t, c);
    assert Ids(sc) == Ids(sc.left) + {c} + Ids(sc.right);
    assert sc == s.left || sc == s.right;
  }

  /** The parent `g` of a node `p`: the header exactly when `p` is the root,
      which the header recognises by its par slot holding `p`. */
  lemma ParentPoints(t: Tree, ns: seq<NodeRec>, p: int)
    requires Distinct(t) && Linked(t, HEADER, ns) && p in Ids(t)
    requires 0 < |ns| && ns[HEADER].par == Root(t)
    ensures 0 < p < |ns| && 0 <= ns[p].par < |ns| && ns[p].par !in Ids(Sub(t, p))
    ensures ns[ns[p].par].par == p <==> ns[p].par == HEADER
    ensures ns[p].par != HEADER ==> ns[ns[p].par].left == p || ns[ns[p].par].right == p
  {
    LinkedIds(t, HEADER, ns);
    ParentNotChild(t, ns, p);
    ParentOf(t, HEADER, ns, p);
    SubFacts(t, p);
    var g := ns[p].par;
    if g != HEADER {
      ParentNotChild(t, ns, g);
      SubFacts(t, g);
      var sg := Sub(t, g);
      assert Ids(sg) == Ids(sg.left) + {g} + Ids(sg.right);
      assert p in Ids(sg);
    }
  }

  // ---------------------------------------------------------------------
  // Pointer slots: the `node *&dst` of assign_and_keep

  /** A reference to a node pointer: a node's left or right child slot, or a
      caller's local variable currently holding `v`. */
  datatype Slot = LeftOf(n: int) | RightOf(n: int) | Local(v: int)

  predicate SlotIn(ns: seq<NodeRec>, dst: Slot) {
    match dst
    case LeftOf(n) => 0 <= n < |ns|
    case RightOf(n) => 0 <= n < |ns|
    case Local(_) => true
  }

  /** The pointer a slot currently holds. */
  function SlotValue(ns: seq<NodeRec>, dst: Slot): int
    requires SlotIn(ns, dst)
  {
    match dst
    case LeftOf(n) => ns[n].left
    case RightOf(n) => ns[n].right
    case Local(v) => v
  }

  /** Storing `v` through the slot (a local slot lives outside the arena). */
  function WriteSlot(ns: seq<NodeRec>, dst: Slot, v: int): (ns': seq<NodeRec>)
    requires SlotIn(ns, dst)
    ensures |ns'| == |ns|
  {
    match dst
    case LeftOf(n) => ns[n := ns[n].(left := v)]
    case RightOf(n) => ns[n := ns[n].(right := v)]
    case Local(_) => ns
  }

  /** Node `c` (unless null) takes `p` as its parent. */
  function Adopt(ns: seq<NodeRec>, c: int, p: int): (ns': seq<NodeRec>)
    requires c == NIL || 0 <= c < |ns|
    ensures |ns'| == |ns|
  {
    if c == NIL then ns else ns[c := ns[c].(par := p)]
  }

  /** Node `n`'s left (or right) child slot holds `c`. */
  function SetChild(ns: seq<NodeRec>, n: int, left: bool, c: int): (ns': seq<NodeRec>)
    requires 0 <= n < |ns|
    ensures |ns'| == |ns|
  {
    if left then ns[n := ns[n].(left := c)] else ns[n := ns[n].(right := c)]
  }

  /** The arena after assign_and_keep(dst, src, par).  A slot holding null
      is overwritten and `src` adopted by `par`; under the header the root
      slot is rewritten too; otherwise whichever child slot of `par` held the
      old pointer is redirected to `src`. */
  function Kept(ns: seq<NodeRec>, dst: Slot, src: int, par: int): (ns': seq<NodeRec>)
    requires SlotIn(ns, dst) && 0 <= par < |ns| && (src == NIL || 0 <= src < |ns|)
    ensures |ns'| == |ns|
  {
    var d := SlotValue(ns, dst);
    var ns1 := WriteSlot(ns, dst, src);
    if d == NIL then Adopt(ns1, src, par)
    else if par == HEADER then
      var ns2 := Adopt(ns1, src, HEADER);
      ns2[HEADER := ns2[HEADER].(par := src)]
    else Adopt(SetChild(ns1, par, ns[par].left == d, src), src, par)
  }

  /** The header is not a tree node: rewriting its slots keeps a tree linked. */
  lemma LinkedHeader(t: Tree, ns: seq<NodeRec>, r: NodeRec)
    requires Distinct(t) && Linked(t, HEADER, ns) && 0 < |ns|
    ensures Linked(t, HEADER, ns[HEADER := r])
  {
    LinkedIds(t, HEADER, ns);
    LinkedFrame(t, HEADER, HEADER, ns, ns[HEADER := r]);
  }

  /** Re-pointing a child slot and a parent slot changes no record. */
  lemma RelinkRecords(ns: seq<NodeRec>, n: int, left: bool, c: int, p: int)
    requires 0 <= n < |ns| && (c == NIL || 0 <= c < |ns|)
    ensures SameRecords(ns, Adopt(SetChild(ns, n, left, c), c, p))
  {
  }

  /** For a node's own child slot, assign_and_keep just re-points the slot
      and has the new child adopt the node: the child slot of `n` that held
      the old pointer is the one named. */
  lemma KeptChild(ns: seq<NodeRec>, n: int, left: bool, src: int)
    requires 0 < n < |ns| && (src == NIL || 0 <= src < |ns|)
    requires !left && ns[n].right != NIL ==> ns[n].left != ns[n].right
    ensures Kept(ns, if left then LeftOf(n) else RightOf(n), src, n) == Adopt(SetChild(ns, n, left, src), src, n)
  {
  }

  /** assign_and_keep through a caller's local pointer holding node `v`:
      only `src`, `par` and the header can change, as follows. */
  lemma KeptLocal(ns: seq<NodeRec>, v: int, src: int, par: int)
    requires 0 < |ns| && 0 <= par < |ns| && (src == NIL || 0 < src < |ns|) && v != NIL && src != par
    ensures var ns' := Kept(ns, Local(v), src, par);
            |ns'| == |ns| &&
            (forall j :: 0 <= j < |ns| && j != src && j != par && j != HEADER ==> ns'[j] == ns[j]) &&
            (par != HEADER ==> ns'[par] == if ns[par].left == v then ns[par].(left := src) else ns[par].(right := src)) &&
            (src != NIL ==> ns'[src] == ns[src].(par := par)) &&
            ns'[HEADER] == if par == HEADER then ns[HEADER].(par := src) else ns[HEADER]
  {
  }

  /** The arena after assign_and_destroy has detached the old node `d` from
      its children. */
  function Detached(ns: seq<NodeRec>, d: int): (ns': seq<NodeRec>)
    requires 0 <= d < |ns|
    ensures |ns'| == |ns|
  {
    ns[d := ns[d].(left := NIL, right := NIL)]
  }

  /** The header of an empty tree: begin() and rightmost() are end(), no root. */
  function Emptied(ns: seq<NodeRec>): (ns': seq<NodeRec>)
    requires 0 < |ns|
    ensures |ns'| == |ns|
  {
    ns[HEADER := ns[HEADER].(left := HEADER, right := HEADER, par := NIL)]
  }

  /** One step of merge: node `t.id` keeps one subtree and adopts the linked
      tree `mt` as its other child; the result hangs where `t` hung. */
  lemma AdoptLinked(t: Tree, ns: seq<NodeRec>, ns1: seq<NodeRec>, left: bool, mt: Tree)
    requires t.Node? && Distinct(t) && Hangs(t, ns) && Distinct(mt) && Hangs(mt, ns1) && t.id !in Ids(mt)
    requires Ids(mt) !! Ids(if left then t.right else t.left)
    requires |ns1| == |ns|
    requires forall j :: 0 <= j < |ns| && (j == t.id || j in Ids(if left then t.right else t.left)) ==> ns1[j] == ns[j]
    ensures var ns2 := Adopt(SetChild(ns1, t.id, left, Root(mt)), Root(mt), t.id);
            Hangs(if left then Node(mt, t.id, t.key, t.pri, t.right) else Node(t.left, t.id, t.key, t.pri, mt), ns2) &&
            ns2[t.id].par == ns[t.id].par
  {
    var n := t.id;
    var o := if left then t.right else t.left;
    var ns2 := Adopt(SetChild(ns1, n, left, Root(mt)), Root(mt), n);
    LinkedIds(o, n, ns);
    if mt.Node? {
      LinkedIds(mt, ns1[mt.id].par, ns1);
      LinkedFrame(mt, ns1[mt.id].par, n, ns1, ns2);
    }
    LinkedFrame(o, n, n, ns, ns2);
  }
}
