/** The treap engine (bst::impl::treap behind bst::set and bst::map) over
    an arena of nodes addressed by index.  Index 0 is the header: its par
    slot is the root, its left slot the minimum node, its right slot the
    maximum node, and it is the end() position.  Keys and mapped values are
    integers compared with `<`; an iterator is the index of its node. */
module Treaps {
  import opened Trees
  import opened Links
  import opened TreeEdits

  type u32 = x: int | 0 <= x <= UINT32_MAX

  /** Position `i` is where key `k` belongs: every key before it is smaller,
      none from it on is. */
  ghost predicate LowerBoundAt(s: seq<Item>, k: int, i: int) {
    0 <= i <= |s| &&
    (forall j :: 0 <= j < i ==> s[j].key < k) &&
    (forall j :: i <= j < |s| ==> s[j].key >= k)
  }

  /** Position `i` is the first whose key exceeds `k`. */
  ghost predicate UpperBoundAt(s: seq<Item>, k: int, i: int) {
    0 <= i <= |s| &&
    (forall j :: 0 <= j < i ==> s[j].key <= k) &&
    (forall j :: i <= j < |s| ==> s[j].key > k)
  }

  /** The node at in-order position `i`, or end() past the last one. */
  function IdAt(s: seq<Item>, i: int): int
    requires 0 <= i <= |s|
  {
    if i < |s| then s[i].id else HEADER
  }

  /** The state of a lower_bound / upper_bound descent: the current subtree
      `ct` (linked below `q`) covers in-order positions [lo, hi); every key
      before lo is below the bound, every key from hi on is not, and the
      remembered node is the one at hi. */
  ghost predicate Descent(e: seq<Item>, ns: seq<NodeRec>, k: int, upper: bool,
                          ct: Tree, q: int, lo: int, hi: int, r: int) {
    0 <= lo <= hi <= |e| && Elems(ct) == e[lo..hi] && Linked(ct, q, ns) && Ordered(e) &&
    (forall j :: 0 <= j < lo ==> if upper then e[j].key <= k else e[j].key < k) &&
    (forall j :: hi <= j < |e| ==> if upper then e[j].key > k else e[j].key >= k) &&
    r == IdAt(e, hi)
  }

  /** One step of the descent: go left remembering the node when its key is
      not below the bound, otherwise go right. */
  lemma DescentStep(e: seq<Item>, ns: seq<NodeRec>, k: int, upper: bool,
                    ct: Tree, q: int, lo: int, hi: int, r: int)
    requires Descent(e, ns, k, upper, ct, q, lo, hi, r) && ct.Node?
    ensures 0 < ct.id < |ns| && ns[ct.id].key == ct.key
    ensures ns[ct.id].left == Root(ct.left) && ns[ct.id].right == Root(ct.right)
    ensures var m := lo + |Elems(ct.left)|;
            if (if upper then k < ct.key else !(ct.key < k))
            then Descent(e, ns, k, upper, ct.left, ct.id, lo, m, ct.id)
            else Descent(e, ns, k, upper, ct.right, ct.id, m + 1, hi, r)
  {
    SplitRange(e, lo, hi, ct);
    var m := lo + |Elems(ct.left)|;
    OrderedAbove(e, m);
    OrderedBelow(e, m);
  }

  /** A descent starts at the root, covering every position. */
  lemma DescentStart(e: seq<Item>, ns: seq<NodeRec>, k: int, upper: bool, t: Tree)
    requires e == Elems(t) && Linked(t, HEADER, ns) && Ordered(e)
    ensures Descent(e, ns, k, upper, t, HEADER, 0, |e|, HEADER)
  {
    assert e[0..|e|] == e;
  }

  /** An exhausted descent has found the bound. */
  lemma DescentDone(e: seq<Item>, ns: seq<NodeRec>, k: int, upper: bool,
                    q: int, lo: int, hi: int, r: int)
    requires Descent(e, ns, k, upper, Nil, q, lo, hi, r)
    ensures upper ==> UpperBoundAt(e, k, lo) && r == IdAt(e, lo)
    ensures !upper ==> LowerBoundAt(e, k, lo) && r == IdAt(e, lo)
  {
    assert |e[lo..hi]| == 0;
  }

  /** Two linked trees, disjoint, that merge may combine. */
  ghost predicate MergeReady(tl: Tree, tr: Tree, ns: seq<NodeRec>) {
    Hangs(tl, ns) && Hangs(tr, ns) && Distinct(tl) && Distinct(tr) && Ids(tl) !! Ids(tr)
  }

  /** Only nodes in `ids` differ between the two arenas. */
  ghost predicate FramedBy(ns: seq<NodeRec>, ns': seq<NodeRec>, ids: set<int>) {
    |ns'| == |ns| && forall j :: 0 <= j < |ns| && j !in ids ==> ns'[j] == ns[j]
  }

  /** Re-pointing a child slot of `n` and a parent slot of `c` keeps the
      records and stays within the nodes of the two trees. */
  lemma RelinkFramed(ns: seq<NodeRec>, ns1: seq<NodeRec>, n: int, left: bool, c: int, ids: set<int>, ids1: set<int>)
    requires 0 <= n < |ns1| && (c == NIL || 0 <= c < |ns1|) && n in ids && (c == NIL || c in ids)
    requires SameRecords(ns, ns1) && FramedBy(ns, ns1, ids1) && ids1 <= ids
    ensures var ns2 := Adopt(SetChild(ns1, n, left, c), c, n);
            SameRecords(ns, ns2) && FramedBy(ns, ns2, ids)
  {
    RelinkRecords(ns1, n, left, c, n);
  }

  /** One level of merge where rhs wins: it adopts the merge of lhs with its
      old left subtree. */
  lemma MergeStepLeft(tl: Tree, tr: Tree, ns: seq<NodeRec>, ns1: seq<NodeRec>)
    requires MergeReady(tl, tr, ns) && tl.Node? && tr.Node? && tl.pri < tr.pri
    requires Hangs(MergeTree(tl, tr.left), ns1) && SameRecords(ns, ns1)
    requires FramedBy(ns, ns1, Ids(tl) + Ids(tr.left))
    ensures var c := Root(MergeTree(tl, tr.left));
            var ns2 := Adopt(SetChild(ns1, tr.id, true, c), c, tr.id);
            Hangs(MergeTree(tl, tr), ns2) && SameRecords(ns, ns2) && ns2[tr.id].par == ns[tr.id].par &&
            FramedBy(ns, ns2, Ids(tl) + Ids(tr))
  {
    var mt := MergeTree(tl, tr.left);
    LinkedIds(tr, ns[tr.id].par, ns);
    MergeTreeFacts(tl, tr.left, 0);
    assert Ids(tr) == Ids(tr.left) + {tr.id} + Ids(tr.right);
    assert MergeTree(tl, tr) == Node(mt, tr.id, tr.key, tr.pri, tr.right);
    AdoptLinked(tr, ns, ns1, true, mt);
    RelinkFramed(ns, ns1, tr.id, true, Root(mt), Ids(tl) + Ids(tr), Ids(tl) + Ids(tr.left));
  }

  /** One level of merge where lhs wins: it adopts the merge of its old
      right subtree with rhs. */
  lemma MergeStepRight(tl: Tree, tr: Tree, ns: seq<NodeRec>, ns1: seq<NodeRec>)
    requires MergeReady(tl, tr, ns) && tl.Node? && tr.Node? && tl.pri >= tr.pri
    requires Hangs(MergeTree(tl.right, tr), ns1) && SameRecords(ns, ns1)
    requires FramedBy(ns, ns1, Ids(tl.right) + Ids(tr))
    ensures var c := Root(MergeTree(tl.right, tr));
            var ns2 := Adopt(SetChild(ns1, tl.id, false, c), c, tl.id);
            Hangs(MergeTree(tl, tr), ns2) && SameRecords(ns, ns2) && ns2[tl.id].par == ns[tl.id].par &&
            FramedBy(ns, ns2, Ids(tl) + Ids(tr))
  {
    var mt := MergeTree(tl.right, tr);
    LinkedIds(tl, ns[tl.id].par, ns);
    MergeTreeFacts(tl.right, tr, 0);
    assert Ids(tl) == Ids(tl.left) + {tl.id} + Ids(tl.right);
    assert MergeTree(tl, tr) == Node(tl.left, tl.id, tl.key, tl.pri, mt);
    AdoptLinked(tl, ns, ns1, false, mt);
    RelinkFramed(ns, ns1, tl.id, false, Root(mt), Ids(tl) + Ids(tr), Ids(tl.right) + Ids(tr));
  }

  // ---------------------------------------------------------------------
  // Splicing out an erased node

  /** After merge has combined the children of `pos` into a tree rooted at
      `m`, assign_and_destroy through the iterator's own pointer re-points
      the parent's slot (or the header's root slot) at `m` and cuts `pos`
      loose: every node outside the subtree of `pos` is spliced. */
  lemma EraseSpliced(t: Tree, ns: seq<NodeRec>, ns2: seq<NodeRec>, pos: int, m: int)
    requires Distinct(t) && Linked(t, HEADER, ns) && pos in Ids(t) && 0 < |ns| && ns[HEADER].par == Root(t)
    requires Sub(t, pos).Node? && m == Root(MergeTree(Sub(t, pos).left, Sub(t, pos).right))
    requires FramedBy(ns, ns2, Ids(Sub(t, pos).left) + Ids(Sub(t, pos).right))
    ensures 0 < pos < |ns| && 0 <= ns[pos].par < |ns| && (m == NIL || 0 < m < |ns|)
    ensures var nsf := Detached(Kept(ns2, Local(pos), m, ns[pos].par), pos);
            forall j :: j in Ids(t) - Ids(Sub(t, pos)) ==> Spliced(j, pos, m, ns, nsf)
  {
    var s := Sub(t, pos);
    LinkedIds(t, HEADER, ns);
    ParentPoints(t, ns, pos);
    ParentOf(t, HEADER, ns, pos);
    var g := ns[pos].par;
    SubFacts(t, pos);
    assert Ids(s) == Ids(s.left) + {pos} + Ids(s.right);
    MergeTreeFacts(s.left, s.right, 0);
    assert m == NIL || m in Ids(s);
    KeptLocal(ns2, pos, m, g);
    OnlyParentPoints(t, HEADER, ns, pos);
    var nsf := Detached(Kept(ns2, Local(pos), m, g), pos);
    forall j | j in Ids(t) - Ids(s) ensures Spliced(j, pos, m, ns, nsf) {
      assert ns2[j] == ns[j];
    }
  }

  /** The merged children hang below the erased node's parent. */
  lemma EraseMergedLinked(t: Tree, ns: seq<NodeRec>, ns2: seq<NodeRec>, pos: int, m: int)
    requires Distinct(t) && Linked(t, HEADER, ns) && pos in Ids(t) && 0 < |ns| && ns[HEADER].par == Root(t)
    requires Sub(t, pos).Node? && m == Root(MergeTree(Sub(t, pos).left, Sub(t, pos).right))
    requires FramedBy(ns, ns2, Ids(Sub(t, pos).left) + Ids(Sub(t, pos).right))
    requires Hangs(MergeTree(Sub(t, pos).left, Sub(t, pos).right), ns2) && (m != NIL ==> 0 <= m < |ns| && ns2[m].par == ns[m].par)
    ensures 0 < pos < |ns| && 0 <= ns[pos].par < |ns| && (m == NIL || 0 < m < |ns|)
    ensures Linked(MergeTree(Sub(t, pos).left, Sub(t, pos).right), ns[pos].par,
                   Detached(Kept(ns2, Local(pos), m, ns[pos].par), pos))
  {
    var s := Sub(t, pos);
    var mt := MergeTree(s.left, s.right);
    LinkedIds(t, HEADER, ns);
    ParentPoints(t, ns, pos);
    var g := ns[pos].par;
    ChildSubs(t, HEADER, ns, pos);
    SubFacts(t, pos);
    assert Ids(s) == Ids(s.left) + {pos} + Ids(s.right);
    MergeTreeFacts(s.left, s.right, 0);
    if mt.Node? {
      assert m in Ids(s);
      KeptLocal(ns2, pos, m, g);
      var nsf := Detached(Kept(ns2, Local(pos), m, g), pos);
      LinkedSub(t, HEADER, ns, pos);
      HangsChildren(s, ns);
      assert ns2[m].par == pos;
      LinkedIds(mt, pos, ns2);
      LinkedFrame(mt, pos, g, ns2, nsf);
    }
  }

  /** ... and so the arena realises the tree with `pos` erased, whose root
      the header's par slot names. */
  lemma EraseLinked(t: Tree, ns: seq<NodeRec>, ns2: seq<NodeRec>, pos: int, m: int)
    requires Distinct(t) && Linked(t, HEADER, ns) && pos in Ids(t) && 0 < |ns| && ns[HEADER].par == Root(t)
    requires Sub(t, pos).Node? && m == Root(MergeTree(Sub(t, pos).left, Sub(t, pos).right))
    requires FramedBy(ns, ns2, Ids(Sub(t, pos).left) + Ids(Sub(t, pos).right))
    requires Hangs(MergeTree(Sub(t, pos).left, Sub(t, pos).right), ns2) && (m != NIL ==> 0 <= m < |ns| && ns2[m].par == ns[m].par)
    ensures 0 < pos < |ns| && 0 <= ns[pos].par < |ns| && (m == NIL || 0 < m < |ns|)
    ensures var nsf := Detached(Kept(ns2, Local(pos), m, ns[pos].par), pos);
            Linked(EraseNode(t, pos), HEADER, nsf) && nsf[HEADER] == ns[HEADER].(par := Root(EraseNode(t, pos)))
  {
    var s := Sub(t, pos);
    var mt := MergeTree(s.left, s.right);
    EraseSpliced(t, ns, ns2, pos, m);
    EraseMergedLinked(t, ns, ns2, pos, m);
    LinkedIds(t, HEADER, ns);
    ParentPoints(t, ns, pos);
    var g := ns[pos].par;
    var nsf := Detached(Kept(ns2, Local(pos), m, g), pos);
    ReplaceLinked(t, HEADER, ns, nsf, pos, mt);
    EraseHeader(t, ns, ns2, pos, m);
  }

  /** The header's root slot after erase_: the merged children when `pos`
      was the root, otherwise unchanged. */
  lemma EraseHeader(t: Tree, ns: seq<NodeRec>, ns2: seq<NodeRec>, pos: int, m: int)
    requires Distinct(t) && Linked(t, HEADER, ns) && pos in Ids(t) && 0 < |ns| && ns[HEADER].par == Root(t)
    requires Sub(t, pos).Node? && m == Root(MergeTree(Sub(t, pos).left, Sub(t, pos).right))
    requires FramedBy(ns, ns2, Ids(Sub(t, pos).left) + Ids(Sub(t, pos).right))
    ensures 0 < pos < |ns| && 0 <= ns[pos].par < |ns| && (m == NIL || 0 < m < |ns|)
    ensures Detached(Kept(ns2, Local(pos), m, ns[pos].par), pos)[HEADER] == ns[HEADER].(par := Root(EraseNode(t, pos)))
  {
    var s := Sub(t, pos);
    LinkedIds(t, HEADER, ns);
    ParentPoints(t, ns, pos);
    var g := ns[pos].par;
    SubFacts(t, pos);
    assert Ids(s) == Ids(s.left) + {pos} + Ids(s.right);
    MergeTreeFacts(s.left, s.right, 0);
    assert m == NIL || m in Ids(s);
    assert HEADER !in Ids(s);
    assert ns2[HEADER] == ns[HEADER];
    KeptLocal(ns2, pos, m, g);
    if g != HEADER {
      assert pos != Root(t);
    }
  }

  /** After merge, the erased node, its parent and the header still hold
      what assign_and_destroy asserts on entry. */
  lemma DestroyReady(t: Tree, ns: seq<NodeRec>, ns2: seq<NodeRec>, pos: int, m: int)
    requires Distinct(t) && Linked(t, HEADER, ns) && pos in Ids(t) && 0 < |ns| && ns[HEADER].par == Root(t)
    requires Sub(t, pos).Node? && m == Root(MergeTree(Sub(t, pos).left, Sub(t, pos).right))
    requires FramedBy(ns, ns2, Ids(Sub(t, pos).left) + Ids(Sub(t, pos).right))
    ensures 0 < pos < |ns2| && ns2[pos] == ns[pos] && 0 <= ns[pos].par < |ns2|
    ensures var g := ns[pos].par;
            g != pos && m != g && (m == NIL || 0 < m < |ns2|) &&
            (g == HEADER ==> ns2[HEADER].par == pos) &&
            (g != HEADER ==> ns2[g].left == pos || ns2[g].right == pos)
  {
    var s := Sub(t, pos);
    LinkedIds(t, HEADER, ns);
    ParentPoints(t, ns, pos);
    SubFacts(t, pos);
    assert Ids(s) == Ids(s.left) + {pos} + Ids(s.right);
    MergeTreeFacts(s.left, s.right, 0);
    assert m == NIL || m in Ids(s);
    assert HEADER !in Ids(s);
    var g := ns[pos].par;
    assert ns2[g] == ns[g];
  }

  /** erase_ rewrites links only, never a record. */
  lemma EraseRecords(ns: seq<NodeRec>, ns2: seq<NodeRec>, pos: int, m: int, g: int)
    requires 0 < |ns| && |ns2| == |ns| && SameRecords(ns, ns2)
    requires 0 <= g < |ns| && (m == NIL || 0 < m < |ns|) && m != g && 0 <= pos < |ns|
    ensures var nsd := Detached(Kept(ns2, Local(pos), m, g), pos);
            SameRecords(ns, nsd) && SameRecords(ns, Emptied(nsd))
  {
    KeptLocal(ns2, pos, m, g);
  }

  /** Erasing the item at `i` of an ordered sequence leaves no item with its key. */
  lemma RemovedKeyGone(e: seq<Item>, i: int, e': seq<Item>)
    requires Ordered(e) && 0 <= i < |e| && e' == e[..i] + e[i + 1..]
    ensures forall j :: 0 <= j < |e'| ==> e'[j].key != e[i].key
  {
    forall j | 0 <= j < |e'| ensures e'[j].key != e[i].key {
      if j < i {
        assert e'[j] == e[j];
      } else {
        assert e'[j] == e[j + 1];
      }
    }
  }

  /** Where begin() and rightmost() go when the item at `i` is erased: its
      successor becomes the first, its predecessor the last; otherwise they
      stay. */
  lemma RemovedEnds(e: seq<Item>, i: int, e': seq<Item>)
    requires UniqueIds(e) && 0 <= i < |e| && e' == e[..i] + e[i + 1..]
    requires forall j :: 0 <= j < |e| ==> e[j].id != HEADER
    ensures e[i].id == FirstId(e) <==> i == 0
    ensures i == 0 ==> FirstId(e') == Successor(e, e[i].id)
    ensures i > 0 ==> FirstId(e') == FirstId(e)
    ensures i > 0 && Successor(e, e[i].id) == HEADER ==> LastId(e') == Predecessor(e, e[i].id)
    ensures |e| > 1 && Successor(e, e[i].id) != HEADER ==> LastId(e') == LastId(e)
  {
    IndexOfUnique(e, i);
    IndexOfUnique(e, 0);
    if 0 < i {
      assert e'[0] == e[0];
    }
    if i + 1 < |e| {
      assert e'[|e'| - 1] == e[|e| - 1];
    } else if 0 < i {
      assert e'[|e'| - 1] == e[i - 1];
    }
  }

  // ---------------------------------------------------------------------
  // Where a new key goes

  /** `e'` is `e` with the item (x, k) inserted at the place of key `k`. */
  ghost predicate Added(e: seq<Item>, e': seq<Item>, k: int, x: int) {
    exists i :: Fits(e, k, i) && e' == e[..i] + [Item(x, k)] + e[i..]
  }

  /** A key fits at one position only, and only if it is absent. */
  lemma FitsUnique(e: seq<Item>, k: int, i: int, j: int)
    requires Fits(e, k, i) && Fits(e, k, j)
    ensures i == j && forall n :: 0 <= n < |e| ==> e[n].key != k
  {
    if 0 < i {
      assert e[i - 1].key < k;
    }
    if 0 < j {
      assert e[j - 1].key < k;
    }
  }

  /** So the result of inserting a key does not depend on how its position
      was found: with a good hint or by lower_bound. */
  lemma AddedUnique(e: seq<Item>, e1: seq<Item>, e2: seq<Item>, k: int, x: int)
    requires Added(e, e1, k, x) && Added(e, e2, k, x)
    ensures e1 == e2 && (exists j :: 0 <= j < |e1| && e1[j] == Item(x, k))
  {
    var i :| Fits(e, k, i) && e1 == e[..i] + [Item(x, k)] + e[i..];
    var j :| Fits(e, k, j) && e2 == e[..j] + [Item(x, k)] + e[j..];
    FitsUnique(e, k, i, j);
    assert e1[i] == Item(x, k);
  }

  /** lower_bound's position is where an absent key belongs. */
  lemma LowerFits(e: seq<Item>, k: int, i: int)
    requires Ordered(e) && LowerBoundAt(e, k, i) && (i < |e| ==> e[i].key != k)
    ensures Fits(e, k, i)
  {
    forall j | i <= j < |e| ensures k < e[j].key {
      if i < j {
        assert e[i].key < e[j].key;
      }
    }
  }

  /** A hint that is greater than `k` and whose predecessor is smaller is
      where `k` belongs. */
  lemma HintFits(e: seq<Item>, k: int, i: int)
    requires Ordered(e) && 0 <= i <= |e|
    requires i < |e| ==> k < e[i].key
    requires 0 < i ==> e[i - 1].key < k
    ensures Fits(e, k, i)
  {
    forall j | i <= j < |e| ensures k < e[j].key {
      if i < j {
        assert e[i].key < e[j].key;
      }
    }
    forall j | 0 <= j < i ensures e[j].key < k {
      if j < i - 1 {
        assert e[j].key < e[i - 1].key;
      }
    }
  }

  // ---------------------------------------------------------------------
  // insert_

  /** The new node goes to the left of the node at its position when that
      node has no left child. */
  /** An in-order position names a node of the arena, or the header. */
  lemma IdAtRange(t: Tree, ns: seq<NodeRec>, i: int)
    requires Linked(t, HEADER, ns) && 0 < |ns| && 0 <= i <= |Elems(t)|
    ensures 0 <= IdAt(Elems(t), i) < |ns|
  {
    if i < |Elems(t)| {
      ElemIdsIn(t);
      LinkedIds(t, HEADER, ns);
    }
  }

  lemma InsertSlotLeft(t: Tree, ns: seq<NodeRec>, k: int, i: int, pos: int)
    requires Distinct(t) && Linked(t, HEADER, ns) && t.Node? && 0 < |ns| && ns[HEADER].left == FirstId(Elems(t))
    requires Fits(Elems(t), k, i) && pos == IdAt(Elems(t), i)
    requires 0 <= pos < |ns| && ns[pos].left == NIL
    ensures i < |Elems(t)| && Elems(t)[i].id == pos && pos in Ids(t) && 0 < pos < |ns|
  {
    ElemsIds(t);
    LinkedIds(t, HEADER, ns);
    FirstHasNoLeft(t);
    if i == |Elems(t)| {
      assert ns[HEADER].left != NIL;
    }
  }

  /** Otherwise it goes to the right of its in-order predecessor, which has
      no right child; the position is not the first one, so the predecessor
      exists and -- may be applied. */
  lemma InsertSlotRight(t: Tree, ns: seq<NodeRec>, k: int, i: int, pos: int)
    requires Distinct(t) && Linked(t, HEADER, ns) && t.Node? && 0 < |ns| && ns[HEADER].left == FirstId(Elems(t))
    requires Fits(Elems(t), k, i) && pos == IdAt(Elems(t), i)
    requires 0 <= pos < |ns| && ns[pos].left != NIL
    ensures 0 < i && pos != ns[HEADER].left && (pos == HEADER || pos in Ids(t))
    ensures Predecessor(Elems(t), pos) == Elems(t)[i - 1].id
    ensures Elems(t)[i - 1].id in Ids(t) && 0 < Elems(t)[i - 1].id < |ns| && ns[Elems(t)[i - 1].id].right == NIL
  {
    var e := Elems(t);
    LinkedKeys(t, HEADER, ns);
    ElemsIds(t);
    if i < |e| {
      InsertSlotInner(t, ns, i);
    } else {
      LastHasNoRight(t);
    }
    ChildSubs(t, HEADER, ns, e[i - 1].id);
  }

  /** A node with a left child is not the first, and its predecessor has no
      right child. */
  lemma InsertSlotInner(t: Tree, ns: seq<NodeRec>, i: int)
    requires Distinct(t) && Linked(t, HEADER, ns) && 0 <= i < |Elems(t)|
    requires 0 < |ns| && ns[HEADER].left == FirstId(Elems(t))
    requires Elems(t)[i].id in Ids(t) && 0 < Elems(t)[i].id < |ns| && ns[Elems(t)[i].id].left != NIL
    ensures 0 < i && Elems(t)[i].id != ns[HEADER].left
    ensures Predecessor(Elems(t), Elems(t)[i].id) == Elems(t)[i - 1].id
    ensures Sub(t, Elems(t)[i - 1].id).Node? && Sub(t, Elems(t)[i - 1].id).right.Nil?
  {
    var e := Elems(t);
    ChildSubs(t, HEADER, ns, e[i].id);
    FirstHasNoLeft(t);
    DistinctUnique(t);
    IndexOfUnique(e, i);
    NeighbourSlots(t, i - 1);
  }

  /** Hanging the new leaf `x` below `y` and linking it back: the arena
      realises the grafted tree. */
  lemma GraftLinked(t: Tree, ns: seq<NodeRec>, ns': seq<NodeRec>, y: int, left: bool, x: int, k: int, pr: int)
    requires Distinct(t) && Linked(t, HEADER, ns) && y in Ids(t) && x !in Ids(t)
    requires 0 < y < |ns| && 0 < x < |ns| && ns[x].key == k && ns[x].pri == pr
    requires ns[x].left == NIL && ns[x].right == NIL
    requires if left then ns[y].left == NIL else ns[y].right == NIL
    requires ns' == Adopt(SetChild(ns, y, left, x), x, y)
    ensures Sub(t, y).Node? && (if left then Sub(t, y).left.Nil? else Sub(t, y).right.Nil?)
    ensures Linked(Graft(t, y, left, x, k, pr), HEADER, ns') && Root(Graft(t, y, left, x, k, pr)) == Root(t)
  {
    ChildSubs(t, HEADER, ns, y);
    LinkedSub(t, HEADER, ns, y);
    LinkedIds(t, HEADER, ns);
    SubFacts(t, y);
    var s := Sub(t, y);
    var s' := if left then s.(left := Leaf(x, k, pr)) else s.(right := Leaf(x, k, pr));
    assert Ids(s) == Ids(s.left) + {y} + Ids(s.right);
    if left {
      LinkedFrame(s.right, y, y, ns, ns');
    } else {
      LinkedFrame(s.left, y, y, ns, ns');
    }
    assert Linked(s', ns[y].par, ns');
    forall j | j in Ids(t) - Ids(s) ensures Spliced(j, y, y, ns, ns') {
    }
    ReplaceLinked(t, HEADER, ns, ns', y, s');
  }

  /** Everything the graft step of insert_ establishes about the new tree. */
  lemma GraftStep(t: Tree, ns: seq<NodeRec>, ns': seq<NodeRec>, y: int, left: bool, x: int, k: int, pr: int, i: int)
    requires Distinct(t) && Linked(t, HEADER, ns) && Heap(t, UINT32_MAX) && y in Ids(t) && x !in Ids(t)
    requires 0 < y < |ns| && 0 < x < |ns| && ns[x].key == k && ns[x].pri == pr
    requires ns[x].left == NIL && ns[x].right == NIL
    requires if left then ns[y].left == NIL else ns[y].right == NIL
    requires ns' == Adopt(SetChild(ns, y, left, x), x, y)
    requires 0 <= i <= |Elems(t)|
    requires left ==> i < |Elems(t)| && Elems(t)[i].id == y
    requires !left ==> 0 < i && Elems(t)[i - 1].id == y
    ensures var t' := Graft(t, y, left, x, k, pr);
            Distinct(t') && Linked(t', HEADER, ns') && Root(t') == Root(t) && x in Ids(t') &&
            HeapExcept(t', UINT32_MAX, x) &&
            Elems(t') == Elems(t)[..i] + [Item(x, k)] + Elems(t)[i..]
  {
    GraftLinked(t, ns, ns', y, left, x, k, pr);
    GraftFacts(t, y, left, x, k, pr, UINT32_MAX);
    if left {
      GraftLeftElems(t, y, x, k, pr, i);
    } else {
      GraftRightElems(t, y, x, k, pr, i);
    }
  }

  /** Where the minimum and maximum are once `k` is inserted at position
      `i`: the new node exactly when its key is below the old minimum (above
      the old maximum). */
  lemma EndsAfterInsert(e: seq<Item>, k: int, i: int, x: int)
    requires Fits(e, k, i) && e != []
    ensures var e' := e[..i] + [Item(x, k)] + e[i..];
            FirstId(e') == (if k < e[0].key then x else FirstId(e)) &&
            LastId(e') == (if e[|e| - 1].key < k then x else LastId(e))
  {
    var e' := e[..i] + [Item(x, k)] + e[i..];
    if i > 0 {
      assert e'[0] == e[0];
    }
    if i < |e| {
      assert e'[|e'| - 1] == e[|e| - 1];
    }
  }

  /** One pass of the rebalancing loop: a parent of lower priority than
      `x` is a tree node (never the header), and rotating `x` above it moves
      the heap exception up with `x`. */
  lemma SiftStep(t: Tree, ns: seq<NodeRec>, x: int)
    requires Distinct(t) && Linked(t, HEADER, ns) && x in Ids(t) && HeapExcept(t, UINT32_MAX, x)
    requires 0 < x < |ns| && 0 <= ns[x].par < |ns| && ns[x].pri <= UINT32_MAX
    requires ns[HEADER].pri == UINT32_MAX && ns[ns[x].par].pri < ns[x].pri
    ensures var p := ns[x].par;
            p in Ids(t) && 0 < p < |ns| && Sub(t, p).Node? &&
            (ns[p].left == x ==> ns[p].right != x && Sub(t, p).left.Node? && Sub(t, p).left.id == x &&
                                 HeapExcept(RotateRightAt(t, p), UINT32_MAX, x)) &&
            (ns[p].left != x ==> ns[p].right == x && Sub(t, p).right.Node? && Sub(t, p).right.id == x &&
                                 HeapExcept(RotateLeftAt(t, p), UINT32_MAX, x))
  {
    LinkedIds(t, HEADER, ns);
    NodeAt(t, HEADER, ns, x);
    ParentOf(t, HEADER, ns, x);
    var p := ns[x].par;
    NodeAt(t, HEADER, ns, p);
    if ns[p].left == x {
      RotateRightAtHeap(t, UINT32_MAX, p);
    } else {
      RotateLeftAtHeap(t, UINT32_MAX, p);
    }
  }

  // ---------------------------------------------------------------------
  // Rotations on the arena

  /** After the writes of rotate_right the arena realises the rotated tree,
      and the header's root slot names its root. */
  lemma RotateRightShape(t: Tree, ns: seq<NodeRec>, ns': seq<NodeRec>, p: int, c: int)
    requires Distinct(t) && Linked(t, HEADER, ns) && 0 < |ns| && ns[HEADER].par == Root(t) && p in Ids(t)
    requires 0 < p < |ns| && c == ns[p].left && 0 < c < |ns| && 0 <= ns[p].par < |ns|
    requires RotatedRight(ns, ns', p, c, ns[p].par, ns[c].right)
    requires ns'[HEADER] == if ns[p].par == HEADER then ns[HEADER].(par := c) else ns[HEADER]
    ensures var t' := RotateRightAt(t, p);
            Distinct(t') && Linked(t', HEADER, ns') && ns'[HEADER].par == Root(t') &&
            Elems(t') == Elems(t) && Ids(t') == Ids(t) && |Elems(Sub(t', c))| > |Elems(Sub(t, c))|
  {
    ChildPoints(t, ns, p, c);
    ParentOf(t, HEADER, ns, p);
    RotateRightLinked(t, ns, ns', p);
    RotateRightAtShape(t, p);
  }

  lemma RotateLeftShape(t: Tree, ns: seq<NodeRec>, ns': seq<NodeRec>, p: int, c: int)
    requires Distinct(t) && Linked(t, HEADER, ns) && 0 < |ns| && ns[HEADER].par == Root(t) && p in Ids(t)
    requires 0 < p < |ns| && c == ns[p].right && 0 < c < |ns| && 0 <= ns[p].par < |ns|
    requires RotatedLeft(ns, ns', p, c, ns[p].par, ns[c].left)
    requires ns'[HEADER] == if ns[p].par == HEADER then ns[HEADER].(par := c) else ns[HEADER]
    ensures var t' := RotateLeftAt(t, p);
            Distinct(t') && Linked(t', HEADER, ns') && ns'[HEADER].par == Root(t') &&
            Elems(t') == Elems(t) && Ids(t') == Ids(t) && |Elems(Sub(t', c))| > |Elems(Sub(t, c))|
  {
    ChildPoints(t, ns, p, c);
    ParentOf(t, HEADER, ns, p);
    RotateLeftLinked(t, ns, ns', p);
    RotateLeftAtShape(t, p);
  }

  class Treap {
    var nodes: seq<NodeRec>
    var size: nat
    ghost var tree: Tree

    /** Links, parent consistency and the header's root slot. */
    ghost predicate Shape()
      reads this
    {
      |nodes| > 0 && nodes[HEADER].pri == UINT32_MAX && nodes[HEADER].key == 0 &&
      nodes[HEADER].par == Root(tree) && Distinct(tree) && Linked(tree, HEADER, nodes)
    }

    /** BST order, heap order under the header's UINT32_MAX, and the header
        caching the minimum and maximum node (itself when empty).  This is
        what the iterators rely on; it holds even between create_node and
        the linking of the new node. */
    ghost predicate Wired()
      reads this
    {
      Shape() && Ordered(Elems(tree)) && Heap(tree, UINT32_MAX) &&
      nodes[HEADER].left == FirstId(Elems(tree)) && nodes[HEADER].right == LastId(Elems(tree))
    }

    /** The container invariant: wired, and size_ counts the reachable nodes. */
    ghost predicate Valid()
      reads this
    {
      Wired() && size == |Elems(tree)|
    }

    constructor ()
      ensures Valid() && Elems(tree) == [] && size == 0
      ensures nodes[HEADER].left == HEADER && nodes[HEADER].right == HEADER && nodes[HEADER].par == NIL
    {
      nodes := [NodeRec(0, 0, UINT32_MAX, HEADER, HEADER, NIL)];
      size := 0;
      tree := Nil;
    }

    lemma ValidFacts()
      requires Wired()
      ensures forall j :: j in Ids(tree) ==> 0 < j < |nodes|
      ensures forall i :: 0 <= i < |Elems(tree)| ==>
                0 < Elems(tree)[i].id < |nodes| && nodes[Elems(tree)[i].id].key == Elems(tree)[i].key &&
                Elems(tree)[i].id in Ids(tree)
      ensures UniqueIds(Elems(tree))
    {
      LinkedIds(tree, HEADER, nodes);
      LinkedKeys(tree, HEADER, nodes);
      DistinctUnique(tree);
      ElemsIds(tree);
    }

    method Size() returns (n: nat)
      requires Valid()
      ensures n == |Elems(tree)|
    {
      n := size;
    }

    /** empty() is begin() == end(), not size() == 0. */
    method Empty() returns (e: bool)
      requires Valid()
      ensures e <==> Elems(tree) == []
    {
      ValidFacts();
      e := nodes[HEADER].left == HEADER;
    }

    method Begin() returns (it: int)
      requires Valid()
      ensures it == FirstId(Elems(tree))
    {
      it := nodes[HEADER].left;
    }

    method End() returns (it: int)
      ensures it == HEADER
    {
      it := HEADER;
    }

    /** lower_bound: descend from the root, remembering the last node whose
        key is not less than `k`. */
    method LowerBound(k: int) returns (r: int)
      requires Valid()
      ensures exists i :: LowerBoundAt(Elems(tree), k, i) && r == IdAt(Elems(tree), i)
    {
      ghost var e := Elems(tree);
      ghost var ct := tree;
      ghost var q := HEADER;
      ghost var lo, hi := 0, |e|;
      var rt := nodes[HEADER].par;
      r := HEADER;
      DescentStart(e, nodes, k, false, tree);
      while rt != NIL
        invariant Descent(e, nodes, k, false, ct, q, lo, hi, r) && rt == Root(ct)
        decreases ct
      {
        DescentStep(e, nodes, k, false, ct, q, lo, hi, r);
        var m := lo + |Elems(ct.left)|;
        if !(nodes[rt].key < k) {
          r := rt;
          q, ct, hi := rt, ct.left, m;
          rt := nodes[rt].left;
        } else {
          q, ct, lo := rt, ct.right, m + 1;
          rt := nodes[rt].right;
        }
      }
      DescentDone(e, nodes, k, false, q, lo, hi, r);
    }

    /** upper_bound: as lower_bound, remembering nodes whose key exceeds `k`. */
    method UpperBound(k: int) returns (r: int)
      requires Valid()
      ensures exists i :: UpperBoundAt(Elems(tree), k, i) && r == IdAt(Elems(tree), i)
    {
      ghost var e := Elems(tree);
      ghost var ct := tree;
      ghost var q := HEADER;
      ghost var lo, hi := 0, |e|;
      var rt := nodes[HEADER].par;
      r := HEADER;
      DescentStart(e, nodes, k, true, tree);
      while rt != NIL
        invariant Descent(e, nodes, k, true, ct, q, lo, hi, r) && rt == Root(ct)
        decreases ct
      {
        DescentStep(e, nodes, k, true, ct, q, lo, hi, r);
        var m := lo + |Elems(ct.left)|;
        if k < nodes[rt].key {
          r := rt;
          q, ct, hi := rt, ct.left, m;
          rt := nodes[rt].left;
        } else {
          q, ct, lo := rt, ct.right, m + 1;
          rt := nodes[rt].right;
        }
      }
      DescentDone(e, nodes, k, true, q, lo, hi, r);
    }

    /** find: the node holding `k`, or end(). */
    method Find(k: int) returns (r: int)
      requires Valid()
      ensures r == HEADER <==> forall i :: 0 <= i < |Elems(tree)| ==> Elems(tree)[i].key != k
      ensures r != HEADER ==> exists i :: 0 <= i < |Elems(tree)| && Elems(tree)[i] == Item(r, k)
    {
      ValidFacts();
      var lb := LowerBound(k);
      ghost var i :| LowerBoundAt(Elems(tree), k, i) && lb == IdAt(Elems(tree), i);
      if lb != HEADER && nodes[lb].key == k {
        r := lb;
      } else {
        r := HEADER;
      }
    }

    /** Iterator ++ (it != end()): the leftmost node of the right subtree,
        or else the first ancestor reached from a left child. */
    method Next(it: int) returns (r: int)
      requires Wired() && it in Ids(tree)
      ensures r == Successor(Elems(tree), it)
    {
      LinkedIds(tree, HEADER, nodes);
      if nodes[it].right == NIL {
        r := NextUp(it);
      } else {
        r := NextDown(it);
      }
    }

    /** ++ on a node without a right child: climb while coming from a right
        child, then step to the parent; at the maximum the climb ends at the
        header, whose par and right slots then coincide. */
    method NextUp(it: int) returns (r: int)
      requires Wired() && it in Ids(tree) && 0 < it < |nodes| && nodes[it].right == NIL
      ensures r == Successor(Elems(tree), it)
    {
      LinkedIds(tree, HEADER, nodes);
      DistinctUnique(tree);
      ChildSubs(tree, HEADER, nodes, it);
      SubFacts(tree, it);
      var n := it;
      LastIdNode(Sub(tree, it));
      ParentOf(tree, HEADER, nodes, it);
      while nodes[nodes[n].par].right == n
        invariant 0 <= n < |nodes|
        invariant n == HEADER ==> Root(tree) == it && LastId(Elems(tree)) == it
        invariant n != HEADER ==> n in Ids(tree) && LastId(Elems(Sub(tree, n))) == it
        invariant n != HEADER ==> 0 <= nodes[n].par < |nodes|
        decreases if n == HEADER then 0 else |Elems(tree)| - |Elems(Sub(tree, n))| + 1
      {
        ParentOf(tree, HEADER, nodes, n);
        SubFacts(tree, n);
        var g := nodes[n].par;
        if g != HEADER {
          SubFacts(tree, g);
          ParentOf(tree, HEADER, nodes, g);
          LastIdNode(Sub(tree, g));
        }
        n := g;
      }
      UpResult(it, n);
      if nodes[n].par == nodes[n].right {
        return n;
      }
      n := nodes[n].par;
      return n;
    }

    /** Where the climb of ++ stops: at a left child, whose parent is the
        successor, or at the header (the node was the maximum), where the
        header's par and right slots coincide. */
    lemma UpResult(it: int, n: int)
      requires Wired() && it in Ids(tree) && 0 <= n < |nodes|
      requires n == HEADER ==> Root(tree) == it && LastId(Elems(tree)) == it
      requires n != HEADER ==> n in Ids(tree) && LastId(Elems(Sub(tree, n))) == it
      requires 0 <= nodes[n].par < |nodes| && nodes[nodes[n].par].right != n
      ensures (if nodes[n].par == nodes[n].right then n else nodes[n].par) == Successor(Elems(tree), it)
    {
      LinkedIds(tree, HEADER, nodes);
      DistinctUnique(tree);
      if n != HEADER {
        ParentOf(tree, HEADER, nodes, n);
        ChildSubs(tree, HEADER, nodes, n);
        SubFacts(tree, n);
        var g := nodes[n].par;
        if g != HEADER {
          SubFacts(tree, g);
          LeftChildSuccessor(tree, g);
          assert nodes[n].right != g;
        } else {
          LastSuccessor(Elems(tree));
          assert nodes[n].right != HEADER;
        }
      } else {
        LastSuccessor(Elems(tree));
      }
    }

    /** ++ on a node with a right child: the leftmost node of that subtree. */
    method NextDown(it: int) returns (r: int)
      requires Wired() && it in Ids(tree) && 0 < it < |nodes| && nodes[it].right != NIL
      ensures r == Successor(Elems(tree), it)
    {
      LinkedIds(tree, HEADER, nodes);
      DistinctUnique(tree);
      ChildSubs(tree, HEADER, nodes, it);
      SubFacts(tree, it);
      var n := it;
      ghost var target := FirstId(Elems(Sub(tree, it).right));
      n := nodes[n].right;
      while nodes[n].left != NIL
        invariant n in Ids(tree) && 0 < n < |nodes| && Sub(tree, n).Node?
        invariant FirstId(Elems(Sub(tree, n))) == target
        decreases |Elems(Sub(tree, n))|
      {
        ChildSubs(tree, HEADER, nodes, n);
        SubFacts(tree, n);
        FirstIdNode(Sub(tree, n));
        n := nodes[n].left;
      }
      ChildSubs(tree, HEADER, nodes, n);
      SubFacts(tree, n);
      FirstIdNode(Sub(tree, n));
      RightSubtreeSuccessor(tree, it);
      r := n;
    }

    /** Iterator -- (it != begin()): the rightmost node of the left subtree,
        or else the first ancestor reached from a right child.  At end() the
        header's left slot is the minimum, not a child: if the minimum is not
        the root, the header's right slot (the maximum) is the answer;
        otherwise the walk descends from the root. */
    method Prev(it: int) returns (r: int)
      requires Wired() && (it == HEADER || it in Ids(tree)) && it != nodes[HEADER].left
      ensures r == Predecessor(Elems(tree), it)
    {
      ValidFacts();
      var n := it;
      if nodes[n].left == NIL {
        ChildSubs(tree, HEADER, nodes, it);
        SubFacts(tree, it);
        FirstIdNode(Sub(tree, it));
        ParentOf(tree, HEADER, nodes, it);
        while nodes[nodes[n].par].left == n
          invariant n in Ids(tree) && 0 < n < |nodes| && 0 <= nodes[n].par < |nodes|
          invariant Sub(tree, n).Node? && FirstId(Elems(Sub(tree, n))) == it
          invariant nodes[n].par != HEADER
          decreases |Elems(tree)| - |Elems(Sub(tree, n))|
        {
          var g := nodes[n].par;
          ParentOf(tree, HEADER, nodes, n);
          SubFacts(tree, g);
          FirstIdNode(Sub(tree, g));
          ParentOf(tree, HEADER, nodes, g);
          n := g;
        }
        ParentOf(tree, HEADER, nodes, n);
        SubFacts(tree, nodes[n].par);
        RightChildPredecessor(tree, nodes[n].par);
        n := nodes[n].par;
        return n;
      }
      LinkedEdges(tree, HEADER, nodes);
      if nodes[nodes[n].left].par != n {
        ParentOf(tree, HEADER, nodes, nodes[n].left);
        n := nodes[n].right;
        return n;
      }
      ghost var target: int;
      if it == HEADER {
        target := LastId(Elems(tree));
        ParentOf(tree, HEADER, nodes, nodes[HEADER].left);
        assert Sub(tree, nodes[HEADER].left) == tree;
      } else {
        ChildSubs(tree, HEADER, nodes, it);
        LeftSubtreePredecessor(tree, it);
        target := LastId(Elems(Sub(tree, it).left));
      }
      n := nodes[n].left;
      ChildSubs(tree, HEADER, nodes, n);
      while nodes[n].right != NIL
        invariant n in Ids(tree) && 0 < n < |nodes| && Sub(tree, n).Node?
        invariant LastId(Elems(Sub(tree, n))) == target
        decreases |Elems(Sub(tree, n))|
      {
        ChildSubs(tree, HEADER, nodes, n);
        SubFacts(tree, n);
        LastIdNode(Sub(tree, n));
        n := nodes[n].right;
      }
      ChildSubs(tree, HEADER, nodes, n);
      SubFacts(tree, n);
      LastIdNode(Sub(tree, n));
      r := n;
    }
 
    /** rotate_right(par, child): the left child `c` of `p` takes `p`'s place
        under `p`'s parent (or as the root), `p` becomes `c`'s right child
        and adopts `c`'s old right subtree. */
    method RotateRight(p: int, c: int)
      requires Shape() && p in Ids(tree) && 0 < p < |nodes| && c == nodes[p].left && 0 < c < |nodes|
      modifies this
      ensures Shape() && tree == RotateRightAt(old(tree), p) && Elems(tree) == old(Elems(tree))
      ensures Ids(tree) == old(Ids(tree)) && |Elems(Sub(tree, c))| > old(|Elems(Sub(tree, c))|)
      ensures size == old(size)
      ensures SameRecords(old(nodes), nodes) && |nodes| == old(|nodes|)
      ensures RotatedRight(old(nodes), nodes, p, c, old(nodes[p].par), old(nodes[c].right))
      ensures nodes[HEADER] == if old(nodes[p].par) == HEADER then old(nodes[HEADER]).(par := c)
                               else old(nodes[HEADER])
    {
      ghost var t, ns := tree, nodes;
      ChildPoints(tree, nodes, p, c);
      ParentPoints(tree, nodes, p);
      var g := nodes[p].par;
      var b := nodes[c].right;
      if nodes[g].par == p {
        nodes := nodes[g := nodes[g].(par := c)];
      } else if nodes[g].left == p {
        nodes := nodes[g := nodes[g].(left := c)];
      } else {
        nodes := nodes[g := nodes[g].(right := c)];
      }
      ghost var ns1 := nodes;
      assert ns1 == ns[g := Redirected(ns[g], p, c)];
      if b == NIL {
        nodes := nodes[c := nodes[c].(par := g, right := p)][p := nodes[p].(par := c, left := b)];
      } else {
        nodes := nodes[c := nodes[c].(par := g, right := p)][b := nodes[b].(par := p)][p := nodes[p].(par := c, left := b)];
      }
      RotateRightWrites(ns, ns1, nodes, p, c, g, b);
      RotateRightShape(t, ns, nodes, p, c);
      tree := RotateRightAt(t, p);
    }

    /** rotate_left(par, child): the mirror image of rotate_right. */
    method RotateLeft(p: int, c: int)
      requires Shape() && p in Ids(tree) && 0 < p < |nodes| && c == nodes[p].right && 0 < c < |nodes|
      modifies this
      ensures Shape() && tree == RotateLeftAt(old(tree), p) && Elems(tree) == old(Elems(tree))
      ensures Ids(tree) == old(Ids(tree)) && |Elems(Sub(tree, c))| > old(|Elems(Sub(tree, c))|)
      ensures size == old(size)
      ensures SameRecords(old(nodes), nodes) && |nodes| == old(|nodes|)
      ensures RotatedLeft(old(nodes), nodes, p, c, old(nodes[p].par), old(nodes[c].left))
      ensures nodes[HEADER] == if old(nodes[p].par) == HEADER then old(nodes[HEADER]).(par := c)
                               else old(nodes[HEADER])
    {
      ghost var t, ns := tree, nodes;
      ChildPoints(tree, nodes, p, c);
      ParentPoints(tree, nodes, p);
      var g := nodes[p].par;
      var b := nodes[c].left;
      if nodes[g].par == p {
        nodes := nodes[g := nodes[g].(par := c)];
      } else if nodes[g].left == p {
        nodes := nodes[g := nodes[g].(left := c)];
      } else {
        nodes := nodes[g := nodes[g].(right := c)];
      }
      ghost var ns1 := nodes;
      assert ns1 == ns[g := Redirected(ns[g], p, c)];
      if b == NIL {
        nodes := nodes[p := nodes[p].(par := c, right := b)][c := nodes[c].(par := g, left := p)];
      } else {
        nodes := nodes[p := nodes[p].(par := c, right := b)][c := nodes[c].(par := g, left := p)][b := nodes[b].(par := p)];
      }
      RotateLeftWrites(ns, ns1, nodes, p, c, g, b);
      RotateLeftShape(t, ns, nodes, p, c);
      tree := RotateLeftAt(t, p);
    }
 
    /** create_node: a new unlinked node at the end of the arena; size_ is
        incremented at once, before the node is reachable. */
    method CreateNode(k: int, v: int, pr: u32) returns (x: int)
      requires Wired()
      modifies this
      ensures Wired() && tree == old(tree) && size == old(size) + 1
      ensures x == old(|nodes|) && nodes == old(nodes) + [NodeRec(k, v, pr, NIL, NIL, NIL)]
      ensures x !in Ids(tree)
    {
      LinkedIds(tree, HEADER, nodes);
      LinkedAppend(tree, HEADER, nodes, NodeRec(k, v, pr, NIL, NIL, NIL));
      nodes := nodes + [NodeRec(k, v, pr, NIL, NIL, NIL)];
      size := size + 1;
      x := |nodes| - 1;
    }

    /** The rebalancing loop of insert_: while the new node `x` outranks its
        parent, rotate it above the parent.  The comparison is strict and the
        header's priority is UINT32_MAX, so the header is never rotated. */
    method SiftUp(x: int)
      requires Shape() && x in Ids(tree) && 0 < x < |nodes| && nodes[x].pri <= UINT32_MAX
      requires HeapExcept(tree, UINT32_MAX, x)
      modifies this
      ensures Shape() && Heap(tree, UINT32_MAX) && Elems(tree) == old(Elems(tree))
      ensures size == old(size) && |nodes| == old(|nodes|) && SameRecords(old(nodes), nodes)
      ensures nodes[HEADER].left == old(nodes[HEADER].left) && nodes[HEADER].right == old(nodes[HEADER].right)
    {
      ghost var e := Elems(tree);
      ParentPoints(tree, nodes, x);
      SubFacts(tree, x);
      var par := nodes[x].par;
      while nodes[par].pri < nodes[x].pri
        invariant Shape() && x in Ids(tree) && Elems(tree) == e && HeapExcept(tree, UINT32_MAX, x)
        invariant 0 < x < |nodes| && 0 <= par < |nodes| && par == nodes[x].par
        invariant size == old(size) && |nodes| == old(|nodes|) && SameRecords(old(nodes), nodes)
        invariant nodes[HEADER].left == old(nodes[HEADER].left) && nodes[HEADER].right == old(nodes[HEADER].right)
        invariant |Elems(Sub(tree, x))| <= |e|
        decreases |e| - |Elems(Sub(tree, x))|
      {
        SiftStep(tree, nodes, x);
        if nodes[par].left == x {
          RotateRight(par, x);
        } else {
          RotateLeft(par, x);
        }
        ParentPoints(tree, nodes, x);
        SubFacts(tree, x);
        par := nodes[x].par;
      }
      NodeAt(tree, HEADER, nodes, x);
      BoundAtParent(tree, HEADER, nodes, x);
      HeapExceptClose(tree, UINT32_MAX, x);
    }
 
    /** The linking step of insert_ on a non-empty treap: the new node `x`
        becomes the left child of `pos` when that slot is free (`pos` is then
        a node), and otherwise the right child of prev(pos). */
    method LinkLeaf(pos: int, x: int, ghost k: int, ghost i: int)
      requires Wired() && Elems(tree) != [] && Fits(Elems(tree), k, i) && pos == IdAt(Elems(tree), i)
      requires 0 < x < |nodes| && x !in Ids(tree) && nodes[x].key == k && nodes[x].left == NIL && nodes[x].right == NIL
      requires 0 <= pos < |nodes|
      modifies this
      ensures Shape() && x in Ids(tree) && HeapExcept(tree, UINT32_MAX, x)
      ensures Elems(tree) == old(Elems(tree))[..i] + [Item(x, k)] + old(Elems(tree))[i..]
      ensures size == old(size) && |nodes| == old(|nodes|) && SameRecords(old(nodes), nodes)
      ensures nodes[HEADER] == old(nodes[HEADER])
      ensures nodes[x].par == if old(nodes[pos].left) == NIL then pos else Predecessor(old(Elems(tree)), pos)
      ensures tree == Graft(old(tree), nodes[x].par, old(nodes[pos].left) == NIL, x, k, nodes[x].pri)
    {
      ghost var t, ns := tree, nodes;
      IdAtRange(t, ns, i);
      var par: int;
      ghost var left: bool;
      if nodes[pos].left == NIL {
        InsertSlotLeft(t, ns, k, i, pos);
        par := pos;
        left := true;
        nodes := nodes[par := nodes[par].(left := x)];
      } else {
        InsertSlotRight(t, ns, k, i, pos);
        par := Prev(pos);
        left := false;
        nodes := nodes[par := nodes[par].(right := x)];
      }
      nodes := nodes[x := nodes[x].(par := par)];
      RelinkRecords(ns, par, left, x, par);
      GraftStep(t, ns, nodes, par, left, x, k, nodes[x].pri, i);
      tree := Graft(t, par, left, x, k, nodes[x].pri);
    }

    /** The last step of insert_: the header's begin() and rightmost()
        slots move to the new node `x` when its key is a new minimum or
        maximum. */
    method FixEnds(x: int, k: int, ghost e: seq<Item>, ghost i: int)
      requires Shape() && e != [] && Fits(e, k, i) && Elems(tree) == e[..i] + [Item(x, k)] + e[i..]
      requires nodes[HEADER].left == FirstId(e) && nodes[HEADER].right == LastId(e)
      requires 0 < e[0].id < |nodes| && nodes[e[0].id].key == e[0].key
      requires 0 < e[|e| - 1].id < |nodes| && nodes[e[|e| - 1].id].key == e[|e| - 1].key
      modifies this
      ensures Shape() && tree == old(tree) && size == old(size)
      ensures nodes == old(nodes)[HEADER := nodes[HEADER]] && nodes[HEADER].par == old(nodes[HEADER].par)
      ensures SameRecords(old(nodes), nodes) && |nodes| == old(|nodes|)
      ensures nodes[HEADER].left == FirstId(Elems(tree)) && nodes[HEADER].right == LastId(Elems(tree))
    {
      ghost var ns := nodes;
      EndsAfterInsert(e, k, i, x);
      if k < nodes[nodes[HEADER].left].key {
        nodes := nodes[HEADER := nodes[HEADER].(left := x)];
      }
      if nodes[nodes[HEADER].right].key < k {
        nodes := nodes[HEADER := nodes[HEADER].(right := x)];
      }
      LinkedHeader(tree, ns, nodes[HEADER]);
      assert nodes == ns[HEADER := nodes[HEADER]];
    }

    /** insert_(pos, value): `pos` is the position just after where `k`
        belongs.  The new node is linked in as a leaf, rotated up, and the
        header's minimum and maximum are updated. */
    method InsertAt(pos: int, k: int, v: int, pr: u32, ghost i: int) returns (x: int)
      requires Valid() && Fits(Elems(tree), k, i) && pos == IdAt(Elems(tree), i)
      modifies this
      ensures Valid() && x == old(|nodes|) && |nodes| == x + 1
      ensures Elems(tree) == old(Elems(tree))[..i] + [Item(x, k)] + old(Elems(tree))[i..]
      ensures nodes[x].val == v && nodes[x].pri == pr && SameRecords(old(nodes), nodes)
    {
      ghost var e := Elems(tree);
      LinkedKeys(tree, HEADER, nodes);
      x := CreateNode(k, v, pr);
      if nodes[HEADER].left == HEADER {
        nodes := nodes[x := nodes[x].(par := HEADER)];
        nodes := nodes[HEADER := nodes[HEADER].(left := x, right := x, par := x)];
        tree := Leaf(x, k, pr);
        assert Linked(tree, HEADER, nodes);
        return;
      }
      IdAtRange(tree, nodes, i);
      LinkLeaf(pos, x, k, i);
      SiftUp(x);
      FixEnds(x, k, e, i);
      OrderedInsert(e, k, i, x);
    }
 
    /** insert(value): the node already holding `k` (nothing changes), or a
        new node inserted at the lower_bound position. */
    method Insert(k: int, v: int, pr: u32) returns (it: int, inserted: bool)
      requires Valid()
      modifies this
      ensures Valid() && exists j :: 0 <= j < |Elems(tree)| && Elems(tree)[j] == Item(it, k)
      ensures inserted <==> forall j :: 0 <= j < |old(Elems(tree))| ==> old(Elems(tree))[j].key != k
      ensures !inserted ==> nodes == old(nodes) && tree == old(tree) && size == old(size)
      ensures inserted ==> it == old(|nodes|) && |nodes| == it + 1 && Added(old(Elems(tree)), Elems(tree), k, it) &&
                           nodes[it].val == v && nodes[it].pri == pr && SameRecords(old(nodes), nodes)
    {
      ValidFacts();
      ghost var e := Elems(tree);
      var lb := LowerBound(k);
      ghost var i :| LowerBoundAt(e, k, i) && lb == IdAt(e, i);
      if lb != HEADER && nodes[lb].key == k {
        assert e[i] == Item(lb, k);
        return lb, false;
      }
      LowerFits(e, k, i);
      FitsUnique(e, k, i, i);
      it := InsertAt(lb, k, v, pr, i);
      inserted := true;
      assert Elems(tree)[i] == Item(it, k);
    }

    /** The test of insert(hint, value): is `pos` where `k` belongs?  The
        key under end() is the header's own, 0, so a correct end() hint is
        kept only for a negative key. */
    method HintKept(pos: int, k: int) returns (keep: bool, ghost i: int)
      requires Wired() && (pos == HEADER || pos in Ids(tree))
      ensures keep ==> Fits(Elems(tree), k, i) && pos == IdAt(Elems(tree), i)
      ensures ((pos != HEADER || k < 0) &&
               (exists j :: Fits(Elems(tree), k, j) && pos == IdAt(Elems(tree), j))) ==> keep
    {
      ValidFacts();
      ghost var e := Elems(tree);
      ElemsIds(tree);
      i := if pos == HEADER then |e| else IndexOf(e, pos);
      assert pos == IdAt(e, i);
      assert i < |e| ==> nodes[pos].key == e[i].key;
      if 0 < i {
        IndexOfUnique(e, 0);
      }
      keep := k < nodes[pos].key;
      if keep && pos != nodes[HEADER].left {
        var q := Prev(pos);
        assert q == e[i - 1].id;
        keep := nodes[q].key < k;
      }
      if keep {
        HintFits(e, k, i);
      }
      forall j | Fits(e, k, j) && pos == IdAt(e, j) ensures j == i {
        if j < |e| {
          IndexOfUnique(e, j);
        }
      }
    }

    /** insert(hint, value): the hint is kept when `k` sorts just before it,
        otherwise lower_bound is used, as insert(value) does. */
    method InsertHint(pos: int, k: int, v: int, pr: u32) returns (it: int, inserted: bool)
      requires Valid() && (pos == HEADER || pos in Ids(tree))
      modifies this
      ensures Valid() && exists j :: 0 <= j < |Elems(tree)| && Elems(tree)[j] == Item(it, k)
      ensures inserted <==> forall j :: 0 <= j < |old(Elems(tree))| ==> old(Elems(tree))[j].key != k
      ensures !inserted ==> nodes == old(nodes) && tree == old(tree) && size == old(size)
      ensures inserted ==> it == old(|nodes|) && |nodes| == it + 1 && Added(old(Elems(tree)), Elems(tree), k, it) &&
                           nodes[it].val == v && nodes[it].pri == pr && SameRecords(old(nodes), nodes)
    {
      var keep;
      ghost var i;
      keep, i := HintKept(pos, k);
      if !keep {
        it, inserted := Insert(k, v, pr);
        return;
      }
      ghost var e := Elems(tree);
      FitsUnique(e, k, i, i);
      it := InsertAt(pos, k, v, pr, i);
      inserted := true;
      assert Elems(tree)[i] == Item(it, k);
    }
 
    /** operator[]: the node holding `k`; when there is none, one is inserted
        with a value-initialised (0) mapped value. */
    method Index(k: int, pr: u32) returns (it: int)
      requires Valid()
      modifies this
      ensures Valid() && exists j :: 0 <= j < |Elems(tree)| && Elems(tree)[j] == Item(it, k)
      ensures (exists j :: 0 <= j < |old(Elems(tree))| && old(Elems(tree))[j].key == k) ==>
                nodes == old(nodes) && tree == old(tree) && size == old(size)
      ensures (forall j :: 0 <= j < |old(Elems(tree))| ==> old(Elems(tree))[j].key != k) ==>
                it == old(|nodes|) && |nodes| == it + 1 && nodes[it].val == 0 &&
                Added(old(Elems(tree)), Elems(tree), k, it) && SameRecords(old(nodes), nodes)
    {
      it := Find(k);
      if it != HEADER {
        return;
      }
      var ok;
      it, ok := Insert(k, 0, pr);
    }

    /** Assigning through the reference operator[] returns: only the mapped
        value of `it` changes. */
    method SetMapped(it: int, v: int)
      requires Valid() && it in Ids(tree) && 0 < it < |nodes|
      modifies this
      ensures Valid() && tree == old(tree) && size == old(size)
      ensures nodes == old(nodes)[it := old(nodes)[it].(val := v)]
    {
      ValidFacts();
      ghost var ns := nodes;
      nodes := nodes[it := nodes[it].(val := v)];
      LinkedFrame(tree, HEADER, HEADER, ns, nodes);
    }
 
    // -------------------------------------------------------------------
    // erase_ and its helpers

    /** Storing through a pointer reference. */
    method Store(dst: Slot, v: int)
      requires SlotIn(nodes, dst)
      modifies this
      ensures nodes == WriteSlot(old(nodes), dst, v) && tree == old(tree) && size == old(size)
    {
      match dst
      case LeftOf(n) => nodes := nodes[n := nodes[n].(left := v)];
      case RightOf(n) => nodes := nodes[n := nodes[n].(right := v)];
      case Local(_) =>
    }

    /** assign_and_keep(dst, src, par): `src` replaces the pointer in `dst`
        under `par`; the node `dst` held is kept.  The requires are the
        source's own assertions on entry. */
    method AssignAndKeep(dst: Slot, src: int, par: int)
      requires SlotIn(nodes, dst) && 0 <= par < |nodes| && (src == NIL || 0 <= src < |nodes|)
      requires SlotValue(nodes, dst) != HEADER && SlotValue(nodes, dst) != par && src != par
      requires par == HEADER ==> nodes[HEADER].par == SlotValue(nodes, dst)
      requires par != HEADER ==> nodes[par].left == SlotValue(nodes, dst) || nodes[par].right == SlotValue(nodes, dst)
      modifies this
      ensures nodes == Kept(old(nodes), dst, src, par) && tree == old(tree) && size == old(size)
      ensures src != NIL ==> nodes[src].par == par
      ensures SlotValue(old(nodes), dst) != NIL && par != HEADER ==> nodes[par].left == src || nodes[par].right == src
    {
      var d := SlotValue(nodes, dst);
      if d == NIL {
        Store(dst, src);
        if src != NIL {
          nodes := nodes[src := nodes[src].(par := par)];
        }
        return;
      }
      if par == HEADER {
        Store(dst, src);
        if src != NIL {
          nodes := nodes[src := nodes[src].(par := HEADER)];
        }
        nodes := nodes[HEADER := nodes[HEADER].(par := src)];
        return;
      }
      var isLeft := nodes[par].left == d;
      Store(dst, src);
      if isLeft {
        nodes := nodes[par := nodes[par].(left := src)];
      } else {
        nodes := nodes[par := nodes[par].(right := src)];
      }
      if src != NIL {
        nodes := nodes[src := nodes[src].(par := par)];
      }
    }

    /** destroy_node: size_ drops by the number of nodes in the subtree at
        `n`.  Slots are not reclaimed in the arena. */
    method DestroyNode(n: int, ghost t: Tree)
      requires t.Node? && n == t.id && Hangs(t, nodes) && Distinct(t) && size >= |Elems(t)|
      modifies this
      ensures size == old(size) - |Elems(t)| && nodes == old(nodes) && tree == old(tree)
      decreases t
    {
      HangsChildren(t, nodes);
      size := size - 1;
      if nodes[n].left != NIL {
        DestroyNode(nodes[n].left, t.left);
      }
      if nodes[n].right != NIL {
        DestroyNode(nodes[n].right, t.right);
      }
    }

    /** assign_and_destroy(dst, src, par): assign_and_keep, then the old node
        is cut from its children and destroyed; an emptied container gets
        its header reset. */
    method AssignAndDestroy(dst: Slot, src: int, par: int)
      requires SlotIn(nodes, dst) && 0 <= par < |nodes| && (src == NIL || 0 <= src < |nodes|)
      requires 0 < SlotValue(nodes, dst) < |nodes| && SlotValue(nodes, dst) != par && src != par
      requires par == HEADER ==> nodes[HEADER].par == SlotValue(nodes, dst)
      requires par != HEADER ==> nodes[par].left == SlotValue(nodes, dst) || nodes[par].right == SlotValue(nodes, dst)
      requires size >= 1
      modifies this
      ensures tree == old(tree) && size == old(size) - 1
      ensures var ns := Detached(Kept(old(nodes), dst, src, par), SlotValue(old(nodes), dst));
              nodes == if size == 0 then Emptied(ns) else ns
    {
      var d := SlotValue(nodes, dst);
      AssignAndKeep(dst, src, par);
      nodes := nodes[d := nodes[d].(left := NIL, right := NIL)];
      DestroyNode(d, Leaf(d, nodes[d].key, nodes[d].pri));
      if size == 0 {
        nodes := nodes[HEADER := nodes[HEADER].(left := HEADER, right := HEADER, par := NIL)];
      }
    }

    /** merge(lhs, rhs): the treap merge of two linked trees whose keys are
        in order; the root with the higher priority stays on top, ties going
        to the left.  Only nodes of the two trees change; the result hangs
        where its root hung. */
    method Merge(l: int, r: int, ghost tl: Tree, ghost tr: Tree) returns (m: int)
      requires MergeReady(tl, tr, nodes) && l == Root(tl) && r == Root(tr)
      modifies this
      ensures m == Root(MergeTree(tl, tr)) && Hangs(MergeTree(tl, tr), nodes)
      ensures |nodes| == old(|nodes|) && SameRecords(old(nodes), nodes)
      ensures m != NIL ==> nodes[m].par == old(nodes)[m].par
      ensures FramedBy(old(nodes), nodes, Ids(tl) + Ids(tr))
      ensures tree == old(tree) && size == old(size)
      decreases tl, tr
    {
      if l == NIL || r == NIL {
        m := if l != NIL then l else r;
        return;
      }
      ghost var ns := nodes;
      LinkedIds(tl, nodes[l].par, nodes);
      LinkedIds(tr, nodes[r].par, nodes);
      HangsChildren(tl, nodes);
      HangsChildren(tr, nodes);
      if nodes[l].pri < nodes[r].pri {
        var sub := Merge(l, nodes[r].left, tl, tr.left);
        MergeStepLeft(tl, tr, ns, nodes);
        KeptChild(nodes, r, true, sub);
        AssignAndKeep(LeftOf(r), sub, r);
        m := r;
      } else {
        var sub := Merge(nodes[l].right, r, tl.right, tr);
        MergeStepRight(tl, tr, ns, nodes);
        KeptChild(nodes, l, false, sub);
        AssignAndKeep(RightOf(l), sub, l);
        m := l;
      }
    }
 
    /** The first half of erase_: ++pos, and begin() or rightmost() moved off
        the node about to go. */
    method EraseEnds(pos: int) returns (next: int)
      requires Wired() && pos in Ids(tree)
      modifies this
      ensures Shape() && tree == old(tree) && size == old(size)
      ensures next == Successor(Elems(tree), pos)
      ensures var e := Elems(tree);
              var i := IndexOf(e, pos);
              i < |e| && nodes[HEADER].left == FirstId(e[..i] + e[i + 1..]) &&
              (|e| > 1 ==> nodes[HEADER].right == LastId(e[..i] + e[i + 1..]))
      ensures nodes == old(nodes)[HEADER := nodes[HEADER]]
      ensures nodes[HEADER] == old(nodes)[HEADER].(left := nodes[HEADER].left, right := nodes[HEADER].right)
    {
      ghost var i := EndsFacts(pos);
      next := Next(pos);
      var h := nodes[HEADER];
      if pos == h.left {
        h := h.(left := next);
      } else if next == HEADER {
        var p := Prev(pos);
        h := h.(right := p);
      }
      LinkedHeader(tree, nodes, h);
      nodes := nodes[HEADER := h];
    }

    /** Where the node at `pos` sits, and the first and last items once it
        is gone, in terms of the header's cached ends. */
    lemma EndsFacts(pos: int) returns (i: int)
      requires Wired() && pos in Ids(tree)
      ensures 0 <= i < |Elems(tree)| && i == IndexOf(Elems(tree), pos) && Elems(tree)[i].id == pos
      ensures var e := Elems(tree);
              var e' := e[..i] + e[i + 1..];
              (pos == nodes[HEADER].left <==> i == 0) &&
              (i == 0 ==> FirstId(e') == Successor(e, pos)) &&
              (i > 0 ==> FirstId(e') == nodes[HEADER].left) &&
              (i > 0 && Successor(e, pos) == HEADER ==> LastId(e') == Predecessor(e, pos)) &&
              (|e| > 1 && Successor(e, pos) != HEADER ==> LastId(e') == nodes[HEADER].right)
    {
      ValidFacts();
      ElemsIds(tree);
      var e := Elems(tree);
      i := IndexOf(e, pos);
      RemovedEnds(e, i, e[..i] + e[i + 1..]);
    }

    /** What merge and assign_and_destroy demand of the node to erase. */
    lemma UnlinkReady(t: Tree, ns: seq<NodeRec>, pos: int)
      requires Distinct(t) && Linked(t, HEADER, ns) && pos in Ids(t) && 0 < |ns| && ns[HEADER].par == Root(t)
      ensures 0 < pos < |ns| && Sub(t, pos).Node? && 0 <= ns[pos].par < |ns|
      ensures MergeReady(Sub(t, pos).left, Sub(t, pos).right, ns)
      ensures ns[pos].left == Root(Sub(t, pos).left) && ns[pos].right == Root(Sub(t, pos).right)
      ensures ns[pos].par !in Ids(Sub(t, pos).left) + Ids(Sub(t, pos).right) + {pos}
      ensures ns[pos].par == HEADER ==> ns[HEADER].par == pos
      ensures ns[pos].par != HEADER ==> ns[ns[pos].par].left == pos || ns[ns[pos].par].right == pos
    {
      LinkedIds(t, HEADER, ns);
      ChildSubs(t, HEADER, ns, pos);
      LinkedSub(t, HEADER, ns, pos);
      SubFacts(t, pos);
      var s := Sub(t, pos);
      HangsChildren(s, ns);
      ParentPoints(t, ns, pos);
      assert Ids(s) == Ids(s.left) + {pos} + Ids(s.right);
    }

    /** The second half of erase_: the merged children of `pos` take its
        place and `pos` is destroyed. */
    method Unlink(pos: int)
      requires Shape() && Heap(tree, UINT32_MAX) && pos in Ids(tree) && size == |Elems(tree)|
      modifies this
      ensures Shape() && tree == EraseNode(old(tree), pos) && size == old(size) - 1
      ensures size == 0 ==> nodes[HEADER].left == HEADER && nodes[HEADER].right == HEADER
      ensures size > 0 ==> nodes[HEADER].left == old(nodes[HEADER].left) && nodes[HEADER].right == old(nodes[HEADER].right)
      ensures |nodes| == old(|nodes|) && SameRecords(old(nodes), nodes)
    {
      ghost var t := tree;
      ghost var ns := nodes;
      ghost var s := Sub(t, pos);
      UnlinkReady(t, ns, pos);
      var m := Merge(nodes[pos].left, nodes[pos].right, s.left, s.right);
      ghost var ns2 := nodes;
      EraseLinked(t, ns, ns2, pos, m);
      EraseRecords(ns, ns2, pos, m, ns[pos].par);
      DestroyReady(t, ns, ns2, pos, m);
      AssignAndDestroy(Local(pos), m, nodes[pos].par);
      tree := EraseNode(t, pos);
      EraseIdsHeap(t, pos, UINT32_MAX);
      EraseSize(t, pos);
      if size == 0 {
        assert tree == Nil;
      }
    }

    /** erase(pos): the item at `pos` leaves the in-order sequence, the
        others keep their order, and the iterator to the following item is
        returned. */
    method EraseAt(pos: int) returns (next: int)
      requires Valid() && pos in Ids(tree)
      modifies this
      ensures Valid()
      ensures var e := old(Elems(tree));
              var i := IndexOf(e, pos);
              i < |e| && Elems(tree) == e[..i] + e[i + 1..] && next == IdAt(Elems(tree), i)
      ensures next == Successor(old(Elems(tree)), pos)
      ensures size == old(size) - 1 && |nodes| == old(|nodes|) && SameRecords(old(nodes), nodes)
    {
      ghost var t := tree;
      ghost var e := Elems(tree);
      ghost var i := EndsFacts(pos);
      next := EraseEnds(pos);
      Unlink(pos);
      EraseFacts(t, pos, UINT32_MAX, i);
      OrderedRemove(e, i);
    }

    /** erase(key): 1 and the item holding `k` removed, or 0 and nothing
        changed when there is none; either way no item holds `k` after. */
    method Erase(k: int) returns (n: nat)
      requires Valid()
      modifies this
      ensures Valid() && n <= 1
      ensures n == 0 <==> forall j :: 0 <= j < |old(Elems(tree))| ==> old(Elems(tree))[j].key != k
      ensures n == 0 ==> nodes == old(nodes) && tree == old(tree) && size == old(size)
      ensures n == 1 ==> exists i :: 0 <= i < |old(Elems(tree))| && old(Elems(tree))[i].key == k &&
                                     Elems(tree) == old(Elems(tree))[..i] + old(Elems(tree))[i + 1..]
      ensures forall j :: 0 <= j < |Elems(tree)| ==> Elems(tree)[j].key != k
    {
      ghost var e := Elems(tree);
      var it := Find(k);
      if it == HEADER {
        return 0;
      }
      ghost var i :| 0 <= i < |e| && e[i] == Item(it, k);
      ElemIdsIn(tree);
      DistinctUnique(tree);
      IndexOfUnique(e, i);
      var _ := EraseAt(it);
      assert Elems(tree) == e[..i] + e[i + 1..];
      assert e[i].key == k;
      RemovedKeyGone(e, i, Elems(tree));
      n := 1;
    }
  }
}
