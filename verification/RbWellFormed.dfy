/** When the fields of one index are in order for a given content, and why each operation keeps them so. */
module RbWellFormed {
  import opened RbShape
  import opened RbHeap
  import B = RbBalance
  import opened RowGroups

  /** The tree holds the heads of the groups, the lists hold the groups, and the nodes of all other rows are clear. */
  ghost predicate Wf(h: Heap, root: Row, lk: Links, t: Tree, gs: Groups) {
    && Zip(h, root, Top, t) && RedBlack(t)
    && Apartness(gs) && Heads(gs) == InOrder(t)
    && Chains(lk, gs)
    && (forall x :: x != NULL && x !in Rows(t) ==> At(h, x) == CLEAR)
    && (forall x :: x != NULL && !In(gs, x) ==> LinkAt(lk, x) == Link(NULL, NULL))
  }

  lemma HeadAt(t: Tree, gs: Groups, x: Row) returns (i: int)
    requires Apartness(gs) && Heads(gs) == InOrder(t) && x in Rows(t)
    ensures 0 <= i < |gs| && gs[i][0] == x
  {
    RowsInOrder(t);
    i :| 0 <= i < |gs| && InOrder(t)[i] == x;
  }

  /** Where a linked row is, and what its fields then are. */
  lemma PlaceOf(h: Heap, root: Row, lk: Links, t: Tree, gs: Groups, x: Row) returns (i: int, k: int)
    requires Wf(h, root, lk, t, gs) && In(gs, x)
    ensures 0 <= i < |gs| && 0 <= k < |gs[i]| && gs[i][k] == x && x != NULL
    ensures LinkAt(lk, x) == Link(PrevIn(gs[i], k), NextIn(gs[i], k))
    ensures forall j :: 0 <= j < |gs[i]| ==> gs[i][j] != NULL
    ensures k == 0 <==> x in Rows(t)
    ensures k == 0 <==> At(h, x).color != White
  {
    i :| 0 <= i < |gs| && x in gs[i];
    k :| 0 <= k < |gs[i]| && gs[i][k] == x;
    assert Chain(lk, gs[i]) && ChainAt(lk, gs[i], k);
    forall j | 0 <= j < |gs[i]| ensures gs[i][j] != NULL { assert ChainAt(lk, gs[i], j); }
    RowsInOrder(t);
    if x in Rows(t) {
      var i' := HeadAt(t, gs, x);
      assert x in gs[i'];
      HeadColor(h, t, NULL, x);
    } else {
      assert InOrder(t)[i] == gs[i][0];
    }
  }

  lemma {:induction false} HeadColor(h: Heap, t: Tree, par: Row, x: Row)
    requires Rep(h, t, par) && NoRedRed(t) && x in Rows(t)
    ensures At(h, x).color != White && x != NULL
    decreases t
  {
    if x in Rows(t.left) {
      HeadColor(h, t.left, t.row, x);
    } else if x in Rows(t.right) {
      HeadColor(h, t.right, t.row, x);
    }
  }

  // ---------- the groups and the heads ----------

  lemma RemovedTail(gs: Groups, i: int, k: int)
    requires Apartness(gs) && 0 <= i < |gs| && 1 <= k < |gs[i]|
    ensures Apartness(RemovedAt(gs, i, k)) && Heads(RemovedAt(gs, i, k)) == Heads(gs)
  {
    RemovedApart(gs, i, k);
  }

  lemma RemovedHead(gs: Groups, i: int)
    requires Apartness(gs) && 0 <= i < |gs|
    ensures Apartness(RemovedAt(gs, i, 0))
    ensures |gs[i]| > 1 ==> Heads(RemovedAt(gs, i, 0)) == Heads(gs)[i := gs[i][1]]
    ensures |gs[i]| == 1 ==> Heads(RemovedAt(gs, i, 0)) == Heads(gs)[..i] + Heads(gs)[i + 1..]
  {
    RemovedApart(gs, i, 0);
  }

  lemma RemovedChains(lk: Links, lk': Links, gs: Groups, i: int, k: int)
    requires Apartness(gs) && Chains(lk, gs) && 0 <= i < |gs| && 0 <= k < |gs[i]|
    requires Unlinked(lk, lk', gs[i], k)
    ensures Chains(lk', RemovedAt(gs, i, k))
  {
    var gs' := RemovedAt(gs, i, k);
    UnlinkedChain(lk, lk', gs[i], k);
    forall j | 0 <= j < |gs'| ensures Chain(lk', gs'[j]) {
      var j0 := if |gs[i]| == 1 && j >= i then j + 1 else j;
      if j0 != i {
        OtherGroup(gs, i, j0);
        SameChain(lk, lk', gs[j0]);
      }
    }
  }

  lemma OtherGroup(gs: Groups, i: int, j: int)
    requires Apartness(gs) && 0 <= i < |gs| && 0 <= j < |gs| && i != j
    ensures forall x :: x in gs[j] ==> x !in gs[i]
  {}

  lemma WfRemoved(h': Heap, root': Row, lk: Links, lk': Links, t': Tree, gs: Groups, i: int, k: int)
    requires Apartness(gs) && Chains(lk, gs) && 0 <= i < |gs| && 0 <= k < |gs[i]|
    requires forall x :: x != NULL && !In(gs, x) ==> LinkAt(lk, x) == Link(NULL, NULL)
    requires Unlinked(lk, lk', gs[i], k)
    requires Zip(h', root', Top, t') && RedBlack(t')
    requires Apartness(RemovedAt(gs, i, k)) && Heads(RemovedAt(gs, i, k)) == InOrder(t')
    requires forall x :: x != NULL && x !in Rows(t') ==> At(h', x) == CLEAR
    ensures Wf(h', root', lk', t', RemovedAt(gs, i, k))
  {
    RemovedChains(lk, lk', gs, i, k);
    RemovedApart(gs, i, k);
    forall x | x != NULL && !In(RemovedAt(gs, i, k), x) ensures LinkAt(lk', x) == Link(NULL, NULL) {
      if x != gs[i][k] {
        assert !In(gs, x);
        assert x !in gs[i];
      }
    }
  }

  lemma SplitAt(s: seq<Row>, a: seq<Row>, x: Row, b: seq<Row>, i: int)
    requires s == a + [x] + b && NoDup(s) && 0 <= i < |s| && s[i] == x
    ensures i == |a| && s[..i] == a && s[i + 1..] == b
    ensures forall y :: s[i := y] == a + [y] + b
  {
    assert s[|a|] == x;
    forall y ensures s[i := y] == a + [y] + b {}
  }

  lemma HeadsNoDup(gs: Groups)
    requires Apartness(gs)
    ensures NoDup(Heads(gs))
  {
    forall k, l | 0 <= k < l < |gs| ensures Heads(gs)[k] != Heads(gs)[l] {
      assert gs[k][0] in gs[k] && gs[l][0] in gs[l];
    }
  }

  /** The place in the tree is passed to the next row of the list. */
  lemma PassedTree(c: Ctx, t: Tree, gs: Groups, i: int, y: Row)
    requires Apartness(gs) && t.Node? && Heads(gs) == InOrder(Plug(c, t)) && RedBlack(Plug(c, t))
    requires 0 <= i < |gs| && gs[i][0] == t.row
    ensures var t' := Plug(c, Node(t.left, y, t.color, t.right)); RedBlack(t') && InOrder(t') == Heads(gs)[i := y]
  {
    var s := Node(t.left, y, t.color, t.right);
    RenamedTree(c, t, y);
    PlugSplit(c, t);
    PlugSplit(c, s);
    HeadsNoDup(gs);
    SplitAt(Heads(gs), Before(c) + InOrder(t.left), t.row, InOrder(t.right) + After(c), i);
  }

  lemma RenamedTree(c: Ctx, t: Tree, y: Row)
    requires t.Node? && RedBlack(Plug(c, t))
    ensures RedBlack(Plug(c, Node(t.left, y, t.color, t.right)))
  {
    var s := Node(t.left, y, t.color, t.right);
    B.Parts(c, t);
    PlugBalanced(c, s);
    PlugNoRedRed(c, s);
    PlugTop(c, s);
  }

  /** The row leaves the tree, and its group the groups. */
  lemma WithoutTree(c: Ctx, t: Tree, gs: Groups, i: int)
    requires Apartness(gs) && t.Node? && Heads(gs) == InOrder(Plug(c, t)) && 0 <= i < |gs| && gs[i][0] == t.row
    ensures B.Others(c, t) == Heads(gs)[..i] + Heads(gs)[i + 1..]
  {
    PlugSplit(c, t);
    HeadsNoDup(gs);
    SplitAt(Heads(gs), Before(c) + InOrder(t.left), t.row, InOrder(t.right) + After(c), i);
  }

  // ---------- the ways in which REMOVE ends ----------

  lemma NotHead(t: Tree, gs: Groups, x: Row)
    requires Apartness(gs) && Heads(gs) == InOrder(t) && !In(gs, x)
    ensures x !in Rows(t)
  {
    if x in Rows(t) {
      var i := HeadAt(t, gs, x);
    }
  }

  lemma EndUnlinked(h: Heap, root: Row, lk: Links, lk': Links, t: Tree, gs: Groups, x: Row)
    requires Wf(h, root, lk, t, gs) && x != NULL && !In(gs, x) && Unlinked(lk, lk', [x], 0)
    ensures Wf(h[x := CLEAR], root, lk', t, gs) && Removed(gs, x) == gs
  {
    NotHead(t, gs, x);
    ClearedRep(h, root, Top, t, x);
    RemovedAbsent(gs, x);
    forall i | 0 <= i < |gs| ensures Chain(lk', gs[i]) {
      SameChain(lk, lk', gs[i]);
    }
  }

  lemma EndMember(h: Heap, root: Row, lk: Links, lk': Links, t: Tree, gs: Groups, i: int, k: int)
    requires Wf(h, root, lk, t, gs) && 0 <= i < |gs| && 1 <= k < |gs[i]| && gs[i][k] !in Rows(t)
    requires Unlinked(lk, lk', gs[i], k)
    ensures Wf(h[gs[i][k] := CLEAR], root, lk', t, RemovedAt(gs, i, k))
  {
    ClearedRep(h, root, Top, t, gs[i][k]);
    RemovedTail(gs, i, k);
    WfRemoved(h[gs[i][k] := CLEAR], root, lk, lk', t, gs, i, k);
  }

  lemma EndHead(h: Heap, h': Heap, root: Row, root': Row, lk: Links, lk': Links, t: Tree, t': Tree, gs: Groups, i: int)
    requires Wf(h, root, lk, t, gs) && 0 <= i < |gs| && Unlinked(lk, lk', gs[i], 0)
    requires Zip(h', root', Top, t') && RedBlack(t')
    requires Apartness(RemovedAt(gs, i, 0)) && Heads(RemovedAt(gs, i, 0)) == InOrder(t')
    requires SameOutside(h, h', Rows(t) + Rows(t'))
    ensures Wf(h'[gs[i][0] := CLEAR], root', lk', t', RemovedAt(gs, i, 0))
  {
    var x, gs' := gs[i][0], RemovedAt(gs, i, 0);
    RemovedApart(gs, i, 0);
    NotHead(t', gs', x);
    ClearedRep(h', root', Top, t', x);
    forall z | z != NULL && z !in Rows(t') ensures At(h'[x := CLEAR], z) == CLEAR {
      if z != x {
        if z in Rows(t) {
          var j := HeadAt(t, gs, z);
          HeadStays(t', gs, i, j);
        }
      }
    }
    WfRemoved(h'[x := CLEAR], root', lk, lk', t', gs, i, 0);
  }

  lemma HeadStays(t': Tree, gs: Groups, i: int, j: int)
    requires Apartness(gs) && 0 <= i < |gs| && 0 <= j < |gs| && i != j
    requires Apartness(RemovedAt(gs, i, 0)) && Heads(RemovedAt(gs, i, 0)) == InOrder(t')
    ensures gs[j][0] in Rows(t')
  {
    var gs' := RemovedAt(gs, i, 0);
    var j' := if |gs[i]| == 1 && j > i then j - 1 else j;
    RowsInOrder(t');
    assert Heads(gs')[j'] == gs[j][0];
  }

  lemma NextApart(t: Tree, gs: Groups, i: int)
    requires Apartness(gs) && Heads(gs) == InOrder(t) && 0 <= i < |gs| && |gs[i]| > 1
    ensures gs[i][1] !in Rows(t)
  {
    RowsInOrder(t);
    forall j | 0 <= j < |gs| ensures gs[j][0] != gs[i][1] {
      assert gs[j][0] in gs[j] && gs[i][1] in gs[i];
    }
  }

  // ---------- the ways in which INSERT ends ----------

  lemma NewChains(lk: Links, gs: Groups, p: int, x: Row)
    requires Chains(lk, gs) && 0 <= p <= |gs| && x != NULL && LinkAt(lk, x) == Link(NULL, NULL)
    ensures Chains(lk, NewAt(gs, p, x))
  {
    var gs' := NewAt(gs, p, x);
    forall j | 0 <= j < |gs'| ensures Chain(lk, gs'[j]) {
      if j != p { assert gs'[j] == gs[if j > p then j - 1 else j]; }
    }
  }

  lemma EndNew(h: Heap, h': Heap, root: Row, root': Row, lk: Links, t: Tree, t': Tree, gs: Groups, p: int, x: Row)
    requires Wf(h, root, lk, t, gs) && x != NULL && !In(gs, x) && 0 <= p <= |gs|
    requires Zip(h', root', Top, t') && RedBlack(t') && InOrder(t') == Heads(gs)[..p] + [x] + Heads(gs)[p..]
    requires SameOutside(h, h', Rows(t) + {x})
    ensures Wf(h', root', lk, t', NewAt(gs, p, x))
  {
    hide Zip, RedBlack, Chains, Apartness, Heads, InOrder, NewAt;
    NewApart(gs, p, x);
    NewChains(lk, gs, p, x);
    ApartNotEmpty(gs);
    ApartNotEmpty(NewAt(gs, p, x));
    NewHeads(gs, p, x);
    NewRows(t, t', Heads(gs), p, x);
  }

  lemma ApartNotEmpty(gs: Groups)
    requires Apartness(gs)
    ensures forall i :: 0 <= i < |gs| ==> gs[i] != []
  {}

  lemma NewHeads(gs: Groups, p: int, x: Row)
    requires (forall i :: 0 <= i < |gs| ==> gs[i] != []) && 0 <= p <= |gs|
    requires forall i :: 0 <= i < |NewAt(gs, p, x)| ==> NewAt(gs, p, x)[i] != []
    ensures |Heads(gs)| == |gs| && Heads(NewAt(gs, p, x)) == Heads(gs)[..p] + [x] + Heads(gs)[p..]
  {}

  lemma NewRows(t: Tree, t': Tree, s: seq<Row>, p: int, x: Row)
    requires InOrder(t) == s && 0 <= p <= |s| && InOrder(t') == s[..p] + [x] + s[p..]
    ensures Rows(t') == Rows(t) + {x}
  {
    hide InOrder;
    RowsInOrder(t);
    RowsInOrder(t');
    assert s == s[..p] + s[p..];
  }

  lemma EndJoined(h: Heap, root: Row, lk: Links, lk': Links, t: Tree, gs: Groups, i: int, x: Row)
    requires Wf(h, root, lk, t, gs) && x != NULL && !In(gs, x) && 0 <= i < |gs| && Attached(lk, lk', gs[i], x)
    ensures Wf(h[x := CLEAR], root, lk', t, JoinedAt(gs, i, x))
  {
    var gs' := JoinedAt(gs, i, x);
    NotHead(t, gs, x);
    ClearedRep(h, root, Top, t, x);
    JoinedApart(gs, i, x);
    assert x !in gs[i];
    AttachedChain(lk, lk', gs[i], x);
    forall j | 0 <= j < |gs'| ensures Chain(lk', gs'[j]) {
      if j != i {
        OtherGroup(gs, i, j);
        assert x !in gs[j];
        assert gs[i][0] in gs[i] && (|gs[i]| > 1 ==> gs[i][1] in gs[i]);
        SameChain(lk, lk', gs[j]);
      }
    }
    assert Heads(gs') == Heads(gs);
    forall y | y != NULL && !In(gs', y) ensures LinkAt(lk', y) == Link(NULL, NULL) {
      assert !In(gs, y) && y != x;
      assert y !in gs[i];
    }
  }

  lemma GrownOrder(gs: Groups, c: Ctx, x: Row)
    requires Apartness(gs) && Heads(gs) == InOrder(Plug(c, Leaf))
    ensures var p := |Before(c)|;
            p <= |gs| && InOrder(Plug(c, Node(Leaf, x, Red, Leaf))) == Heads(gs)[..p] + [x] + Heads(gs)[p..]
  {
    PlugInOrder(c, Leaf);
    PlugInOrder(c, Node(Leaf, x, Red, Leaf));
    assert Heads(gs) == Before(c) + After(c);
    assert |Heads(gs)| == |gs|;
  }

  // ---------- stepping ----------

  /** The rank of the root of `t` among the heads. */
  function Rank(c: Ctx, t: Tree): int
    requires t.Node?
  {
    |Before(c)| + |InOrder(t.left)|
  }

  lemma RankAt(c: Ctx, t: Tree, gs: Groups)
    requires t.Node? && Apartness(gs) && Heads(gs) == InOrder(Plug(c, t))
    ensures 0 <= Rank(c, t) < |gs| && gs[Rank(c, t)][0] == t.row
  {
    PlugSplit(c, t);
    assert Heads(gs)[Rank(c, t)] == t.row;
  }

  /** The head of group `i`, or NULL past either end. */
  function HeadOr(gs: Groups, i: int): Row
    requires Apartness(gs)
  {
    if 0 <= i < |gs| then gs[i][0] else NULL
  }

  lemma HeadOnce(gs: Groups, i: int, j: int)
    requires Apartness(gs) && 0 <= i < |gs| && 0 <= j < |gs| && gs[i][0] == gs[j][0]
    ensures i == j
  {
    assert gs[i][0] in gs[i] && gs[j][0] in gs[j];
  }

  /** Climbing from a right child keeps the number of rows up to the end of the subtree. */
  lemma ClimbRight(c: Ctx, t: Tree)
    requires !c.Top?
    ensures c.InRight? ==> |Before(c.up)| + |InOrder(Up(c, t))| == |Before(c)| + |InOrder(t)|
    ensures c.InLeft? ==> Rank(c.up, Up(c, t)) == |Before(c)| + |InOrder(t)|
  {}

  /** Climbing from a left child keeps the number of rows before the subtree. */
  lemma ClimbLeft(c: Ctx, t: Tree)
    requires !c.Top?
    ensures c.InLeft? ==> Before(c.up) == Before(c)
    ensures c.InRight? ==> Rank(c.up, Up(c, t)) == |Before(c)| - 1
  {}

  lemma WholeCount(t: Tree, gs: Groups)
    requires Apartness(gs) && Heads(gs) == InOrder(t)
    ensures |InOrder(t)| == |gs|
  {}

  /** The subtree whose root is the head of group `i`. */
  lemma Focus(h: Heap, root: Row, lk: Links, t: Tree, gs: Groups, i: int) returns (c: Ctx, s: Tree)
    requires Wf(h, root, lk, t, gs) && 0 <= i < |gs|
    ensures Plug(c, s) == t && s.Node? && s.row == gs[i][0] && Zip(h, root, c, s) && Rank(c, s) == i
  {
    RowsInOrder(t);
    assert Heads(gs)[i] == gs[i][0];
    c, s := Locate(t, gs[i][0]);
    ZipTree(h, root, c, s);
    RankAt(c, s, gs);
    HeadOnce(gs, i, Rank(c, s));
  }

  lemma NextPlace(gs: Groups, i: int, k: int)
    requires Apartness(gs) && 0 <= i < |gs| && 0 <= k < |gs[i]|
    ensures Following(Flat(gs), gs[i][k]) == if k + 1 < |gs[i]| then gs[i][k + 1] else HeadOr(gs, i + 1)
  {
    FlatNoDup(gs);
    FlatAt(gs, i, k);
    FollowingAt(Flat(gs), Offset(gs, i) + k);
    if k + 1 < |gs[i]| {
      FlatAt(gs, i, k + 1);
    } else if i + 1 < |gs| {
      FlatAt(gs, i + 1, 0);
    } else {
      FlatEnd(gs);
    }
  }

  lemma PrevPlace(gs: Groups, i: int, k: int)
    requires Apartness(gs) && 0 <= i < |gs| && 0 <= k < |gs[i]|
    ensures Preceding(Flat(gs), gs[i][k]) ==
            if k > 0 then gs[i][k - 1] else if i > 0 then gs[i - 1][|gs[i - 1]| - 1] else NULL
  {
    FlatNoDup(gs);
    FlatAt(gs, i, k);
    FollowingAt(Flat(gs), Offset(gs, i) + k);
    if k > 0 {
      FlatAt(gs, i, k - 1);
    } else if i > 0 {
      FlatAt(gs, i - 1, |gs[i - 1]| - 1);
    }
  }

  lemma FlatRows(h: Heap, root: Row, lk: Links, t: Tree, gs: Groups)
    requires Wf(h, root, lk, t, gs)
    ensures NULL !in Flat(gs)
  {
    FlatIn(gs, NULL);
    if In(gs, NULL) {
      var i, k := PlaceOf(h, root, lk, t, gs, NULL);
    }
  }
}
