/** Keys: what it means for the groups to be in key order, and the linear scan that insertion refines. */
module RbOrder {
  import opened RbShape
  import opened RowGroups
  import opened Basics

  /** `cmp` compares like a total order: its sign flips with its arguments, and it is transitive. */
  ghost predicate TotalOrder<K(!new)>(cmp: (K, K) -> int) {
    && (forall a, b :: cmp(a, b) < 0 <==> cmp(b, a) > 0)
    && (forall a, b, c :: cmp(a, b) <= 0 && cmp(b, c) <= 0 ==> cmp(a, c) <= 0)
  }

  lemma Strict<K(!new)>(cmp: (K, K) -> int, a: K, b: K, c: K)
    requires TotalOrder(cmp) && cmp(a, b) <= 0 && cmp(b, c) <= 0
    ensures cmp(a, c) <= 0 && (cmp(a, b) < 0 || cmp(b, c) < 0 ==> cmp(a, c) < 0)
  {
    if cmp(a, c) == 0 {
      assert cmp(c, a) <= 0;
    }
  }

  ghost predicate Ascending<K>(s: seq<Row>, key: Row -> K, cmp: (K, K) -> int) {
    forall i, j :: 0 <= i < j < |s| ==> cmp(key(s[i]), key(s[j])) < 0
  }

  /** Heads strictly ascending, and every row with the key of its head. */
  ghost predicate Sorted<K>(gs: Groups, key: Row -> K, cmp: (K, K) -> int) {
    && (forall i :: 0 <= i < |gs| ==> gs[i] != [])
    && (forall i, j :: 0 <= i < j < |gs| ==> cmp(key(gs[i][0]), key(gs[j][0])) < 0)
    && (forall i, x :: 0 <= i < |gs| && x in gs[i] ==> cmp(key(x), key(gs[i][0])) == 0)
  }

  /** Insertion by linear scan: behind an equal head, or as a group of its own. */
  function Inserted<K>(gs: Groups, x: Row, key: Row -> K, cmp: (K, K) -> int): Groups
    requires forall i :: 0 <= i < |gs| ==> gs[i] != []
  {
    if gs == [] then [[x]]
    else
      var c := cmp(key(x), key(gs[0][0]));
      if c < 0 then [[x]] + gs
      else if c == 0 then [Behind(gs[0], x)] + gs[1..]
      else [gs[0]] + Inserted(gs[1..], x, key, cmp)
  }

  lemma {:induction false} InsertedNew<K>(gs: Groups, x: Row, key: Row -> K, cmp: (K, K) -> int, p: int)
    requires (forall i :: 0 <= i < |gs| ==> gs[i] != []) && 0 <= p <= |gs|
    requires forall i :: 0 <= i < p ==> cmp(key(x), key(gs[i][0])) > 0
    requires forall i :: p <= i < |gs| ==> cmp(key(x), key(gs[i][0])) < 0
    ensures Inserted(gs, x, key, cmp) == NewAt(gs, p, x)
    decreases p
  {
    if p > 0 {
      InsertedNew(gs[1..], x, key, cmp, p - 1);
      assert NewAt(gs, p, x) == [gs[0]] + NewAt(gs[1..], p - 1, x);
    }
  }

  lemma {:induction false} InsertedJoined<K>(gs: Groups, x: Row, key: Row -> K, cmp: (K, K) -> int, p: int)
    requires (forall i :: 0 <= i < |gs| ==> gs[i] != []) && 0 <= p < |gs|
    requires forall i :: 0 <= i < p ==> cmp(key(x), key(gs[i][0])) > 0
    requires cmp(key(x), key(gs[p][0])) == 0
    ensures Inserted(gs, x, key, cmp) == JoinedAt(gs, p, x)
    decreases p
  {
    if p > 0 {
      InsertedJoined(gs[1..], x, key, cmp, p - 1);
      assert JoinedAt(gs, p, x) == [gs[0]] + JoinedAt(gs[1..], p - 1, x);
    }
  }

  lemma SortedIntro<K>(gs: Groups, key: Row -> K, cmp: (K, K) -> int)
    requires forall i :: 0 <= i < |gs| ==> gs[i] != []
    requires forall i, j :: 0 <= i < j < |gs| ==> cmp(key(gs[i][0]), key(gs[j][0])) < 0
    requires forall i, x :: 0 <= i < |gs| && x in gs[i] ==> cmp(key(x), key(gs[i][0])) == 0
    ensures Sorted(gs, key, cmp)
  {}

  lemma NewSorted<K(!new)>(gs: Groups, x: Row, key: Row -> K, cmp: (K, K) -> int, p: int)
    requires TotalOrder(cmp) && Sorted(gs, key, cmp) && 0 <= p <= |gs|
    requires forall i :: 0 <= i < p ==> cmp(key(x), key(gs[i][0])) > 0
    requires forall i :: p <= i < |gs| ==> cmp(key(x), key(gs[i][0])) < 0
    ensures Sorted(NewAt(gs, p, x), key, cmp)
  {
    assert |NewAt(gs, p, x)| == |gs| + 1;
    hide *;
    var gs' := NewAt(gs, p, x);
    forall i | 0 <= i < |gs'| ensures gs'[i] != [] {
      NewGroup(gs, x, key, cmp, p, i);
    }
    forall i, j | 0 <= i < j < |gs'| ensures cmp(key(gs'[i][0]), key(gs'[j][0])) < 0 {
      NewPair(gs, x, key, cmp, p, i, j);
    }
    forall i, y | 0 <= i < |gs'| && y in gs'[i] ensures cmp(key(y), key(gs'[i][0])) == 0 {
      NewGroup(gs, x, key, cmp, p, i);
    }
    SortedIntro(gs', key, cmp);
  }

  lemma NewGroup<K(!new)>(gs: Groups, x: Row, key: Row -> K, cmp: (K, K) -> int, p: int, i: int)
    requires TotalOrder(cmp) && Sorted(gs, key, cmp) && 0 <= p <= |gs| && 0 <= i <= |gs|
    ensures i < |NewAt(gs, p, x)| && NewAt(gs, p, x)[i] != []
    ensures var g := NewAt(gs, p, x)[i]; forall y :: y in g ==> cmp(key(y), key(g[0])) == 0
  {
    Flip(cmp, key(x), key(x));
    if i != p { assert NewAt(gs, p, x)[i] == gs[if i < p then i else i - 1]; }
  }

  lemma NewPair<K(!new)>(gs: Groups, x: Row, key: Row -> K, cmp: (K, K) -> int, p: int, i: int, j: int)
    requires TotalOrder(cmp) && Sorted(gs, key, cmp) && 0 <= p <= |gs| && 0 <= i < j <= |gs|
    requires forall i :: 0 <= i < p ==> cmp(key(x), key(gs[i][0])) > 0
    requires forall i :: p <= i < |gs| ==> cmp(key(x), key(gs[i][0])) < 0
    ensures var gs' := NewAt(gs, p, x);
            j < |gs'| && gs'[i] != [] && gs'[j] != [] && cmp(key(gs'[i][0]), key(gs'[j][0])) < 0
  {
    hide TotalOrder;
    var gs' := NewAt(gs, p, x);
    assert gs'[i] == (if i < p then gs[i] else if i == p then [x] else gs[i - 1]);
    assert gs'[j] == (if j < p then gs[j] else if j == p then [x] else gs[j - 1]);
    if j == p { Flip(cmp, key(gs[i][0]), key(x)); }
  }

  lemma Flip<K(!new)>(cmp: (K, K) -> int, a: K, b: K)
    requires TotalOrder(cmp)
    ensures cmp(a, b) < 0 <==> cmp(b, a) > 0
    ensures cmp(a, b) == 0 <==> cmp(b, a) == 0
  {}

  lemma JoinedSorted<K>(gs: Groups, x: Row, key: Row -> K, cmp: (K, K) -> int, p: int)
    requires Sorted(gs, key, cmp) && 0 <= p < |gs|
    requires cmp(key(x), key(gs[p][0])) == 0
    ensures Sorted(JoinedAt(gs, p, x), key, cmp)
  {
    var gs' := JoinedAt(gs, p, x);
    assert gs[p] == [gs[p][0]] + gs[p][1..];
  }

  lemma RemovedParts(gs: Groups, i: int, k: int)
    requires Apartness(gs) && 0 <= i < |gs| && 0 <= k < |gs[i]|
    ensures var gs' := RemovedAt(gs, i, k);
            forall j :: 0 <= j < |gs'| ==> Part(gs, gs', j, From(gs, i, j)) && gs[i][k] !in gs'[j]
  {
    var gs' := RemovedAt(gs, i, k);
    RemovedApart(gs, i, k);
    assert !In(gs', gs[i][k]);
    forall j | 0 <= j < |gs'| ensures Part(gs, gs', j, From(gs, i, j)) && gs[i][k] !in gs'[j] {
      var j0 := From(gs, i, j);
      if j0 != i {
        assert gs'[j] == gs[j0];
        assert gs[i][k] in gs[i];
      } else {
        assert gs'[j] == Without(gs[i], k) && |gs[i]| > 1;
      }
    }
  }

  /** Removing a row keeps the order, also when its own key has changed in the meantime. */
  lemma RemovedSorted<K(!new)>(gs: Groups, i: int, k: int, key: Row -> K, key': Row -> K, cmp: (K, K) -> int)
    requires TotalOrder(cmp) && Apartness(gs) && Sorted(gs, key, cmp) && 0 <= i < |gs| && 0 <= k < |gs[i]|
    requires forall x :: x != gs[i][k] ==> key'(x) == key(x)
    ensures Sorted(RemovedAt(gs, i, k), key', cmp)
  {
    hide TotalOrder;
    hide RemovedAt;
    RemovedParts(gs, i, k);
    var gs' := RemovedAt(gs, i, k);
    forall j, x | 0 <= j < |gs'| && x in gs'[j] ensures cmp(key'(x), key'(gs'[j][0])) == 0 {
      assert Part(gs, gs', j, From(gs, i, j)) && gs[i][k] !in gs'[j];
      PartEqual(gs, gs', j, From(gs, i, j), x, key, cmp);
      assert gs'[j][0] in gs'[j];
      OtherKey(key, key', gs[i][k], x);
      OtherKey(key, key', gs[i][k], gs'[j][0]);
    }
    forall j, l | 0 <= j < l < |gs'| ensures cmp(key'(gs'[j][0]), key'(gs'[l][0])) < 0 {
      assert Part(gs, gs', j, From(gs, i, j)) && gs[i][k] !in gs'[j];
      assert Part(gs, gs', l, From(gs, i, l)) && gs[i][k] !in gs'[l];
      PartLess(gs, gs', j, From(gs, i, j), l, From(gs, i, l), key, cmp);
      assert gs'[j][0] in gs'[j] && gs'[l][0] in gs'[l];
      OtherKey(key, key', gs[i][k], gs'[j][0]);
      OtherKey(key, key', gs[i][k], gs'[l][0]);
    }
  }

  lemma OtherKey<K>(key: Row -> K, key': Row -> K, x: Row, y: Row)
    requires (forall z :: z != x ==> key'(z) == key(z)) && y != x
    ensures key'(y) == key(y)
  {}

  lemma PartEqual<K(!new)>(gs: Groups, gs': Groups, j: int, j0: int, x: Row, key: Row -> K, cmp: (K, K) -> int)
    requires TotalOrder(cmp) && Sorted(gs, key, cmp) && Part(gs, gs', j, j0) && x in gs'[j]
    ensures cmp(key(x), key(gs'[j][0])) == 0
  {
    var y, g := gs'[j][0], gs[j0][0];
    assert y in gs'[j];
    assert cmp(key(y), key(g)) == 0 && cmp(key(x), key(g)) == 0;
    Strict(cmp, key(x), key(g), key(y));
    Strict(cmp, key(y), key(g), key(x));
  }

  lemma PartLess<K(!new)>(gs: Groups, gs': Groups, j: int, j0: int, l: int, l0: int, key: Row -> K, cmp: (K, K) -> int)
    requires TotalOrder(cmp) && Sorted(gs, key, cmp) && Part(gs, gs', j, j0) && Part(gs, gs', l, l0) && j0 < l0
    ensures cmp(key(gs'[j][0]), key(gs'[l][0])) < 0
  {
    var x, y, g, f := gs'[j][0], gs'[l][0], gs[j0][0], gs[l0][0];
    assert x in gs'[j] && y in gs'[l];
    assert cmp(key(x), key(g)) == 0 && cmp(key(y), key(f)) == 0;
    Strict(cmp, key(x), key(g), key(f));
    Strict(cmp, key(x), key(f), key(y));
  }

  function From(gs: Groups, i: int, j: int): int
    requires 0 <= i < |gs|
  {
    if |gs[i]| == 1 && j >= i then j + 1 else j
  }

  ghost predicate Part(gs: Groups, gs': Groups, j: int, j0: int) {
    0 <= j < |gs'| && 0 <= j0 < |gs| && gs'[j] != [] && forall x :: x in gs'[j] ==> x in gs[j0]
  }

  // ---------- going down the tree ----------

  /** Everything left of the hole is smaller than `v`, everything right of it greater. */
  ghost predicate Between<K>(c: Ctx, v: K, key: Row -> K, cmp: (K, K) -> int) {
    && (forall y :: y in Before(c) ==> cmp(v, key(y)) > 0)
    && (forall y :: y in After(c) ==> cmp(v, key(y)) < 0)
  }

  lemma AscendingSplit<K>(a: seq<Row>, y: Row, b: seq<Row>, key: Row -> K, cmp: (K, K) -> int)
    requires Ascending(a + [y] + b, key, cmp)
    ensures forall z :: z in a ==> cmp(key(z), key(y)) < 0
    ensures forall z :: z in b ==> cmp(key(y), key(z)) < 0
  {
    var s := a + [y] + b;
    forall z | z in a ensures cmp(key(z), key(y)) < 0 {
      var i :| 0 <= i < |a| && a[i] == z;
      assert s[i] == z && s[|a|] == y;
    }
    forall z | z in b ensures cmp(key(y), key(z)) < 0 {
      var i :| 0 <= i < |b| && b[i] == z;
      assert s[|a| + 1 + i] == z && s[|a|] == y;
    }
  }

  /** Comparing with the root of the subtree settles which side to go to. */
  lemma Descend<K(!new)>(c: Ctx, t: Tree, v: K, key: Row -> K, cmp: (K, K) -> int)
    requires TotalOrder(cmp) && t.Node? && Ascending(InOrder(Plug(c, t)), key, cmp) && Between(c, v, key, cmp)
    ensures cmp(v, key(t.row)) < 0 ==> Between(InLeft(t.row, t.color, t.right, c), v, key, cmp)
    ensures cmp(v, key(t.row)) > 0 ==> Between(InRight(t.left, t.row, t.color, c), v, key, cmp)
    ensures cmp(v, key(t.row)) == 0 ==> forall y :: y in Before(c) + InOrder(t.left) ==> cmp(v, key(y)) > 0
  {
    PlugSplit(c, t);
    AscendingSplit(Before(c) + InOrder(t.left), t.row, InOrder(t.right) + After(c), key, cmp);
    forall y | y in InOrder(t.left) && cmp(v, key(t.row)) >= 0 ensures cmp(v, key(y)) > 0 {
      assert y in Before(c) + InOrder(t.left);
      Strict(cmp, key(y), key(t.row), v);
    }
    forall y | y in InOrder(t.right) && cmp(v, key(t.row)) <= 0 ensures cmp(v, key(y)) < 0 {
      assert y in InOrder(t.right) + After(c);
      Strict(cmp, v, key(t.row), key(y));
    }
  }

  lemma SortedHeads<K>(gs: Groups, key: Row -> K, cmp: (K, K) -> int)
    requires Sorted(gs, key, cmp)
    ensures Ascending(Heads(gs), key, cmp)
  {}

  /** `v` is greater than the first `p` heads and smaller than the others. */
  ghost predicate Gap<K>(gs: Groups, v: K, key: Row -> K, cmp: (K, K) -> int, p: int)
    requires forall i :: 0 <= i < |gs| ==> gs[i] != []
  {
    && 0 <= p <= |gs|
    && (forall i :: 0 <= i < p ==> cmp(v, key(gs[i][0])) > 0)
    && (forall i :: p <= i < |gs| ==> cmp(v, key(gs[i][0])) < 0)
  }

  /** Equal keys compare alike. */
  lemma Alike<K(!new)>(cmp: (K, K) -> int, v: K, a: K, b: K)
    requires TotalOrder(cmp) && cmp(a, b) == 0
    ensures cmp(v, a) == 0 <==> cmp(v, b) == 0
  {
    if cmp(v, a) == 0 {
      Strict(cmp, v, a, b);
      Strict(cmp, b, a, v);
    } else if cmp(v, b) == 0 {
      Strict(cmp, v, b, a);
      Strict(cmp, a, b, v);
    }
  }

  lemma GapFree<K(!new)>(gs: Groups, v: K, key: Row -> K, cmp: (K, K) -> int, p: int)
    requires TotalOrder(cmp) && Sorted(gs, key, cmp) && Gap(gs, v, key, cmp, p)
    ensures forall y :: In(gs, y) ==> cmp(v, key(y)) != 0
  {
    forall y | In(gs, y) ensures cmp(v, key(y)) != 0 {
      var i :| 0 <= i < |gs| && y in gs[i];
      Alike(cmp, v, key(y), key(gs[i][0]));
    }
  }

  /** An empty hole between smaller and greater keys is such a gap. */
  lemma FoundHole<K(!new)>(gs: Groups, c: Ctx, v: K, key: Row -> K, cmp: (K, K) -> int)
    requires TotalOrder(cmp) && Sorted(gs, key, cmp) && Heads(gs) == Before(c) + After(c) && Between(c, v, key, cmp)
    ensures Gap(gs, v, key, cmp, |Before(c)|)
  {
    var p := |Before(c)|;
    assert |gs| == |Heads(gs)| == p + |After(c)|;
    forall i | 0 <= i < |gs|
      ensures i < p ==> cmp(v, key(gs[i][0])) > 0
      ensures i >= p ==> cmp(v, key(gs[i][0])) < 0
    {
      assert Heads(gs)[i] == gs[i][0];
      assert i < p ==> gs[i][0] in Before(c);
      assert i >= p ==> gs[i][0] == After(c)[i - p];
    }
  }

  lemma FoundHead<K(!new)>(gs: Groups, c: Ctx, t: Tree, v: K, key: Row -> K, cmp: (K, K) -> int)
    requires Sorted(gs, key, cmp) && t.Node? && Heads(gs) == InOrder(Plug(c, t))
    requires forall y :: y in Before(c) + InOrder(t.left) ==> cmp(v, key(y)) > 0
    ensures var p := |Before(c) + InOrder(t.left)|;
            p < |gs| && gs[p][0] == t.row && forall i :: 0 <= i < p ==> cmp(v, key(gs[i][0])) > 0
    ensures In(gs, t.row)
  {
    PlugSplit(c, t);
    var a := Before(c) + InOrder(t.left);
    var p := |a|;
    assert Heads(gs)[p] == t.row && gs[p][0] in gs[p];
    forall i | 0 <= i < p ensures cmp(v, key(gs[i][0])) > 0 {
      assert Heads(gs)[i] == a[i] && a[i] in a;
    }
  }

  /** What inserting into the gap that the descent found amounts to. */
  lemma InsertGap<K(!new)>(gs: Groups, x: Row, key: Row -> K, cmp: (K, K) -> int, p: int)
    requires TotalOrder(cmp) && Sorted(gs, key, cmp) && Gap(gs, key(x), key, cmp, p)
    ensures Inserted(gs, x, key, cmp) == NewAt(gs, p, x) && Sorted(NewAt(gs, p, x), key, cmp)
  {
    InsertedNew(gs, x, key, cmp, p);
    NewSorted(gs, x, key, cmp, p);
  }

  lemma HoleGap<K(!new)>(gs: Groups, c: Ctx, v: K, key: Row -> K, cmp: (K, K) -> int)
    requires TotalOrder(cmp) && Sorted(gs, key, cmp) && Heads(gs) == InOrder(Plug(c, Leaf)) && Between(c, v, key, cmp)
    ensures Gap(gs, v, key, cmp, |Before(c)|)
    ensures forall y :: In(gs, y) ==> cmp(v, key(y)) != 0
  {
    PlugInOrder(c, Leaf);
    FoundHole(gs, c, v, key, cmp);
    GapFree(gs, v, key, cmp, |Before(c)|);
  }

  lemma InsertHead<K(!new)>(gs: Groups, c: Ctx, t: Tree, x: Row, key: Row -> K, cmp: (K, K) -> int)
    requires TotalOrder(cmp) && Sorted(gs, key, cmp) && t.Node? && Heads(gs) == InOrder(Plug(c, t))
    requires cmp(key(x), key(t.row)) == 0
    requires forall y :: y in Before(c) + InOrder(t.left) ==> cmp(key(x), key(y)) > 0
    ensures var p := |Before(c) + InOrder(t.left)|;
            && p < |gs| && gs[p][0] == t.row
            && Inserted(gs, x, key, cmp) == JoinedAt(gs, p, x) && Sorted(JoinedAt(gs, p, x), key, cmp)
    ensures In(gs, t.row)
  {
    var p := |Before(c) + InOrder(t.left)|;
    FoundHead(gs, c, t, key(x), key, cmp);
    InsertedJoined(gs, x, key, cmp, p);
    JoinedSorted(gs, x, key, cmp, p);
  }

  lemma SortedPair<K(!new)>(gs: Groups, key: Row -> K, cmp: (K, K) -> int, i: int, k: int, j: int, l: int)
    requires TotalOrder(cmp) && Sorted(gs, key, cmp) && 0 <= i <= j < |gs| && 0 <= k < |gs[i]| && 0 <= l < |gs[j]|
    ensures cmp(key(gs[i][k]), key(gs[j][l])) <= 0 && (i < j ==> cmp(key(gs[i][k]), key(gs[j][l])) < 0)
  {
    var x, y, g, f := gs[i][k], gs[j][l], gs[i][0], gs[j][0];
    assert x in gs[i] && y in gs[j];
    assert cmp(key(g), key(f)) <= 0;
    Strict(cmp, key(x), key(g), key(f));
    Strict(cmp, key(x), key(f), key(y));
  }

  /** The row sequence is in nondecreasing key order. */
  lemma FlatSorted<K(!new)>(gs: Groups, key: Row -> K, cmp: (K, K) -> int, n: int, m: int)
    requires TotalOrder(cmp) && Sorted(gs, key, cmp) && 0 <= n <= m < |Flat(gs)|
    ensures cmp(key(Flat(gs)[n]), key(Flat(gs)[m])) <= 0
    ensures n < m && (forall i :: 0 <= i < |gs| ==> |gs[i]| == 1) ==> cmp(key(Flat(gs)[n]), key(Flat(gs)[m])) < 0
  {
    var i, k := PlaceAt(gs, n);
    var j, l := PlaceAt(gs, m);
    hide TotalOrder;
    if j < i { OffsetGrows(gs, j, i); }
    SortedPair(gs, key, cmp, i, k, j, l);
  }
}
