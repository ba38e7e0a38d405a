/** A table's instances: every row is linked into all indexes of the table at once. */
module InstanceTree {
  import opened Basics
  import opened RbShape
  import opened RbHeap
  import opened RowGroups
  import opened RbWellFormed
  import opened RbOrder
  import opened RbIndex

  /** One entry of an index definition: how its keys compare, and whether a key may occur only once. */
  datatype IndexDef<!K> = IndexDef(unique: bool, cmp: (K, K) -> int)

  /** Some linked row has the key of `x`. */
  ghost predicate Clash<K>(gs: Groups, x: Row, key: Row -> K, cmp: (K, K) -> int) {
    exists y :: In(gs, y) && cmp(key(x), key(y)) == 0
  }

  /** A unique index keeps a second row with the same key out. */
  ghost function Admitted<K>(gs: Groups, x: Row, key: Row -> K, def: IndexDef<K>): Groups
    requires forall i :: 0 <= i < |gs| ==> gs[i] != []
  {
    if def.unique && Clash(gs, x, key, def.cmp) then gs else Inserted(gs, x, key, def.cmp)
  }

  ghost predicate Single(gs: Groups) {
    forall i :: 0 <= i < |gs| ==> |gs[i]| == 1
  }

  /** An index is in order for the present keys, and a unique one holds each key once. */
  ghost predicate Ordered<K(!new)>(gs: Groups, key: Row -> K, def: IndexDef<K>) {
    Apartness(gs) && TotalOrder(def.cmp) && Sorted(gs, key, def.cmp) && (def.unique ==> Single(gs))
  }

  // ---------- what one index goes through ----------

  lemma {:induction false} InsertedPlace<K>(gs: Groups, x: Row, key: Row -> K, cmp: (K, K) -> int)
    returns (p: int, new': bool)
    requires forall i :: 0 <= i < |gs| ==> gs[i] != []
    ensures new' ==> 0 <= p <= |gs| && Inserted(gs, x, key, cmp) == NewAt(gs, p, x)
    ensures !new' ==>
      0 <= p < |gs| && Inserted(gs, x, key, cmp) == JoinedAt(gs, p, x) && cmp(key(x), key(gs[p][0])) == 0
    decreases gs
  {
    if gs == [] || cmp(key(x), key(gs[0][0])) < 0 {
      p, new' := 0, true;
    } else if cmp(key(x), key(gs[0][0])) == 0 {
      p, new' := 0, false;
    } else {
      p, new' := InsertedPlace(gs[1..], x, key, cmp);
      p := p + 1;
      if new' { NewAtCons(gs, p, x); } else { JoinedAtCons(gs, p, x); }
    }
  }

  lemma NewAtCons(gs: Groups, p: int, x: Row)
    requires 0 < p <= |gs|
    ensures NewAt(gs, p, x) == [gs[0]] + NewAt(gs[1..], p - 1, x)
  {}

  lemma JoinedAtCons(gs: Groups, p: int, x: Row)
    requires 0 < p < |gs| && gs[p] != []
    ensures JoinedAt(gs, p, x) == [gs[0]] + JoinedAt(gs[1..], p - 1, x)
  {}

  /** Inserting adds exactly the row inserted. */
  lemma InsertedIn<K>(gs: Groups, x: Row, key: Row -> K, cmp: (K, K) -> int)
    requires Apartness(gs) && !In(gs, x)
    ensures Apartness(Inserted(gs, x, key, cmp))
    ensures forall y :: In(Inserted(gs, x, key, cmp), y) <==> In(gs, y) || y == x
  {
    var p, new' := InsertedPlace(gs, x, key, cmp);
    if new' { NewApart(gs, p, x); } else { JoinedApart(gs, p, x); }
  }

  lemma NewThenRemoved(gs: Groups, p: int, x: Row)
    requires 0 <= p <= |gs|
    ensures NewAt(gs, p, x)[p] == [x] && RemovedAt(NewAt(gs, p, x), p, 0) == gs
  {
    assert NewAt(gs, p, x)[p + 1..] == gs[p..];
  }

  lemma JoinedThenRemoved(gs: Groups, p: int, x: Row)
    requires 0 <= p < |gs| && gs[p] != []
    ensures JoinedAt(gs, p, x)[p] == Behind(gs[p], x) && Behind(gs[p], x)[1] == x
    ensures RemovedAt(JoinedAt(gs, p, x), p, 1) == gs
  {
    assert Without(Behind(gs[p], x), 1) == gs[p];
  }

  /** Removing a row right after inserting it leaves the index as it was. */
  lemma BackOut<K>(gs: Groups, x: Row, key: Row -> K, cmp: (K, K) -> int)
    requires Apartness(gs) && !In(gs, x)
    ensures Removed(Inserted(gs, x, key, cmp), x) == gs
  {
    var p, new' := InsertedPlace(gs, x, key, cmp);
    if new' {
      NewApart(gs, p, x);
      NewThenRemoved(gs, p, x);
      RemovedIs(NewAt(gs, p, x), p, 0);
    } else {
      JoinedApart(gs, p, x);
      JoinedThenRemoved(gs, p, x);
      RemovedIs(JoinedAt(gs, p, x), p, 1);
    }
  }

  /** Without a clash the row gets a group of its own. */
  lemma NoClashSingle<K>(gs: Groups, x: Row, key: Row -> K, cmp: (K, K) -> int)
    requires Apartness(gs) && !In(gs, x) && Single(gs) && !Clash(gs, x, key, cmp)
    ensures Single(Inserted(gs, x, key, cmp))
  {
    var p, new' := InsertedPlace(gs, x, key, cmp);
    assert !new' ==> gs[p][0] in gs[p] && In(gs, gs[p][0]);
  }

  /** Removing takes out exactly the row removed. */
  lemma RemovedIn(gs: Groups, x: Row)
    requires Apartness(gs)
    ensures Apartness(Removed(gs, x))
    ensures forall y :: In(Removed(gs, x), y) <==> In(gs, y) && y != x
    ensures Single(gs) ==> Single(Removed(gs, x))
  {
    if In(gs, x) {
      var i :| 0 <= i < |gs| && x in gs[i];
      var k :| 0 <= k < |gs[i]| && gs[i][k] == x;
      RemovedIs(gs, i, k);
      RemovedApart(gs, i, k);
    } else {
      RemovedAbsent(gs, x);
    }
  }

  /** Removing keeps the order, even if the key of the row that leaves has changed since. */
  lemma RemovedOrder<K(!new)>(gs: Groups, x: Row, key: Row -> K, key': Row -> K, cmp: (K, K) -> int)
    requires TotalOrder(cmp) && Apartness(gs) && Sorted(gs, key, cmp) && forall y :: y != x ==> key'(y) == key(y)
    ensures Sorted(Removed(gs, x), key', cmp)
  {
    if In(gs, x) {
      var i :| 0 <= i < |gs| && x in gs[i];
      var k :| 0 <= k < |gs[i]| && gs[i][k] == x;
      RemovedIs(gs, i, k);
      RemovedSorted(gs, i, k, key, key', cmp);
    } else {
      RemovedAbsent(gs, x);
      SameKeys(gs, key, key', cmp);
    }
  }

  lemma SameKeys<K>(gs: Groups, key: Row -> K, key': Row -> K, cmp: (K, K) -> int)
    requires Sorted(gs, key, cmp) && forall y :: In(gs, y) ==> key'(y) == key(y)
    ensures Sorted(gs, key', cmp)
  {
    forall i, y | 0 <= i < |gs| && y in gs[i] ensures key'(y) == key(y) && key'(gs[i][0]) == key(gs[i][0]) {
      assert In(gs, y);
      assert gs[i][0] in gs[i] && In(gs, gs[i][0]);
    }
    forall i | 0 <= i < |gs| ensures key'(gs[i][0]) == key(gs[i][0]) {
      assert gs[i][0] in gs[i];
    }
  }

  class InstanceTree<K(!new)> {
    const defs: seq<IndexDef<K>>
    const idx: seq<Index>
    var cnt: int

    /** The indexes are objects of their own, one for each definition; `cols` are the rows' present keys in each. */
    ghost predicate Shaped(cols: seq<Row -> K>)
    {
      |idx| == |defs| == |cols| && forall i, j :: 0 <= i < j < |idx| ==> idx[i] != idx[j]
    }

    /** Index `i` has content `gs`, in order for the keys in its column. */
    ghost predicate Holds(i: int, cols: seq<Row -> K>, gs: Groups)
      requires Shaped(cols) && 0 <= i < |idx|
      reads idx[i]
    {
      idx[i].Valid() && idx[i].groups == gs && Ordered(gs, cols[i], defs[i])
    }

    ghost predicate HoldAll(cols: seq<Row -> K>, was: seq<Groups>)
      requires Shaped(cols)
      reads idx
    {
      |was| == |idx| && forall i :: 0 <= i < |idx| ==> Holds(i, cols, was[i])
    }

    /** Index `i`, which had content `gs`, has admitted or refused the row. */
    ghost predicate Took(i: int, row: Row, cols: seq<Row -> K>, gs: Groups)
      requires Shaped(cols) && 0 <= i < |idx|
      reads idx[i]
    {
      Apartness(gs) && Holds(i, cols, Admitted(gs, row, cols[i], defs[i]))
    }

    /** A table without rows, with its indexes. */
    constructor (defs: seq<IndexDef<K>>, ghost cols: seq<Row -> K>)
      requires |cols| == |defs| && forall i :: 0 <= i < |defs| ==> TotalOrder(defs[i].cmp)
      ensures this.defs == defs && cnt == 0 && forall i :: 0 <= i < |idx| ==> fresh(idx[i])
      ensures Shaped(cols) && HoldAll(cols, Repeated([], |defs|))
    {
      var indexes := NewIndexes(|defs|);
      this.defs, idx, cnt := defs, indexes, 0;
    }

    /** INSERT into one index, backed out by REMOVE if the index is unique and has the key already. */
    method Admit(i: int, row: Row, cols: seq<Row -> K>, ghost gs: Groups)
      requires Shaped(cols) && 0 <= i < |idx| && Holds(i, cols, gs) && row != NULL && !In(gs, row)
      modifies idx[i]
      ensures Took(i, row, cols, gs)
    {
      InsertedIn(gs, row, cols[i], defs[i].cmp);
      var r := idx[i].Insert(row, cols[i], defs[i].cmp);
      if r != NULL {
        assert Clash(gs, row, cols[i], defs[i].cmp);
        if defs[i].unique {
          BackOut(gs, row, cols[i], defs[i].cmp);
          idx[i].Remove(row);
        }
      } else {
        assert !Clash(gs, row, cols[i], defs[i].cmp);
        if defs[i].unique { NoClashSingle(gs, row, cols[i], defs[i].cmp); }
      }
    }

    method Expel(i: int, row: Row, ghost from: seq<Row -> K>, ghost cols: seq<Row -> K>, ghost gs: Groups)
      requires Shaped(from) && Shaped(cols) && 0 <= i < |idx| && Holds(i, from, gs) && row != NULL
      requires forall x :: x != row ==> from[i](x) == cols[i](x)
      modifies idx[i]
      ensures Holds(i, cols, Removed(gs, row))
    {
      RemovedIn(gs, row);
      RemovedOrder(gs, row, from[i], cols[i], defs[i].cmp);
      idx[i].Remove(row);
    }

    /** insert_instance: the row goes into every index that admits it. */
    method InsertInstance(row: Row, cols: seq<Row -> K>, ghost was: seq<Groups>)
      requires Shaped(cols) && HoldAll(cols, was) && row != NULL
      requires forall i :: 0 <= i < |was| ==> !In(was[i], row)
      modifies this, idx
      ensures cnt == old(cnt) + 1
      ensures forall i :: 0 <= i < |idx| ==> Took(i, row, cols, was[i])
    {
      hide Holds, Took;
      cnt := cnt + 1;
      for i := 0 to |idx|
        invariant cnt == old(cnt) + 1
        invariant forall j :: i <= j < |idx| ==> Holds(j, cols, was[j])
        invariant forall j :: 0 <= j < i ==> Took(j, row, cols, was[j])
      {
        var here := idx[i];
        assert forall j :: 0 <= j < |idx| && j != i ==> idx[j] != here;
        assert !In(was[i], row);
        Admit(i, row, cols, was[i]);
      }
    }

    /** remove_instance: the row leaves every index, also one that had kept it out. */
    method RemoveInstance(row: Row, ghost cols: seq<Row -> K>, ghost was: seq<Groups>)
      requires Shaped(cols) && HoldAll(cols, was) && row != NULL
      modifies this, idx
      ensures cnt == old(cnt) - 1
      ensures forall i :: 0 <= i < |idx| ==> Holds(i, cols, Removed(was[i], row))
    {
      hide Holds;
      cnt := cnt - 1;
      for i := 0 to |idx|
        invariant cnt == old(cnt) - 1
        invariant forall j :: i <= j < |idx| ==> Holds(j, cols, was[j])
        invariant forall j :: 0 <= j < i ==> Holds(j, cols, Removed(was[j], row))
      {
        var here := idx[i];
        assert forall j :: 0 <= j < |idx| && j != i ==> idx[j] != here;
        Expel(i, row, cols, cols, was[i]);
      }
    }

    /** update_idx: the key of `row` has been overwritten; the row is taken out and put in again. */
    method UpdateIdx(i: int, row: Row, ghost from: seq<Row -> K>, cols: seq<Row -> K>, ghost gs: Groups)
      requires Shaped(from) && Shaped(cols) && 0 <= i < |idx| && Holds(i, from, gs) && row != NULL
      requires forall x :: x != row ==> from[i](x) == cols[i](x)
      modifies idx[i]
      ensures Took(i, row, cols, Removed(gs, row))
    {
      RemovedIn(gs, row);
      Expel(i, row, from, cols, gs);
      Admit(i, row, cols, Removed(gs, row));
    }

    /** update_instance_node_index: every index is brought up to date. */
    method UpdateAll(row: Row, ghost from: seq<Row -> K>, cols: seq<Row -> K>, ghost was: seq<Groups>)
      requires Shaped(from) && Shaped(cols) && HoldAll(from, was) && row != NULL
      requires forall i, x :: 0 <= i < |idx| && x != row ==> from[i](x) == cols[i](x)
      modifies idx
      ensures forall i :: 0 <= i < |idx| ==> Took(i, row, cols, Removed(was[i], row))
    {
      hide Holds, Took;
      for i := 0 to |idx|
        invariant forall j :: i <= j < |idx| ==> Holds(j, from, was[j])
        invariant forall j :: 0 <= j < i ==> Took(j, row, cols, Removed(was[j], row))
      {
        var here := idx[i];
        assert forall j :: 0 <= j < |idx| && j != i ==> idx[j] != here;
        UpdateIdx(i, row, from, cols, was[i]);
      }
    }
  }

  method NewIndexes(n: nat) returns (s: seq<Index>)
    ensures |s| == n && forall i :: 0 <= i < n ==> fresh(s[i]) && s[i].Valid() && s[i].groups == []
    ensures forall i, j :: 0 <= i < j < n ==> s[i] != s[j]
  {
    s := [];
    while |s| < n
      invariant |s| <= n && forall i :: 0 <= i < |s| ==> fresh(s[i]) && s[i].Valid() && s[i].groups == []
      invariant forall i, j :: 0 <= i < j < |s| ==> s[i] != s[j]
    {
      var index := new Index();
      s := s + [index];
    }
  }

  /** find_instance on an element without an index: the heads of the first index, in order.
      As instance numbers are unique these are all the rows, and the first match in instance order is found. */
  method ScanInstance<K(!new)>(index: Index, v: K, column: Row -> K, cmp: (K, K) -> int) returns (r: Row, ghost k: int)
    requires index.Valid()
    ensures r == NULL <==> forall j :: 0 <= j < |index.groups| ==> cmp(v, column(index.groups[j][0])) != 0
    ensures r != NULL ==> 0 <= k < |index.groups| && r == index.groups[k][0] && cmp(v, column(r)) == 0
    ensures r != NULL ==> forall j :: 0 <= j < k ==> cmp(v, column(index.groups[j][0])) != 0
    ensures Single(index.groups) ==> (r == NULL <==> forall y :: In(index.groups, y) ==> cmp(v, column(y)) != 0)
  {
    ghost var gs := index.groups;
    FirstHead(index.node, index.root, index.link, index.tree, gs);
    k := 0;
    r := index.MinMax(-1);
    while r != NULL
      invariant 0 <= k <= |gs| && r == HeadOr(gs, k)
      invariant r == NULL <==> k == |gs|
      invariant forall j :: 0 <= j < k ==> cmp(v, column(gs[j][0])) != 0
      decreases |gs| - k
    {
      if cmp(v, column(r)) == 0 {
        break;
      }
      HeadNotNull(index.node, index.root, index.link, index.tree, gs, k + 1);
      r := index.TreeNext(r, k);
      k := k + 1;
    }
    if r == NULL {
      SingleHeads(gs, v, column, cmp);
    } else {
      assert gs[k][0] in gs[k] && In(gs, gs[k][0]);
    }
  }

  lemma FirstHead(h: Heap, root: Row, lk: Links, t: Tree, gs: Groups)
    requires Wf(h, root, lk, t, gs)
    ensures Flat(gs) == [] <==> gs == []
    ensures gs != [] ==> Flat(gs)[0] == gs[0][0] && gs[0][0] != NULL
  {
    HeadNotNull(h, root, lk, t, gs, 0);
    if gs != [] { FlatAt(gs, 0, 0); }
  }

  lemma HeadNotNull(h: Heap, root: Row, lk: Links, t: Tree, gs: Groups, i: int)
    requires Wf(h, root, lk, t, gs) && 0 <= i <= |gs|
    ensures HeadOr(gs, i) == NULL <==> i == |gs|
    ensures i < |gs| ==> gs[i] != []
  {
    FlatRows(h, root, lk, t, gs);
    if i < |gs| {
      assert gs[i] != [] && gs[i][0] in gs[i];
      FlatIn(gs, gs[i][0]);
    }
  }

  lemma SingleHeads<K>(gs: Groups, v: K, column: Row -> K, cmp: (K, K) -> int)
    requires forall j :: 0 <= j < |gs| ==> gs[j] != [] && cmp(v, column(gs[j][0])) != 0
    ensures Single(gs) ==> forall y :: In(gs, y) ==> cmp(v, column(y)) != 0
  {
    if Single(gs) {
      forall y | In(gs, y) ensures cmp(v, column(y)) != 0 {
        var i :| 0 <= i < |gs| && y in gs[i];
        assert y == gs[i][0];
      }
    }
  }

  /** Re-indexing a row changes the membership of no other row; the row itself stays out only of a unique index
      in which another row has its new key. */
  lemma UpdatedMembers<K>(gs: Groups, row: Row, key: Row -> K, def: IndexDef<K>)
    requires Apartness(gs) && Apartness(Removed(gs, row))
    ensures var gs' := Admitted(Removed(gs, row), row, key, def);
            && (forall y :: y != row ==> (In(gs', y) <==> In(gs, y)))
            && (In(gs', row) <==> !(def.unique && exists y :: y != row && In(gs, y) && def.cmp(key(row), key(y)) == 0))
  {
    RemovedIn(gs, row);
    InsertedIn(Removed(gs, row), row, key, def.cmp);
  }
}
