/** Any run of operations on a table: which rows each of its indexes then holds. */
module TableRun {
  import opened Basics
  import opened RbShape
  import opened RowGroups
  import opened RbOrder
  import opened RbIndex
  import opened InstanceTree
  import opened RowIds
  import LeasePool

  /** insert_instance, remove_instance, and overwriting one element or all elements of a row. */
  datatype Op<!K> =
    | Put(row: Row)
    | Take(row: Row)
    | Rekey(row: Row, i: int, col: Row -> K)
    | RekeyAll(row: Row, cols: seq<Row -> K>)

  /** The keys of the rows in each index, the rows of the table, and those that each index holds. */
  datatype Table<!K> = Table(cols: seq<Row -> K>, rows: set<Row>, linked: seq<set<Row>>)

  /** A row is linked unless the index is unique and a linked row has its key. */
  ghost function Linked<K>(s: set<Row>, row: Row, key: Row -> K, def: IndexDef<K>): set<Row> {
    if def.unique && exists y :: y in s && def.cmp(key(row), key(y)) == 0 then s else s + {row}
  }

  /** Nothing but the key of the row differs. */
  ghost predicate OnlyRow<K(!new)>(row: Row, a: Row -> K, b: Row -> K) {
    forall x :: x != row ==> a(x) == b(x)
  }

  ghost predicate Legal<K(!new)>(t: Table<K>, n: int, op: Op<K>) {
    && |t.cols| == |t.linked| == n
    && match op
       case Put(row) => row != NULL && row !in t.rows
       case Take(row) => row in t.rows
       case Rekey(row, i, col) => 0 <= i < n && OnlyRow(row, t.cols[i], col)
       case RekeyAll(row, cols) => |cols| == n && forall i :: 0 <= i < n ==> OnlyRow(row, t.cols[i], cols[i])
  }

  /** What index `i` holds after the operation. A row that is not in the table is not indexed when it changes. */
  ghost function LinkedAfter<K(!new)>(t: Table<K>, defs: seq<IndexDef<K>>, op: Op<K>, i: int): set<Row>
    requires Legal(t, |defs|, op) && 0 <= i < |defs|
  {
    match op
    case Put(row) => Linked(t.linked[i], row, t.cols[i], defs[i])
    case Take(row) => t.linked[i] - {row}
    case Rekey(row, k, col) =>
      if row in t.rows && i == k then Linked(t.linked[i] - {row}, row, col, defs[i]) else t.linked[i]
    case RekeyAll(row, cols) =>
      if row in t.rows then Linked(t.linked[i] - {row}, row, cols[i], defs[i]) else t.linked[i]
  }

  ghost function After<K(!new)>(t: Table<K>, defs: seq<IndexDef<K>>, op: Op<K>): Table<K>
    requires Legal(t, |defs|, op)
  {
    Table(
      match op case Rekey(_, k, col) => t.cols[k := col] case RekeyAll(_, cols) => cols case _ => t.cols,
      match op case Put(row) => t.rows + {row} case Take(row) => t.rows - {row} case _ => t.rows,
      seq(|defs|, i requires 0 <= i < |defs| => LinkedAfter(t, defs, op, i)))
  }

  /** The operations are legal one after the other. */
  ghost predicate LegalRun<K(!new)>(t: Table<K>, defs: seq<IndexDef<K>>, ops: seq<Op<K>>)
    decreases |ops|
  {
    ops == [] || (Legal(t, |defs|, ops[0]) && LegalRun(After(t, defs, ops[0]), defs, ops[1..]))
  }

  ghost function AfterRun<K(!new)>(t: Table<K>, defs: seq<IndexDef<K>>, ops: seq<Op<K>>): Table<K>
    requires LegalRun(t, defs, ops)
    decreases |ops|
  {
    if ops == [] then t else AfterRun(After(t, defs, ops[0]), defs, ops[1..])
  }

  // ---------- one index ----------

  /** An index with content `gs` is in order for the keys and holds exactly the rows in `s`. */
  ghost predicate HoldsRows<K(!new)>(gs: Groups, key: Row -> K, def: IndexDef<K>, s: set<Row>) {
    Ordered(gs, key, def) && forall y :: In(gs, y) <==> y in s
  }

  lemma AdmittedRows<K(!new)>(gs: Groups, row: Row, key: Row -> K, def: IndexDef<K>, s: set<Row>)
    requires Apartness(gs) && (forall y :: In(gs, y) <==> y in s) && row !in s
    requires Ordered(Admitted(gs, row, key, def), key, def)
    ensures HoldsRows(Admitted(gs, row, key, def), key, def, Linked(s, row, key, def))
  {
    InsertedIn(gs, row, key, def.cmp);
  }

  lemma RemovedRows<K(!new)>(gs: Groups, row: Row, s: set<Row>)
    requires Apartness(gs) && forall y :: In(gs, y) <==> y in s
    ensures Apartness(Removed(gs, row)) && forall y :: In(Removed(gs, row), y) <==> y in s - {row}
  {
    RemovedIn(gs, row);
  }

  /** The key of a row that is not linked does not matter. */
  lemma OtherKeys<K(!new)>(gs: Groups, key: Row -> K, key': Row -> K, def: IndexDef<K>, s: set<Row>, row: Row)
    requires HoldsRows(gs, key, def, s) && row !in s && OnlyRow(row, key, key')
    ensures HoldsRows(gs, key', def, s)
  {
    SameKeys(gs, key, key', def.cmp);
  }

  // ---------- the table ----------

  ghost predicate Member<K(!new)>(tree: InstanceTree<K>, i: int, key: Row -> K, s: set<Row>)
    requires 0 <= i < |tree.idx| == |tree.defs|
    reads tree.idx[i]
  {
    tree.idx[i].Valid() && HoldsRows(tree.idx[i].groups, key, tree.defs[i], s)
  }

  ghost predicate Matches<K(!new)>(tree: InstanceTree<K>, t: Table<K>)
    reads tree.idx
  {
    && tree.Shaped(t.cols) && |t.linked| == |tree.idx| && NULL !in t.rows
    && forall i :: 0 <= i < |tree.idx| ==> Member(tree, i, t.cols[i], t.linked[i]) && t.linked[i] <= t.rows
  }

  ghost function Contents<K(!new)>(tree: InstanceTree<K>): (gs: seq<Groups>)
    reads tree.idx
    ensures |gs| == |tree.idx| && forall i :: 0 <= i < |gs| ==> gs[i] == tree.idx[i].groups
  {
    seq(|tree.idx|, i requires 0 <= i < |tree.idx| reads tree.idx => tree.idx[i].groups)
  }

  lemma MatchesHold<K(!new)>(tree: InstanceTree<K>, t: Table<K>)
    requires Matches(tree, t)
    ensures tree.HoldAll(t.cols, Contents(tree))
    ensures forall i :: 0 <= i < |tree.idx| ==> HoldsRows(tree.idx[i].groups, t.cols[i], tree.defs[i], t.linked[i])
  {
    hide HoldsRows;
    forall i | 0 <= i < |tree.idx| ensures tree.Holds(i, t.cols, Contents(tree)[i]) {
      assert Member(tree, i, t.cols[i], t.linked[i]);
      RowsOrdered(tree.idx[i].groups, t.cols[i], tree.defs[i], t.linked[i]);
    }
  }

  lemma RowsOrdered<K(!new)>(gs: Groups, key: Row -> K, def: IndexDef<K>, s: set<Row>)
    requires HoldsRows(gs, key, def, s)
    ensures Ordered(gs, key, def) && Apartness(gs) && forall y :: In(gs, y) <==> y in s
  {}

  /** After INSERT into an index that held `gs`. */
  lemma TookRows<K(!new)>(tree: InstanceTree<K>, i: int, row: Row, cols: seq<Row -> K>, gs: Groups, s: set<Row>)
    requires tree.Shaped(cols) && 0 <= i < |tree.idx| && tree.Took(i, row, cols, gs)
    requires (forall y :: In(gs, y) <==> y in s) && row !in s
    ensures Member(tree, i, cols[i], Linked(s, row, cols[i], tree.defs[i]))
  {
    hide Ordered, Linked, HoldsRows, Apartness, Admitted;
    AdmittedRows(gs, row, cols[i], tree.defs[i], s);
  }

  method DoPut<K(!new)>(tree: InstanceTree<K>, row: Row, cols: seq<Row -> K>, ghost t: Table<K>)
    requires Matches(tree, t) && cols == t.cols && Legal(t, |tree.defs|, Put(row))
    modifies tree, tree.idx
    ensures Matches(tree, After(t, tree.defs, Put(row))) && tree.cnt == old(tree.cnt) + 1
  {
    hide HoldsRows, Ordered, Linked;
    MatchesHold(tree, t);
    ghost var was := Contents(tree);
    forall i | 0 <= i < |was| ensures forall y :: In(was[i], y) <==> y in t.linked[i] {
      RowsOrdered(was[i], cols[i], tree.defs[i], t.linked[i]);
    }
    tree.InsertInstance(row, cols, was);
    forall i | 0 <= i < |tree.idx| ensures Member(tree, i, cols[i], LinkedAfter(t, tree.defs, Put(row), i)) {
      TookRows(tree, i, row, cols, was[i], t.linked[i]);
    }
    LinkedInside(t, tree.defs, Put(row));
  }

  /** No index holds a row that is not in the table. */
  lemma LinkedInside<K(!new)>(t: Table<K>, defs: seq<IndexDef<K>>, op: Op<K>)
    requires Legal(t, |defs|, op) && forall i :: 0 <= i < |defs| ==> t.linked[i] <= t.rows
    ensures forall i :: 0 <= i < |defs| ==> LinkedAfter(t, defs, op, i) <= After(t, defs, op).rows
  {}

  method DoTake<K(!new)>(tree: InstanceTree<K>, row: Row, ghost t: Table<K>)
    requires Matches(tree, t) && Legal(t, |tree.defs|, Take(row))
    modifies tree, tree.idx
    ensures Matches(tree, After(t, tree.defs, Take(row))) && tree.cnt == old(tree.cnt) - 1
  {
    hide HoldsRows, Ordered;
    MatchesHold(tree, t);
    ghost var was := Contents(tree);
    forall i | 0 <= i < |was|
      ensures Apartness(was[i]) && (forall y :: In(was[i], y) <==> y in t.linked[i])
    {
      RowsOrdered(was[i], t.cols[i], tree.defs[i], t.linked[i]);
    }
    tree.RemoveInstance(row, t.cols, was);
    forall i | 0 <= i < |tree.idx| ensures Member(tree, i, t.cols[i], t.linked[i] - {row}) {
      assert tree.Holds(i, t.cols, Removed(was[i], row));
      RemovedRows<K>(was[i], row, t.linked[i]);
      RowsHeld(tree.idx[i].groups, t.cols[i], tree.defs[i], t.linked[i] - {row});
    }
    LinkedInside(t, tree.defs, Take(row));
  }

  lemma RowsHeld<K(!new)>(gs: Groups, key: Row -> K, def: IndexDef<K>, s: set<Row>)
    requires Ordered(gs, key, def) && forall y :: In(gs, y) <==> y in s
    ensures HoldsRows(gs, key, def, s)
  {}

  /** update_index: only a row of the table is put in its place again, in the index of the element that changed. */
  method DoRekey<K(!new)>(tree: InstanceTree<K>, row: Row, i: int, col: Row -> K, inTable: bool, cols: seq<Row -> K>,
    ghost t: Table<K>)
    requires Matches(tree, t) && cols == t.cols && Legal(t, |tree.defs|, Rekey(row, i, col))
      && (inTable <==> row in t.rows)
    modifies tree.idx
    ensures Matches(tree, After(t, tree.defs, Rekey(row, i, col)))
  {
    hide HoldsRows, Ordered, Linked;
    MatchesHold(tree, t);
    LinkedInside(t, tree.defs, Rekey(row, i, col));
    ghost var gs, s := tree.idx[i].groups, t.linked[i];
    var here := tree.idx[i];
    assert forall j :: 0 <= j < |tree.idx| && j != i ==> tree.idx[j] != here;
    if inTable {
      RowsOrdered(gs, cols[i], tree.defs[i], s);
      RemovedRows<K>(gs, row, s);
      assert tree.Holds(i, cols, gs);
      tree.UpdateIdx(i, row, cols, cols[i := col], gs);
      TookRows(tree, i, row, cols[i := col], Removed(gs, row), s - {row});
    } else {
      assert s <= t.rows;
      OtherKeys(gs, cols[i], col, tree.defs[i], s, row);
      assert Member(tree, i, col, s);
    }
    forall j | 0 <= j < |tree.idx|
      ensures Member(tree, j, cols[i := col][j], LinkedAfter(t, tree.defs, Rekey(row, i, col), j))
    {
      if j != i { assert Member(tree, j, cols[j], t.linked[j]); }
    }
  }

  /** update_instance_node_index: the same in all indexes. */
  method DoRekeyAll<K(!new)>(tree: InstanceTree<K>, row: Row, to: seq<Row -> K>, inTable: bool, ghost t: Table<K>)
    requires Matches(tree, t) && Legal(t, |tree.defs|, RekeyAll(row, to)) && (inTable <==> row in t.rows)
    modifies tree.idx
    ensures Matches(tree, After(t, tree.defs, RekeyAll(row, to)))
  {
    hide HoldsRows, Ordered, Linked;
    MatchesHold(tree, t);
    LinkedInside(t, tree.defs, RekeyAll(row, to));
    ghost var was := Contents(tree);
    if inTable {
      forall i | 0 <= i < |was|
        ensures Apartness(was[i]) && (forall y :: In(was[i], y) <==> y in t.linked[i])
      {
        RowsOrdered(was[i], t.cols[i], tree.defs[i], t.linked[i]);
      }
      tree.UpdateAll(row, t.cols, to, was);
      forall i | 0 <= i < |tree.idx| ensures Member(tree, i, to[i], LinkedAfter(t, tree.defs, RekeyAll(row, to), i)) {
        RemovedRows<K>(was[i], row, t.linked[i]);
        TookRows(tree, i, row, to, Removed(was[i], row), t.linked[i] - {row});
      }
    } else {
      forall i | 0 <= i < |tree.idx| ensures Member(tree, i, to[i], t.linked[i]) {
        assert Member(tree, i, t.cols[i], t.linked[i]) && t.linked[i] <= t.rows;
        OtherKeys(tree.idx[i].groups, t.cols[i], to[i], tree.defs[i], t.linked[i], row);
      }
    }
  }

  /** The table with its id map: the rows that are in it have numbers, and are counted. */
  ghost predicate Whole<K(!new)>(tree: InstanceTree<K>, ids: RowIds, t: Table<K>)
    reads tree, tree.idx, ids
  {
    Matches(tree, t) && ids.Valid() && ids.idm.Keys == t.rows && tree.cnt == |t.rows|
  }

  /** insert_instance with its id map: the row gets the least number that is free. */
  method InsertRow<K(!new)>(tree: InstanceTree<K>, ids: RowIds, row: Row, cols: seq<Row -> K>, ghost t: Table<K>)
    requires Whole(tree, ids, t) && cols == t.cols && Legal(t, |tree.defs|, Put(row))
    modifies tree, tree.idx, ids
    ensures Whole(tree, ids, After(t, tree.defs, Put(row))) && ids.idm == old(ids.idm)[row := ids.idm[row]]
    ensures |ids.bits| == |old(ids.bits)|
    ensures ids.idm[row] == 0 <==> forall i :: 1 <= i <= LeasePool.SIZE * |ids.bits| ==> Has(old(ids.idm), i)
    ensures ids.idm[row] != 0 ==>
      !Has(old(ids.idm), ids.idm[row]) && forall i :: 1 <= i < ids.idm[row] ==> Has(old(ids.idm), i)
  {
    hide Matches, Agrees, Has;
    DoPut(tree, row, cols, t);
    ids.Assign(row);
  }

  /** remove_instance with its id map: the row's number is free again. */
  method RemoveRow<K(!new)>(tree: InstanceTree<K>, ids: RowIds, row: Row, ghost t: Table<K>)
    requires Whole(tree, ids, t) && Legal(t, |tree.defs|, Take(row))
    modifies tree, tree.idx, ids
    ensures Whole(tree, ids, After(t, tree.defs, Take(row))) && ids.idm == old(ids.idm) - {row}
    ensures |ids.bits| == |old(ids.bits)|
  {
    hide Matches, Agrees;
    DoTake(tree, row, t);
    ids.Release(row);
  }

  /** update_index and update_instance_node_index: no number changes. */
  method RekeyRow<K(!new)>(tree: InstanceTree<K>, ids: RowIds, op: Op<K>, cols: seq<Row -> K>, ghost t: Table<K>)
    returns (cols': seq<Row -> K>)
    requires Whole(tree, ids, t) && cols == t.cols && Legal(t, |tree.defs|, op) && (op.Rekey? || op.RekeyAll?)
    modifies tree.idx
    ensures Whole(tree, ids, After(t, tree.defs, op)) && cols' == After(t, tree.defs, op).cols
  {
    hide Matches, Agrees;
    match op
    case Rekey(row, i, col) =>
      DoRekey(tree, row, i, col, row in ids.idm, cols, t);
      cols' := cols[i := col];
    case RekeyAll(row, to) =>
      DoRekeyAll(tree, row, to, row in ids.idm, t);
      cols' := to;
  }

  /** One operation: a row keeps its number as long as it is in the table. */
  method Do<K(!new)>(tree: InstanceTree<K>, ids: RowIds, op: Op<K>, cols: seq<Row -> K>, ghost t: Table<K>)
    returns (cols': seq<Row -> K>)
    requires Whole(tree, ids, t) && Legal(t, |tree.defs|, op) && cols == t.cols
    modifies tree, tree.idx, ids
    ensures Whole(tree, ids, After(t, tree.defs, op)) && cols' == After(t, tree.defs, op).cols
    ensures forall x :: x in ids.idm && x in old(ids.idm) ==> ids.idm[x] == old(ids.idm)[x]
  {
    hide Whole, Has;
    NumbersOfRows(tree, ids, t);
    cols' := cols;
    match op {
      case Put(row) => InsertRow(tree, ids, row, cols, t);
      case Take(row) => RemoveRow(tree, ids, row, t);
      case _ => cols' := RekeyRow(tree, ids, op, cols, t);
    }
  }

  lemma NumbersOfRows<K(!new)>(tree: InstanceTree<K>, ids: RowIds, t: Table<K>)
    requires Whole(tree, ids, t)
    ensures ids.idm.Keys == t.rows
  {}

  /** After any run of operations every index is well formed, in order for the present keys, and holds exactly the
      rows that the run leaves linked; no two rows in the table have the same number but 0, and the table counts
      its rows. */
  method Run<K(!new)>(tree: InstanceTree<K>, ids: RowIds, ops: seq<Op<K>>, cols: seq<Row -> K>, ghost t: Table<K>)
    requires Whole(tree, ids, t) && LegalRun(t, tree.defs, ops) && cols == t.cols
    modifies tree, tree.idx, ids
    ensures Whole(tree, ids, AfterRun(t, tree.defs, ops))
  {
    hide Whole, Legal, After;
    var here := cols;
    ghost var now := t;
    assert ops[0..] == ops;
    for k := 0 to |ops|
      invariant Whole(tree, ids, now) && here == now.cols
      invariant LegalRun(now, tree.defs, ops[k..]) && AfterRun(now, tree.defs, ops[k..]) == AfterRun(t, tree.defs, ops)
    {
      assert ops[k..][1..] == ops[k + 1..];
      here := Do(tree, ids, ops[k], here, now);
      now := After(now, tree.defs, ops[k]);
    }
  }

  /** From a table without rows; `words` is 0 for a table without an id map. */
  method RunFromEmpty<K(!new)>(defs: seq<IndexDef<K>>, words: nat, ops: seq<Op<K>>, cols: seq<Row -> K>)
    returns (tree: InstanceTree<K>, ids: RowIds)
    requires |cols| == |defs| && forall i :: 0 <= i < |defs| ==> TotalOrder(defs[i].cmp)
    requires LegalRun(Table(cols, {}, Repeated({}, |defs|)), defs, ops)
    ensures tree.defs == defs && Whole(tree, ids, AfterRun(Table(cols, {}, Repeated({}, |defs|)), defs, ops))
  {
    hide LegalRun, AfterRun;
    tree := new InstanceTree(defs, cols);
    EmptyMatches(tree, cols);
    ids := new RowIds(words);
    Run(tree, ids, ops, cols, Table(cols, {}, Repeated({}, |defs|)));
  }

  lemma EmptyMatches<K(!new)>(tree: InstanceTree<K>, cols: seq<Row -> K>)
    requires tree.Shaped(cols) && tree.HoldAll(cols, Repeated([], |tree.defs|))
    ensures Matches(tree, Table(cols, {}, Repeated({}, |tree.defs|)))
  {
    forall i | 0 <= i < |tree.idx| ensures Member(tree, i, cols[i], {}) {
      var was := Repeated([], |tree.defs|);
      assert tree.Holds(i, cols, was[i]) && was[i] == [];
    }
  }
}
