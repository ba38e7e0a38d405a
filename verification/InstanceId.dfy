/** The automatic choice of an instance number. */
module InstanceId {
  import opened RbShape
  import opened RbHeap
  import opened RowGroups
  import opened RbWellFormed
  import opened RbOrder
  import opened RbIndex
  import opened KeyOrder

  const ID_LIMIT := 0x1_0000  // dm_id is an unsigned 16-bit number

  ghost predicate Used(gs: Groups, inst: Row -> int, id: int) {
    exists y :: In(gs, y) && inst(y) == id
  }

  /** The rows of a table with unique 16-bit instance numbers. */
  ghost predicate Numbered(gs: Groups, inst: Row -> int) {
    && Apartness(gs) && Sorted(gs, inst, NumberCmp) && (forall i :: 0 <= i < |gs| ==> |gs[i]| == 1)
    && forall y :: In(gs, y) ==> 0 <= inst(y) < ID_LIMIT
  }

  /** `id` is the least unused number above `base`; with none left below the limit the counter has wrapped to 0. */
  ghost predicate Chosen(gs: Groups, inst: Row -> int, base: int, id: int) {
    if forall j :: base < j < ID_LIMIT ==> Used(gs, inst, j) then id == 0
    else base < id < ID_LIMIT && !Used(gs, inst, id) && forall j :: base < j < id ==> Used(gs, inst, j)
  }

  ghost predicate AllUsed(gs: Groups, inst: Row -> int, base: int, id: int) {
    forall j :: base < j <= id ==> Used(gs, inst, j)
  }

  lemma NoneUsed(gs: Groups, inst: Row -> int, base: int)
    ensures AllUsed(gs, inst, base, base)
  {}

  lemma AllUsedNext(gs: Groups, inst: Row -> int, base: int, id: int)
    requires AllUsed(gs, inst, base, id) && Used(gs, inst, id + 1)
    ensures AllUsed(gs, inst, base, id + 1)
  {}

  lemma FreeChosen(gs: Groups, inst: Row -> int, base: int, last: int)
    requires AllUsed(gs, inst, base, last) && base <= last < ID_LIMIT && 0 <= base
    requires last + 1 == ID_LIMIT || !Used(gs, inst, last + 1)
    ensures Chosen(gs, inst, base, (last + 1) % ID_LIMIT)
  {}

  lemma NextGap(gs: Groups, inst: Row -> int, n: int, id: int)
    requires Numbered(gs, inst) && 0 <= n < |Flat(gs)| && inst(Flat(gs)[n]) == id
    requires n + 1 < |Flat(gs)| ==> inst(Flat(gs)[n + 1]) > id + 1
    ensures !Used(gs, inst, id + 1)
  {
    hide Flat, Apartness, In, Sorted;
    NumbersOrdered();
    forall y | In(gs, y) ensures inst(y) != id + 1 {
      FlatIn(gs, y);
      var m :| 0 <= m < |Flat(gs)| && Flat(gs)[m] == y;
      if m <= n {
        FlatSorted(gs, inst, NumberCmp, m, n);
      } else {
        FlatSorted(gs, inst, NumberCmp, n + 1, m);
      }
    }
  }

  /** One step along the index: the next number is taken by the next row, or it is free, or there is no next number. */
  method Step(index: Index, elem: Row, ghost n: int, inst: Row -> int, last: int) returns (next: Row, id: int)
    requires index.Valid() && Numbered(index.groups, inst)
    requires 0 <= n < |Flat(index.groups)| && Flat(index.groups)[n] == elem && inst(elem) == last
    ensures id == (last + 1) % ID_LIMIT
    ensures next != NULL ==> n + 1 < |Flat(index.groups)| && Flat(index.groups)[n + 1] == next
    ensures next != NULL && inst(next) <= id ==> inst(next) == id == last + 1 && Used(index.groups, inst, id)
    ensures next == NULL || inst(next) > id ==> !Used(index.groups, inst, last + 1)
  {
    hide Numbered;
    hide Wf;
    FlatNext(index.node, index.root, index.link, index.tree, index.groups, n);
    NextNumber(index.groups, inst, n, last);
    id := (last + 1) % ID_LIMIT;
    next := index.IdxNext(elem);
  }

  lemma FlatNext(h: Heap, root: Row, lk: Links, t: Tree, gs: Groups, n: int)
    requires Wf(h, root, lk, t, gs) && 0 <= n < |Flat(gs)|
    ensures In(gs, Flat(gs)[n])
    ensures Following(Flat(gs), Flat(gs)[n]) == if n + 1 < |Flat(gs)| then Flat(gs)[n + 1] else NULL
    ensures n + 1 < |Flat(gs)| ==> Flat(gs)[n + 1] != NULL
  {
    FlatIn(gs, Flat(gs)[n]);
    FlatNoDup(gs);
    FollowingAt(Flat(gs), n);
    FlatRows(h, root, lk, t, gs);
  }

  /** The number after `last` is taken by the next row, or free, or past the limit. */
  lemma NextNumber(gs: Groups, inst: Row -> int, n: int, last: int)
    requires Numbered(gs, inst) && 0 <= n < |Flat(gs)| && inst(Flat(gs)[n]) == last
    ensures 0 <= last < ID_LIMIT
    ensures n + 1 < |Flat(gs)| ==> last < inst(Flat(gs)[n + 1]) < ID_LIMIT && Used(gs, inst, inst(Flat(gs)[n + 1]))
    ensures (n + 1 < |Flat(gs)| ==> inst(Flat(gs)[n + 1]) > last + 1) ==> !Used(gs, inst, last + 1)
  {
    NumbersOrdered();
    FlatIn(gs, Flat(gs)[n]);
    if n + 1 < |Flat(gs)| {
      FlatIn(gs, Flat(gs)[n + 1]);
      FlatSorted(gs, inst, NumberCmp, n, n + 1);
    }
    if n + 1 < |Flat(gs)| ==> inst(Flat(gs)[n + 1]) > last + 1 {
      NextGap(gs, inst, n, last);
    }
  }

  /** dm_add_instance for an id without a number: counts up from the first candidate along the instance index. */
  method AutoId(index: Index, base: int, inst: Row -> int) returns (id: int)
    requires index.Valid() && Numbered(index.groups, inst) && 0 <= base < ID_LIMIT - 1
    ensures Chosen(index.groups, inst, base, id)
  {
    hide Numbered, Used, AllUsed, Chosen;
    ghost var gs, s := index.groups, Flat(index.groups);
    var elem;
    ghost var n, last := -1, base;
    elem, n, id := First(index, base, inst);
    NoneUsed(gs, inst, base);
    while elem != NULL
      invariant AllUsed(gs, inst, base, last) && base <= last < ID_LIMIT && id == (last + 1) % ID_LIMIT && n < |s|
      invariant elem == NULL ==> last + 1 == ID_LIMIT || !Used(gs, inst, id)
      invariant elem != NULL ==>
        0 <= n && s[n] == elem && inst(elem) == id && base < id < ID_LIMIT && Used(gs, inst, id)
      decreases elem != NULL, |s| - n
    {
      AllUsedNext(gs, inst, base, last);
      last := id;
      elem, id := Step(index, elem, n, inst, id);
      if elem == NULL || inst(elem) > id {
        break;
      }
      n := n + 1;
    }
    FreeChosen(gs, inst, base, last);
  }

  method First(index: Index, base: int, inst: Row -> int) returns (elem: Row, ghost n: int, id: int)
    requires index.Valid() && Numbered(index.groups, inst) && 0 <= base < ID_LIMIT - 1
    ensures id == base + 1
    ensures elem == NULL <==> !Used(index.groups, inst, id)
    ensures elem == NULL ==> n == -1
    ensures elem != NULL ==> 0 <= n < |Flat(index.groups)| && Flat(index.groups)[n] == elem && inst(elem) == id
  {
    NumbersOrdered();
    id := (base + 1) % ID_LIMIT;
    elem := index.Find(id, inst, NumberCmp);
    n := -1;
    if elem != NULL {
      FlatIn(index.groups, elem);
      n :| 0 <= n < |Flat(index.groups)| && Flat(index.groups)[n] == elem;
    }
  }

  /** All the rows that a table can have above the base of automatic instances, each in a group of its own. */
  function FullTable(): (gs: Groups)
    ensures |gs| == 0x3FFF && forall i :: 0 <= i < |gs| ==> gs[i] == [i + 1]
  {
    seq(0x3FFF, i => [i + 1])
  }

  function AutoNumber(row: Row): int {
    0xC000 + row
  }

  lemma FullRows(y: Row)
    ensures In(FullTable(), y) <==> 1 <= y <= 0x3FFF
  {
    hide FullTable;
    if 1 <= y <= 0x3FFF { assert y in FullTable()[y - 1]; }
  }

  lemma FullNumbered()
    ensures Numbered(FullTable(), AutoNumber)
  {
    hide FullTable, Apartness, Sorted;
    forall y | In(FullTable(), y) ensures 0 <= AutoNumber(y) < ID_LIMIT { FullRows(y); }
    FullApart();
    FullSorted();
  }

  lemma FullApart()
    ensures Apartness(FullTable())
  {
    hide FullTable;
  }

  lemma FullSorted()
    ensures Sorted(FullTable(), AutoNumber, NumberCmp)
  {
    hide FullTable;
  }

  /** Such a table has no number left, and the one chosen is 0. */
  lemma NoNumberLeft()
    ensures Numbered(FullTable(), AutoNumber) && Chosen(FullTable(), AutoNumber, 0xC000, 0)
  {
    hide FullTable, Numbered;
    FullNumbered();
    forall j | 0xC000 < j < ID_LIMIT ensures Used(FullTable(), AutoNumber, j) {
      FullRows(j - 0xC000);
      assert AutoNumber(j - 0xC000) == j;
    }
  }
}
