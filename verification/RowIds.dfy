/** The small numbers that the rows of a table get from its id map. */
module RowIds {
  import opened RbShape
  import opened LeasePool

  /** map_ffz: the least clear bit, -1 if there is none. */
  method FirstClear(bm: BitMap) returns (id: int)
    ensures id == -1 <==> forall i :: 0 <= i < SIZE * |bm| ==> Bit(bm, i)
    ensures id != -1 ==> 0 <= id < SIZE * |bm| && !Bit(bm, id) && forall i :: 0 <= i < id ==> Bit(bm, i)
  {
    for k := 0 to |bm|
      invariant forall i :: 0 <= i < SIZE * k ==> Bit(bm, i)
    {
      var n := Ffs(Not(bm[k]));
      WordBits(bm, k, n);
      if n != 0 {
        return SIZE * k + n - 1;
      }
    }
    return -1;
  }

  /** What ffs of the complement says of the bits of a word. */
  lemma WordBits(bm: BitMap, k: int, n: nat)
    requires 0 <= k < |bm| && (n == 0 <==> Not(bm[k]) == Zero())
    requires n > 0 ==> n <= SIZE && Not(bm[k])[n - 1] && forall i :: 0 <= i < n - 1 ==> !Not(bm[k])[i]
    ensures n == 0 ==> forall i :: SIZE * k <= i < SIZE * (k + 1) ==> Bit(bm, i)
    ensures n != 0 ==> !Bit(bm, SIZE * k + n - 1) && forall i :: SIZE * k <= i < SIZE * k + n - 1 ==> Bit(bm, i)
  {
    forall i | SIZE * k <= i < SIZE * (k + 1)
      ensures i / SIZE == k && i % SIZE == i - SIZE * k && Bit(bm, i) == !Not(bm[k])[i - SIZE * k]
    {
    }
  }

  /** Some row has the number. */
  ghost predicate Has(idm: map<Row, int>, n: int) {
    exists x :: x in idm && idm[x] == n
  }

  /** A bit is set exactly if a row has its number, and no two rows have the same. */
  ghost predicate Agrees(bits: BitMap, idm: map<Row, int>) {
    && (forall x :: x in idm ==> 0 <= idm[x] <= SIZE * |bits|)
    && (forall x, y :: x in idm && y in idm && x != y && idm[x] != 0 ==> idm[x] != idm[y])
    && (forall i :: 0 <= i < SIZE * |bits| ==> (Bit(bits, i) <==> Has(idm, i + 1)))
  }

  lemma HasMore(idm: map<Row, int>, row: Row, n: int, k: int)
    requires row !in idm
    ensures Has(idm[row := n], k) <==> k == n || Has(idm, k)
  {
    var m := idm[row := n];
    if Has(idm, k) {
      var x :| x in idm && idm[x] == k;
      assert x in m && m[x] == k;
    }
    assert m[row] == n;
  }

  lemma HasLess(idm: map<Row, int>, row: Row, k: int)
    requires row in idm && forall x :: x in idm && x != row && idm[row] != 0 ==> idm[x] != idm[row]
    ensures k != 0 ==> (Has(idm - {row}, k) <==> k != idm[row] && Has(idm, k))
  {
    var m := idm - {row};
    if Has(idm, k) && k != idm[row] {
      var x :| x in idm && idm[x] == k;
      assert x in m && m[x] == k;
    }
  }

  lemma AssignStep(bits: BitMap, idm: map<Row, int>, row: Row, id: int)
    requires Agrees(bits, idm) && row !in idm && -1 <= id < SIZE * |bits| && (id >= 0 ==> !Bit(bits, id))
    ensures Agrees(if id >= 0 then WithBit(bits, id, true) else bits, idm[row := id + 1])
  {
    var bits' := if id >= 0 then WithBit(bits, id, true) else bits;
    forall i | 0 <= i < SIZE * |bits'| ensures Bit(bits', i) <==> Has(idm[row := id + 1], i + 1) {
      HasMore(idm, row, id + 1, i + 1);
      if id >= 0 { WithBitBits(bits, id, true, i); }
    }
    assert id >= 0 ==> !Has(idm, id + 1);
  }

  lemma ReleaseStep(bits: BitMap, idm: map<Row, int>, row: Row)
    requires Agrees(bits, idm) && row in idm
    ensures Agrees(if idm[row] > 0 then WithBit(bits, idm[row] - 1, false) else bits, idm - {row})
  {
    var n := idm[row];
    var bits' := if n > 0 then WithBit(bits, n - 1, false) else bits;
    forall i | 0 <= i < SIZE * |bits'| ensures Bit(bits', i) <==> Has(idm - {row}, i + 1) {
      HasLess(idm, row, i + 1);
      if n > 0 { WithBitBits(bits, n - 1, false, i); }
    }
  }

  /** The number of a row is one more than its bit; 0 means that none was free. */
  class RowIds {
    var bits: BitMap
    var idm: map<Row, int>

    ghost predicate Valid()
      reads this
    {
      Agrees(bits, idm)
    }

    constructor (words: nat)
      ensures Valid() && idm == map[] && |bits| == words
    {
      bits := seq(words, i => Zero());
      idm := map[];
    }

    /** The end of insert_instance: the row gets the least number that no row has, or 0 if there is none. */
    method Assign(row: Row)
      requires Valid() && row !in idm
      modifies this
      ensures Valid() && |bits| == |old(bits)| && row in idm && idm == old(idm)[row := idm[row]]
      ensures idm[row] == 0 <==> forall i :: 1 <= i <= SIZE * |bits| ==> Has(old(idm), i)
      ensures idm[row] != 0 ==> !Has(old(idm), idm[row]) && forall i :: 1 <= i < idm[row] ==> Has(old(idm), i)
    {
      hide WithBit;
      var id := FirstClear(bits);
      BitsAreNumbers(bits, idm);
      AssignStep(bits, idm, row, id);
      if id >= 0 {
        bits := WithBit(bits, id, true);
      }
      idm := idm[row := id + 1];
    }

    /** The end of remove_instance: the row's number is free again. */
    method Release(row: Row)
      requires Valid() && row in idm
      modifies this
      ensures Valid() && idm == old(idm) - {row} && |bits| == |old(bits)|
    {
      hide Agrees;
      ReleaseStep(bits, idm, row);
      Ranges(bits, idm, row);
      if idm[row] > 0 {
        bits := WithBit(bits, idm[row] - 1, false);
      }
      idm := idm - {row};
    }
  }

  /** The assertion in remove_instance (mand/dm_index.c:892) holds of every number but the last: it divides the
      number, not the bit. */
  lemma LastNumberAsserts(n: int, words: int)
    requires 1 <= n <= SIZE * words
    ensures n / SIZE < words <==> n != SIZE * words
  {}

  /** A table of one word: its 32nd row cannot be removed where assertions are compiled in. */
  method LastRow() returns (ids: RowIds)
    ensures ids.Valid() && 32 in ids.idm && ids.idm[32] == 32 && !(ids.idm[32] / SIZE < |ids.bits|)
  {
    ids := new RowIds(1);
    for x := 1 to 33
      invariant fresh(ids) && ids.Valid() && |ids.bits| == 1
      invariant forall y :: y in ids.idm <==> 1 <= y < x
      invariant forall y :: 1 <= y < x ==> ids.idm[y] == y
    {
      ghost var was := ids.idm;
      FirstNumbers(was, x);
      ids.Assign(x);
      assert !Has(was, x) && (x < ids.idm[x] ==> Has(was, x));
    }
  }

  lemma FirstNumbers(idm: map<Row, int>, x: int)
    requires (forall y :: y in idm <==> 1 <= y < x) && forall y :: 1 <= y < x ==> idm[y] == y
    ensures forall k :: Has(idm, k) <==> 1 <= k < x
  {
    forall k | 1 <= k < x ensures Has(idm, k) { assert k in idm && idm[k] == k; }
  }

  lemma BitsAreNumbers(bits: BitMap, idm: map<Row, int>)
    requires Agrees(bits, idm)
    ensures forall i :: 1 <= i <= SIZE * |bits| ==> (Bit(bits, i - 1) <==> Has(idm, i))
    ensures (forall i :: 0 <= i < SIZE * |bits| ==> Bit(bits, i)) <==>
      forall i :: 1 <= i <= SIZE * |bits| ==> Has(idm, i)
  {
    forall i | 1 <= i <= SIZE * |bits| ensures Bit(bits, i - 1) <==> Has(idm, i) {
      assert Bit(bits, i - 1) <==> Has(idm, i - 1 + 1);
    }
    forall i | 0 <= i < SIZE * |bits| ensures Bit(bits, i) <==> Has(idm, i + 1) {
    }
  }

  lemma Ranges(bits: BitMap, idm: map<Row, int>, row: Row)
    requires Agrees(bits, idm) && row in idm
    ensures 0 <= idm[row] <= SIZE * |bits|
  {}
}
