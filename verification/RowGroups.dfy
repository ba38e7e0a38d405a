/** The abstract content of one index: the groups of equal-key rows, in key order.
    The first row of a group is the head that sits in the tree, the others hang off it in a list. */
module RowGroups {
  import opened Basics
  import opened RbShape

  type Groups = seq<seq<Row>>

  /** The list fields of a row's node. */
  datatype Link = Link(prev: Row, next: Row)

  type Links = map<Row, Link>

  function LinkAt(lk: Links, x: Row): Link {
    if x in lk then lk[x] else Link(NULL, NULL)
  }

  function Prev(lk: Links, x: Row): Row requires x != NULL { LinkAt(lk, x).prev }
  function Next(lk: Links, x: Row): Row requires x != NULL { LinkAt(lk, x).next }
  function SetPrev(lk: Links, x: Row, v: Row): (lk': Links)
    requires x != NULL
    ensures forall y :: LinkAt(lk', y) == if y == x then LinkAt(lk, y).(prev := v) else LinkAt(lk, y)
  { lk[x := LinkAt(lk, x).(prev := v)] }
  function SetNext(lk: Links, x: Row, v: Row): (lk': Links)
    requires x != NULL
    ensures forall y :: LinkAt(lk', y) == if y == x then LinkAt(lk, y).(next := v) else LinkAt(lk, y)
  { lk[x := LinkAt(lk, x).(next := v)] }

  // ---------- the doubly linked lists ----------

  function PrevIn(g: seq<Row>, k: int): Row
    requires 0 <= k < |g|
  { if k == 0 then NULL else g[k - 1] }

  function NextIn(g: seq<Row>, k: int): Row
    requires 0 <= k < |g|
  { if k == |g| - 1 then NULL else g[k + 1] }

  ghost predicate ChainAt(lk: Links, g: seq<Row>, k: int)
    requires 0 <= k < |g|
  {
    g[k] != NULL && LinkAt(lk, g[k]) == Link(PrevIn(g, k), NextIn(g, k))
  }

  ghost predicate Chain(lk: Links, g: seq<Row>) {
    forall k :: 0 <= k < |g| ==> ChainAt(lk, g, k)
  }

  ghost predicate NoDup(g: seq<Row>) {
    forall k, l :: 0 <= k < l < |g| ==> g[k] != g[l]
  }

  /** The field writes that take `g[k]` out of its list. */
  ghost predicate Unlinked(lk: Links, lk': Links, g: seq<Row>, k: int)
    requires 0 <= k < |g|
  {
    forall y :: LinkAt(lk', y) ==
                if k > 0 && y == g[k - 1] then LinkAt(lk, y).(next := NextIn(g, k))
                else if k < |g| - 1 && y == g[k + 1] then LinkAt(lk, y).(prev := PrevIn(g, k))
                else if y == g[k] then Link(NULL, NULL)
                else LinkAt(lk, y)
  }

  /** The neighbours of what used to be `g[i]`, once `g[k]` is gone. */
  lemma Neighbours(g: seq<Row>, k: int, i: int)
    requires 0 <= k < |g| && 0 <= i < |g| && i != k
    ensures var g', j := Without(g, k), if i < k then i else i - 1;
            && g'[j] == g[i]
            && PrevIn(g', j) == (if i == k + 1 then PrevIn(g, k) else PrevIn(g, i))
            && NextIn(g', j) == (if i == k - 1 then NextIn(g, k) else NextIn(g, i))
  {}

  lemma UnlinkedChain(lk: Links, lk': Links, g: seq<Row>, k: int)
    requires 0 <= k < |g| && Chain(lk, g) && NoDup(g) && Unlinked(lk, lk', g, k)
    ensures Chain(lk', Without(g, k))
  {
    var g' := Without(g, k);
    forall j | 0 <= j < |g'|
      ensures ChainAt(lk', g', j)
    {
      var i := if j < k then j else j + 1;
      Neighbours(g, k, i);
      assert ChainAt(lk, g, i);
    }
  }

  /** `x` attached directly behind the head. */
  function Behind(g: seq<Row>, x: Row): seq<Row>
    requires g != []
  {
    [g[0], x] + g[1..]
  }

  ghost predicate Attached(lk: Links, lk': Links, g: seq<Row>, x: Row)
    requires g != []
  {
    forall y :: LinkAt(lk', y) ==
                if y == x then Link(g[0], NextIn(g, 0))
                else if y == g[0] then LinkAt(lk, y).(next := x)
                else if |g| > 1 && y == g[1] then LinkAt(lk, y).(prev := x)
                else LinkAt(lk, y)
  }

  lemma AttachedChain(lk: Links, lk': Links, g: seq<Row>, x: Row)
    requires g != [] && Chain(lk, g) && NoDup(g) && x !in g && x != NULL && Attached(lk, lk', g, x)
    ensures Chain(lk', Behind(g, x))
  {
    var g' := Behind(g, x);
    forall j | 0 <= j < |g'|
      ensures ChainAt(lk', g', j)
    {
      assert ChainAt(lk, g, if j == 0 then 0 else j - 1);
      if j > 1 { assert g'[j] == g[j - 1]; }
    }
  }

  lemma SameChain(lk: Links, lk': Links, g: seq<Row>)
    requires Chain(lk, g) && forall x :: x in g ==> LinkAt(lk', x) == LinkAt(lk, x)
    ensures Chain(lk', g)
  {
    forall k | 0 <= k < |g| ensures ChainAt(lk', g, k) {
      assert ChainAt(lk, g, k) && g[k] in g;
    }
  }

  // ---------- all groups of an index ----------

  ghost predicate In(gs: Groups, x: Row) {
    exists i :: 0 <= i < |gs| && x in gs[i]
  }

  /** Every group has a row, and every row is in one place only. */
  ghost predicate Apartness(gs: Groups) {
    && (forall i :: 0 <= i < |gs| ==> gs[i] != [] && NoDup(gs[i]))
    && (forall i, j, x :: 0 <= i < j < |gs| && x in gs[i] ==> x !in gs[j])
  }

  ghost predicate Chains(lk: Links, gs: Groups) {
    forall i :: 0 <= i < |gs| ==> Chain(lk, gs[i])
  }

  function Heads(gs: Groups): seq<Row>
    requires forall i :: 0 <= i < |gs| ==> gs[i] != []
  {
    seq(|gs|, i requires 0 <= i < |gs| => gs[i][0])
  }

  /** Row `gs[i][k]` taken out; a group that it leaves empty goes too. */
  function RemovedAt(gs: Groups, i: int, k: int): Groups
    requires 0 <= i < |gs| && 0 <= k < |gs[i]|
  {
    if |gs[i]| == 1 then gs[..i] + gs[i + 1..] else gs[i := Without(gs[i], k)]
  }

  function NewAt(gs: Groups, p: int, x: Row): Groups
    requires 0 <= p <= |gs|
  {
    gs[..p] + [[x]] + gs[p..]
  }

  function JoinedAt(gs: Groups, i: int, x: Row): Groups
    requires 0 <= i < |gs| && gs[i] != []
  {
    gs[i := Behind(gs[i], x)]
  }

  lemma RemovedApart(gs: Groups, i: int, k: int)
    requires Apartness(gs) && 0 <= i < |gs| && 0 <= k < |gs[i]|
    ensures Apartness(RemovedAt(gs, i, k))
    ensures forall x :: In(RemovedAt(gs, i, k), x) <==> In(gs, x) && x != gs[i][k]
  {
    var x0, gs' := gs[i][k], RemovedAt(gs, i, k);
    assert forall x :: x in Without(gs[i], k) <==> x in gs[i] && x != x0;
    forall x ensures In(gs', x) <==> In(gs, x) && x != x0 {
      if In(gs', x) {
        var j :| 0 <= j < |gs'| && x in gs'[j];
        var j0 := if |gs[i]| == 1 && j >= i then j + 1 else j;
        assert x in gs[j0];
      }
      if In(gs, x) && x != x0 {
        var j :| 0 <= j < |gs| && x in gs[j];
        assert x in gs'[if |gs[i]| == 1 && j > i then j - 1 else j];
      }
    }
  }

  lemma NewApart(gs: Groups, p: int, x0: Row)
    requires Apartness(gs) && 0 <= p <= |gs| && !In(gs, x0)
    ensures Apartness(NewAt(gs, p, x0))
    ensures forall x :: In(NewAt(gs, p, x0), x) <==> In(gs, x) || x == x0
  {
    var gs' := NewAt(gs, p, x0);
    assert gs'[p] == [x0];
    forall x ensures In(gs', x) <==> In(gs, x) || x == x0 {
      if In(gs', x) {
        var j :| 0 <= j < |gs'| && x in gs'[j];
        if j != p { assert x in gs[if j > p then j - 1 else j]; }
      }
      if In(gs, x) {
        var j :| 0 <= j < |gs| && x in gs[j];
        assert x in gs'[if j >= p then j + 1 else j];
      }
    }
  }

  lemma JoinedApart(gs: Groups, i: int, x0: Row)
    requires Apartness(gs) && 0 <= i < |gs| && !In(gs, x0)
    ensures Apartness(JoinedAt(gs, i, x0))
    ensures forall x :: In(JoinedAt(gs, i, x0), x) <==> In(gs, x) || x == x0
  {
    var gs' := JoinedAt(gs, i, x0);
    assert gs[i] == [gs[i][0]] + gs[i][1..];
    assert forall x :: x in gs'[i] <==> x in gs[i] || x == x0;
    assert x0 !in gs[i];
    forall x ensures In(gs', x) <==> In(gs, x) || x == x0 {
      if In(gs', x) {
        var j :| 0 <= j < |gs'| && x in gs'[j];
        assert x in gs[j] || x == x0;
      }
      if In(gs, x) {
        var j :| 0 <= j < |gs| && x in gs[j];
        assert x in gs'[j];
      }
      if x == x0 { assert x in gs'[i]; }
    }
  }

  // ---------- the same, as functions of the content alone ----------

  /** The sequence without any `x`. */
  function Minus(g: seq<Row>, x: Row): seq<Row> {
    if g == [] then [] else (if g[0] == x then [] else [g[0]]) + Minus(g[1..], x)
  }

  /** The groups without `x`; a group that becomes empty goes too. */
  function Removed(gs: Groups, x: Row): Groups {
    if gs == [] then []
    else (if Minus(gs[0], x) == [] then [] else [Minus(gs[0], x)]) + Removed(gs[1..], x)
  }

  /** All linked rows in index order. */
  function Flat(gs: Groups): seq<Row> {
    if gs == [] then [] else gs[0] + Flat(gs[1..])
  }

  lemma {:induction false} MinusAbsent(g: seq<Row>, x: Row)
    requires x !in g
    ensures Minus(g, x) == g
  {
    if g != [] { MinusAbsent(g[1..], x); }
  }

  lemma {:induction false} MinusAt(g: seq<Row>, k: int)
    requires NoDup(g) && 0 <= k < |g|
    ensures Minus(g, g[k]) == Without(g, k)
    decreases k
  {
    if k == 0 {
      MinusAbsent(g[1..], g[0]);
    } else {
      MinusAt(g[1..], k - 1);
      assert Without(g, k) == [g[0]] + Without(g[1..], k - 1);
    }
  }

  lemma {:induction false} RemovedAbsent(gs: Groups, x: Row)
    requires Apartness(gs) && forall i :: 0 <= i < |gs| ==> x !in gs[i]
    ensures Removed(gs, x) == gs
  {
    if gs != [] {
      MinusAbsent(gs[0], x);
      RemovedAbsent(gs[1..], x);
    }
  }

  lemma {:induction false} RemovedIs(gs: Groups, i: int, k: int)
    requires Apartness(gs) && 0 <= i < |gs| && 0 <= k < |gs[i]|
    ensures Removed(gs, gs[i][k]) == RemovedAt(gs, i, k)
    decreases i
  {
    var x := gs[i][k];
    if i == 0 {
      MinusAt(gs[0], k);
      assert x in gs[0];
      RemovedAbsent(gs[1..], x);
    } else {
      assert x in gs[i];
      MinusAbsent(gs[0], x);
      RemovedIs(gs[1..], i - 1, k);
      RemovedAtCons(gs, i, k);
    }
  }

  lemma RemovedAtCons(gs: Groups, i: int, k: int)
    requires 0 < i < |gs| && 0 <= k < |gs[i]|
    ensures RemovedAt(gs, i, k) == [gs[0]] + RemovedAt(gs[1..], i - 1, k)
  {}

  lemma {:induction false} MinusConcat(a: seq<Row>, b: seq<Row>, x: Row)
    ensures Minus(a + b, x) == Minus(a, x) + Minus(b, x)
  {
    if a == [] {
      assert a + b == b;
    } else {
      assert (a + b)[1..] == a[1..] + b;
      MinusConcat(a[1..], b, x);
    }
  }

  /** Removing a row from the groups removes it from the row sequence, and nothing else. */
  lemma {:induction false} FlatRemoved(gs: Groups, x: Row)
    ensures Flat(Removed(gs, x)) == Minus(Flat(gs), x)
  {
    if gs != [] {
      FlatRemoved(gs[1..], x);
      MinusConcat(gs[0], Flat(gs[1..]), x);
      var m, rest := Minus(gs[0], x), Removed(gs[1..], x);
      if m != [] { assert ([m] + rest)[1..] == rest; } else { assert [] + rest == rest; }
    }
  }

  // ---------- positions in the row sequence ----------

  function Offset(gs: Groups, i: int): int
    requires 0 <= i <= |gs|
  {
    if i == 0 then 0 else |gs[0]| + Offset(gs[1..], i - 1)
  }

  lemma {:induction false} FlatAt(gs: Groups, i: int, k: int)
    requires 0 <= i < |gs| && 0 <= k < |gs[i]|
    ensures 0 <= Offset(gs, i) && Offset(gs, i) + k < |Flat(gs)| && Flat(gs)[Offset(gs, i) + k] == gs[i][k]
    ensures Offset(gs, i + 1) == Offset(gs, i) + |gs[i]|
    decreases i
  {
    if i > 0 { FlatAt(gs[1..], i - 1, k); }
  }

  lemma {:induction false} PlaceAt(gs: Groups, n: int) returns (i: int, k: int)
    requires 0 <= n < |Flat(gs)|
    ensures 0 <= i < |gs| && 0 <= k < |gs[i]| && Offset(gs, i) + k == n && Flat(gs)[n] == gs[i][k]
    decreases gs
  {
    if n < |gs[0]| {
      i, k := 0, n;
    } else {
      i, k := PlaceAt(gs[1..], n - |gs[0]|);
      i := i + 1;
    }
  }

  lemma {:induction false} OffsetGrows(gs: Groups, i: int, j: int)
    requires 0 <= i <= j <= |gs|
    ensures 0 <= Offset(gs, i) <= Offset(gs, j)
    ensures i < j ==> Offset(gs, i) + |gs[i]| <= Offset(gs, j)
    decreases j
  {
    if i > 0 {
      OffsetGrows(gs[1..], i - 1, j - 1);
    } else if j > 0 {
      OffsetGrows(gs[1..], 0, j - 1);
    }
  }

  lemma {:induction false} FlatEnd(gs: Groups)
    ensures Offset(gs, |gs|) == |Flat(gs)|
  {
    if gs != [] { FlatEnd(gs[1..]); }
  }

  lemma {:induction false} FlatIn(gs: Groups, x: Row)
    ensures x in Flat(gs) <==> In(gs, x)
  {
    if gs != [] {
      FlatIn(gs[1..], x);
      if In(gs[1..], x) {
        var i :| 0 <= i < |gs[1..]| && x in gs[1..][i];
        assert x in gs[i + 1];
      }
      if In(gs, x) && x !in gs[0] {
        var i :| 0 <= i < |gs| && x in gs[i];
        assert x in gs[1..][i - 1];
      }
      assert x in gs[0] ==> In(gs, x);
    }
  }

  lemma {:induction false} FlatNoDup(gs: Groups)
    requires Apartness(gs)
    ensures NoDup(Flat(gs))
  {
    if gs != [] {
      FlatNoDup(gs[1..]);
      var rest := Flat(gs[1..]);
      forall x | x in gs[0] ensures x !in rest {
        FlatIn(gs[1..], x);
        assert forall i :: 0 <= i < |gs[1..]| ==> gs[1..][i] == gs[i + 1];
      }
      ConcatNoDup(gs[0], rest);
    }
  }

  lemma ConcatNoDup(a: seq<Row>, b: seq<Row>)
    requires NoDup(a) && NoDup(b) && forall x :: x in a ==> x !in b
    ensures NoDup(a + b)
  {
    forall k, l | 0 <= k < l < |a + b| ensures (a + b)[k] != (a + b)[l] {
      if k < |a| <= l {
        assert a[k] in a && b[l - |a|] in b;
      }
    }
  }

  /** The neighbours of `x` in a sequence; NULL at the ends. */
  function Following(s: seq<Row>, x: Row): Row {
    if |s| < 2 then NULL else if s[0] == x then s[1] else Following(s[1..], x)
  }

  function Preceding(s: seq<Row>, x: Row): Row {
    if |s| < 2 then NULL else if s[1] == x then s[0] else Preceding(s[1..], x)
  }

  lemma {:induction false} FollowingAt(s: seq<Row>, n: int)
    requires NoDup(s) && 0 <= n < |s|
    ensures Following(s, s[n]) == (if n + 1 < |s| then s[n + 1] else NULL)
    ensures Preceding(s, s[n]) == (if n > 0 then s[n - 1] else NULL)
    decreases |s|
  {
    if |s| >= 2 {
      if n >= 1 { FollowingAt(s[1..], n - 1); }
      if n == 0 { PrecedingAbsent(s[1..], s[0]); }
    }
  }

  lemma {:induction false} PrecedingAbsent(s: seq<Row>, x: Row)
    requires x !in s
    ensures Preceding(s, x) == NULL
  {
    if |s| >= 2 { PrecedingAbsent(s[1..], x); }
  }

  /** Stepping forward and stepping back undo each other. */
  lemma StepsInverse(s: seq<Row>, x: Row, y: Row)
    requires NoDup(s) && NULL !in s && x in s && y in s
    ensures Following(s, x) == y <==> Preceding(s, y) == x
  {
    var n :| 0 <= n < |s| && s[n] == x;
    var m :| 0 <= m < |s| && s[m] == y;
    FollowingAt(s, n);
    FollowingAt(s, m);
  }
}
