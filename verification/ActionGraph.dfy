/** The action chains as a relation: closure, reduction and ordering. */
module ActionGraph {

  /** An adjacency matrix with entries 0 and 1. */
  type Matrix = seq<seq<int>>

  ghost predicate Square(m: Matrix) {
    && (forall i :: 0 <= i < |m| ==> |m[i]| == |m|)
    && (forall i, j :: 0 <= i < |m| && 0 <= j < |m[i]| ==> m[i][j] == 0 || m[i][j] == 1)
  }

  ghost predicate Edge(m: Matrix, i: int, j: int) {
    0 <= i < |m| && 0 <= j < |m[i]| && m[i][j] == 1
  }

  ghost predicate Path(m: Matrix, p: seq<int>) {
    |p| >= 2 && forall t :: 0 <= t < |p| - 1 ==> Edge(m, p[t], p[t + 1])
  }

  ghost predicate PathFrom(m: Matrix, p: seq<int>, i: int, j: int) {
    Path(m, p) && p[0] == i && p[|p| - 1] == j
  }

  /** There is a path of at least one edge. */
  ghost predicate Reach(m: Matrix, i: int, j: int) {
    exists p :: PathFrom(m, p, i, j)
  }

  ghost predicate Acyclic(m: Matrix) {
    forall i :: !Reach(m, i, i)
  }

  // ---------- reachability ----------

  lemma EdgeReach(m: Matrix, i: int, j: int)
    requires Edge(m, i, j)
    ensures Reach(m, i, j)
  {
    assert PathFrom(m, [i, j], i, j);
  }

  lemma ReachTrans(m: Matrix, i: int, j: int, k: int)
    requires Reach(m, i, j) && Reach(m, j, k)
    ensures Reach(m, i, k)
  {
    var p :| PathFrom(m, p, i, j);
    var q :| PathFrom(m, q, j, k);
    var r := p + q[1..];
    forall t | 0 <= t < |r| - 1 ensures Edge(m, r[t], r[t + 1]) {
      if t < |p| - 1 {
        assert Edge(m, p[t], p[t + 1]);
      } else {
        var u := t - (|p| - 1);
        assert Edge(m, q[u], q[u + 1]);
      }
    }
    assert PathFrom(m, r, i, k);
  }

  /** A path starts with an edge, and goes on from there unless that was all. */
  lemma FirstStep(m: Matrix, i: int, j: int) returns (k: int)
    requires Reach(m, i, j)
    ensures Edge(m, i, k) && (k == j || Reach(m, k, j))
  {
    var p :| PathFrom(m, p, i, j);
    k := p[1];
    assert Edge(m, p[0], p[1]);
    if |p| > 2 {
      var q := p[1..];
      forall t | 0 <= t < |q| - 1 ensures Edge(m, q[t], q[t + 1]) {
        assert Edge(m, p[t + 1], p[t + 2]);
      }
      assert PathFrom(m, q, k, j);
    }
  }

  lemma ReachBounds(m: Matrix, i: int, j: int)
    requires Square(m) && Reach(m, i, j)
    ensures 0 <= i < |m| && 0 <= j < |m|
  {
    var p :| PathFrom(m, p, i, j);
    assert Edge(m, p[0], p[1]) && Edge(m, p[|p| - 2], p[|p| - 1]);
  }

  /** Fewer edges reach less. */
  lemma ReachMono(m: Matrix, m': Matrix, i: int, j: int)
    requires Reach(m, i, j) && forall a, b :: Edge(m, a, b) ==> Edge(m', a, b)
    ensures Reach(m', i, j)
  {
    var p :| PathFrom(m, p, i, j);
    assert PathFrom(m', p, i, j);
  }

  // ---------- Warshall's closure ----------

  /** Reachable through intermediate nodes below `k`, as the algorithm builds it up. */
  ghost predicate Via(m: Matrix, k: nat, i: int, j: int) {
    if k == 0 then Edge(m, i, j)
    else Via(m, k - 1, i, j) || (Via(m, k - 1, i, k - 1) && Via(m, k - 1, k - 1, j))
  }

  lemma {:induction false} ViaReach(m: Matrix, k: nat, i: int, j: int)
    requires Via(m, k, i, j)
    ensures Reach(m, i, j)
    decreases k
  {
    if k == 0 {
      EdgeReach(m, i, j);
    } else if Via(m, k - 1, i, j) {
      ViaReach(m, k - 1, i, j);
    } else {
      ViaReach(m, k - 1, i, k - 1);
      ViaReach(m, k - 1, k - 1, j);
      ReachTrans(m, i, k - 1, j);
    }
  }

  /** The inner nodes of a path. */
  ghost predicate InnerBelow(p: seq<int>, k: int) {
    forall t :: 0 < t < |p| - 1 ==> 0 <= p[t] < k
  }

  lemma SubPath(m: Matrix, p: seq<int>, a: int, b: int)
    requires Path(m, p) && 0 <= a < b < |p|
    ensures PathFrom(m, p[a..b + 1], p[a], p[b])
  {
    var q := p[a..b + 1];
    forall t | 0 <= t < |q| - 1 ensures Edge(m, q[t], q[t + 1]) {
      assert Edge(m, p[a + t], p[a + t + 1]);
    }
  }

  lemma FirstAndLast(p: seq<int>, x: int, t: int) returns (a: int, b: int)
    requires 0 < t < |p| - 1 && p[t] == x
    ensures 0 < a <= b < |p| - 1 && p[a] == x && p[b] == x
    ensures forall s :: 0 < s < a ==> p[s] != x
    ensures forall s :: b < s < |p| - 1 ==> p[s] != x
  {
    a := 1;
    while p[a] != x
      invariant 1 <= a <= t && forall s :: 0 < s < a ==> p[s] != x
      decreases t - a
    {
      a := a + 1;
    }
    b := |p| - 2;
    while p[b] != x
      invariant t <= b <= |p| - 2 && forall s :: b < s < |p| - 1 ==> p[s] != x
      decreases b
    {
      b := b - 1;
    }
  }

  lemma {:induction false} PathVia(m: Matrix, k: nat, p: seq<int>)
    requires Path(m, p) && InnerBelow(p, k)
    ensures Via(m, k, p[0], p[|p| - 1])
    decreases k
  {
    hide Edge, InnerBelow;
    var last := |p| - 1;
    if k == 0 {
      NoInner(p, k);
      assert Edge(m, p[0], p[1]);
    } else if exists t :: 0 < t < last && p[t] == k - 1 {
      var t :| 0 < t < last && p[t] == k - 1;
      var a, b := FirstAndLast(p, k - 1, t);
      SubPath(m, p, 0, a);
      SubPath(m, p, b, last);
      InnerPart(p, k, 0, a);
      InnerPart(p, k, b, last);
      PathVia(m, k - 1, p[0..a + 1]);
      PathVia(m, k - 1, p[b..last + 1]);
    } else {
      InnerPart(p, k, 0, last);
      assert p[0..last + 1] == p;
      PathVia(m, k - 1, p);
    }
  }

  lemma NoInner(p: seq<int>, k: int)
    requires InnerBelow(p, k)
    ensures |p| > 2 ==> k > 0
  {
    assert |p| > 2 ==> 0 <= p[1] < k;
  }

  /** A part of a path whose inner nodes avoid `k - 1`. */
  lemma InnerPart(p: seq<int>, k: int, a: int, b: int)
    requires InnerBelow(p, k) && 0 <= a < b < |p| && forall s :: a < s < b ==> p[s] != k - 1
    ensures InnerBelow(p[a..b + 1], k - 1)
  {
    var q := p[a..b + 1];
    forall t | 0 < t < |q| - 1 ensures 0 <= q[t] < k - 1 {
      assert q[t] == p[a + t];
    }
  }

  lemma PathInner(m: Matrix, p: seq<int>)
    requires Square(m) && Path(m, p)
    ensures InnerBelow(p, |m|)
  {
    forall t | 0 < t < |p| - 1 ensures 0 <= p[t] < |m| {
      assert Edge(m, p[t], p[t + 1]);
    }
  }

  /** With all nodes allowed as intermediates, that is reachability. */
  lemma ViaAll(m: Matrix, i: int, j: int)
    requires Square(m)
    ensures Via(m, |m|, i, j) <==> Reach(m, i, j)
  {
    if Via(m, |m|, i, j) {
      ViaReach(m, |m|, i, j);
    }
    if Reach(m, i, j) {
      var p :| PathFrom(m, p, i, j);
      PathInner(m, p);
      PathVia(m, |m|, p);
    }
  }

  function Set(m: Matrix, i: int, j: int, v: int): Matrix
    requires 0 <= i < |m| && 0 <= j < |m[i]|
  {
    m[i := m[i][j := v]]
  }

  /** The transitive closure. */
  method Warshall(m: Matrix) returns (w: Matrix)
    requires Square(m)
    ensures Square(w) && |w| == |m|
    ensures forall i, j :: 0 <= i < |m| && 0 <= j < |m| ==> (w[i][j] == 1 <==> Reach(m, i, j))
  {
    w := m;
    var n := |w|;
    for k := 0 to n
      invariant Square(w) && |w| == n
      invariant forall i, j :: 0 <= i < n && 0 <= j < n ==> (w[i][j] == 1 <==> Via(m, k, i, j))
    {
      w := Round(m, w, k);
    }
    forall i, j | 0 <= i < n && 0 <= j < n ensures w[i][j] == 1 <==> Reach(m, i, j) {
      ViaAll(m, i, j);
    }
  }

  /** The loop over `i` and `j` for one `k`, in place. */
  method Round(m: Matrix, w0: Matrix, k: int) returns (w: Matrix)
    requires Square(m) && Square(w0) && |w0| == |m| && 0 <= k < |m|
    requires forall i, j :: 0 <= i < |m| && 0 <= j < |m| ==> (w0[i][j] == 1 <==> Via(m, k, i, j))
    ensures Square(w) && |w| == |m|
    ensures forall i, j :: 0 <= i < |m| && 0 <= j < |m| ==> (w[i][j] == 1 <==> Via(m, k + 1, i, j))
  {
    var n := |m|;
    w := w0;
    for i := 0 to n
      invariant Square(w) && |w| == n
      invariant forall a, b :: 0 <= a < i && 0 <= b < n ==> (w[a][b] == 1 <==> Via(m, k + 1, a, b))
      invariant forall a, b :: i <= a < n && 0 <= b < n ==> (w[a][b] == 1 <==> Via(m, k, a, b))
    {
      if w[i][k] == 1 {
        for j := 0 to n
          invariant Square(w) && |w| == n
          invariant forall a, b :: 0 <= a < i && 0 <= b < n ==> (w[a][b] == 1 <==> Via(m, k + 1, a, b))
          invariant forall a, b :: i < a < n && 0 <= b < n ==> (w[a][b] == 1 <==> Via(m, k, a, b))
          invariant forall b :: 0 <= b < j ==> (w[i][b] == 1 <==> Via(m, k + 1, i, b))
          invariant forall b :: j <= b < n ==> (w[i][b] == 1 <==> Via(m, k, i, b))
        {
          if w[k][j] == 1 {
            w := Set(w, i, j, 1);
          }
        }
      }
    }
  }

  // ---------- transitive reduction ----------

  function Zero(n: nat): (m: Matrix)
    ensures |m| == n && Square(m)
  {
    seq(n, i => seq(n, j => 0))
  }

  /** Some `k` below `u` with an edge `i` to `k` in the first and `k` to `j` in the second matrix. */
  ghost predicate Composed(a: Matrix, b: Matrix, i: int, j: int, u: int) {
    exists k :: 0 <= k < u && Edge(a, i, k) && Edge(b, k, j)
  }

  /** rel_mult: composition of relations; positive entries are normalised to 1. */
  method RelMult(a: Matrix, b: Matrix) returns (c: Matrix)
    requires Square(a) && Square(b) && |a| == |b|
    ensures Square(c) && |c| == |a|
    ensures forall i, j :: 0 <= i < |a| && 0 <= j < |a| ==> (c[i][j] == 1 <==> Composed(a, b, i, j, |a|))
  {
    var n := |a|;
    c := Zero(n);
    for i := 0 to n
      invariant Square(c) && |c| == n
      invariant forall x, y :: 0 <= x < i && 0 <= y < n ==> (c[x][y] == 1 <==> Composed(a, b, x, y, n))
      invariant forall x, y :: i <= x < n && 0 <= y < n ==> c[x][y] == 0
    {
      for j := 0 to n
        invariant Square(c) && |c| == n
        invariant forall x, y :: 0 <= x < i && 0 <= y < n ==> (c[x][y] == 1 <==> Composed(a, b, x, y, n))
        invariant forall x, y :: i < x < n && 0 <= y < n ==> c[x][y] == 0
        invariant forall y :: 0 <= y < j ==> (c[i][y] == 1 <==> Composed(a, b, i, y, n))
        invariant forall y :: j <= y < n ==> c[i][y] == 0
      {
        var sum := Entry(a, b, i, j);
        c := Set(c, i, j, if sum > 0 then 1 else sum);
      }
    }
  }

  method Entry(a: Matrix, b: Matrix, i: int, j: int) returns (sum: int)
    requires Square(a) && Square(b) && |a| == |b| && 0 <= i < |a| && 0 <= j < |a|
    ensures sum >= 0 && (sum > 0 <==> Composed(a, b, i, j, |a|))
  {
    sum := 0;
    for k := 0 to |a|
      invariant sum >= 0 && (sum > 0 <==> Composed(a, b, i, j, k))
    {
      assert Edge(a, i, k) && Edge(b, k, j) <==> a[i][k] * b[k][j] == 1;
      assert a[i][k] * b[k][j] == 0 || a[i][k] * b[k][j] == 1;
      sum := sum + a[i][k] * b[k][j];
    }
  }

  /** set_substr: difference of relations; negative entries are normalised to 0. */
  method SetSubstr(a: Matrix, b: Matrix) returns (c: Matrix)
    requires Square(a) && Square(b) && |a| == |b|
    ensures Square(c) && |c| == |a|
    ensures forall i, j :: 0 <= i < |a| && 0 <= j < |a| ==> (c[i][j] == 1 <==> a[i][j] == 1 && b[i][j] == 0)
  {
    var n := |a|;
    c := Zero(n);
    for i := 0 to n
      invariant Square(c) && |c| == n
      invariant forall x, y :: 0 <= x < i && 0 <= y < n ==> (c[x][y] == 1 <==> a[x][y] == 1 && b[x][y] == 0)
    {
      for j := 0 to n
        invariant Square(c) && |c| == n
        invariant forall x, y :: 0 <= x < i && 0 <= y < n ==> (c[x][y] == 1 <==> a[x][y] == 1 && b[x][y] == 0)
        invariant forall y :: 0 <= y < j ==> (c[i][y] == 1 <==> a[i][y] == 1 && b[i][y] == 0)
      {
        var d := a[i][j] - b[i][j];
        c := Set(c, i, j, if d < 0 then 0 else d);
      }
    }
  }

  /** An edge is redundant if its target is reached through another successor of its source. */
  ghost predicate Redundant(m: Matrix, i: int, j: int) {
    exists k :: Edge(m, i, k) && Reach(m, k, j)
  }

  /** `r` has exactly the edges of `m` that are not redundant. */
  ghost predicate Reduction(m: Matrix, r: Matrix) {
    && Square(m) && Square(r) && |r| == |m|
    && forall i, j :: Edge(r, i, j) <==> Edge(m, i, j) && !Redundant(m, i, j)
  }

  /** trans_reduct */
  method TransReduct(m: Matrix) returns (r: Matrix)
    requires Square(m)
    ensures Reduction(m, r)
  {
    var closure := Warshall(m);
    var composition := RelMult(m, closure);
    r := SetSubstr(m, composition);
    forall i, j ensures Edge(r, i, j) <==> Edge(m, i, j) && !Redundant(m, i, j) {
      if 0 <= i < |m| && 0 <= j < |m| {
        ComposedRedundant(m, closure, i, j);
      }
    }
  }

  lemma ComposedRedundant(m: Matrix, w: Matrix, i: int, j: int)
    requires Square(m) && Square(w) && |w| == |m| && 0 <= i < |m| && 0 <= j < |m|
    requires forall i, j :: 0 <= i < |m| && 0 <= j < |m| ==> (w[i][j] == 1 <==> Reach(m, i, j))
    ensures Composed(m, w, i, j, |m|) <==> Redundant(m, i, j)
  {
    if Composed(m, w, i, j, |m|) {
      var k :| 0 <= k < |m| && Edge(m, i, k) && Edge(w, k, j);
      assert Reach(m, k, j);
    }
    if Redundant(m, i, j) {
      var k :| Edge(m, i, k) && Reach(m, k, j);
      assert w[k][j] == 1;
      assert Edge(w, k, j);
    }
  }

  /** The nodes strictly between two nodes. */
  ghost function Between(m: Matrix, i: int, j: int): set<int> {
    set v | 0 <= v < |m| && Reach(m, i, v) && Reach(m, v, j)
  }

  lemma BetweenShrinks(m: Matrix, i: int, k: int, j: int)
    requires Acyclic(m) && k in Between(m, i, j)
    ensures Between(m, i, k) < Between(m, i, j) && Between(m, k, j) < Between(m, i, j)
  {
    forall v | v in Between(m, i, k) ensures v in Between(m, i, j) { ReachTrans(m, v, k, j); }
    forall v | v in Between(m, k, j) ensures v in Between(m, i, j) { ReachTrans(m, i, k, v); }
    assert k !in Between(m, i, k) && k !in Between(m, k, j);
  }

  /** In an acyclic relation the reduction still reaches everything. */
  lemma {:induction false} ReductionReaches(m: Matrix, r: Matrix, i: int, j: int)
    requires Acyclic(m) && Reduction(m, r) && Reach(m, i, j)
    ensures Reach(r, i, j)
    decreases Between(m, i, j)
  {
    var k := FirstStep(m, i, j);
    EdgeReach(m, i, k);
    if k == j && Between(m, i, j) == {} {
      forall v | Edge(m, i, v) ensures !Reach(m, v, j) {
        EdgeReach(m, i, v);
        assert v !in Between(m, i, j);
      }
      assert Edge(r, i, j);
      EdgeReach(r, i, j);
    } else {
      if k == j {
        k :| k in Between(m, i, j);
      } else {
        ReachBounds(m, k, j);
        assert k in Between(m, i, j);
      }
      BetweenShrinks(m, i, k, j);
      ReductionReaches(m, r, i, k);
      ReductionReaches(m, r, k, j);
      ReachTrans(r, i, k, j);
    }
  }

  /** The reduction of an acyclic relation reaches exactly what the relation reaches. */
  lemma ReductionSame(m: Matrix, r: Matrix, i: int, j: int)
    requires Acyclic(m) && Reduction(m, r)
    ensures Reach(r, i, j) <==> Reach(m, i, j)
  {
    if Reach(m, i, j) { ReductionReaches(m, r, i, j); }
    if Reach(r, i, j) { ReachMono(r, m, i, j); }
  }

  /** And none of its edges can be dropped. */
  lemma ReductionMinimal(m: Matrix, r: Matrix, i: int, j: int)
    requires Reduction(m, r) && Edge(r, i, j)
    ensures !Reach(Set(r, i, j, 0), i, j)
  {
    var s := Set(r, i, j, 0);
    forall a, b | Edge(s, a, b) ensures Edge(m, a, b) && !(a == i && b == j) {
      assert Edge(r, a, b) || (a == i && b == j);
    }
    forall k | Edge(s, i, k) ensures k != j && !Reach(s, k, j) {
      if Reach(s, k, j) { ReachMono(s, m, k, j); }
    }
    if Reach(s, i, j) {
      var k := FirstStep(s, i, j);
    }
  }

  /** A relation keeps its reachability under reduction if and only if it is acyclic: on a cycle every edge is
      redundant. */
  lemma ReductionSameIff(m: Matrix, r: Matrix)
    requires Reduction(m, r)
    ensures (forall i, j :: Reach(r, i, j) <==> Reach(m, i, j)) <==> Acyclic(m)
  {
    if Acyclic(m) {
      forall i, j ensures Reach(r, i, j) <==> Reach(m, i, j) { ReductionSame(m, r, i, j); }
    } else {
      var i :| Reach(m, i, i);
      CycleBroken(m, r, i);
    }
  }

  lemma CycleBroken(m: Matrix, r: Matrix, i: int)
    requires Reduction(m, r) && Reach(m, i, i)
    ensures !Reach(r, i, i)
  {
    forall k | Edge(r, i, k) ensures k != i && !Reach(r, k, i) {
      EdgeReach(m, i, k);
      if k != i && Reach(r, k, i) {
        ReachMono(r, m, k, i);
        ReachTrans(m, k, i, k);
      }
    }
    if Reach(r, i, i) {
      var k := FirstStep(r, i, i);
    }
  }

  /** Without acyclicity it fails: on a two-cycle the reduction drops every edge. */
  lemma CycleLosesAll(r: Matrix)
    requires Reduction([[0, 1], [1, 0]], r)
    ensures !Edge(r, 0, 1) && !Edge(r, 1, 0) && Reach([[0, 1], [1, 0]], 0, 1) && !Reach(r, 0, 1)
  {
    var m := [[0, 1], [1, 0]];
    assert Edge(m, 0, 1) && Edge(m, 1, 0);
    EdgeReach(m, 0, 1);
    EdgeReach(m, 1, 0);
    ReachTrans(m, 1, 0, 1);
    ReachTrans(m, 0, 1, 0);
    assert Redundant(m, 0, 1) && Redundant(m, 1, 0);
    assert forall k :: Edge(m, 0, k) ==> k == 1;
    if Reach(r, 0, 1) {
      var k := FirstStep(r, 0, 1);
    }
  }
}
