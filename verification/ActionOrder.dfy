/** make_chains: the chains are thinned out to the reduction, and the actions ordered by depth.
    An action is named by its position in the list of keys. */
module ActionOrder {
  import opened ActionGraph

  type Chains = seq<seq<int>>

  ghost predicate InRange(ch: Chains) {
    forall i, j :: 0 <= i < |ch| && j in ch[i] ==> 0 <= j < |ch|
  }

  ghost predicate Chained(ch: Chains, i: int, j: int) {
    0 <= i < |ch| && j in ch[i]
  }

  /** The adjacency matrix of the chains. */
  ghost predicate Adjacent(ch: Chains, m: Matrix) {
    Square(m) && |m| == |ch| && forall i, j :: Edge(m, i, j) <==> Chained(ch, i, j)
  }

  lemma SetEdge(m: Matrix, i: int, j: int)
    requires Square(m) && 0 <= i < |m| && 0 <= j < |m|
    ensures Square(Set(m, i, j, 1)) && |Set(m, i, j, 1)| == |m|
    ensures forall a, b :: Edge(Set(m, i, j, 1), a, b) <==> Edge(m, a, b) || (a == i && b == j)
  {}

  method Adjacency(ch: Chains) returns (m: Matrix)
    requires InRange(ch)
    ensures Adjacent(ch, m)
  {
    hide Set, Edge;
    m := Zero(|ch|);
    ZeroEdges(|ch|);
    for i := 0 to |ch|
      invariant Square(m) && |m| == |ch|
      invariant forall a, b :: 0 <= a < i ==> (Edge(m, a, b) <==> b in ch[a])
      invariant forall a, b :: i <= a < |ch| ==> !Edge(m, a, b)
    {
      for k := 0 to |ch[i]|
        invariant Square(m) && |m| == |ch|
        invariant forall a, b :: 0 <= a < i ==> (Edge(m, a, b) <==> b in ch[a])
        invariant forall a, b :: i < a < |ch| ==> !Edge(m, a, b)
        invariant forall b :: Edge(m, i, b) <==> b in ch[i][..k]
      {
        assert ch[i][k] in ch[i];
        SetEdge(m, i, ch[i][k]);
        m := Set(m, i, ch[i][k], 1);
        assert ch[i][..k + 1] == ch[i][..k] + [ch[i][k]];
      }
      assert ch[i][..|ch[i]|] == ch[i];
    }
    RowsAdjacent(ch, m);
  }

  lemma RowsAdjacent(ch: Chains, m: Matrix)
    requires Square(m) && |m| == |ch| && forall a, b :: 0 <= a < |ch| ==> (Edge(m, a, b) <==> b in ch[a])
    ensures Adjacent(ch, m)
  {}

  lemma ZeroEdges(n: nat)
    ensures forall i, j :: !Edge(Zero(n), i, j)
  {}

  /** list.remove: the first occurrence goes. */
  function RemoveFirst(s: seq<int>, x: int): (r: seq<int>)
    requires x in s
    ensures multiset(r) == multiset(s) - multiset{x}
  {
    if s[0] == x then
      assert s == [x] + s[1..];
      s[1..]
    else
      assert s == [s[0]] + s[1..];
      [s[0]] + RemoveFirst(s[1..], x)
  }

  /** How often `j` is left in a chain: once less if it is not an edge of the reduction. */
  ghost function Left(s: seq<int>, r: Matrix, i: int, j: int): int {
    var n := multiset(s)[j];
    if n > 0 && !Edge(r, i, j) then n - 1 else n
  }

  /** One chain: every listed action that the reduction dropped is removed once. */
  method ThinRow(row: seq<int>, r: Matrix, i: int) returns (row': seq<int>)
    requires Square(r) && 0 <= i < |r| && forall j :: j in row ==> 0 <= j < |r|
    ensures forall j :: multiset(row')[j] == Left(row, r, i, j)
  {
    row' := row;
    for j := 0 to |r|
      invariant forall b :: 0 <= b < j ==> multiset(row')[b] == Left(row, r, i, b)
      invariant forall b :: !(0 <= b < j) ==> multiset(row')[b] == multiset(row)[b]
    {
      if r[i][j] == 0 && j in row' {
        row' := RemoveFirst(row', j);
      }
    }
    forall b ensures multiset(row')[b] == Left(row, r, i, b) {
      if !(0 <= b < |r|) {
        assert b !in row;
      }
    }
  }

  method Thin(ch: Chains, r: Matrix) returns (ch': Chains)
    requires Square(r) && |r| == |ch| && InRange(ch)
    ensures |ch'| == |ch|
    ensures forall i, j :: 0 <= i < |ch| ==> multiset(ch'[i])[j] == Left(ch[i], r, i, j)
  {
    hide Left, Square;
    ch' := [];
    for i := 0 to |ch|
      invariant |ch'| == i
      invariant forall a, b :: 0 <= a < i ==> multiset(ch'[a])[b] == Left(ch[a], r, a, b)
    {
      var row := ThinRow(ch[i], r, i);
      ch' := ch' + [row];
    }
  }

  /** The thinned chains lie between the reduction and the original relation. */
  lemma ThinBetween(ch: Chains, ch': Chains, r: Matrix, i: int, j: int)
    requires |ch'| == |ch| && 0 <= i < |ch| && multiset(ch'[i])[j] == Left(ch[i], r, i, j)
    ensures j in ch'[i] ==> j in ch[i]
    ensures j in ch[i] && Edge(r, i, j) ==> j in ch'[i]
    ensures j in ch'[i] <==> j in ch[i] && (Edge(r, i, j) || multiset(ch[i])[j] >= 2)
  {
    assert j in ch'[i] <==> j in multiset(ch'[i]);
    assert j in ch[i] <==> j in multiset(ch[i]);
  }

  // ---------- depths ----------

  /** A walk along the chains, possibly of a single action. */
  ghost predicate Walk(ch: Chains, p: seq<int>) {
    |p| >= 1 && (forall t :: 0 <= t < |p| - 1 ==> Chained(ch, p[t], p[t + 1])) && 0 <= p[|p| - 1] < |ch|
  }

  lemma WalkInside(ch: Chains, p: seq<int>, t: int)
    requires Walk(ch, p) && 0 <= t < |p|
    ensures 0 <= p[t] < |ch|
  {
    if t < |p| - 1 { assert Chained(ch, p[t], p[t + 1]); }
  }

  /** `d` is at least the length of every walk from `x` to `v`, counted from `depth`. */
  ghost predicate Covers(ch: Chains, d: seq<int>, x: int, depth: int)
    requires |d| == |ch|
  {
    forall p :: Walk(ch, p) && p[0] == x ==> d[p[|p| - 1]] >= depth + |p| - 1
  }

  /** `d` is the length of such a walk. */
  ghost predicate Attained(ch: Chains, x: int, v: int, n: int) {
    exists p :: Walk(ch, p) && p[0] == x && p[|p| - 1] == v && |p| - 1 == n
  }

  lemma StartAttained(ch: Chains, x: int)
    requires 0 <= x < |ch|
    ensures Attained(ch, x, x, 0)
  {
    assert Walk(ch, [x]);
  }

  lemma StepAttained(ch: Chains, x: int, y: int, v: int, n: int)
    requires Chained(ch, x, y) && Attained(ch, y, v, n)
    ensures Attained(ch, x, v, n + 1)
  {
    var p :| Walk(ch, p) && p[0] == y && p[|p| - 1] == v && |p| - 1 == n;
    var q := [x] + p;
    forall t | 0 <= t < |q| - 1 ensures Chained(ch, q[t], q[t + 1]) {
      if t > 0 { assert Chained(ch, p[t - 1], p[t]); }
    }
    assert Walk(ch, q);
  }

  lemma WalkTail(ch: Chains, p: seq<int>)
    requires Walk(ch, p) && |p| > 1
    ensures Chained(ch, p[0], p[1]) && Walk(ch, p[1..])
  {
    forall t | 0 <= t < |p[1..]| - 1 ensures Chained(ch, p[1..][t], p[1..][t + 1]) {
      assert Chained(ch, p[t + 1], p[t + 2]);
    }
  }

  /** The actions reachable from `x`. */
  ghost function Below(m: Matrix, x: int): set<int> {
    set v | 0 <= v < |m| && Reach(m, x, v)
  }

  lemma BelowShrinks(m: Matrix, x: int, y: int)
    requires Square(m) && Acyclic(m) && Edge(m, x, y)
    ensures Below(m, y) < Below(m, x)
  {
    EdgeReach(m, x, y);
    forall v | v in Below(m, y) ensures v in Below(m, x) { ReachTrans(m, x, y, v); }
    assert y in Below(m, x) && y !in Below(m, y);
  }

  /** depth_first: the depth of an action is raised on every walk that gets there. */
  method DepthFirst(ch: Chains, ghost m: Matrix, depths: array<int>, x: int, depth: int)
    requires InRange(ch) && depths.Length == |ch| && 0 <= x < |ch|
    requires Square(m) && |m| == |ch| && Acyclic(m) && forall i, j :: Chained(ch, i, j) ==> Edge(m, i, j)
    modifies depths
    ensures forall v :: 0 <= v < |ch| ==> depths[v] >= old(depths[v])
    ensures Covers(ch, depths[..], x, depth)
    ensures forall v :: 0 <= v < |ch| ==> depths[v] == old(depths[v]) || Attained(ch, x, v, depths[v] - depth)
    decreases Below(m, x)
  {
    hide Covers, Attained, Acyclic, Reach, Square;
    StartAttained(ch, x);
    if depth > depths[x] {
      depths[x] := depth;
    }
    for k := 0 to |ch[x]|
      invariant forall v :: 0 <= v < |ch| ==> depths[v] >= old(depths[v])
      invariant depths[x] >= depth
      invariant forall c :: 0 <= c < k ==> Covers(ch, depths[..], ch[x][c], depth + 1)
      invariant forall v :: 0 <= v < |ch| ==> depths[v] == old(depths[v]) || Attained(ch, x, v, depths[v] - depth)
    {
      var y := ch[x][k];
      assert Chained(ch, x, y);
      BelowShrinks(m, x, y);
      ghost var was := depths[..];
      DepthFirst(ch, m, depths, y, depth + 1);
      forall v | 0 <= v < |ch| && depths[v] != was[v] ensures Attained(ch, x, v, depths[v] - depth) {
        StepAttained(ch, x, y, v, depths[v] - depth - 1);
      }
      forall c | 0 <= c < k ensures Covers(ch, depths[..], ch[x][c], depth + 1) {
        CoversGrow(ch, was, depths[..], ch[x][c], depth + 1);
      }
    }
    CoversFrom(ch, depths[..], x, depth);
  }

  lemma CoversGrow(ch: Chains, d: seq<int>, d': seq<int>, x: int, depth: int)
    requires |d| == |d'| == |ch| && Covers(ch, d, x, depth) && forall v :: 0 <= v < |d| ==> d'[v] >= d[v]
    ensures Covers(ch, d', x, depth)
  {}

  lemma CoversFrom(ch: Chains, d: seq<int>, x: int, depth: int)
    requires |d| == |ch| && 0 <= x < |ch| && d[x] >= depth
    requires forall c :: 0 <= c < |ch[x]| ==> Covers(ch, d, ch[x][c], depth + 1)
    ensures Covers(ch, d, x, depth)
  {
    forall p | Walk(ch, p) && p[0] == x ensures d[p[|p| - 1]] >= depth + |p| - 1 {
      if |p| > 1 {
        WalkTail(ch, p);
        var c :| 0 <= c < |ch[x]| && ch[x][c] == p[1];
        assert Covers(ch, d, ch[x][c], depth + 1) && Walk(ch, p[1..]) && p[1..][0] == ch[x][c];
      }
    }
  }

  // ---------- the order ----------

  /** Some walk of that length ends at `v`. */
  ghost predicate Ends(ch: Chains, v: int, n: int) {
    exists x :: Attained(ch, x, v, n)
  }

  lemma EndsBy(ch: Chains, x: int, v: int, n: int)
    requires Attained(ch, x, v, n)
    ensures Ends(ch, v, n)
  {}

  /** Every depth is the length of the longest walk that ends at the action. */
  ghost predicate Longest(ch: Chains, d: seq<int>) {
    && |d| == |ch|
    && (forall p :: Walk(ch, p) ==> d[p[|p| - 1]] >= |p| - 1)
    && forall v :: 0 <= v < |ch| ==> Ends(ch, v, d[v])
  }

  method Depths(ch: Chains, ghost m: Matrix) returns (d: seq<int>)
    requires InRange(ch)
    requires Square(m) && |m| == |ch| && Acyclic(m) && forall i, j :: Chained(ch, i, j) ==> Edge(m, i, j)
    ensures Longest(ch, d)
  {
    hide Covers, Attained, Ends, Acyclic, Reach, Square;
    var depths := new int[|ch|](i => 0);
    forall v | 0 <= v < |ch| ensures Ends(ch, v, 0) {
      StartAttained(ch, v);
      EndsBy(ch, v, v, 0);
    }
    for x := 0 to |ch|
      invariant forall c :: 0 <= c < x ==> Covers(ch, depths[..], c, 0)
      invariant forall v :: 0 <= v < |ch| ==> Ends(ch, v, depths[v])
    {
      ghost var was := depths[..];
      DepthFirst(ch, m, depths, x, 0);
      forall v | 0 <= v < |ch| ensures Ends(ch, v, depths[v]) {
        if depths[v] != was[v] { EndsBy(ch, x, v, depths[v] - 0); }
      }
      forall c | 0 <= c < x ensures Covers(ch, depths[..], c, 0) { CoversGrow(ch, was, depths[..], c, 0); }
    }
    d := depths[..];
    forall p | Walk(ch, p) ensures d[p[|p| - 1]] >= |p| - 1 {
      WalkInside(ch, p, 0);
      CoversWalk(ch, d, p);
    }
  }

  lemma CoversWalk(ch: Chains, d: seq<int>, p: seq<int>)
    requires |d| == |ch| && Walk(ch, p) && Covers(ch, d, p[0], 0)
    ensures d[p[|p| - 1]] >= |p| - 1
  {}

  /** A chained action is deeper. */
  lemma Deeper(ch: Chains, d: seq<int>, u: int, v: int)
    requires Longest(ch, d) && Chained(ch, u, v) && 0 <= v < |ch|
    ensures d[v] >= d[u] + 1
  {
    var x :| Attained(ch, x, u, d[u]);
    var p :| Walk(ch, p) && p[0] == x && p[|p| - 1] == u && |p| - 1 == d[u];
    var q := p + [v];
    forall t | 0 <= t < |q| - 1 ensures Chained(ch, q[t], q[t + 1]) {
      if t < |p| - 1 { assert Chained(ch, p[t], p[t + 1]); }
    }
    assert Walk(ch, q);
  }

  /** No depth is skipped: the depths that occur are 0, 1, ... without a gap. */
  lemma NoGap(ch: Chains, d: seq<int>, v: int) returns (u: int)
    requires Longest(ch, d) && 0 <= v < |ch| && d[v] > 0
    ensures 0 <= u < |ch| && d[u] == d[v] - 1
  {
    var x :| Attained(ch, x, v, d[v]);
    var p :| Walk(ch, p) && p[0] == x && p[|p| - 1] == v && |p| - 1 == d[v];
    var q := p[..|p| - 1];
    u := q[|q| - 1];
    WalkInside(ch, p, |p| - 2);
    assert Chained(ch, u, v);
    forall t | 0 <= t < |q| - 1 ensures Chained(ch, q[t], q[t + 1]) {
      assert Chained(ch, p[t], p[t + 1]);
    }
    assert Walk(ch, q);
    Deeper(ch, d, u, v);
  }

  /** Along a path of the reduction the depth grows. */
  lemma {:induction false} PathDeeper(ch: Chains, d: seq<int>, r: Matrix, p: seq<int>)
    requires Longest(ch, d) && Path(r, p) && forall i, j :: Edge(r, i, j) ==> Chained(ch, i, j) && 0 <= j < |ch|
    ensures 0 <= p[0] < |ch| && 0 <= p[|p| - 1] < |ch| && d[p[0]] < d[p[|p| - 1]]
    decreases |p|
  {
    assert Edge(r, p[0], p[1]);
    Deeper(ch, d, p[0], p[1]);
    if |p| > 2 {
      SubPath(r, p, 1, |p| - 1);
      assert p[1..|p| - 1 + 1] == p[1..];
      PathDeeper(ch, d, r, p[1..]);
    }
  }

  /** The actions by ascending depth, each once. */
  method OrderByDepth(d: seq<int>) returns (order: seq<int>)
    requires forall v :: 0 <= v < |d| ==> d[v] >= 0
    ensures |order| == |d|
    ensures forall v :: 0 <= v < |d| ==> v in order
    ensures forall a :: 0 <= a < |order| ==> 0 <= order[a] < |d|
    ensures forall a, b :: 0 <= a < b < |order| ==> order[a] != order[b]
    ensures forall a, b :: 0 <= a < b < |order| ==> d[order[a]] <= d[order[b]]
  {
    hide Listed;
    var max := 0;
    for i := 0 to |d|
      invariant max >= 0 && forall v :: 0 <= v < i ==> d[v] <= max
    {
      if d[i] > max { max := d[i]; }
    }
    order := [];
    ListedNone(d);
    for depth := 0 to max + 1
      invariant Listed(d, order, depth, 0)
    {
      for i := 0 to |d|
        invariant Listed(d, order, depth, i)
      {
        ListedNext(d, order, depth, i);
        if d[i] == depth {
          order := order + [i];
        }
      }
      ListedDepth(d, order, depth);
    }
    AllListed(d, order, max + 1);
  }

  lemma ListedNone(d: seq<int>)
    requires forall v :: 0 <= v < |d| ==> d[v] >= 0
    ensures Listed(d, [], 0, 0)
  {}

  lemma ListedNext(d: seq<int>, order: seq<int>, depth: int, i: int)
    requires Listed(d, order, depth, i) && 0 <= i < |d|
    ensures Listed(d, if d[i] == depth then order + [i] else order, depth, i + 1)
  {
    var next := if d[i] == depth then order + [i] else order;
    assert forall a :: 0 <= a < |next| ==> next[a] == if a < |order| then order[a] else i;
    forall v | 0 <= v < |d| && (d[v] < depth || (d[v] == depth && v < i + 1)) ensures v in next {
      if v != i { assert v in order; }
    }
  }

  lemma ListedDepth(d: seq<int>, order: seq<int>, depth: int)
    requires Listed(d, order, depth, |d|)
    ensures Listed(d, order, depth + 1, 0)
  {}

  /** Listed so far: the actions above `depth`, and those at `depth` below `i`; each once, by depth. */
  ghost predicate Listed(d: seq<int>, order: seq<int>, depth: int, i: int) {
    && (forall a :: 0 <= a < |order| ==>
      0 <= order[a] < |d| && (d[order[a]] < depth || (d[order[a]] == depth && order[a] < i)))
    && (forall v :: 0 <= v < |d| && (d[v] < depth || (d[v] == depth && v < i)) ==> v in order)
    && (forall a, b :: 0 <= a < b < |order| ==> order[a] != order[b] && d[order[a]] <= d[order[b]])
  }

  lemma AllListed(d: seq<int>, order: seq<int>, depth: int)
    requires Listed(d, order, depth, 0) && forall v :: 0 <= v < |d| ==> d[v] < depth
    ensures |order| == |d| && (forall v :: 0 <= v < |d| ==> v in order)
    ensures forall a :: 0 <= a < |order| ==> 0 <= order[a] < |d|
    ensures forall a, b :: 0 <= a < b < |order| ==> order[a] != order[b] && d[order[a]] <= d[order[b]]
  {
    var o := set a | 0 <= a < |order| :: order[a];
    assert AllActions(|d|) == o by {
      forall v | v in AllActions(|d|) ensures v in o { assert v in order; }
    }
    DistinctCount(order);
  }

  ghost function AllActions(n: nat): (s: set<int>)
    ensures |s| == n && forall v :: v in s <==> 0 <= v < n
  {
    if n == 0 then {} else AllActions(n - 1) + {n - 1}
  }

  lemma {:induction false} DistinctCount(s: seq<int>)
    requires forall a, b :: 0 <= a < b < |s| ==> s[a] != s[b]
    ensures |set a | 0 <= a < |s| :: s[a]| == |s|
  {
    if s != [] {
      var t := s[..|s| - 1];
      DistinctCount(t);
      assert (set a | 0 <= a < |s| :: s[a]) == (set a | 0 <= a < |t| :: t[a]) + {s[|s| - 1]};
    }
  }

  // ---------- chains as relations ----------

  /** The matrix of the chains, and that of the actions listed more than once. */
  ghost function MatrixOf(ch: Chains): (m: Matrix)
    ensures Square(m) && |m| == |ch|
  {
    seq(|ch|, i requires 0 <= i < |ch| => seq(|ch|, j => if j in ch[i] then 1 else 0))
  }

  ghost function DoublesOf(ch: Chains): (m: Matrix)
    ensures Square(m) && |m| == |ch|
  {
    seq(|ch|, i requires 0 <= i < |ch| => seq(|ch|, j => if multiset(ch[i])[j] >= 2 then 1 else 0))
  }

  lemma MatrixAdjacent(ch: Chains)
    requires InRange(ch)
    ensures Adjacent(ch, MatrixOf(ch))
    ensures forall i, j :: Edge(DoublesOf(ch), i, j) <==> Chained(ch, i, j) && multiset(ch[i])[j] >= 2
  {
    forall i, j ensures Edge(DoublesOf(ch), i, j) <==> Chained(ch, i, j) && multiset(ch[i])[j] >= 2 {
      if 0 <= i < |ch| { assert multiset(ch[i])[j] >= 2 ==> j in multiset(ch[i]); }
    }
  }

  /** What thinning leaves: edges of the reduction, and actions that were listed more than once. */
  ghost predicate ThinnedTo(ch: Chains, r: Matrix, thin: Chains) {
    && |thin| == |ch|
    && forall i, j :: Chained(thin, i, j) <==> Chained(ch, i, j) && (Edge(r, i, j) || multiset(ch[i])[j] >= 2)
  }

  lemma ThinnedInRange(ch: Chains, r: Matrix, thin: Chains)
    requires InRange(ch) && ThinnedTo(ch, r, thin)
    ensures InRange(thin)
  {
    forall i, j | 0 <= i < |thin| && j in thin[i] ensures 0 <= j < |thin| { assert Chained(thin, i, j); }
  }

  /** Every node of a path that ends where it began reaches itself. */
  lemma OnCycle(m: Matrix, p: seq<int>, t: int)
    requires Path(m, p) && p[0] == p[|p| - 1] && 0 <= t < |p|
    ensures Reach(m, p[t], p[t])
  {
    if t == 0 || t == |p| - 1 {
      assert PathFrom(m, p, p[t], p[t]);
    } else {
      SubPath(m, p, 0, t);
      SubPath(m, p, t, |p| - 1);
      assert PathFrom(m, p[0..t + 1], p[0], p[t]) && PathFrom(m, p[t..|p| - 1 + 1], p[t], p[0]);
      ReachTrans(m, p[t], p[0], p[t]);
    }
  }

  /** A cycle survives thinning exactly if there is one of actions listed more than once: on a cycle every edge is
      redundant. */
  lemma CyclesLeft(ch: Chains, m: Matrix, r: Matrix, thin: Chains)
    requires InRange(ch) && Adjacent(ch, m) && Reduction(m, r) && ThinnedTo(ch, r, thin)
    ensures Acyclic(MatrixOf(thin)) <==> Acyclic(DoublesOf(ch))
  {
    hide MatrixOf, DoublesOf, Square;
    var th, d := MatrixOf(thin), DoublesOf(ch);
    ThinnedInRange(ch, r, thin);
    MatrixAdjacent(ch);
    MatrixAdjacent(thin);
    if !Acyclic(d) {
      var i :| Reach(d, i, i);
      ReachMono(d, th, i, i);
      assert Reach(th, i, i);
    }
    if !Acyclic(th) {
      var i :| Reach(th, i, i);
      var p :| PathFrom(th, p, i, i);
      forall t | 0 <= t < |p| - 1 ensures Edge(d, p[t], p[t + 1]) {
        assert Edge(th, p[t], p[t + 1]) && Edge(m, p[t], p[t + 1]);
        OnCycle(th, p, t + 1);
        ReachMono(th, m, p[t + 1], p[t + 1]);
        assert Redundant(m, p[t], p[t + 1]);
      }
      assert PathFrom(d, p, i, i);
      assert Reach(d, i, i);
    }
  }

  /** On a cycle there are walks of every length, so that depth_first does not end. */
  lemma {:induction false} Endless(ch: Chains, x: int, y: int, n: nat) returns (p: seq<int>)
    requires InRange(ch) && Reach(MatrixOf(ch), x, x) && (y == x || Reach(MatrixOf(ch), y, x))
    ensures Walk(ch, p) && p[0] == y && |p| == n + 1
    decreases n
  {
    hide MatrixOf, Reach;
    MatrixAdjacent(ch);
    var k := FirstStep(MatrixOf(ch), y, x);
    assert Chained(ch, y, k);
    if n == 0 {
      p := [y];
    } else {
      var q := Endless(ch, x, k, n - 1);
      p := [y] + q;
      forall t | 0 <= t < |p| - 1 ensures Chained(ch, p[t], p[t + 1]) {
        if t > 0 { assert Chained(ch, q[t - 1], q[t]); }
      }
    }
  }

  /** An action that lists itself twice: it still lists itself after thinning, and there are walks of every length. */
  lemma SelfListedTwice(m: Matrix, r: Matrix, thin: Chains, n: nat) returns (p: seq<int>)
    requires Adjacent([[0, 0]], m) && Reduction(m, r) && ThinnedTo([[0, 0]], r, thin)
    ensures !Acyclic(DoublesOf([[0, 0]])) && thin[0] != [] && Walk(thin, p) && p[0] == 0 && |p| == n + 1
  {
    var ch := [[0, 0]];
    MatrixAdjacent(ch);
    assert Chained(ch, 0, 0) && multiset(ch[0])[0] == 2;
    assert Chained(thin, 0, 0);
    EdgeReach(DoublesOf(ch), 0, 0);
    ThinnedInRange(ch, r, thin);
    MatrixAdjacent(thin);
    EdgeReach(MatrixOf(thin), 0, 0);
    p := Endless(thin, 0, 0, n);
  }

  /** An action listed twice stays in its chain although its edge is redundant. */
  lemma DoubledStays(m: Matrix, r: Matrix, thin: Chains)
    requires var ch := [[1, 2, 2], [2], []];
      Adjacent(ch, m) && Reduction(m, r) && |thin| == 3 && multiset(thin[0])[2] == Left(ch[0], r, 0, 2)
    ensures Redundant(m, 0, 2) && !Edge(r, 0, 2) && 2 in thin[0]
  {
    var ch := [[1, 2, 2], [2], []];
    assert Chained(ch, 0, 1) && Chained(ch, 1, 2) && Chained(ch, 0, 2);
    EdgeReach(m, 1, 2);
    assert multiset(ch[0])[2] == 2;
    assert 2 in multiset(thin[0]);
  }

  // ---------- make_chains ----------

  /** The actions reachable from one, along the given relation, come after it in the order. */
  ghost predicate Respects(order: seq<int>, m: Matrix) {
    forall a, b :: 0 <= a < |order| && 0 <= b < |order| && Reach(m, order[a], order[b]) ==> a < b
  }

  ghost predicate EachOnce(order: seq<int>, n: int) {
    && |order| == n && (forall v :: 0 <= v < n ==> v in order)
    && (forall a, b :: 0 <= a < b < n ==> order[a] != order[b])
  }

  /** make_chains. It ends if no cycle of actions listed more than once is left; then every action is listed once,
      before everything that the thinned chains reach from it, and before everything that the given chains reach
      exactly if these are acyclic. */
  method MakeChains(ch: Chains) returns (thin: Chains, order: seq<int>, ghost m: Matrix, ghost r: Matrix)
    requires InRange(ch) && Acyclic(DoublesOf(ch))
    ensures Adjacent(ch, m) && Reduction(m, r) && ThinnedTo(ch, r, thin)
    ensures EachOnce(order, |ch|) && Respects(order, MatrixOf(thin))
    ensures Respects(order, m) <==> Acyclic(m)
  {
    hide Acyclic, Reach, DoublesOf, MatrixOf, Longest;
    var adj := Adjacency(ch);
    var red := TransReduct(adj);
    m, r := adj, red;
    thin := Thin(ch, red);
    forall i, j ensures Chained(thin, i, j) <==> Chained(ch, i, j) && (Edge(r, i, j) || multiset(ch[i])[j] >= 2) {
      if 0 <= i < |ch| { ThinBetween(ch, thin, r, i, j); }
    }
    ThinnedInRange(ch, r, thin);
    CyclesLeft(ch, m, r, thin);
    MatrixAdjacent(thin);
    var d := Depths(thin, MatrixOf(thin));
    NotNegative(thin, d);
    order := OrderByDepth(d);
    ThinRespected(thin, d, order);
    AllRespected(ch, thin, d, m, r, order);
  }

  lemma NotNegative(ch: Chains, d: seq<int>)
    requires Longest(ch, d)
    ensures |d| == |ch| && forall v :: 0 <= v < |d| ==> d[v] >= 0
  {
    forall v | 0 <= v < |d| ensures d[v] >= 0 { assert Walk(ch, [v]); }
  }

  lemma ThinRespected(thin: Chains, d: seq<int>, order: seq<int>)
    requires InRange(thin) && Longest(thin, d) && |order| == |d|
      && (forall a :: 0 <= a < |order| ==> 0 <= order[a] < |d|)
    requires forall a, b :: 0 <= a < b < |order| ==> d[order[a]] <= d[order[b]]
    ensures Respects(order, MatrixOf(thin))
  {
    hide Longest, MatrixOf;
    MatrixAdjacent(thin);
    forall a, b | 0 <= a < |order| && 0 <= b < |order| && Reach(MatrixOf(thin), order[a], order[b]) ensures a < b {
      var p :| PathFrom(MatrixOf(thin), p, order[a], order[b]);
      PathDeeper(thin, d, MatrixOf(thin), p);
    }
  }

  lemma AllRespected(ch: Chains, thin: Chains, d: seq<int>, m: Matrix, r: Matrix, order: seq<int>)
    requires Adjacent(ch, m) && Reduction(m, r) && ThinnedTo(ch, r, thin) && Longest(thin, d) && EachOnce(order, |d|)
    requires forall a, b :: 0 <= a < b < |order| ==>
      0 <= order[a] < |d| && 0 <= order[b] < |d| && d[order[a]] <= d[order[b]]
    ensures Respects(order, m) <==> Acyclic(m)
  {
    hide Longest, Reach;
    LongestSize(thin, d);
    if Acyclic(m) {
      forall a, b | 0 <= a < |order| && 0 <= b < |order| && Reach(m, order[a], order[b]) ensures a < b {
        ReachDeeper(thin, d, m, r, order[a], order[b]);
      }
    } else {
      var v :| Reach(m, v, v);
      ReachBounds(m, v, v);
      assert v in order;
      var a :| 0 <= a < |order| && order[a] == v;
      assert Reach(m, order[a], order[a]);
    }
  }

  lemma LongestSize(ch: Chains, d: seq<int>)
    requires Longest(ch, d)
    ensures |d| == |ch|
  {}

  lemma ReachDeeper(ch: Chains, d: seq<int>, m: Matrix, r: Matrix, u: int, v: int)
    requires Acyclic(m) && Reduction(m, r) && Longest(ch, d) && Reach(m, u, v) && |ch| == |m|
    requires forall i, j :: Edge(r, i, j) ==> Chained(ch, i, j)
    ensures 0 <= u < |d| && 0 <= v < |d| && d[u] < d[v]
  {
    ReductionReaches(m, r, u, v);
    var p :| PathFrom(r, p, u, v);
    PathDeeper(ch, d, r, p);
  }
}
