/** How the pointer fields of the rows represent a zipper. */
module RbHeap {
  import opened RbShape

  /** The tree fields of a row's node in one index; a cleared node is all zero. */
  datatype TreeNode = TreeNode(left: Row, right: Row, parent: Row, color: Color)

  const CLEAR := TreeNode(NULL, NULL, NULL, White)

  type Heap = map<Row, TreeNode>

  /** The node of row `x`; a row never touched has a cleared node. */
  function At(h: Heap, x: Row): TreeNode {
    if x in h then h[x] else CLEAR
  }

  // Field reads and writes through a pointer, which must not be NULL.
  function Left(h: Heap, x: Row): Row requires x != NULL { At(h, x).left }
  function Right(h: Heap, x: Row): Row requires x != NULL { At(h, x).right }
  function Parent(h: Heap, x: Row): Row requires x != NULL { At(h, x).parent }
  function Hue(h: Heap, x: Row): Color requires x != NULL { At(h, x).color }
  function SetLeft(h: Heap, x: Row, v: Row): (h': Heap)
    requires x != NULL
    ensures forall y :: At(h', y) == if y == x then At(h, y).(left := v) else At(h, y)
  { h[x := At(h, x).(left := v)] }
  function SetRight(h: Heap, x: Row, v: Row): (h': Heap)
    requires x != NULL
    ensures forall y :: At(h', y) == if y == x then At(h, y).(right := v) else At(h, y)
  { h[x := At(h, x).(right := v)] }
  function SetParent(h: Heap, x: Row, v: Row): (h': Heap)
    requires x != NULL
    ensures forall y :: At(h', y) == if y == x then At(h, y).(parent := v) else At(h, y)
  { h[x := At(h, x).(parent := v)] }
  function SetHue(h: Heap, x: Row, v: Color): (h': Heap)
    requires x != NULL
    ensures forall y :: At(h', y) == if y == x then At(h, y).(color := v) else At(h, y)
  { h[x := At(h, x).(color := v)] }

  /** Row `x`'s fields hold the root of tree `t`, whose parent is `par`; and so on below. */
  ghost predicate Rep(h: Heap, t: Tree, par: Row) {
    match t
    case Leaf => true
    case Node(l, x, col, r) =>
      && x != NULL
      && At(h, x) == TreeNode(RootRow(l), RootRow(r), par, col)
      && Rep(h, l, x)
      && Rep(h, r, x)
  }

  /** The fields along the path hold it, with `p` in the hole and `root` at the top. */
  ghost predicate CtxRep(h: Heap, root: Row, c: Ctx, p: Row) {
    match c
    case Top => root == p
    case InLeft(x, col, r, up) =>
      && x != NULL
      && At(h, x) == TreeNode(p, RootRow(r), CtxParent(up), col)
      && Rep(h, r, x)
      && CtxRep(h, root, up, x)
    case InRight(l, x, col, up) =>
      && x != NULL
      && At(h, x) == TreeNode(RootRow(l), p, CtxParent(up), col)
      && Rep(h, l, x)
      && CtxRep(h, root, up, x)
  }

  ghost predicate Apart(c: Ctx, t: Tree) {
    Distinct(t) && CtxDistinct(c) && Rows(t) !! CtxRows(c)
  }

  ghost predicate Zip(h: Heap, root: Row, c: Ctx, t: Tree) {
    Rep(h, t, CtxParent(c)) && CtxRep(h, root, c, RootRow(t)) && Apart(c, t)
  }

  // ---------- moving the focus: the same heap, another reading ----------

  lemma UpLeft(h: Heap, root: Row, x: Row, col: Color, r: Tree, up: Ctx, t: Tree)
    ensures Zip(h, root, InLeft(x, col, r, up), t) <==> Zip(h, root, up, Node(t, x, col, r))
  {}

  lemma UpRight(h: Heap, root: Row, l: Tree, x: Row, col: Color, up: Ctx, t: Tree)
    ensures Zip(h, root, InRight(l, x, col, up), t) <==> Zip(h, root, up, Node(l, x, col, t))
  {}

  lemma UpOne(h: Heap, root: Row, c: Ctx, t: Tree)
    requires !c.Top?
    ensures Zip(h, root, c, t) <==> Zip(h, root, c.up, Up(c, t))
    ensures CtxRows(c) + Rows(t) == CtxRows(c.up) + Rows(Up(c, t))
  {
    if c.InLeft? {
      UpLeft(h, root, c.row, c.color, c.right, c.up, t);
    } else {
      UpRight(h, root, c.left, c.row, c.color, c.up, t);
    }
  }

  /** A heap holds a zipper exactly when it holds the plugged tree from the root. */
  lemma {:induction false} ZipPlug(h: Heap, root: Row, inner: Ctx, outer: Ctx, t: Tree)
    ensures Zip(h, root, Compose(inner, outer), t) <==> Zip(h, root, outer, Plug(inner, t))
    decreases inner
  {
    match inner
    case Top =>
    case InLeft(x, col, r, up) =>
      UpLeft(h, root, x, col, r, Compose(up, outer), t);
      ZipPlug(h, root, up, outer, Node(t, x, col, r));
    case InRight(l, x, col, up) =>
      UpRight(h, root, l, x, col, Compose(up, outer), t);
      ZipPlug(h, root, up, outer, Node(l, x, col, t));
  }

  lemma {:induction false} ComposeTop(c: Ctx)
    ensures Compose(c, Top) == c
  {
    if !c.Top? { ComposeTop(c.up); }
  }

  lemma ZipTree(h: Heap, root: Row, c: Ctx, t: Tree)
    ensures Zip(h, root, c, t) <==> Zip(h, root, Top, Plug(c, t))
  {
    ComposeTop(c);
    ZipPlug(h, root, c, Top, t);
  }

  // ---------- writes elsewhere change nothing; a new parent changes one field ----------

  lemma {:induction false} FrameRep(h: Heap, h': Heap, t: Tree, par: Row, par': Row)
    requires Rep(h, t, par) && Distinct(t)
    requires forall x :: x in Rows(t) && x != RootRow(t) ==> At(h', x) == At(h, x)
    requires t.Node? ==> At(h', t.row) == At(h, t.row).(parent := par')
    ensures Rep(h', t, par')
    decreases t
  {
    match t
    case Leaf =>
    case Node(l, x, col, r) =>
      FrameRep(h, h', l, x, x);
      FrameRep(h, h', r, x, x);
  }

  lemma {:induction false} FrameSame(h: Heap, h': Heap, t: Tree, par: Row)
    requires Rep(h, t, par) && forall x :: x in Rows(t) ==> At(h', x) == At(h, x)
    ensures Rep(h', t, par)
    decreases t
  {
    match t
    case Leaf =>
    case Node(l, x, col, r) =>
      FrameSame(h, h', l, x);
      FrameSame(h, h', r, x);
  }

  /** Outside the node right above the hole, the path does not depend on what is in the hole. */
  lemma {:induction false} FrameCtx(h: Heap, h': Heap, root: Row, c: Ctx, p: Row)
    requires CtxRep(h, root, c, p) && forall x :: x in CtxRows(c) ==> At(h', x) == At(h, x)
    ensures CtxRep(h', root, c, p)
    decreases c
  {
    match c
    case Top =>
    case InLeft(x, col, r, up) =>
      FrameSame(h, h', r, x);
      FrameCtx(h, h', root, up, x);
    case InRight(l, x, col, up) =>
      FrameSame(h, h', l, x);
      FrameCtx(h, h', root, up, x);
  }

  lemma {:induction false} RootOfCtx(h: Heap, root: Row, c: Ctx, p: Row)
    requires CtxRep(h, root, c, p) && !c.Top?
    ensures root in CtxRows(c) && root != NULL && At(h, root).color == TopColor(c)
    ensures TopColor(c) == Black <==> TopBlack(c)
    decreases c
  {
    if !c.up.Top? { RootOfCtx(h, root, c.up, c.row); }
  }

  function TopColor(c: Ctx): Color
    requires !c.Top?
  {
    if c.up.Top? then c.color else TopColor(c.up)
  }

  lemma {:induction false} NotNull(h: Heap, t: Tree, par: Row)
    requires Rep(h, t, par)
    ensures NULL !in Rows(t)
    decreases t
  {
    if t.Node? {
      NotNull(h, t.left, t.row);
      NotNull(h, t.right, t.row);
    }
  }

  lemma {:induction false} CtxNotNull(h: Heap, root: Row, c: Ctx, p: Row)
    requires CtxRep(h, root, c, p)
    ensures NULL !in CtxRows(c)
    decreases c
  {
    match c
    case Top =>
    case InLeft(x, _, r, up) => NotNull(h, r, x); CtxNotNull(h, root, up, x);
    case InRight(l, x, _, up) => NotNull(h, l, x); CtxNotNull(h, root, up, x);
  }

  /** `p` is written where the hole hangs: into one child field of the row above it, or the root. */
  ghost predicate Hung(h: Heap, h': Heap, root: Row, root': Row, c: Ctx, p: Row) {
    match c
    case Top => root' == p
    case InLeft(x, _, _, _) => root' == root && At(h', x) == At(h, x).(left := p)
    case InRight(_, x, _, _) => root' == root && At(h', x) == At(h, x).(right := p)
  }

  lemma {:induction false} Relink(h: Heap, h': Heap, root: Row, root': Row, c: Ctx, p: Row, p': Row)
    requires CtxRep(h, root, c, p) && CtxDistinct(c)
    requires Hung(h, h', root, root', c, p')
    requires forall x :: x in CtxRows(c) && x != CtxParent(c) ==> At(h', x) == At(h, x)
    ensures CtxRep(h', root', c, p')
  {
    match c
    case Top =>
    case InLeft(x, col, r, up) =>
      FrameSame(h, h', r, x);
      FrameCtx(h, h', root, up, x);
    case InRight(l, x, col, up) =>
      FrameSame(h, h', l, x);
      FrameCtx(h, h', root, up, x);
  }

  /** What the row above the hole says; it holds the hole as its left child or its right one, not both. */
  lemma WhichSide(h: Heap, root: Row, c: Ctx, t: Tree)
    requires Zip(h, root, c, t) && !c.Top?
    ensures c.row != NULL && At(h, c.row).color == c.color && At(h, c.row).parent == CtxParent(c.up)
    ensures c.InLeft? ==> At(h, c.row).left == RootRow(t) && At(h, c.row).right == RootRow(c.right)
    ensures c.InRight? ==> At(h, c.row).right == RootRow(t) && At(h, c.row).left == RootRow(c.left)
    ensures t.Node? ==> (c.InLeft? <==> At(h, c.row).left == t.row) && (c.InRight? <==> At(h, c.row).right == t.row)
  {
  }

  ghost predicate SameOutside(h: Heap, h': Heap, s: set<Row>) {
    forall x :: x != NULL && x !in s ==> At(h', x) == At(h, x)
  }

  // ---------- rotations ----------

  function RotatedLeft(t: Tree): (r: Tree)
    requires t.Node? && t.right.Node?
    ensures InOrder(r) == InOrder(t) && Rows(r) == Rows(t)
  {
    Node(Node(t.left, t.row, t.color, t.right.left), t.right.row, t.right.color, t.right.right)
  }

  function RotatedRight(t: Tree): (r: Tree)
    requires t.Node? && t.left.Node?
    ensures InOrder(r) == InOrder(t) && Rows(r) == Rows(t)
  {
    Node(t.left.left, t.left.row, t.left.color, Node(t.left.right, t.row, t.color, t.right))
  }

  /** What the fields around a node say, and that the rows concerned are all different. */
  lemma Around(h: Heap, root: Row, c: Ctx, t: Tree)
    requires Zip(h, root, c, t) && t.Node?
    ensures t.row != NULL && At(h, t.row) == TreeNode(RootRow(t.left), RootRow(t.right), CtxParent(c), t.color)
    ensures CtxParent(c) != t.row
    ensures c.Top? <==> CtxParent(c) == NULL
    ensures c.InLeft? ==> At(h, c.row).left == t.row
    ensures c.InRight? ==> At(h, c.row).left != t.row && At(h, c.row).right == t.row
    ensures t.left.Node? ==>
              var y := t.left.row;
              y != NULL && y != t.row && y != CtxParent(c) &&
              At(h, y) == TreeNode(RootRow(t.left.left), RootRow(t.left.right), t.row, t.left.color)
    ensures t.right.Node? ==>
              var y := t.right.row;
              y != NULL && y != t.row && y != CtxParent(c) &&
              At(h, y) == TreeNode(RootRow(t.right.left), RootRow(t.right.right), t.row, t.right.color)
    ensures t.left.Node? && t.right.Node? ==> t.left.row != t.right.row
  {
    assert Rep(h, t.left, t.row) && Rep(h, t.right, t.row);
  }

  /** The grandchildren are rows of their own as well. */
  lemma Below(h: Heap, root: Row, c: Ctx, t: Tree, m: Tree)
    requires Zip(h, root, c, t) && t.Node?
    requires (t.left.Node? && (m == t.left.left || m == t.left.right)) ||
             (t.right.Node? && (m == t.right.left || m == t.right.right))
    ensures m.Node? ==> m.row != NULL && m.row != t.row && m.row != CtxParent(c) &&
                        m.row != RootRow(t.left) && m.row != RootRow(t.right)
  {
    if m.Node? {
      if t.left.Node? && (m == t.left.left || m == t.left.right) {
        assert Rep(h, t.left, t.row) && Distinct(t.left);
        assert Rep(h, m, t.left.row);
        assert m.row in Rows(m) && m.row in Rows(t.left);
      } else {
        assert Rep(h, t.right, t.row) && Distinct(t.right);
        assert Rep(h, m, t.right.row);
        assert m.row in Rows(m) && m.row in Rows(t.right);
      }
    }
  }

  /** The field writes of a left rotation at `x` below `c`, where `y` is its right child and `b` `y`'s left child. */
  ghost predicate TurnedLeft(h: Heap, h': Heap, root: Row, root': Row, c: Ctx, x: Row, y: Row, b: Row) {
    && At(h', x) == At(h, x).(right := b, parent := y)
    && At(h', y) == At(h, y).(left := x, parent := CtxParent(c))
    && (b != NULL ==> At(h', b) == At(h, b).(parent := x))
    && Hung(h, h', root, root', c, y)
    && SameOutside(h, h', {x, y, b, CtxParent(c)})
  }

  ghost predicate TurnedRight(h: Heap, h': Heap, root: Row, root': Row, c: Ctx, x: Row, y: Row, b: Row) {
    && At(h', x) == At(h, x).(left := b, parent := y)
    && At(h', y) == At(h, y).(right := x, parent := CtxParent(c))
    && (b != NULL ==> At(h', b) == At(h, b).(parent := x))
    && Hung(h, h', root, root', c, y)
    && SameOutside(h, h', {x, y, b, CtxParent(c)})
  }

  /** Where `x` hangs: the child fields above it, and no row named twice. */
  ghost predicate Hangs(h: Heap, c: Ctx, x: Row) {
    && x != NULL && At(h, x).parent == CtxParent(c) && CtxParent(c) != x
    && (c.Top? <==> CtxParent(c) == NULL)
    && (c.InLeft? ==> At(h, c.row).left == x)
    && (c.InRight? ==> At(h, c.row).left != x)
  }

  ghost predicate Different(x: Row, y: Row, b: Row, p: Row) {
    y != NULL && x != y && p != y && (b != NULL ==> b != x && b != y && b != p)
  }

  /** The rows below the rotation. */
  lemma TurnedLeftBelow(h: Heap, h': Heap, root: Row, root': Row, c: Ctx, t: Tree)
    requires Rep(h, t, CtxParent(c)) && Distinct(t) && Rows(t) !! CtxRows(c) && NULL !in Rows(t)
    requires t.Node? && t.right.Node? && (!c.Top? ==> CtxParent(c) in CtxRows(c))
    requires TurnedLeft(h, h', root, root', c, t.row, t.right.row, RootRow(t.right.left))
    ensures Rep(h', RotatedLeft(t), CtxParent(c))
  {
    hide InOrder, Hung, CtxRows;
    var x, y := t.row, t.right.row;
    assert Rep(h, t.right, x) && Distinct(t.right);
    FrameRep(h, h', t.left, x, x);
    FrameRep(h, h', t.right.left, y, x);
    FrameRep(h, h', t.right.right, y, y);
  }

  lemma RotatedLeftRep(h: Heap, h': Heap, root: Row, root': Row, c: Ctx, t: Tree)
    requires Zip(h, root, c, t) && t.Node? && t.right.Node?
    requires TurnedLeft(h, h', root, root', c, t.row, t.right.row, RootRow(t.right.left))
    ensures SameOutside(h, h', CtxRows(c) + Rows(t))
    ensures Zip(h', root', c, RotatedLeft(t))
  {
    RowsNotNull(h, root, c, t);
    TurnedLeftBelow(h, h', root, root', c, t);
    Relink(h, h', root, root', c, t.row, t.right.row);
    TurnedLeftOutside(h, h', root, root', c, t);
  }

  lemma TurnedLeftOutside(h: Heap, h': Heap, root: Row, root': Row, c: Ctx, t: Tree)
    requires t.Node? && t.right.Node? && (!c.Top? ==> CtxParent(c) in CtxRows(c))
    requires TurnedLeft(h, h', root, root', c, t.row, t.right.row, RootRow(t.right.left))
    ensures SameOutside(h, h', CtxRows(c) + Rows(t))
  {
    var b := t.right.left;
    assert b.Node? ==> b.row in Rows(b);
    assert Rows(b) <= Rows(t.right) <= Rows(t) && t.right.row in Rows(t.right);
  }

  /** The rows below the rotation. */
  lemma TurnedRightBelow(h: Heap, h': Heap, root: Row, root': Row, c: Ctx, t: Tree)
    requires Rep(h, t, CtxParent(c)) && Distinct(t) && Rows(t) !! CtxRows(c) && NULL !in Rows(t)
    requires t.Node? && t.left.Node? && (!c.Top? ==> CtxParent(c) in CtxRows(c))
    requires TurnedRight(h, h', root, root', c, t.row, t.left.row, RootRow(t.left.right))
    ensures Rep(h', RotatedRight(t), CtxParent(c))
  {
    hide InOrder, Hung, CtxRows;
    var x, y := t.row, t.left.row;
    assert Rep(h, t.left, x) && Distinct(t.left);
    FrameRep(h, h', t.right, x, x);
    FrameRep(h, h', t.left.right, y, x);
    FrameRep(h, h', t.left.left, y, y);
  }

  lemma RotatedRightRep(h: Heap, h': Heap, root: Row, root': Row, c: Ctx, t: Tree)
    requires Zip(h, root, c, t) && t.Node? && t.left.Node?
    requires TurnedRight(h, h', root, root', c, t.row, t.left.row, RootRow(t.left.right))
    ensures SameOutside(h, h', CtxRows(c) + Rows(t))
    ensures Zip(h', root', c, RotatedRight(t))
  {
    RowsNotNull(h, root, c, t);
    TurnedRightBelow(h, h', root, root', c, t);
    Relink(h, h', root, root', c, t.row, t.left.row);
    TurnedRightOutside(h, h', root, root', c, t);
  }

  lemma TurnedRightOutside(h: Heap, h': Heap, root: Row, root': Row, c: Ctx, t: Tree)
    requires t.Node? && t.left.Node? && (!c.Top? ==> CtxParent(c) in CtxRows(c))
    requires TurnedRight(h, h', root, root', c, t.row, t.left.row, RootRow(t.left.right))
    ensures SameOutside(h, h', CtxRows(c) + Rows(t))
  {
    var b := t.left.right;
    assert b.Node? ==> b.row in Rows(b);
    assert Rows(b) <= Rows(t.left) <= Rows(t) && t.left.row in Rows(t.left);
  }

  lemma RowsNotNull(h: Heap, root: Row, c: Ctx, t: Tree)
    requires Zip(h, root, c, t)
    ensures NULL !in CtxRows(c) && NULL !in Rows(t)
  {
    NotNull(h, t, CtxParent(c));
    CtxNotNull(h, root, c, RootRow(t));
  }

  lemma PaintedRep(h: Heap, h': Heap, root: Row, c: Ctx, t: Tree, col: Color)
    requires Zip(h, root, c, t) && t.Node?
    requires At(h', t.row) == At(h, t.row).(color := col) && SameOutside(h, h', {t.row})
    ensures Zip(h', root, c, t.(color := col))
  {
    RowsNotNull(h, root, c, t);
    FrameSame(h, h', t.left, t.row);
    FrameSame(h, h', t.right, t.row);
    FrameCtx(h, h', root, c, t.row);
  }

  /** The hole is at the root exactly when the path is empty, also when nothing is in it. */
  lemma HoleFacts(h: Heap, root: Row, c: Ctx, t: Tree)
    requires Zip(h, root, c, t)
    ensures RootRow(t) == root <==> c.Top?
    ensures t.Node? ==> t.row != NULL && At(h, t.row).color == t.color && At(h, t.row).parent == CtxParent(c)
    ensures t.Leaf? <==> RootRow(t) == NULL
  {
    if !c.Top? { RootOfCtx(h, root, c, RootRow(t)); }
  }

  /** The field writes that pass the place of `x`, with children `l` and `r` below `c`, to `y`. */
  ghost predicate Passed(h: Heap, h': Heap, root: Row, root': Row, c: Ctx, x: Row, l: Row, r: Row, y: Row) {
    && At(h', y) == At(h, x) && Hung(h, h', root, root', c, y)
    && (l != NULL ==> At(h', l) == At(h, l).(parent := y))
    && (r != NULL ==> At(h', r) == At(h, r).(parent := y))
    && SameOutside(h, h', {y, l, r, CtxParent(c)})
  }

  lemma ReplacedRep(h: Heap, h': Heap, root: Row, root': Row, c: Ctx, t: Tree, y: Row)
    requires Zip(h, root, c, t) && t.Node? && y != NULL && y !in CtxRows(c) + Rows(t)
    requires Passed(h, h', root, root', c, t.row, RootRow(t.left), RootRow(t.right), y)
    ensures Zip(h', root', c, Node(t.left, y, t.color, t.right))
    ensures SameOutside(h, h', CtxRows(c) + Rows(t) + {y})
  {
    RowsNotNull(h, root, c, t);
    FrameRep(h, h', t.left, t.row, y);
    FrameRep(h, h', t.right, t.row, y);
    Relink(h, h', root, root', c, t.row, y);
  }

  /** The only child `s` of the root of `t` takes its place. */
  lemma SplicedRep(h: Heap, h': Heap, root: Row, root': Row, c: Ctx, t: Tree, s: Tree)
    requires Zip(h, root, c, t) && t.Node? && (s == t.left || s == t.right)
    requires s.Node? ==> At(h', s.row) == At(h, s.row).(parent := CtxParent(c))
    requires Hung(h, h', root, root', c, RootRow(s)) && SameOutside(h, h', {RootRow(s), CtxParent(c)})
    ensures Zip(h', root', c, s)
  {
    RowsNotNull(h, root, c, t);
    FrameRep(h, h', s, t.row, CtxParent(c));
    Relink(h, h', root, root', c, t.row, RootRow(s));
  }

  /** Clearing a row that is not in the tree changes nothing. */
  lemma ClearedRep(h: Heap, root: Row, c: Ctx, t: Tree, x: Row)
    requires Zip(h, root, c, t) && x !in CtxRows(c) + Rows(t)
    ensures Zip(h[x := CLEAR], root, c, t)
  {
    var h' := h[x := CLEAR];
    FrameSame(h, h', t, CtxParent(c));
    FrameCtx(h, h', root, c, RootRow(t));
  }

  /** A new red row put into an empty hole. */
  lemma LeafRep(h: Heap, h': Heap, root: Row, root': Row, c: Ctx, x: Row)
    requires Zip(h, root, c, Leaf) && x != NULL && x !in CtxRows(c)
    requires At(h', x) == TreeNode(NULL, NULL, CtxParent(c), Red)
    requires Hung(h, h', root, root', c, x) && SameOutside(h, h', {x, CtxParent(c)})
    ensures Zip(h', root', c, Node(Leaf, x, Red, Leaf)) && SameOutside(h, h', CtxRows(c) + {x})
  {
    CtxNotNull(h, root, c, NULL);
    Relink(h, h', root, root', c, NULL, x);
  }
}
