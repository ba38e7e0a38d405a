/** The shape of one index: a red-black tree of list heads, and the zipper
    (a subtree together with the path above it) in which the pointer code moves.
    Nothing here knows about pointers. */
module RbShape {

  /** A row is named by its address; NULL is 0. */
  type Row = int
  const NULL: Row := 0

  datatype Color = White | Black | Red

  datatype Tree = Leaf | Node(left: Tree, row: Row, color: Color, right: Tree)

  /** The path from a hole up to the root: in which subtree of `row` the hole is,
      the other subtree, and the rest of the path. */
  datatype Ctx =
    | Top
    | InLeft(row: Row, color: Color, right: Tree, up: Ctx)
    | InRight(left: Tree, row: Row, color: Color, up: Ctx)

  function Plug(c: Ctx, t: Tree): Tree {
    match c
    case Top => t
    case InLeft(x, col, r, up) => Plug(up, Node(t, x, col, r))
    case InRight(l, x, col, up) => Plug(up, Node(l, x, col, t))
  }

  /** The subtree one level up. */
  function Up(c: Ctx, t: Tree): Tree
    requires !c.Top?
  {
    if c.InLeft? then Node(t, c.row, c.color, c.right) else Node(c.left, c.row, c.color, t)
  }

  /** The path `inner` continued by the path `outer`. */
  function Compose(inner: Ctx, outer: Ctx): Ctx {
    match inner
    case Top => outer
    case InLeft(x, col, r, up) => InLeft(x, col, r, Compose(up, outer))
    case InRight(l, x, col, up) => InRight(l, x, col, Compose(up, outer))
  }

  function RootRow(t: Tree): Row {
    if t.Leaf? then NULL else t.row
  }

  function CtxParent(c: Ctx): Row {
    if c.Top? then NULL else c.row
  }

  function InOrder(t: Tree): seq<Row> {
    match t
    case Leaf => []
    case Node(l, x, _, r) => InOrder(l) + [x] + InOrder(r)
  }

  /** The rows that come before, and after, everything in the hole. */
  function Before(c: Ctx): seq<Row> {
    match c
    case Top => []
    case InLeft(_, _, _, up) => Before(up)
    case InRight(l, x, _, up) => Before(up) + InOrder(l) + [x]
  }

  function After(c: Ctx): seq<Row> {
    match c
    case Top => []
    case InLeft(x, _, r, up) => [x] + InOrder(r) + After(up)
    case InRight(_, _, _, up) => After(up)
  }

  function Rows(t: Tree): set<Row> {
    match t
    case Leaf => {}
    case Node(l, x, _, r) => Rows(l) + {x} + Rows(r)
  }

  function CtxRows(c: Ctx): set<Row> {
    match c
    case Top => {}
    case InLeft(x, _, r, up) => {x} + Rows(r) + CtxRows(up)
    case InRight(l, x, _, up) => Rows(l) + {x} + CtxRows(up)
  }

  predicate Distinct(t: Tree) {
    match t
    case Leaf => true
    case Node(l, x, _, r) =>
      x !in Rows(l) && x !in Rows(r) && Rows(l) !! Rows(r) && Distinct(l) && Distinct(r)
  }

  predicate CtxDistinct(c: Ctx) {
    match c
    case Top => true
    case InLeft(x, _, r, up) =>
      x !in Rows(r) && x !in CtxRows(up) && Rows(r) !! CtxRows(up) && Distinct(r) && CtxDistinct(up)
    case InRight(l, x, _, up) =>
      x !in Rows(l) && x !in CtxRows(up) && Rows(l) !! CtxRows(up) && Distinct(l) && CtxDistinct(up)
  }

  function Depth(c: Ctx): nat {
    if c.Top? then 0 else 1 + Depth(c.up)
  }

  // ---------- red-black balance ----------

  predicate RootRed(t: Tree) {
    t.Node? && t.color == Red
  }

  predicate CtxRed(c: Ctx) {
    !c.Top? && c.color == Red
  }

  function Weight(col: Color): nat {
    if col == Black then 1 else 0
  }

  function BlackHeight(t: Tree): nat {
    if t.Leaf? then 0 else BlackHeight(t.left) + Weight(t.color)
  }

  /** Every path from the root to a leaf passes the same number of black nodes. */
  predicate Balanced(t: Tree) {
    t.Leaf? || (Balanced(t.left) && Balanced(t.right) && BlackHeight(t.left) == BlackHeight(t.right))
  }

  /** Every node is red or black, and no red node has a red child. */
  predicate NoRedRed(t: Tree) {
    t.Leaf? ||
    (NoRedRed(t.left) && NoRedRed(t.right) && t.color != White &&
     (t.color == Red ==> !RootRed(t.left) && !RootRed(t.right)))
  }

  predicate RedBlack(t: Tree) {
    Balanced(t) && NoRedRed(t) && !RootRed(t)
  }

  /** A balanced tree of black height `n` in the hole makes the whole tree balanced. */
  predicate CtxBalanced(c: Ctx, n: nat) {
    match c
    case Top => true
    case InLeft(_, col, r, up) => Balanced(r) && BlackHeight(r) == n && CtxBalanced(up, n + Weight(col))
    case InRight(l, _, col, up) => Balanced(l) && BlackHeight(l) == n && CtxBalanced(up, n + Weight(col))
  }

  predicate CtxNoRedRed(c: Ctx) {
    match c
    case Top => true
    case InLeft(_, col, r, up) =>
      col != White && NoRedRed(r) && (col == Red ==> !RootRed(r) && !CtxRed(up)) && CtxNoRedRed(up)
    case InRight(l, _, col, up) =>
      col != White && NoRedRed(l) && (col == Red ==> !RootRed(l) && !CtxRed(up)) && CtxNoRedRed(up)
  }

  /** The outermost node of the path, which is the root of the whole tree, is black. */
  predicate TopBlack(c: Ctx) {
    c.Top? || (if c.up.Top? then c.color == Black else TopBlack(c.up))
  }

  // ---------- what plugging does ----------

  lemma {:induction false} PlugInOrder(c: Ctx, t: Tree)
    ensures InOrder(Plug(c, t)) == Before(c) + InOrder(t) + After(c)
    decreases c
  {
    match c
    case Top =>
    case InLeft(x, col, r, up) => PlugInOrder(up, Node(t, x, col, r));
    case InRight(l, x, col, up) => PlugInOrder(up, Node(l, x, col, t));
  }

  lemma PlugSplit(c: Ctx, t: Tree)
    requires t.Node?
    ensures InOrder(Plug(c, t)) == (Before(c) + InOrder(t.left)) + [t.row] + (InOrder(t.right) + After(c))
  {
    PlugInOrder(c, t);
  }

  lemma {:induction false} PlugCompose(inner: Ctx, outer: Ctx, t: Tree)
    ensures Plug(Compose(inner, outer), t) == Plug(outer, Plug(inner, t))
    decreases inner
  {
    match inner
    case Top =>
    case InLeft(x, col, r, up) => PlugCompose(up, outer, Node(t, x, col, r));
    case InRight(l, x, col, up) => PlugCompose(up, outer, Node(l, x, col, t));
  }

  lemma {:induction false} PlugRows(c: Ctx, t: Tree)
    ensures Rows(Plug(c, t)) == CtxRows(c) + Rows(t)
    decreases c
  {
    match c
    case Top =>
    case InLeft(x, col, r, up) => PlugRows(up, Node(t, x, col, r));
    case InRight(l, x, col, up) => PlugRows(up, Node(l, x, col, t));
  }

  lemma {:induction false} PlugDistinct(c: Ctx, t: Tree)
    ensures Distinct(Plug(c, t)) <==> Distinct(t) && CtxDistinct(c) && Rows(t) !! CtxRows(c)
    decreases c
  {
    match c
    case Top =>
    case InLeft(x, col, r, up) => PlugDistinct(up, Node(t, x, col, r));
    case InRight(l, x, col, up) => PlugDistinct(up, Node(l, x, col, t));
  }

  lemma {:induction false} ComposeRows(inner: Ctx, outer: Ctx)
    ensures CtxRows(Compose(inner, outer)) == CtxRows(inner) + CtxRows(outer)
    decreases inner
  {
    if !inner.Top? { ComposeRows(inner.up, outer); }
  }

  lemma {:induction false} PlugBalanced(c: Ctx, t: Tree)
    ensures Balanced(Plug(c, t)) <==> Balanced(t) && CtxBalanced(c, BlackHeight(t))
    decreases c
  {
    match c
    case Top =>
    case InLeft(x, col, r, up) => PlugBalanced(up, Node(t, x, col, r));
    case InRight(l, x, col, up) => PlugBalanced(up, Node(l, x, col, t));
  }

  /** The whole tree is free of red-red edges exactly when its two parts and the edge between them are. */
  lemma {:induction false} PlugNoRedRed(c: Ctx, t: Tree)
    ensures NoRedRed(Plug(c, t)) <==> NoRedRed(t) && CtxNoRedRed(c) && !(CtxRed(c) && RootRed(t))
    decreases c
  {
    match c
    case Top =>
    case InLeft(x, col, r, up) => PlugNoRedRed(up, Node(t, x, col, r));
    case InRight(l, x, col, up) => PlugNoRedRed(up, Node(l, x, col, t));
  }

  lemma {:induction false} PlugTop(c: Ctx, t: Tree)
    ensures !c.Top? ==> (RootRow(Plug(c, t)) in CtxRows(c) && (TopBlack(c) ==> !RootRed(Plug(c, t))))
    ensures !c.Top? && !RootRed(Plug(c, t)) && NoRedRed(Plug(c, t)) ==> TopBlack(c)
    ensures c.Top? ==> Plug(c, t) == t
    decreases c
  {
    match c
    case Top =>
    case InLeft(x, col, r, up) => PlugTop(up, Node(t, x, col, r));
    case InRight(l, x, col, up) => PlugTop(up, Node(l, x, col, t));
  }

  lemma {:induction false} RowsInOrder(t: Tree)
    ensures Rows(t) == set x | x in InOrder(t)
  {
    if t.Node? {
      RowsInOrder(t.left);
      RowsInOrder(t.right);
    }
  }

  /** Every row of a tree is the root of some subtree of it. */
  lemma {:induction false} Locate(t: Tree, x: Row) returns (c: Ctx, s: Tree)
    requires x in Rows(t)
    ensures s.Node? && s.row == x && Plug(c, s) == t
    decreases t
  {
    if t.row == x {
      c, s := Top, t;
    } else if x in Rows(t.left) {
      c, s := Locate(t.left, x);
      var here := InLeft(t.row, t.color, t.right, Top);
      PlugCompose(c, here, s);
      c := Compose(c, here);
    } else {
      c, s := Locate(t.right, x);
      var here := InRight(t.left, t.row, t.color, Top);
      PlugCompose(c, here, s);
      c := Compose(c, here);
    }
  }
}
