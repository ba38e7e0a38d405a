/** What each round of the two rebalancing loops does to colours and black heights. */
module RbBalance {
  import opened RbShape
  import opened RbHeap

  /** Above the hole everything is in order for a tree of black height `n`. */
  ghost predicate CtxOk(c: Ctx, n: nat) {
    CtxBalanced(c, n) && CtxNoRedRed(c) && TopBlack(c)
  }

  ghost predicate TreeOk(t: Tree, n: nat) {
    Balanced(t) && NoRedRed(t) && BlackHeight(t) == n
  }

  function Sibling(c: Ctx): Tree
    requires !c.Top?
  {
    if c.InLeft? then c.right else c.left
  }

  lemma CtxUp(c: Ctx, n: nat)
    requires CtxOk(c, n) && !c.Top?
    ensures CtxOk(c.up, n + Weight(c.color)) && TreeOk(Sibling(c), n)
    ensures c.color != White && (c.up.Top? ==> c.color == Black)
    ensures c.color == Red ==> !CtxRed(c.up) && !RootRed(Sibling(c))
  {}

  lemma Whole(c: Ctx, t: Tree)
    requires CtxOk(c, BlackHeight(t)) && Balanced(t) && NoRedRed(t)
    requires !RootRed(t) || (!c.Top? && !CtxRed(c))
    ensures RedBlack(Plug(c, t))
  {
    PlugBalanced(c, t);
    PlugNoRedRed(c, t);
    PlugTop(c, t);
  }

  lemma SameOrder(c: Ctx, t: Tree, t': Tree)
    requires InOrder(t) == InOrder(t')
    ensures InOrder(Plug(c, t)) == InOrder(Plug(c, t'))
  {
    PlugInOrder(c, t);
    PlugInOrder(c, t');
  }

  /** In-order sequences do not depend on colours. */
  lemma Recoloured(l: Tree, l': Tree, x: Row, col: Color, col': Color, r: Tree, r': Tree)
    requires InOrder(l) == InOrder(l') && InOrder(r) == InOrder(r')
    ensures InOrder(Node(l, x, col, r)) == InOrder(Node(l', x, col', r'))
  {}

  lemma PlugUp(c: Ctx, t: Tree)
    requires !c.Top?
    ensures Plug(c, t) == Plug(c.up, Up(c, t))
  {}

  lemma Children(t: Tree, n: nat)
    requires TreeOk(t, n) && t.Node?
    ensures n >= Weight(t.color) && TreeOk(t.left, n - Weight(t.color)) && TreeOk(t.right, n - Weight(t.color))
  {}

  // ---------- INSERT_COLOR ----------

  /** A red node has been put in the hole: everything is in order except that the row above it may be red too. */
  ghost predicate InsertState(c: Ctx, t: Tree) {
    t.Node? && t.color == Red && TreeOk(t, BlackHeight(t)) && CtxOk(c, BlackHeight(t))
  }

  function Grand(c: Ctx, t: Tree): Tree
    requires !c.Top? && !c.up.Top?
  {
    Up(c.up, Up(c, t))
  }

  /** A red parent is not the root, so there is a grandparent, and it is black. */
  lemma Grandparent(c: Ctx, t: Tree)
    requires InsertState(c, t) && CtxRed(c)
    ensures !c.up.Top? && c.up.color == Black
  {
    CtxUp(c, BlackHeight(t));
    if !c.up.Top? { CtxUp(c.up, BlackHeight(t)); }
  }

  function Flipped(t: Tree): Tree
    requires t.Node? && t.left.Node? && t.right.Node?
  {
    Node(t.left.(color := Black), t.row, Red, t.right.(color := Black))
  }

  lemma FlipState(c: Ctx, t: Tree)
    requires InsertState(c, t) && CtxRed(c) && !c.up.Top? && RootRed(Sibling(c.up))
    ensures InsertState(c.up.up, Flipped(Grand(c, t)))
    ensures InOrder(Flipped(Grand(c, t))) == InOrder(Grand(c, t))
  {
    var n := BlackHeight(t);
    Grandparent(c, t);
    CtxUp(c, n);
    CtxUp(c.up, n);
    var p, u := Up(c, t), Sibling(c.up);
    assert TreeOk(p.(color := Black), n + 1);
    assert TreeOk(u.(color := Black), n + 1);
  }

  /** Two red rows: `l` and `r` below the lower one, `s` beside it; all three have the same black height. */
  lemma BentOk(c: Ctx, l: Tree, r: Tree, s: Tree, x: Row, y: Row, n: nat, t: Tree)
    requires InsertState(c, t) && n == BlackHeight(t) && !c.Top? && c.color == Red
    requires l in {t.left, t.right, Sibling(c)} && r in {t.left, t.right, Sibling(c)}
      && s in {t.left, t.right, Sibling(c)}
    ensures TreeOk(Node(l, x, Red, r), n) && BlackHeight(Node(l, x, Red, r)) == n
    ensures CtxOk(InLeft(y, Red, s, c.up), n) && CtxOk(InRight(s, y, Red, c.up), n)
  {
    CtxUp(c, n);
    Children(t, n);
    assert !RootRed(t.left) && !RootRed(t.right) && !RootRed(Sibling(c));
    assert TreeOk(s, n) && CtxOk(c.up, n);
  }

  /** Rotating at the red parent exchanges it with the new red node. */
  lemma BendLeftState(c: Ctx, t: Tree)
    requires InsertState(c, t) && c.InRight? && c.color == Red
    ensures var c', t' := InLeft(t.row, Red, t.right, c.up), Node(c.left, c.row, Red, t.left);
            InsertState(c', t') && Up(c', t') == RotatedLeft(Up(c, t)) && InOrder(Plug(c', t')) == InOrder(Plug(c, t))
  {
    hide Plug, InOrder, Rows, CtxOk, TreeOk, BlackHeight;
    BentOk(c, c.left, t.left, t.right, c.row, t.row, BlackHeight(t), t);
    SameOrder(c.up, Up(c, t), RotatedLeft(Up(c, t)));
    PlugUp(c, t);
    PlugUp(InLeft(t.row, Red, t.right, c.up), Node(c.left, c.row, Red, t.left));
  }

  lemma BendRightState(c: Ctx, t: Tree)
    requires InsertState(c, t) && c.InLeft? && c.color == Red
    ensures var c', t' := InRight(t.left, t.row, Red, c.up), Node(t.right, c.row, Red, c.right);
            InsertState(c', t') && Up(c', t') == RotatedRight(Up(c, t)) && InOrder(Plug(c', t')) == InOrder(Plug(c, t))
  {
    hide Plug, InOrder, Rows, CtxOk, TreeOk, BlackHeight;
    BentOk(c, t.right, c.right, t.left, c.row, t.row, BlackHeight(t), t);
    SameOrder(c.up, Up(c, t), RotatedRight(Up(c, t)));
    PlugUp(c, t);
    PlugUp(InRight(t.left, t.row, Red, c.up), Node(t.right, c.row, Red, c.right));
  }

  /** Recolouring and rotating at the grandparent leaves the two red rows below a black one. */
  lemma LiftLeftState(c: Ctx, t: Tree)
    requires InsertState(c, t) && c.InLeft? && c.color == Red && c.up.InLeft? && !RootRed(c.up.right)
    ensures var g := c.up;
            var c' := InLeft(c.row, Black, Node(c.right, g.row, Red, g.right), g.up);
            && InsertState(c', t) && InOrder(Plug(c', t)) == InOrder(Plug(c, t))
            && Up(c', t) == RotatedRight(Node(Up(c, t).(color := Black), g.row, Red, g.right))
  {
    var n := BlackHeight(t);
    Grandparent(c, t);
    CtxUp(c, n);
    CtxUp(c.up, n);
    var x := Node(c.right, c.up.row, Red, c.up.right);
    assert TreeOk(x, n);
    SameOrder(c.up.up, Node(t, c.row, Black, x), Grand(c, t));
  }

  lemma LiftRightState(c: Ctx, t: Tree)
    requires InsertState(c, t) && c.InRight? && c.color == Red && c.up.InRight? && !RootRed(c.up.left)
    ensures var g := c.up;
            var c' := InRight(Node(g.left, g.row, Red, c.left), c.row, Black, g.up);
            && InsertState(c', t) && InOrder(Plug(c', t)) == InOrder(Plug(c, t))
            && Up(c', t) == RotatedLeft(Node(g.left, g.row, Red, Up(c, t).(color := Black)))
  {
    var n := BlackHeight(t);
    Grandparent(c, t);
    CtxUp(c, n);
    CtxUp(c.up, n);
    var x := Node(c.up.left, c.up.row, Red, c.left);
    assert TreeOk(x, n);
    SameOrder(c.up.up, Node(x, c.row, Black, t), Grand(c, t));
  }

  lemma Blacken(t: Tree)
    requires t.Node? && Balanced(t) && NoRedRed(t)
    ensures RedBlack(t.(color := Black)) && InOrder(t.(color := Black)) == InOrder(t)
      && Rows(t.(color := Black)) == Rows(t)
  {}

  lemma SameRowSet(t: Tree, t': Tree)
    requires InOrder(t) == InOrder(t')
    ensures Rows(t) == Rows(t')
  {
    RowsInOrder(t);
    RowsInOrder(t');
  }

  lemma SameRows(c: Ctx, t: Tree, c': Ctx, t': Tree)
    requires InOrder(Plug(c, t)) == InOrder(Plug(c', t'))
    ensures CtxRows(c) + Rows(t) == CtxRows(c') + Rows(t')
  {
    SameRowSet(Plug(c, t), Plug(c', t'));
    PlugRows(c, t);
    PlugRows(c', t');
  }

  // ---------- REMOVE_COLOR ----------

  /** The tree in the hole is one black row short, and its root may be red next to red rows;
      otherwise everything is in order. */
  ghost predicate RemoveState(c: Ctx, t: Tree) {
    && Balanced(t) && (t.Node? ==> t.color != White && NoRedRed(t.left) && NoRedRed(t.right))
    && CtxOk(c, BlackHeight(t) + 1)
  }

  /** The sibling of a tree that is one black row short exists. */
  lemma SiblingExists(c: Ctx, t: Tree)
    requires RemoveState(c, t) && !c.Top?
    ensures Sibling(c).Node?
  {
    CtxUp(c, BlackHeight(t) + 1);
  }

  /** A red sibling is lifted above the parent, which becomes red: the new sibling is black. */
  lemma UncoverLeftState(c: Ctx, t: Tree)
    requires RemoveState(c, t) && c.InLeft? && RootRed(c.right)
    ensures var w := c.right;
            var c' := InLeft(c.row, Red, w.left, InLeft(w.row, Black, w.right, c.up));
            && RemoveState(c', t) && InOrder(Plug(c', t)) == InOrder(Plug(c, t))
            && Grand(c', t) == RotatedLeft(Node(t, c.row, Red, w.(color := Black))) && !RootRed(w.left)
  {
    hide Plug, InOrder, Rows;
    var n, w := BlackHeight(t) + 1, c.right;
    CtxUp(c, n);
    var c1 := InLeft(w.row, Black, w.right, c.up);
    var c2 := InLeft(c.row, Red, w.left, c1);
    assert CtxOk(c1, n) && TreeOk(w.left, n);
    Recoloured(w.left, w.left, w.row, w.color, Black, w.right, w.right);
    Recoloured(t, t, c.row, c.color, Red, w, w.(color := Black));
    SameOrder(c.up, Up(c, t), RotatedLeft(Node(t, c.row, Red, w.(color := Black))));
    PlugUp(c, t);
    PlugUp(c2, t);
    PlugUp(c1, Up(c2, t));
  }

  lemma UncoverRightState(c: Ctx, t: Tree)
    requires RemoveState(c, t) && c.InRight? && RootRed(c.left)
    ensures var w := c.left;
            var c' := InRight(w.right, c.row, Red, InRight(w.left, w.row, Black, c.up));
            && RemoveState(c', t) && InOrder(Plug(c', t)) == InOrder(Plug(c, t))
            && Grand(c', t) == RotatedRight(Node(w.(color := Black), c.row, Red, t)) && !RootRed(w.right)
  {
    hide Plug, InOrder, Rows;
    var n, w := BlackHeight(t) + 1, c.left;
    CtxUp(c, n);
    var c1 := InRight(w.left, w.row, Black, c.up);
    var c2 := InRight(w.right, c.row, Red, c1);
    assert CtxOk(c1, n) && TreeOk(w.right, n);
    Recoloured(w.left, w.left, w.row, w.color, Black, w.right, w.right);
    Recoloured(w, w.(color := Black), c.row, c.color, Red, t, t);
    SameOrder(c.up, Up(c, t), RotatedRight(Node(w.(color := Black), c.row, Red, t)));
    PlugUp(c, t);
    PlugUp(c2, t);
    PlugUp(c1, Up(c2, t));
  }

  /** The sibling with its root painted. */
  function Painted(c: Ctx, col: Color): Ctx
    requires !c.Top? && Sibling(c).Node?
  {
    if c.InLeft? then c.(right := c.right.(color := col)) else c.(left := c.left.(color := col))
  }

  /** A black sibling with black children becomes red, and the shortage moves up. */
  lemma PassUpState(c: Ctx, t: Tree)
    requires RemoveState(c, t) && !c.Top? && !RootRed(t)
    requires var w := Sibling(c); w.Node? && w.color == Black && !RootRed(w.left) && !RootRed(w.right)
    ensures var c' := Painted(c, Red);
            && RemoveState(c'.up, Up(c', t)) && Depth(c'.up) < Depth(c)
            && InOrder(Plug(c'.up, Up(c', t))) == InOrder(Plug(c, t))
  {
    var n := BlackHeight(t) + 1;
    CtxUp(c, n);
    var c' := Painted(c, Red);
    var w := Sibling(c);
    assert TreeOk(w.(color := Red), n - 1);
    SameOrder(c.up, Up(c, t), Up(c', t));
  }

  /** A sibling whose inner child alone is red is rotated so that the outer one is. */
  lemma InnerLeftState(c: Ctx, t: Tree)
    requires RemoveState(c, t) && c.InLeft? && c.right.Node? && c.right.color == Black
    requires RootRed(c.right.left) && !RootRed(c.right.right)
    ensures var w := c.right;
            var w' := RotatedRight(Node(w.left.(color := Black), w.row, Red, w.right));
            RemoveState(c.(right := w'), t) && RootRed(w'.right) && w'.color == Black && InOrder(w') == InOrder(w)
  {
    hide InOrder, Rows;
    var n := BlackHeight(t) + 1;
    CtxUp(c, n);
    var w := c.right;
    var w' := RotatedRight(Node(w.left.(color := Black), w.row, Red, w.right));
    Recoloured(w.left.left, w.left.left, w.left.row, w.left.color, Black, w.left.right, w.left.right);
    Recoloured(w.left, w.left.(color := Black), w.row, w.color, Red, w.right, w.right);
    Children(w, n);
    Children(w.left, n - 1);
    assert TreeOk(w'.right, n - 1);
    assert TreeOk(w', n);
  }

  lemma InnerRightState(c: Ctx, t: Tree)
    requires RemoveState(c, t) && c.InRight? && c.left.Node? && c.left.color == Black
    requires RootRed(c.left.right) && !RootRed(c.left.left)
    ensures var w := c.left;
            var w' := RotatedLeft(Node(w.left, w.row, Red, w.right.(color := Black)));
            RemoveState(c.(left := w'), t) && RootRed(w'.left) && w'.color == Black && InOrder(w') == InOrder(w)
  {
    hide InOrder, Rows;
    var n := BlackHeight(t) + 1;
    CtxUp(c, n);
    var w := c.left;
    var w' := RotatedLeft(Node(w.left, w.row, Red, w.right.(color := Black)));
    Recoloured(w.right.left, w.right.left, w.right.row, w.right.color, Black, w.right.right, w.right.right);
    Recoloured(w.left, w.left, w.row, w.color, Red, w.right, w.right.(color := Black));
    Children(w, n);
    Children(w.right, n - 1);
    assert TreeOk(w'.left, n - 1);
    assert TreeOk(w', n);
  }

  function FilledLeft(c: Ctx, t: Tree): Tree
    requires c.InLeft? && c.right.Node? && c.right.right.Node?
  {
    var w := c.right;
    RotatedLeft(Node(t, c.row, Black, Node(w.left, w.row, c.color, w.right.(color := Black))))
  }

  function FilledRight(c: Ctx, t: Tree): Tree
    requires c.InRight? && c.left.Node? && c.left.left.Node?
  {
    var w := c.left;
    RotatedRight(Node(Node(w.left.(color := Black), w.row, c.color, w.right), c.row, Black, t))
  }

  lemma FilledLeftOk(c: Ctx, t: Tree, n: nat)
    requires c.InLeft? && c.color != White && TreeOk(t, n) && !RootRed(t)
    requires TreeOk(c.right, n + 1) && c.right.Node? && c.right.color == Black && RootRed(c.right.right)
    ensures TreeOk(FilledLeft(c, t), n + 1 + Weight(c.color)) && InOrder(FilledLeft(c, t)) == InOrder(Up(c, t))
  {
    var w, r := c.right, FilledLeft(c, t);
    Children(w, n + 1);
    Children(w.right, n);
    assert InOrder(w) == InOrder(Node(w.left, w.row, c.color, w.right.(color := Black)));
    assert TreeOk(r.right, n + 1);
    assert TreeOk(r.left, n + 1);
  }

  lemma FilledRightOk(c: Ctx, t: Tree, n: nat)
    requires c.InRight? && c.color != White && TreeOk(t, n) && !RootRed(t)
    requires TreeOk(c.left, n + 1) && c.left.Node? && c.left.color == Black && RootRed(c.left.left)
    ensures TreeOk(FilledRight(c, t), n + 1 + Weight(c.color)) && InOrder(FilledRight(c, t)) == InOrder(Up(c, t))
  {
    var w, r := c.left, FilledRight(c, t);
    Children(w, n + 1);
    Children(w.left, n);
    assert InOrder(w) == InOrder(Node(w.left.(color := Black), w.row, c.color, w.right));
    assert TreeOk(r.left, n + 1);
    assert TreeOk(r.right, n + 1);
  }

  /** Rotating the sibling over the parent fills the shortage for good. */
  lemma FillLeftState(c: Ctx, t: Tree)
    requires RemoveState(c, t) && c.InLeft? && !RootRed(t)
    requires c.right.Node? && c.right.color == Black && RootRed(c.right.right)
    ensures var r := FilledLeft(c, t); RedBlack(Plug(c.up, r)) && InOrder(Plug(c.up, r)) == InOrder(Plug(c, t))
  {
    CtxUp(c, BlackHeight(t) + 1);
    FilledLeftOk(c, t, BlackHeight(t));
    Whole(c.up, FilledLeft(c, t));
    SameOrder(c.up, Up(c, t), FilledLeft(c, t));
  }

  lemma FillRightState(c: Ctx, t: Tree)
    requires RemoveState(c, t) && c.InRight? && !RootRed(t)
    requires c.left.Node? && c.left.color == Black && RootRed(c.left.left)
    ensures var r := FilledRight(c, t); RedBlack(Plug(c.up, r)) && InOrder(Plug(c.up, r)) == InOrder(Plug(c, t))
  {
    CtxUp(c, BlackHeight(t) + 1);
    FilledRightOk(c, t, BlackHeight(t));
    Whole(c.up, FilledRight(c, t));
    SameOrder(c.up, Up(c, t), FilledRight(c, t));
  }

  function Blackened(t: Tree): Tree {
    if t.Node? then t.(color := Black) else t
  }

  /** Painting the node in the hole black is all that is left to do. */
  ghost predicate Finished(c: Ctx, t: Tree) {
    RedBlack(Plug(c, Blackened(t))) && InOrder(Plug(c, Blackened(t))) == InOrder(Plug(c, t))
  }

  /** The loop ends: painting the node in the hole black fills the shortage, if there is one left. */
  lemma EndState(c: Ctx, t: Tree)
    requires RemoveState(c, t) && (RootRed(t) || c.Top?)
    ensures Finished(c, t)
  {
    var t' := Blackened(t);
    assert RootRed(t) ==> BlackHeight(t') == BlackHeight(t) + 1;
    Whole(c, t');
    SameOrder(c, t, t');
  }

  /** How much work REMOVE_COLOR can still have. */
  function Shortage(c: Ctx, t: Tree): nat {
    2 * Depth(c) + if RootRed(t) then 0 else 1
  }

  /** A round that had to lift a red sibling first ends at a red row, so the loop stops there. */
  lemma SettledShortage(c0: Ctx, c: Ctx, t: Tree, c': Ctx, t': Tree)
    requires !c0.Top? && !c.Top? && c' == c.up && t'.Node? && t'.color == c.color && !RootRed(t)
    requires c == c0 || (c.color == Red && Depth(c) == Depth(c0) + 1)
    ensures Shortage(c', t') < Shortage(c0, t)
  {}

  // ---------- REMOVE ----------

  /** The in-order sequence of the whole tree without the root of `t`. */
  function Others(c: Ctx, t: Tree): seq<Row>
    requires t.Node?
  {
    (Before(c) + InOrder(t.left)) + (InOrder(t.right) + After(c))
  }

  /** A path that only ever turned left. */
  predicate Spine(c: Ctx) {
    c.Top? || (c.InLeft? && Spine(c.up))
  }

  lemma {:induction false} SpineBefore(c: Ctx)
    requires Spine(c)
    ensures Before(c) == []
  {
    if !c.Top? { SpineBefore(c.up); }
  }

  /** Colours and heights do not depend on which row is where. */
  lemma {:induction false} RenamedOk(inner: Ctx, l: Tree, x: Row, y: Row, col: Color, c: Ctx, n: nat)
    requires CtxOk(Compose(inner, InRight(l, x, col, c)), n)
    ensures CtxOk(Compose(inner, InRight(l, y, col, c)), n)
    ensures CtxRed(Compose(inner, InRight(l, y, col, c))) == CtxRed(Compose(inner, InRight(l, x, col, c)))
    decreases inner
  {
    if !inner.Top? {
      var whole := Compose(inner, InRight(l, x, col, c));
      CtxUp(whole, n);
      RenamedOk(inner.up, l, x, y, col, c, n + Weight(inner.color));
    }
  }

  /** A row with at most one child leaves: either the tree is still in order, or its child is one black row short. */
  lemma SplicedState(c: Ctx, t: Tree, s: Tree)
    requires CtxOk(c, BlackHeight(t)) && Balanced(t) && NoRedRed(t) && t.Node? && !(CtxRed(c) && RootRed(t))
    requires (t.left.Leaf? && s == t.right) || (t.right.Leaf? && s == t.left)
    requires c.Top? ==> !RootRed(t)
    ensures t.color == Black ==> RemoveState(c, s)
    ensures t.color != Black ==> CtxOk(c, BlackHeight(s)) && s.Leaf? && RedBlack(Plug(c, s))
  {
    assert BlackHeight(t) == BlackHeight(s) + Weight(t.color);
    if t.color != Black {
      Whole(c, s);
    }
  }

  lemma SplicedOrder(c: Ctx, t: Tree, s: Tree)
    requires t.Node? && ((t.left.Leaf? && s == t.right) || (t.right.Leaf? && s == t.left))
    ensures InOrder(Plug(c, s)) == Others(c, t)
  {
    hide Plug, InOrder;
    PlugInOrder(c, s);
    LeafOrder();
    var a, b := InOrder(t.left), InOrder(t.right);
    assert InOrder(s) == a + b;
    assert Before(c) + (a + b) + After(c) == (Before(c) + a) + (b + After(c));
  }

  lemma LeafOrder()
    ensures InOrder(Leaf) == []
  {}

  lemma Parts(c: Ctx, t: Tree)
    requires RedBlack(Plug(c, t))
    ensures Balanced(t) && NoRedRed(t) && CtxOk(c, BlackHeight(t)) && !(CtxRed(c) && RootRed(t))
    ensures c.Top? ==> !RootRed(t)
  {
    PlugBalanced(c, t);
    PlugNoRedRed(c, t);
    PlugTop(c, t);
  }

  /** The successor `e` of a row `x` with two children moves into its place: the in-order sequence loses just `x`. */
  lemma MovedOrder(c: Ctx, t: Tree, inner: Ctx, e: Row, ecol: Color, r: Tree)
    requires t.Node? && Spine(inner) && t.right == Plug(inner, Node(Leaf, e, ecol, r))
    ensures InOrder(Plug(Compose(inner, InRight(t.left, e, t.color, c)), r)) ==
            Others(c, t)
  {
    SpineOrder(inner, e, ecol, r);
    PlugCompose(inner, InRight(t.left, e, t.color, c), r);
    ShiftedOrder(c, t, e, Plug(inner, r));
  }

  lemma ShiftedOrder(c: Ctx, t: Tree, e: Row, below: Tree)
    requires t.Node? && InOrder(t.right) == [e] + InOrder(below)
    ensures InOrder(Plug(c, Node(t.left, e, t.color, below))) == Others(c, t)
  {
    PlugSplit(c, Node(t.left, e, t.color, below));
  }

  lemma SpineOrder(inner: Ctx, e: Row, ecol: Color, r: Tree)
    requires Spine(inner)
    ensures InOrder(Plug(inner, Node(Leaf, e, ecol, r))) == [e] + InOrder(Plug(inner, r))
  {
    hide Plug, InOrder;
    SpineBefore(inner);
    PlugInOrder(inner, Node(Leaf, e, ecol, r));
    PlugInOrder(inner, r);
    FirstRow(e, ecol, r);
    var a, b := InOrder(r), After(inner);
    assert [] + ([e] + a) + b == [e] + ([] + a + b);
  }

  lemma FirstRow(e: Row, ecol: Color, r: Tree)
    ensures InOrder(Node(Leaf, e, ecol, r)) == [e] + InOrder(r)
  {}

  /** What REBALANCE needs to know after the successor moved. */
  lemma MovedState(c: Ctx, t: Tree, inner: Ctx, s: Tree)
    requires t.Node? && RedBlack(Plug(c, t)) && Spine(inner) && t.right == Plug(inner, s) && s.Node? && s.left.Leaf?
    ensures var path := Compose(inner, InRight(t.left, s.row, t.color, c));
            && (s.color == Black ==> RemoveState(path, s.right))
            && (s.color != Black ==> RedBlack(Plug(path, s.right)))
            && InOrder(Plug(path, s.right)) == Others(c, t)
  {
    var here := InRight(t.left, t.row, t.color, c);
    var was, path := Compose(inner, here), Compose(inner, InRight(t.left, s.row, t.color, c));
    PlugCompose(inner, here, s);
    Parts(was, s);
    RenamedOk(inner, t.left, t.row, s.row, t.color, c, BlackHeight(s));
    ComposeNotTop(inner, t.left, s.row, t.color, c);
    SplicedState(path, s, s.right);
    MovedOrder(c, t, inner, s.row, s.color, s.right);
  }

  lemma {:induction false} ComposeNotTop(inner: Ctx, l: Tree, x: Row, col: Color, c: Ctx)
    ensures !Compose(inner, InRight(l, x, col, c)).Top?
    ensures CtxParent(Compose(inner, InRight(l, x, col, c))) == if inner.Top? then x else inner.row
  {
  }

  /** The rows on the way to the successor are all rows of the tree. */
  lemma PathRows(c: Ctx, t: Tree, inner: Ctx, s: Tree, x: Row)
    requires t.Node? && t.right == Plug(inner, s)
    ensures CtxRows(Compose(inner, InRight(t.left, x, t.color, c))) + Rows(s) ==
            CtxRows(c) + Rows(t.left) + {x} + Rows(t.right)
  {
    PlugRows(inner, s);
    ComposeRows(inner, InRight(t.left, x, t.color, c));
  }

  /** The successor is on no path to itself. */
  lemma SuccessorApart(c: Ctx, t: Tree, inner: Ctx, s: Tree)
    requires t.Node? && Apart(c, t) && t.right == Plug(inner, s) && s.Node?
    ensures s.row !in CtxRows(Compose(inner, InRight(t.left, t.row, t.color, c))) && s.row !in Rows(s.right)
    ensures s.row in Rows(t.right)
  {
    PlugRows(inner, s);
    PlugDistinct(inner, s);
    ComposeRows(inner, InRight(t.left, t.row, t.color, c));
  }

  lemma MovedParent(c: Ctx, t: Tree, inner: Ctx, s: Tree)
    requires t.Node? && Apart(c, t) && t.right == Plug(inner, s)
    ensures CtxParent(Compose(inner, InRight(t.left, t.row, t.color, c))) == t.row <==> inner.Top?
  {
    PlugRows(inner, s);
  }
}
