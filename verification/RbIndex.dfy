/** One index of a table: the pointer fields of its rows, and what the operations do to them. */
module RbIndex {
  import opened RbShape
  import opened RbHeap
  import opened RbBalance
  import opened RowGroups
  import opened RbWellFormed
  import opened RbOrder

  class Index {
    var root: Row
    var node: Heap
    var link: Links
    ghost var tree: Tree
    ghost var groups: Groups

    ghost predicate Valid()
      reads this
    {
      Wf(node, root, link, tree, groups)
    }

    /** An index without rows. */
    constructor ()
      ensures Valid() && groups == []
    {
      root, node, link := NULL, map[], map[];
      tree, groups := Leaf, [];
    }

    /** Puts `p` where `elm` hangs: below `parent`, or at the root. */
    method Hang(parent: Row, elm: Row, p: Row, ghost c: Ctx)
      requires parent == CtxParent(c) && (c.Top? <==> parent == NULL)
      requires c.InLeft? ==> At(node, parent).left == elm
      requires c.InRight? ==> At(node, parent).left != elm
      modifies this`root, this`node
      ensures Hung(old(node), node, old(root), root, c, p)
      ensures SameOutside(old(node), node, {parent})
    {
      if parent != NULL {
        if Left(node, parent) == elm {
          node := SetLeft(node, parent, p);
        } else {
          node := SetRight(node, parent, p);
        }
      } else {
        root := p;
      }
    }

    method RotateLeft(elm: Row, ghost c: Ctx)
      requires Hangs(node, c, elm)
      requires var y := At(node, elm).right; Different(elm, y, At(node, y).left, CtxParent(c))
      modifies this`root, this`node
      ensures var y := old(At(node, elm).right);
              TurnedLeft(old(node), node, old(root), root, c, elm, y, old(At(node, y).left))
    {
      var tmp := Right(node, elm);
      node := SetRight(node, elm, Left(node, tmp));
      if Left(node, tmp) != NULL {
        node := SetParent(node, Left(node, tmp), elm);
      }
      node := SetParent(node, tmp, Parent(node, elm));
      Hang(Parent(node, elm), elm, tmp, c);
      node := SetLeft(node, tmp, elm);
      node := SetParent(node, elm, tmp);
    }

    method RotateRight(elm: Row, ghost c: Ctx)
      requires Hangs(node, c, elm)
      requires var y := At(node, elm).left; Different(elm, y, At(node, y).right, CtxParent(c))
      modifies this`root, this`node
      ensures var y := old(At(node, elm).left);
              TurnedRight(old(node), node, old(root), root, c, elm, y, old(At(node, y).right))
    {
      var tmp := Left(node, elm);
      node := SetLeft(node, elm, Right(node, tmp));
      if Right(node, tmp) != NULL {
        node := SetParent(node, Right(node, tmp), elm);
      }
      node := SetParent(node, tmp, Parent(node, elm));
      Hang(Parent(node, elm), elm, tmp, c);
      node := SetRight(node, tmp, elm);
      node := SetParent(node, elm, tmp);
    }

    method TurnLeft(elm: Row, ghost c: Ctx, ghost t: Tree)
      requires Zip(node, root, c, t) && t.Node? && t.right.Node? && t.row == elm
      modifies this`root, this`node
      ensures Zip(node, root, c, RotatedLeft(t))
      ensures SameOutside(old(node), node, CtxRows(c) + Rows(t))
    {
      Around(node, root, c, t);
      Below(node, root, c, t, t.right.left);
      RotateLeft(elm, c);
      RotatedLeftRep(old(node), node, old(root), root, c, t);
    }

    method TurnRight(elm: Row, ghost c: Ctx, ghost t: Tree)
      requires Zip(node, root, c, t) && t.Node? && t.left.Node? && t.row == elm
      modifies this`root, this`node
      ensures Zip(node, root, c, RotatedRight(t))
      ensures SameOutside(old(node), node, CtxRows(c) + Rows(t))
    {
      Around(node, root, c, t);
      Below(node, root, c, t, t.left.right);
      RotateRight(elm, c);
      RotatedRightRep(old(node), node, old(root), root, c, t);
    }
  
    method Paint(elm: Row, col: Color, ghost c: Ctx, ghost t: Tree)
      requires Zip(node, root, c, t) && t.Node? && t.row == elm
      modifies this`node
      ensures Zip(node, root, c, t.(color := col))
      ensures SameOutside(old(node), node, {elm})
    {
      node := SetHue(node, elm, col);
      PaintedRep(old(node), node, root, c, t, col);
    }

    /** Both children of `g` become black and `g` red. */
    method Flip(l: Row, g: Row, r: Row, ghost c: Ctx, ghost t: Tree)
      requires Zip(node, root, c, t) && t.Node? && t.row == g
      requires t.left.Node? && t.left.row == l && t.right.Node? && t.right.row == r
      modifies this`node
      ensures Zip(node, root, c, Flipped(t))
      ensures SameOutside(old(node), node, {l, g, r})
    {
      UpRight(node, root, t.left, g, t.color, c, t.right);
      Paint(r, Black, InRight(t.left, g, t.color, c), t.right);
      ghost var r' := t.right.(color := Black);
      UpRight(node, root, t.left, g, t.color, c, r');
      UpLeft(node, root, g, t.color, r', c, t.left);
      Paint(l, Black, InLeft(g, t.color, r', c), t.left);
      ghost var l' := t.left.(color := Black);
      UpLeft(node, root, g, t.color, r', c, l');
      Paint(g, Red, c, Node(l', g, t.color, r'));
    }

    /** SET_BLACKRED(p, g) and a right rotation at `g`, where `p` is `g`'s left child. */
    method LiftLeft(p: Row, g: Row, ghost c: Ctx, ghost t: Tree)
      requires Zip(node, root, c, t) && t.Node? && t.row == g && t.left.Node? && t.left.row == p
      modifies this`root, this`node
      ensures Zip(node, root, c, RotatedRight(Node(t.left.(color := Black), g, Red, t.right)))
      ensures SameOutside(old(node), node, CtxRows(c) + Rows(t))
    {
      UpLeft(node, root, g, t.color, t.right, c, t.left);
      Paint(p, Black, InLeft(g, t.color, t.right, c), t.left);
      ghost var l' := t.left.(color := Black);
      UpLeft(node, root, g, t.color, t.right, c, l');
      Paint(g, Red, c, Node(l', g, t.color, t.right));
      TurnRight(g, c, Node(l', g, Red, t.right));
    }

    method LiftRight(p: Row, g: Row, ghost c: Ctx, ghost t: Tree)
      requires Zip(node, root, c, t) && t.Node? && t.row == g && t.right.Node? && t.right.row == p
      modifies this`root, this`node
      ensures Zip(node, root, c, RotatedLeft(Node(t.left, g, Red, t.right.(color := Black))))
      ensures SameOutside(old(node), node, CtxRows(c) + Rows(t))
    {
      UpRight(node, root, t.left, g, t.color, c, t.right);
      Paint(p, Black, InRight(t.left, g, t.color, c), t.right);
      ghost var r' := t.right.(color := Black);
      UpRight(node, root, t.left, g, t.color, c, r');
      Paint(g, Red, c, Node(t.left, g, t.color, r'));
      TurnLeft(g, c, Node(t.left, g, Red, r'));
    }
  
    /** A round of INSERT_COLOR whose red parent is a left child with a black sibling. */
    method FixLeft(elm0: Row, parent0: Row, gparent: Row, ghost c0: Ctx, ghost t0: Tree)
      returns (elm: Row, ghost c: Ctx, ghost t: Tree)
      requires Zip(node, root, c0, t0) && InsertState(c0, t0) && t0.row == elm0
      requires CtxRed(c0) && c0.row == parent0 && c0.up.InLeft? && c0.up.row == gparent && !RootRed(c0.up.right)
      modifies this`root, this`node
      ensures Zip(node, root, c, t) && InsertState(c, t) && t.row == elm && Depth(c) < Depth(c0)
      ensures InOrder(Plug(c, t)) == InOrder(Plug(c0, t0))
      ensures SameOutside(old(node), node, CtxRows(c0) + Rows(t0))
    {
      var parent := parent0;
      elm, c, t := elm0, c0, t0;
      WhichSide(node, root, c, t);
      if Right(node, parent) == elm {
        BendLeftState(c, t);
        UpOne(node, root, c, t);
        TurnLeft(parent, c.up, Up(c, t));
        c, t := InLeft(t.row, Red, t.right, c.up), Node(c.left, c.row, Red, t.left);
        UpOne(node, root, c, t);
        elm, parent := parent, elm;
      }
      LiftLeftState(c, t);
      UpOne(node, root, c, t);
      UpOne(node, root, c.up, Up(c, t));
      LiftLeft(parent, gparent, c.up.up, Grand(c, t));
      c := InLeft(c.row, Black, Node(c.right, gparent, Red, c.up.right), c.up.up);
      UpOne(node, root, c, t);
    }
  
    method FixRight(elm0: Row, parent0: Row, gparent: Row, ghost c0: Ctx, ghost t0: Tree)
      returns (elm: Row, ghost c: Ctx, ghost t: Tree)
      requires Zip(node, root, c0, t0) && InsertState(c0, t0) && t0.row == elm0
      requires CtxRed(c0) && c0.row == parent0 && c0.up.InRight? && c0.up.row == gparent && !RootRed(c0.up.left)
      modifies this`root, this`node
      ensures Zip(node, root, c, t) && InsertState(c, t) && t.row == elm && Depth(c) < Depth(c0)
      ensures InOrder(Plug(c, t)) == InOrder(Plug(c0, t0))
      ensures SameOutside(old(node), node, CtxRows(c0) + Rows(t0))
    {
      var parent := parent0;
      elm, c, t := elm0, c0, t0;
      WhichSide(node, root, c, t);
      if Left(node, parent) == elm {
        BendRightState(c, t);
        UpOne(node, root, c, t);
        TurnRight(parent, c.up, Up(c, t));
        c, t := InRight(t.left, t.row, Red, c.up), Node(t.right, c.row, Red, c.right);
        UpOne(node, root, c, t);
        elm, parent := parent, elm;
      }
      LiftRightState(c, t);
      UpOne(node, root, c, t);
      UpOne(node, root, c.up, Up(c, t));
      LiftRight(parent, gparent, c.up.up, Grand(c, t));
      c := InRight(Node(c.up.left, gparent, Red, c.left), c.row, Black, c.up.up);
      UpOne(node, root, c, t);
    }

    /** One round of INSERT_COLOR. */
    method FixInsert(elm0: Row, parent: Row, ghost c0: Ctx, ghost t0: Tree)
      returns (elm: Row, ghost c: Ctx, ghost t: Tree)
      requires Zip(node, root, c0, t0) && InsertState(c0, t0) && t0.row == elm0
      requires CtxRed(c0) && c0.row == parent
      modifies this`root, this`node
      ensures Zip(node, root, c, t) && InsertState(c, t) && t.row == elm && Depth(c) < Depth(c0)
      ensures InOrder(Plug(c, t)) == InOrder(Plug(c0, t0))
      ensures SameOutside(old(node), node, CtxRows(c0) + Rows(t0))
    {
      hide Zip;
      Grandparent(c0, t0);
      UpOne(node, root, c0, t0);
      UpOne(node, root, c0.up, Up(c0, t0));
      WhichSide(node, root, c0, t0);
      WhichSide(node, root, c0.up, Up(c0, t0));
      ghost var g := c0.up;
      Around(node, root, g.up, Grand(c0, t0));
      var gparent := Parent(node, parent);
      if parent == Left(node, gparent) {
        var tmp := Right(node, gparent);
        if tmp != NULL && Hue(node, tmp) == Red {
          FlipState(c0, t0);
          Flip(parent, gparent, tmp, g.up, Grand(c0, t0));
          SameOrder(g.up, Grand(c0, t0), Flipped(Grand(c0, t0)));
          elm, c, t := gparent, g.up, Flipped(Grand(c0, t0));
        } else {
          elm, c, t := FixLeft(elm0, parent, gparent, c0, t0);
        }
      } else {
        var tmp := Left(node, gparent);
        if tmp != NULL && Hue(node, tmp) == Red {
          FlipState(c0, t0);
          Flip(tmp, gparent, parent, g.up, Grand(c0, t0));
          SameOrder(g.up, Grand(c0, t0), Flipped(Grand(c0, t0)));
          elm, c, t := gparent, g.up, Flipped(Grand(c0, t0));
        } else {
          elm, c, t := FixRight(elm0, parent, gparent, c0, t0);
        }
      }
    }

    /** INSERT_COLOR: restores the red-black rules above a freshly linked red node. */
    method InsertColor(elm0: Row, ghost c0: Ctx, ghost t0: Tree) returns (ghost t': Tree)
      requires Zip(node, root, c0, t0) && InsertState(c0, t0) && t0.row == elm0
      modifies this`root, this`node
      ensures Zip(node, root, Top, t') && RedBlack(t') && InOrder(t') == InOrder(Plug(c0, t0))
      ensures SameOutside(old(node), node, CtxRows(c0) + Rows(t0))
    {
      var elm := elm0;
      ghost var c, t := c0, t0;
      Around(node, root, c, t);
      if !c.Top? { WhichSide(node, root, c, t); }
      var parent := Parent(node, elm);
      while parent != NULL && Hue(node, parent) == Red
        invariant Zip(node, root, c, t) && InsertState(c, t) && t.row == elm && parent == CtxParent(c)
        invariant c.Top? <==> parent == NULL
        invariant !c.Top? ==> At(node, parent).color == c.color
        invariant InOrder(Plug(c, t)) == InOrder(Plug(c0, t0))
        invariant SameOutside(old(node), node, CtxRows(c0) + Rows(t0))
        decreases Depth(c)
      {
        SameRows(c, t, c0, t0);
        elm, c, t := FixInsert(elm, parent, c, t);
        Around(node, root, c, t);
        if !c.Top? { WhichSide(node, root, c, t); }
        parent := Parent(node, elm);
      }
      ghost var whole := Plug(c, t);
      ZipTree(node, root, c, t);
      PlugBalanced(c, t);
      PlugNoRedRed(c, t);
      PlugRows(c, t);
      SameRows(c, t, c0, t0);
      Blacken(whole);
      Paint(root, Black, Top, whole);
      t' := whole.(color := Black);
    }
  
    /** The right sibling is red: it is lifted above the parent. */
    method UncoverLeft(parent: Row, tmp: Row, ghost c: Ctx, ghost t: Tree) returns (ghost c': Ctx)
      requires Zip(node, root, c, t) && RemoveState(c, t) && c.InLeft? && RootRed(c.right)
      requires c.row == parent && c.right.row == tmp
      modifies this`root, this`node
      ensures Zip(node, root, c', t) && RemoveState(c', t) && c'.InLeft? && c'.row == parent && !RootRed(c'.right)
      ensures c'.color == Red && !c'.up.Top? && c'.up.color == Black
      ensures InOrder(Plug(c', t)) == InOrder(Plug(c, t)) && Depth(c') == Depth(c) + 1
      ensures SameOutside(old(node), node, CtxRows(c) + Rows(t))
    {
      UncoverLeftState(c, t);
      UpOne(node, root, c, t);
      LiftRight(tmp, parent, c.up, Up(c, t));
      ghost var w := c.right;
      c' := InLeft(parent, Red, w.left, InLeft(w.row, Black, w.right, c.up));
      UpOne(node, root, c'.up, Up(c', t));
      UpOne(node, root, c', t);
    }

    /** The sibling's outer child is red: the last rotation. */
    method FillLeft(parent: Row, tmp: Row, ghost c: Ctx, ghost t: Tree)
      requires Zip(node, root, c, t) && c.InLeft? && c.right.Node? && c.right.right.Node?
      requires c.row == parent && c.right.row == tmp
      modifies this`root, this`node
      ensures Zip(node, root, c.up, FilledLeft(c, t))
      ensures SameOutside(old(node), node, CtxRows(c) + Rows(t))
    {
      ghost var w, up := c.right, c.up;
      ghost var w' := w.(color := c.color);
      ghost var w'' := w'.(right := w.right.(color := Black));
      ghost var s := InRight(t, parent, c.color, up);
      WhichSide(node, root, c, t);
      UpOne(node, root, c, t);
      UpOne(node, root, s, w);
      Paint(tmp, Hue(node, parent), s, w);
      UpOne(node, root, s, w');
      Paint(parent, Black, up, Up(s, w'));
      ghost var s' := InRight(t, parent, Black, up);
      UpOne(node, root, s', w');
      Around(node, root, s', w');
      ghost var q := InRight(w.left, tmp, c.color, s');
      UpOne(node, root, q, w.right);
      if Right(node, tmp) != NULL {
        Paint(Right(node, tmp), Black, q, w.right);
      }
      UpOne(node, root, q, w.right.(color := Black));
      UpOne(node, root, s', w'');
      TurnLeft(parent, up, Up(s', w''));
    }

    /** The left sibling is red: it is lifted above the parent. */
    method UncoverRight(parent: Row, tmp: Row, ghost c: Ctx, ghost t: Tree) returns (ghost c': Ctx)
      requires Zip(node, root, c, t) && RemoveState(c, t) && c.InRight? && RootRed(c.left)
      requires c.row == parent && c.left.row == tmp
      modifies this`root, this`node
      ensures Zip(node, root, c', t) && RemoveState(c', t) && c'.InRight? && c'.row == parent && !RootRed(c'.left)
      ensures c'.color == Red && !c'.up.Top? && c'.up.color == Black
      ensures InOrder(Plug(c', t)) == InOrder(Plug(c, t)) && Depth(c') == Depth(c) + 1
      ensures SameOutside(old(node), node, CtxRows(c) + Rows(t))
    {
      UncoverRightState(c, t);
      UpOne(node, root, c, t);
      LiftLeft(tmp, parent, c.up, Up(c, t));
      ghost var w := c.left;
      c' := InRight(w.right, parent, Red, InRight(w.left, w.row, Black, c.up));
      UpOne(node, root, c'.up, Up(c', t));
      UpOne(node, root, c', t);
    }

    /** The sibling's outer child is red: the last rotation. */
    method FillRight(parent: Row, tmp: Row, ghost c: Ctx, ghost t: Tree)
      requires Zip(node, root, c, t) && c.InRight? && c.left.Node? && c.left.left.Node?
      requires c.row == parent && c.left.row == tmp
      modifies this`root, this`node
      ensures Zip(node, root, c.up, FilledRight(c, t))
      ensures SameOutside(old(node), node, CtxRows(c) + Rows(t))
    {
      ghost var w, up := c.left, c.up;
      ghost var w' := w.(color := c.color);
      ghost var w'' := w'.(left := w.left.(color := Black));
      ghost var s := InLeft(parent, c.color, t, up);
      WhichSide(node, root, c, t);
      UpOne(node, root, c, t);
      UpOne(node, root, s, w);
      Paint(tmp, Hue(node, parent), s, w);
      UpOne(node, root, s, w');
      Paint(parent, Black, up, Up(s, w'));
      ghost var s' := InLeft(parent, Black, t, up);
      UpOne(node, root, s', w');
      Around(node, root, s', w');
      ghost var q := InLeft(tmp, c.color, w.right, s');
      UpOne(node, root, q, w.left);
      if Left(node, tmp) != NULL {
        Paint(Left(node, tmp), Black, q, w.left);
      }
      UpOne(node, root, q, w.left.(color := Black));
      UpOne(node, root, s', w'');
      TurnRight(parent, up, Up(s', w''));
    }
  
    /** One round of REMOVE_COLOR for a left child; when `done`, the whole tree is in order. */
    method RefillLeft(parent: Row, ghost c0: Ctx, ghost t: Tree) returns (done: bool, ghost c': Ctx, ghost t': Tree)
      requires Zip(node, root, c0, t) && RemoveState(c0, t) && !RootRed(t) && c0.InLeft? && c0.row == parent
      modifies this`root, this`node
      ensures Zip(node, root, c', t') && InOrder(Plug(c', t')) == InOrder(Plug(c0, t))
      ensures done ==> RedBlack(Plug(c', t'))
      ensures !done ==> RemoveState(c', t') && Shortage(c', t') < Shortage(c0, t) && t'.Node? && t'.row == parent
      ensures SameOutside(old(node), node, CtxRows(c0) + Rows(t))
    {
      hide Zip, Rows, CtxRows;
      ghost var c := c0;
      SiblingExists(c, t);
      WhichSide(node, root, c, t);
      UpOne(node, root, c, t);
      Around(node, root, c.up, Up(c, t));
      var tmp := Right(node, parent);
      if Hue(node, tmp) == Red {
        c := UncoverLeft(parent, tmp, c, t);
        SiblingExists(c, t);
        WhichSide(node, root, c, t);
        UpOne(node, root, c, t);
        tmp := Right(node, parent);
      }
      SameRows(c, t, c0, t);
      CtxUp(c, BlackHeight(t) + 1);
      done, c', t' := SettleLeft(parent, tmp, c, t);
      if !done { SettledShortage(c0, c, t, c', t'); }
    }

    method SettleLeft(parent: Row, tmp0: Row, ghost c0: Ctx, ghost t: Tree)
      returns (done: bool, ghost c': Ctx, ghost t': Tree)
      requires Zip(node, root, c0, t) && RemoveState(c0, t) && !RootRed(t) && c0.InLeft? && c0.row == parent
      requires c0.right.Node? && c0.right.row == tmp0 && c0.right.color == Black
      modifies this`root, this`node
      ensures Zip(node, root, c', t') && InOrder(Plug(c', t')) == InOrder(Plug(c0, t))
      ensures done ==> RedBlack(Plug(c', t'))
      ensures !done ==> RemoveState(c', t') && c' == c0.up && t'.Node? && t'.row == parent && t'.color == c0.color
      ensures SameOutside(old(node), node, CtxRows(c0) + Rows(t))
    {
      hide Zip;
      var tmp := tmp0;
      ghost var c := c0;
      ghost var s := InRight(t, parent, c.color, c.up);
      ghost var w := c.right;
      CtxUp(c, BlackHeight(t) + 1);
      Children(w, BlackHeight(t) + 1);
      UpOne(node, root, c, t);
      UpOne(node, root, s, w);
      Around(node, root, s, w);
      if (Left(node, tmp) == NULL || Hue(node, Left(node, tmp)) == Black) &&
         (Right(node, tmp) == NULL || Hue(node, Right(node, tmp)) == Black) {
        PassUpState(c, t);
        Paint(tmp, Red, s, w);
        UpOne(node, root, s, w.(color := Red));
        done, c', t' := false, c.up, Up(s, w.(color := Red));
      } else {
        if Right(node, tmp) == NULL || Hue(node, Right(node, tmp)) == Black {
          InnerLeftState(c, t);
          LiftLeft(Left(node, tmp), tmp, s, w);
          w := RotatedRight(Node(w.left.(color := Black), w.row, Red, w.right));
          UpOne(node, root, s, w);
          SameOrder(c.up, Up(c, t), Up(s, w));
          c := InLeft(parent, c.color, w, c.up);
          UpOne(node, root, c, t);
          WhichSide(node, root, c, t);
          tmp := Right(node, parent);
        }
        SameRows(c, t, c0, t);
        FillLeftState(c, t);
        FillLeft(parent, tmp, c, t);
        done, c', t' := true, c.up, FilledLeft(c, t);
      }
    }

    /** One round of REMOVE_COLOR for a right child; when `done`, the whole tree is in order. */
    method RefillRight(parent: Row, ghost c0: Ctx, ghost t: Tree) returns (done: bool, ghost c': Ctx, ghost t': Tree)
      requires Zip(node, root, c0, t) && RemoveState(c0, t) && !RootRed(t) && c0.InRight? && c0.row == parent
      modifies this`root, this`node
      ensures Zip(node, root, c', t') && InOrder(Plug(c', t')) == InOrder(Plug(c0, t))
      ensures done ==> RedBlack(Plug(c', t'))
      ensures !done ==> RemoveState(c', t') && Shortage(c', t') < Shortage(c0, t) && t'.Node? && t'.row == parent
      ensures SameOutside(old(node), node, CtxRows(c0) + Rows(t))
    {
      hide Zip, Rows, CtxRows;
      ghost var c := c0;
      SiblingExists(c, t);
      WhichSide(node, root, c, t);
      UpOne(node, root, c, t);
      Around(node, root, c.up, Up(c, t));
      var tmp := Left(node, parent);
      if Hue(node, tmp) == Red {
        c := UncoverRight(parent, tmp, c, t);
        SiblingExists(c, t);
        WhichSide(node, root, c, t);
        UpOne(node, root, c, t);
        tmp := Left(node, parent);
      }
      SameRows(c, t, c0, t);
      CtxUp(c, BlackHeight(t) + 1);
      done, c', t' := SettleRight(parent, tmp, c, t);
      if !done { SettledShortage(c0, c, t, c', t'); }
    }

    method SettleRight(parent: Row, tmp0: Row, ghost c0: Ctx, ghost t: Tree)
      returns (done: bool, ghost c': Ctx, ghost t': Tree)
      requires Zip(node, root, c0, t) && RemoveState(c0, t) && !RootRed(t) && c0.InRight? && c0.row == parent
      requires c0.left.Node? && c0.left.row == tmp0 && c0.left.color == Black
      modifies this`root, this`node
      ensures Zip(node, root, c', t') && InOrder(Plug(c', t')) == InOrder(Plug(c0, t))
      ensures done ==> RedBlack(Plug(c', t'))
      ensures !done ==> RemoveState(c', t') && c' == c0.up && t'.Node? && t'.row == parent && t'.color == c0.color
      ensures SameOutside(old(node), node, CtxRows(c0) + Rows(t))
    {
      hide Zip;
      var tmp := tmp0;
      ghost var c := c0;
      ghost var s := InLeft(parent, c.color, t, c.up);
      ghost var w := c.left;
      CtxUp(c, BlackHeight(t) + 1);
      Children(w, BlackHeight(t) + 1);
      UpOne(node, root, c, t);
      UpOne(node, root, s, w);
      Around(node, root, s, w);
      if (Left(node, tmp) == NULL || Hue(node, Left(node, tmp)) == Black) &&
         (Right(node, tmp) == NULL || Hue(node, Right(node, tmp)) == Black) {
        PassUpState(c, t);
        Paint(tmp, Red, s, w);
        UpOne(node, root, s, w.(color := Red));
        done, c', t' := false, c.up, Up(s, w.(color := Red));
      } else {
        if Left(node, tmp) == NULL || Hue(node, Left(node, tmp)) == Black {
          InnerRightState(c, t);
          LiftRight(Right(node, tmp), tmp, s, w);
          w := RotatedLeft(Node(w.left, w.row, Red, w.right.(color := Black)));
          UpOne(node, root, s, w);
          SameOrder(c.up, Up(c, t), Up(s, w));
          c := InRight(w, parent, c.color, c.up);
          UpOne(node, root, c, t);
          WhichSide(node, root, c, t);
          tmp := Left(node, parent);
        }
        SameRows(c, t, c0, t);
        FillRightState(c, t);
        FillRight(parent, tmp, c, t);
        done, c', t' := true, c.up, FilledRight(c, t);
      }
    }

    /** One round of REMOVE_COLOR; when `done`, the focus is on the whole tree. */
    method Refill(parent: Row, elm: Row, ghost c: Ctx, ghost t: Tree)
      returns (done: bool, elm': Row, ghost c': Ctx, ghost t': Tree)
      requires Zip(node, root, c, t) && RemoveState(c, t) && !RootRed(t) && !c.Top?
      requires parent == c.row && elm == RootRow(t)
      modifies this`root, this`node
      ensures Zip(node, root, c', t') && elm' == RootRow(t') && InOrder(Plug(c', t')) == InOrder(Plug(c, t))
      ensures done ==> Finished(c', t')
      ensures !done ==> RemoveState(c', t') && Shortage(c', t') < Shortage(c, t) && elm' != NULL
      ensures SameOutside(old(node), node, CtxRows(c) + Rows(t))
    {
      SiblingExists(c, t);
      WhichSide(node, root, c, t);
      if c.InRight? { UpOne(node, root, c, t); Around(node, root, c.up, Up(c, t)); }
      if Left(node, parent) == elm {
        done, c', t' := RefillLeft(parent, c, t);
      } else {
        done, c', t' := RefillRight(parent, c, t);
      }
      elm' := parent;
      if done {
        ZipTree(node, root, c', t');
        c', t' := Top, Plug(c', t');
        elm' := root;
      } else {
        HoleFacts(node, root, c', t');
      }
    }

    /** REMOVE_COLOR: the tree below `parent` that starts at `elm` lost a black row; the red-black rules are
        restored. */
    method RemoveColor(parent0: Row, elm0: Row, ghost c0: Ctx, ghost t0: Tree) returns (ghost t': Tree)
      requires Zip(node, root, c0, t0) && RemoveState(c0, t0) && parent0 == CtxParent(c0) && elm0 == RootRow(t0)
      modifies this`root, this`node
      ensures Zip(node, root, Top, t') && RedBlack(t') && InOrder(t') == InOrder(Plug(c0, t0))
      ensures SameOutside(old(node), node, CtxRows(c0) + Rows(t0))
    {
      var parent, elm, done := parent0, elm0, false;
      ghost var c, t := c0, t0;
      HoleFacts(node, root, c, t);
      while !done && (elm == NULL || Hue(node, elm) == Black) && elm != root
        invariant Zip(node, root, c, t) && elm == RootRow(t)
        invariant done ==> Finished(c, t)
        invariant !done ==> RemoveState(c, t) && parent == CtxParent(c)
        invariant elm == root <==> c.Top?
        invariant elm != NULL ==> t.Node? && At(node, elm).color == t.color
        invariant InOrder(Plug(c, t)) == InOrder(Plug(c0, t0))
        invariant SameOutside(old(node), node, CtxRows(c0) + Rows(t0))
        decreases !done, Shortage(c, t)
      {
        SameRows(c, t, c0, t0);
        done, elm, c, t := Refill(parent, elm, c, t);
        HoleFacts(node, root, c, t);
        if !done {
          parent := Parent(node, elm);
        }
      }
      if !done { EndState(c, t); }
      SameRows(c, t, c0, t0);
      t' := PaintLast(elm, c, t);
    }

    method PaintLast(elm: Row, ghost c: Ctx, ghost t: Tree) returns (ghost t': Tree)
      requires Zip(node, root, c, t) && Finished(c, t) && elm == RootRow(t)
      modifies this`node
      ensures Zip(node, root, Top, t') && RedBlack(t') && InOrder(t') == InOrder(Plug(c, t))
      ensures SameOutside(old(node), node, CtxRows(c) + Rows(t))
    {
      HoleFacts(node, root, c, t);
      if elm != NULL {
        Paint(elm, Black, c, t);
      }
      ZipTree(node, root, c, Blackened(t));
      t' := Plug(c, Blackened(t));
    }
  
    /** REPLACE: passes the place of `gone` to `elm`. */
    method Replace(gone: Row, elm: Row, ghost c: Ctx)
      requires Hangs(node, c, gone) && elm != NULL && elm != gone && elm != CtxParent(c)
      requires var l, r, p := At(node, gone).left, At(node, gone).right, CtxParent(c);
               && elm != l && elm != r && (l != NULL ==> l != r && l != gone && l != p)
               && (r != NULL ==> r != gone && r != p)
      modifies this`root, this`node
      ensures Passed(old(node), node, old(root), root, c, gone,
        old(At(node, gone).left), old(At(node, gone).right), elm)
    {
      var parent := Parent(node, gone);
      node := SetLeft(node, elm, Left(node, gone));
      if Left(node, gone) != NULL {
        node := SetParent(node, Left(node, gone), elm);
      }
      node := SetRight(node, elm, Right(node, gone));
      if Right(node, gone) != NULL {
        node := SetParent(node, Right(node, gone), elm);
      }
      node := SetHue(node, elm, Hue(node, gone));
      node := SetParent(node, elm, parent);
      Hang(parent, gone, elm, c);
    }

    method PassPlace(gone: Row, elm: Row, ghost c: Ctx, ghost t: Tree)
      requires Zip(node, root, c, t) && t.Node? && t.row == gone && elm != NULL && elm !in CtxRows(c) + Rows(t)
      modifies this`root, this`node
      ensures Zip(node, root, c, Node(t.left, elm, t.color, t.right))
      ensures SameOutside(old(node), node, CtxRows(c) + Rows(t) + {elm})
    {
      Around(node, root, c, t);
      Replace(gone, elm, c);
      ReplacedRep(old(node), node, old(root), root, c, t, elm);
    }

    /** The only child of `elm` takes its place. */
    method Splice(elm: Row, child: Row, parent: Row, ghost c: Ctx, ghost t: Tree, ghost s: Tree)
      requires Zip(node, root, c, t) && t.Node? && t.row == elm && (s == t.left || s == t.right)
      requires child == RootRow(s) && parent == CtxParent(c)
      modifies this`root, this`node
      ensures Zip(node, root, c, s)
      ensures SameOutside(old(node), node, CtxRows(c) + Rows(s))
    {
      Around(node, root, c, t);
      if child != NULL {
        node := SetParent(node, child, parent);
      }
      Hang(parent, elm, child, c);
      SplicedRep(old(node), node, old(root), root, c, t, s);
    }
  
    /** The end of REMOVE: rebalances if the row that left the tree was black. */
    method Rebalance(color: Color, parent: Row, child: Row, ghost c: Ctx, ghost s: Tree) returns (ghost t': Tree)
      requires Zip(node, root, c, s) && parent == CtxParent(c) && child == RootRow(s)
      requires color == Black ==> RemoveState(c, s)
      requires color != Black ==> RedBlack(Plug(c, s))
      modifies this`root, this`node
      ensures Zip(node, root, Top, t') && RedBlack(t') && InOrder(t') == InOrder(Plug(c, s))
      ensures SameOutside(old(node), node, CtxRows(c) + Rows(s))
    {
      t' := Plug(c, s);
      ZipTree(node, root, c, s);
      if color == Black {
        t' := RemoveColor(parent, child, c, s);
      }
    }

    /** REMOVE for a head with at most one child. */
    method RemoveOuter(elm: Row, child: Row, ghost c: Ctx, ghost t: Tree, ghost s: Tree) returns (ghost t': Tree)
      requires Zip(node, root, c, t) && t.Node? && t.row == elm && RedBlack(Plug(c, t)) && child == RootRow(s)
      requires (t.left.Leaf? && s == t.right) || (t.right.Leaf? && s == t.left)
      modifies this`root, this`node
      ensures Zip(node, root, Top, t') && RedBlack(t')
      ensures InOrder(t') == Others(c, t)
      ensures SameOutside(old(node), node, CtxRows(c) + Rows(t))
    {
      Around(node, root, c, t);
      Parts(c, t);
      SplicedState(c, t, s);
      SplicedOrder(c, t, s);
      var parent := Parent(node, elm);
      var color := Hue(node, elm);
      Splice(elm, child, parent, c, t, s);
      t' := Rebalance(color, parent, child, c, s);
    }

    /** The least row of the right subtree of `gone`, which has no left child. */
    method Successor(gone: Row, ghost c: Ctx, ghost t: Tree) returns (elm: Row, ghost inner: Ctx, ghost s: Tree)
      requires Zip(node, root, c, t) && t.Node? && t.row == gone && t.right.Node?
      ensures Spine(inner) && t.right == Plug(inner, s) && s.Node? && s.left.Leaf? && s.row == elm
      ensures Zip(node, root, Compose(inner, InRight(t.left, gone, t.color, c)), s)
    {
      ghost var here := InRight(t.left, gone, t.color, c);
      UpOne(node, root, here, t.right);
      Around(node, root, c, t);
      Around(node, root, here, t.right);
      elm, inner, s := Right(node, gone), Top, t.right;
      var left := Left(node, elm);
      while left != NULL
        invariant Spine(inner) && t.right == Plug(inner, s) && s.Node? && s.row == elm && elm != NULL
        invariant Zip(node, root, Compose(inner, here), s) && left == RootRow(s.left)
        invariant left != NULL ==> s.left.Node?
        invariant s.left.Leaf? || left != NULL
        decreases s
      {
        inner, s := InLeft(s.row, s.color, s.right, inner), s.left;
        UpOne(node, root, Compose(inner, here), s);
        Around(node, root, Compose(inner, here), s);
        elm := left;
        left := Left(node, elm);
      }
    }

    /** REMOVE for a head with two children: its successor is spliced out and takes its place. */
    method SwapOut(gone: Row, ghost c: Ctx, ghost t: Tree)
      returns (color: Color, parent: Row, child: Row, ghost path: Ctx, ghost r: Tree)
      requires Zip(node, root, c, t) && t.Node? && t.row == gone && RedBlack(Plug(c, t))
      requires t.left.Node? && t.right.Node?
      modifies this`root, this`node
      ensures Zip(node, root, path, r) && parent == CtxParent(path) && child == RootRow(r)
      ensures color == Black ==> RemoveState(path, r)
      ensures color != Black ==> RedBlack(Plug(path, r))
      ensures InOrder(Plug(path, r)) == Others(c, t) && CtxRows(path) + Rows(r) <= CtxRows(c) + Rows(t)
      ensures SameOutside(old(node), node, CtxRows(c) + Rows(t))
    {
      ghost var inner, s;
      var elm;
      elm, inner, s := Successor(gone, c, t);
      ghost var was := Compose(inner, InRight(t.left, gone, t.color, c));
      Around(node, root, was, s);
      PathRows(c, t, inner, s, gone);
      PathRows(c, t, inner, s, elm);
      SuccessorApart(c, t, inner, s);
      MovedParent(c, t, inner, s);
      child, parent, color := Right(node, elm), Parent(node, elm), Hue(node, elm);
      Splice(elm, child, parent, was, s, s.right);
      MoveUp(gone, elm, c, t, inner, s);
      if parent == gone {
        parent := elm;
      }
      MovedState(c, t, inner, s);
      path, r := Compose(inner, InRight(t.left, elm, t.color, c)), s.right;
    }

    method RemoveInner(gone: Row, ghost c: Ctx, ghost t: Tree) returns (ghost t': Tree)
      requires Zip(node, root, c, t) && t.Node? && t.row == gone && RedBlack(Plug(c, t))
      requires t.left.Node? && t.right.Node?
      modifies this`root, this`node
      ensures Zip(node, root, Top, t') && RedBlack(t') && InOrder(t') == Others(c, t)
      ensures SameOutside(old(node), node, CtxRows(c) + Rows(t))
    {
      var color, parent, child;
      ghost var path, r;
      color, parent, child, path, r := SwapOut(gone, c, t);
      t' := Rebalance(color, parent, child, path, r);
    }

    /** REPLACE of `gone` by its successor, which has just been spliced out. */
    method MoveUp(gone: Row, elm: Row, ghost c: Ctx, ghost t: Tree, ghost inner: Ctx, ghost s: Tree)
      requires t.Node? && t.row == gone && s.Node? && s.row == elm && elm != NULL
      requires Zip(node, root, Compose(inner, InRight(t.left, gone, t.color, c)), s.right)
      requires elm !in CtxRows(Compose(inner, InRight(t.left, gone, t.color, c))) + Rows(s.right)
      modifies this`root, this`node
      ensures Zip(node, root, Compose(inner, InRight(t.left, elm, t.color, c)), s.right)
      ensures SameOutside(old(node), node,
        CtxRows(Compose(inner, InRight(t.left, gone, t.color, c))) + Rows(s.right) + {elm})
    {
      ghost var here := InRight(t.left, gone, t.color, c);
      ghost var below := Plug(inner, s.right);
      ZipPlug(node, root, inner, here, s.right);
      ComposeRows(inner, here);
      PlugRows(inner, s.right);
      UpOne(node, root, here, below);
      PassPlace(gone, elm, c, Node(t.left, gone, t.color, below));
      UpOne(node, root, InRight(t.left, elm, t.color, c), below);
      ZipPlug(node, root, inner, InRight(t.left, elm, t.color, c), s.right);
    }
  
    /** A head that was the only row of its group leaves the tree. */
    method RemoveHead(elm: Row, ghost c: Ctx, ghost t: Tree) returns (ghost t': Tree)
      requires Zip(node, root, c, t) && t.Node? && t.row == elm && RedBlack(Plug(c, t))
      modifies this`root, this`node
      ensures Zip(node, root, Top, t') && RedBlack(t') && InOrder(t') == Others(c, t)
      ensures SameOutside(old(node), node, CtxRows(c) + Rows(t))
    {
      Around(node, root, c, t);
      if Left(node, elm) == NULL {
        t' := RemoveOuter(elm, Right(node, elm), c, t, t.right);
      } else if Right(node, elm) == NULL {
        t' := RemoveOuter(elm, Left(node, elm), c, t, t.left);
      } else {
        t' := RemoveInner(elm, c, t);
      }
    }

    /** Takes `elm` out of its list; its own fields stay. */
    method Detach(elm: Row, ghost g: seq<Row>, ghost k: int)
      requires 0 <= k < |g| && g[k] == elm && NoDup(g) && (forall j :: 0 <= j < |g| ==> g[j] != NULL)
      requires LinkAt(link, elm) == Link(PrevIn(g, k), NextIn(g, k))
      modifies this`link
      ensures Unlinked(old(link), link[elm := Link(NULL, NULL)], g, k) && LinkAt(link, elm) == old(LinkAt(link, elm))
    {
      if Prev(link, elm) != NULL {
        link := SetNext(link, Prev(link, elm), Next(link, elm));
      }
      if Next(link, elm) != NULL {
        link := SetPrev(link, Next(link, elm), Prev(link, elm));
      }
    }
  
    method Wipe(elm: Row)
      modifies this`node, this`link
      ensures node == old(node)[elm := CLEAR] && link == old(link)[elm := Link(NULL, NULL)]
    {
      node := node[elm := CLEAR];
      link := link[elm := Link(NULL, NULL)];
    }

    /** REMOVE: unlinks `elm` if it is linked, and clears its node. No key is looked at. */
    method Remove(elm: Row)
      requires Valid() && elm != NULL
      modifies this
      ensures Valid() && groups == Removed(old(groups), elm)
    {
      hide Zip;
      ghost var i, k, g := 0, 0, [elm];
      if In(groups, elm) {
        i, k := PlaceOf(node, root, link, tree, groups, elm);
        g := groups[i];
        RemovedIs(groups, i, k);
      } else {
        NotHead(tree, groups, elm);
      }
      Detach(elm, g, k);
      if Hue(node, elm) == White {
        Wipe(elm);
        if In(groups, elm) {
          EndMember(old(node), root, old(link), link, tree, groups, i, k);
        } else {
          EndUnlinked(old(node), root, old(link), link, tree, groups, elm);
        }
        groups := Removed(groups, elm);
        return;
      }
      RemovedHead(groups, i);
      ghost var c, t := Locate(tree, elm);
      ZipTree(node, root, c, t);
      ghost var t';
      if Next(link, elm) != NULL {
        PassedTree(c, t, groups, i, g[1]);
        NextApart(tree, groups, i);
        PlugRows(c, t);
        PassPlace(elm, Next(link, elm), c, t);
        t' := Plug(c, Node(t.left, g[1], t.color, t.right));
        PlugRows(c, Node(t.left, g[1], t.color, t.right));
        ZipTree(node, root, c, Node(t.left, g[1], t.color, t.right));
      } else {
        WithoutTree(c, t, groups, i);
        PlugRows(c, t);
        t' := RemoveHead(elm, c, t);
      }
      EndHead(old(node), node, old(root), root, old(link), link[elm := Link(NULL, NULL)], tree, t', groups, i);
      Wipe(elm);
      tree, groups := t', Removed(groups, elm);
    }
  
    /** Links `elm` as a red leaf below `parent`. */
    method PutLeaf(elm: Row, parent: Row, comp: int, ghost c: Ctx)
      requires Zip(node, root, c, Leaf) && elm != NULL && elm !in CtxRows(c) && parent == CtxParent(c)
      requires !c.Top? ==> (comp < 0 <==> c.InLeft?)
      modifies this`root, this`node
      ensures Zip(node, root, c, Node(Leaf, elm, Red, Leaf)) && SameOutside(old(node), node, CtxRows(c) + {elm})
    {
      if !c.Top? { WhichSide(node, root, c, Leaf); }
      node := node[elm := TreeNode(NULL, NULL, parent, Red)];
      if parent != NULL {
        if comp < 0 {
          node := SetLeft(node, parent, elm);
        } else {
          node := SetRight(node, parent, elm);
        }
      } else {
        root := elm;
      }
      LeafRep(old(node), node, old(root), root, c, elm);
    }

    /** Attaches `elm` to the list of `head`, directly behind it. */
    method Attach(elm: Row, head: Row, ghost g: seq<Row>)
      requires elm != NULL && g != [] && g[0] == head && head != NULL && elm !in g && NoDup(g)
      requires LinkAt(link, head) == Link(NULL, NextIn(g, 0)) && (|g| > 1 ==> g[1] != NULL)
      modifies this`link
      ensures Attached(old(link), link, g, elm)
    {
      link := link[elm := Link(NULL, NULL)];
      link := SetPrev(link, elm, head);
      link := SetNext(link, elm, Next(link, head));
      if Next(link, head) != NULL {
        link := SetPrev(link, Next(link, head), elm);
      }
      link := SetNext(link, head, elm);
    }

    /** The descent of INSERT: to an equal head, or to the empty place where the row belongs. */
    method Search<K(!new)>(v: K, key: Row -> K, cmp: (K, K) -> int)
      returns (tmp: Row, parent: Row, comp: int, ghost c: Ctx, ghost t: Tree)
      requires Valid() && TotalOrder(cmp) && Sorted(groups, key, cmp)
      ensures Plug(c, t) == tree && Zip(node, root, c, t) && tmp == RootRow(t) && parent == CtxParent(c)
      ensures t.Leaf? ==> Between(c, v, key, cmp) && (!c.Top? ==> (comp < 0 <==> c.InLeft?))
      ensures t.Leaf? <==> tmp == NULL
      ensures t.Node? ==> cmp(v, key(tmp)) == 0
      ensures t.Node? ==> forall y :: y in Before(c) + InOrder(t.left) ==> cmp(v, key(y)) > 0
    {
      SortedHeads(groups, key, cmp);
      tmp, parent, comp, c, t := root, NULL, 0, Top, tree;
      HoleFacts(node, root, c, t);
      while tmp != NULL
        invariant Plug(c, t) == tree && Zip(node, root, c, t) && tmp == RootRow(t) && parent == CtxParent(c)
        invariant Between(c, v, key, cmp) && (!c.Top? ==> (comp < 0 <==> c.InLeft?))
        invariant t.Leaf? <==> tmp == NULL
        decreases t
      {
        Descend(c, t, v, key, cmp);
        Around(node, root, c, t);
        comp := cmp(v, key(tmp));
        if comp < 0 {
          parent := tmp;
          tmp := Left(node, tmp);
          c, t := InLeft(t.row, t.color, t.right, c), t.left;
        } else if comp > 0 {
          parent := tmp;
          tmp := Right(node, tmp);
          c, t := InRight(t.left, t.row, t.color, c), t.right;
        } else {
          return;
        }
        UpOne(node, root, c, t);
        HoleFacts(node, root, c, t);
      }
    }

    /** INSERT behind an equal head. */
    method Join(elm: Row, head: Row, ghost p: int)
      requires Valid() && elm != NULL && !In(groups, elm) && 0 <= p < |groups| && groups[p][0] == head
      modifies this
      ensures Valid() && groups == JoinedAt(old(groups), p, elm)
    {
      assert elm !in groups[p];
      assert Chain(link, groups[p]) && ChainAt(link, groups[p], 0) && (|groups[p]| > 1 ==> ChainAt(link, groups[p], 1));
      node := node[elm := CLEAR];
      Attach(elm, head, groups[p]);
      EndJoined(old(node), root, old(link), link, tree, groups, p, elm);
      groups := JoinedAt(groups, p, elm);
    }

    /** INSERT as a head of its own. */
    method Grow(elm: Row, parent: Row, comp: int, ghost c: Ctx)
      requires Valid() && elm != NULL && !In(groups, elm) && Plug(c, Leaf) == tree && parent == CtxParent(c)
      requires !c.Top? ==> (comp < 0 <==> c.InLeft?)
      modifies this
      ensures |Before(c)| <= |old(groups)|
      ensures Valid() && groups == NewAt(old(groups), |Before(c)|, elm)
    {
      hide Zip, Chains, Apartness, RedBlack;
      NotHead(tree, groups, elm);
      PlugRows(c, Leaf);
      ZipTree(node, root, c, Leaf);
      PlugInOrder(c, Leaf);
      Parts(c, Leaf);
      PutLeaf(elm, parent, comp, c);
      ghost var t' := InsertColor(elm, c, Node(Leaf, elm, Red, Leaf));
      GrownOrder(groups, c, elm);
      EndNew(old(node), node, old(root), root, link, tree, t', groups, |Before(c)|, elm);
      tree, groups := t', NewAt(groups, |Before(c)|, elm);
    }

    /** INSERT: links a row; the result is the head it was attached to, or NULL if it is the first with its key. */
    method Insert<K(!new)>(elm: Row, key: Row -> K, cmp: (K, K) -> int) returns (r: Row)
      requires Valid() && elm != NULL && !In(groups, elm) && TotalOrder(cmp) && Sorted(groups, key, cmp)
      modifies this
      ensures Valid() && groups == Inserted(old(groups), elm, key, cmp) && Sorted(groups, key, cmp)
      ensures r == NULL ==> forall y :: In(old(groups), y) ==> cmp(key(elm), key(y)) != 0
      ensures r != NULL ==> In(old(groups), r) && cmp(key(elm), key(r)) == 0
    {
      var tmp, parent, comp;
      ghost var c, t;
      tmp, parent, comp, c, t := Search(key(elm), key, cmp);
      if tmp != NULL {
        InsertHead(groups, c, t, elm, key, cmp);
        Join(elm, tmp, |Before(c) + InOrder(t.left)|);
        return tmp;
      }
      HoleGap(groups, c, key(elm), key, cmp);
      InsertGap(groups, elm, key, cmp, |Before(c)|);
      Grow(elm, parent, comp, c);
      return NULL;
    }

    /** FIND: a row with the given key, if and only if a scan of all linked rows would find one. */
    method Find<K(!new)>(v: K, key: Row -> K, cmp: (K, K) -> int) returns (r: Row)
      requires Valid() && TotalOrder(cmp) && Sorted(groups, key, cmp)
      ensures r == NULL <==> forall y :: In(groups, y) ==> cmp(v, key(y)) != 0
      ensures r != NULL ==> In(groups, r) && cmp(v, key(r)) == 0 && r in Rows(tree)
    {
      SortedHeads(groups, key, cmp);
      ghost var c, t := Top, tree;
      r := root;
      HoleFacts(node, root, c, t);
      while r != NULL
        invariant Plug(c, t) == tree && Zip(node, root, c, t) && r == RootRow(t)
        invariant Between(c, v, key, cmp) && (t.Leaf? <==> r == NULL)
        decreases t
      {
        Descend(c, t, v, key, cmp);
        Around(node, root, c, t);
        var comp := cmp(v, key(r));
        if comp < 0 {
          r := Left(node, r);
          c, t := InLeft(t.row, t.color, t.right, c), t.left;
        } else if comp > 0 {
          r := Right(node, r);
          c, t := InRight(t.left, t.row, t.color, c), t.right;
        } else {
          FoundHead(groups, c, t, v, key, cmp);
          PlugRows(c, t);
          return;
        }
        UpOne(node, root, c, t);
        HoleFacts(node, root, c, t);
      }
      HoleGap(groups, c, v, key, cmp);
    }
  
    /** Down to the leftmost row of a subtree. */
    method Leftmost(x: Row, ghost c0: Ctx, ghost t0: Tree) returns (elm: Row, ghost c: Ctx, ghost t: Tree)
      requires Zip(node, root, c0, t0) && t0.Node? && t0.row == x
      ensures Zip(node, root, c, t) && t.Node? && t.row == elm && t.left.Leaf?
      ensures Plug(c, t) == Plug(c0, t0) && Before(c) == Before(c0)
    {
      elm, c, t := x, c0, t0;
      Around(node, root, c, t);
      while Left(node, elm) != NULL
        invariant Zip(node, root, c, t) && t.Node? && t.row == elm && elm != NULL
        invariant At(node, elm).left == RootRow(t.left) && (t.left.Leaf? <==> RootRow(t.left) == NULL)
        invariant Plug(c, t) == Plug(c0, t0) && Before(c) == Before(c0)
        decreases t
      {
        elm := Left(node, elm);
        c, t := InLeft(t.row, t.color, t.right, c), t.left;
        UpOne(node, root, c, t);
        Around(node, root, c, t);
      }
    }

    method Rightmost(x: Row, ghost c0: Ctx, ghost t0: Tree) returns (elm: Row, ghost c: Ctx, ghost t: Tree)
      requires Zip(node, root, c0, t0) && t0.Node? && t0.row == x
      ensures Zip(node, root, c, t) && t.Node? && t.row == elm && t.right.Leaf?
      ensures Plug(c, t) == Plug(c0, t0) && |Before(c)| + |InOrder(t)| == |Before(c0)| + |InOrder(t0)|
    {
      elm, c, t := x, c0, t0;
      Around(node, root, c, t);
      while Right(node, elm) != NULL
        invariant Zip(node, root, c, t) && t.Node? && t.row == elm && elm != NULL
        invariant At(node, elm).right == RootRow(t.right) && (t.right.Leaf? <==> RootRow(t.right) == NULL)
        invariant Plug(c, t) == Plug(c0, t0) && |Before(c)| + |InOrder(t)| == |Before(c0)| + |InOrder(t0)|
        decreases t
      {
        elm := Right(node, elm);
        c, t := InRight(t.left, t.row, t.color, c), t.right;
        UpOne(node, root, c, t);
        Around(node, root, c, t);
      }
    }

    /** The part of TREE_NEXT that goes up. */
    method ClimbNext(x: Row, ghost c0: Ctx, ghost t0: Tree, ghost i: int) returns (elm: Row)
      requires Valid() && Zip(node, root, c0, t0) && Plug(c0, t0) == tree && t0.Node? && t0.row == x
      requires |Before(c0)| + |InOrder(t0)| == i + 1
      ensures elm == HeadOr(groups, i + 1)
    {
      hide Zip, Apart, Rows, CtxRows, InOrder, Before, Chains, Heads, Apartness, RedBlack;
      elm := x;
      ghost var c, t := c0, t0;
      Around(node, root, c, t);
      if !c.Top? { WhichSide(node, root, c, t); }
      if Parent(node, elm) != NULL && elm == Left(node, Parent(node, elm)) {
        elm := Parent(node, elm);
      } else {
        while Parent(node, elm) != NULL && elm == Right(node, Parent(node, elm))
          invariant Zip(node, root, c, t) && Plug(c, t) == tree && t.Node? && t.row == elm && elm != NULL
          invariant At(node, elm).parent == CtxParent(c) && (c.Top? <==> CtxParent(c) == NULL)
          invariant c.InRight? <==> !c.Top? && At(node, c.row).right == elm
          invariant |Before(c)| + |InOrder(t)| == i + 1
          decreases c
        {
          elm := Parent(node, elm);
          ClimbRight(c, t);
          UpOne(node, root, c, t);
          c, t := c.up, Up(c, t);
          Around(node, root, c, t);
          if !c.Top? { WhichSide(node, root, c, t); }
        }
        elm := Parent(node, elm);
      }
      if c.Top? {
        WholeCount(tree, groups);
      } else {
        ClimbRight(c, t);
        RankAt(c.up, Up(c, t), groups);
      }
    }

    /** TREE_NEXT: the head of the next group. */
    method TreeNext(x: Row, ghost i: int) returns (elm: Row)
      requires Valid() && 0 <= i < |groups| && groups[i][0] == x
      ensures elm == HeadOr(groups, i + 1)
    {
      hide Zip;
      ghost var c, t := Focus(node, root, link, tree, groups, i);
      Around(node, root, c, t);
      if Right(node, x) != NULL {
        c, t := InRight(t.left, t.row, t.color, c), t.right;
        UpOne(node, root, c, t);
        elm, c, t := Leftmost(Right(node, x), c, t);
        RankAt(c, t, groups);
      } else {
        elm := ClimbNext(x, c, t, i);
      }
    }

    /** The part of TREE_PREV that goes up. */
    method ClimbPrev(x: Row, ghost c0: Ctx, ghost t0: Tree, ghost i: int) returns (elm: Row)
      requires Valid() && Zip(node, root, c0, t0) && Plug(c0, t0) == tree && t0.Node? && t0.row == x
      requires |Before(c0)| == i
      ensures elm == HeadOr(groups, i - 1)
    {
      hide Zip, Rows, CtxRows;
      elm := x;
      ghost var c, t := c0, t0;
      Around(node, root, c, t);
      if !c.Top? { WhichSide(node, root, c, t); }
      if Parent(node, elm) != NULL && elm == Right(node, Parent(node, elm)) {
        elm := Parent(node, elm);
      } else {
        while Parent(node, elm) != NULL && elm == Left(node, Parent(node, elm))
          invariant Zip(node, root, c, t) && Plug(c, t) == tree && t.Node? && t.row == elm && elm != NULL
          invariant At(node, elm).parent == CtxParent(c) && (c.Top? <==> CtxParent(c) == NULL)
          invariant c.InLeft? <==> !c.Top? && At(node, c.row).left == elm
          invariant |Before(c)| == i
          decreases c
        {
          elm := Parent(node, elm);
          ClimbLeft(c, t);
          UpOne(node, root, c, t);
          c, t := c.up, Up(c, t);
          Around(node, root, c, t);
          if !c.Top? { WhichSide(node, root, c, t); }
        }
        elm := Parent(node, elm);
      }
      if c.Top? {
        WholeCount(tree, groups);
      } else {
        ClimbLeft(c, t);
        RankAt(c.up, Up(c, t), groups);
      }
    }

    /** TREE_PREV: the head of the previous group. */
    method TreePrev(x: Row, ghost i: int) returns (elm: Row)
      requires Valid() && 0 <= i < |groups| && groups[i][0] == x
      ensures elm == HeadOr(groups, i - 1)
    {
      hide Zip;
      ghost var c, t := Focus(node, root, link, tree, groups, i);
      Around(node, root, c, t);
      if Left(node, x) != NULL {
        c, t := InLeft(t.row, t.color, t.right, c), t.left;
        UpOne(node, root, c, t);
        elm, c, t := Rightmost(Left(node, x), c, t);
        RankAt(c, t, groups);
      } else {
        elm := ClimbPrev(x, c, t, i);
      }
    }

    /** From a row of a group to its head. */
    method ToHead(x: Row, ghost i: int, ghost k: int) returns (elm: Row)
      requires Valid() && 0 <= i < |groups| && 0 <= k < |groups[i]| && groups[i][k] == x
      ensures elm == groups[i][0]
    {
      elm := x;
      ghost var k := k;
      assert Chain(link, groups[i]) && ChainAt(link, groups[i], k);
      while Prev(link, elm) != NULL
        invariant 0 <= k < |groups[i]| && groups[i][k] == elm && ChainAt(link, groups[i], k)
        decreases k
      {
        elm := Prev(link, elm);
        k := k - 1;
      }
      assert k > 0 ==> ChainAt(link, groups[i], k - 1);
    }

    /** From a row of a group to its last row. */
    method ToTail(x: Row, ghost i: int, ghost k: int) returns (elm: Row)
      requires Valid() && 0 <= i < |groups| && 0 <= k < |groups[i]| && groups[i][k] == x
      ensures elm == groups[i][|groups[i]| - 1]
    {
      elm := x;
      ghost var k, g := k, groups[i];
      assert Chain(link, g) && ChainAt(link, g, k);
      while Next(link, elm) != NULL
        invariant 0 <= k < |g| && g[k] == elm && ChainAt(link, g, k)
        decreases |g| - k
      {
        elm := Next(link, elm);
        k := k + 1;
      }
      assert k < |g| - 1 ==> ChainAt(link, g, k + 1);
    }

    /** IDX_NEXT: the row that follows in index order, NULL after the last. */
    method IdxNext(x: Row) returns (elm: Row)
      requires Valid() && In(groups, x)
      ensures elm == Following(Flat(groups), x)
    {
      ghost var i, k := PlaceOf(node, root, link, tree, groups, x);
      NextPlace(groups, i, k);
      if Next(link, x) != NULL {
        return Next(link, x);
      }
      elm := ToHead(x, i, k);
      elm := TreeNext(elm, i);
    }

    /** IDX_PREV: the row that comes before in index order, NULL before the first. */
    method IdxPrev(x: Row) returns (elm: Row)
      requires Valid() && In(groups, x)
      ensures elm == Preceding(Flat(groups), x)
    {
      ghost var i, k := PlaceOf(node, root, link, tree, groups, x);
      PrevPlace(groups, i, k);
      if Prev(link, x) != NULL {
        return Prev(link, x);
      }
      assert i > 0 ==> Chain(link, groups[i - 1]) && ChainAt(link, groups[i - 1], 0);
      elm := TreePrev(x, i);
      if elm != NULL {
        elm := ToTail(elm, i - 1, 0);
      }
    }

    /** MINMAX: the first or the last row in index order. */
    method MinMax(val: int) returns (r: Row)
      requires Valid()
      ensures Flat(groups) == [] ==> r == NULL
      ensures Flat(groups) != [] ==> r == if val < 0 then Flat(groups)[0] else Flat(groups)[|Flat(groups)| - 1]
    {
      HoleFacts(node, root, Top, tree);
      WholeCount(tree, groups);
      if root == NULL {
        return NULL;
      }
      ghost var c, t;
      if val < 0 {
        r, c, t := Leftmost(root, Top, tree);
        RankAt(c, t, groups);
        FlatAt(groups, 0, 0);
      } else {
        r, c, t := Rightmost(root, Top, tree);
        RankAt(c, t, groups);
        r := ToTail(r, |groups| - 1, 0);
        FlatAt(groups, |groups| - 1, |groups[|groups| - 1]| - 1);
        FlatEnd(groups);
      }
    }

    /** Every traversal of the repository: from MINMAX along IDX_NEXT, each linked row once, in index order. */
    method Traverse() returns (rows: seq<Row>)
      requires Valid()
      ensures rows == Flat(groups)
    {
      rows := [];
      ghost var s := Flat(groups);
      FlatNoDup(groups);
      FlatRows(node, root, link, tree, groups);
      var row := MinMax(-1);
      while row != NULL
        invariant |rows| <= |s| && rows == s[..|rows|]
        invariant row == if |rows| < |s| then s[|rows|] else NULL
        decreases |s| - |rows|
      {
        FollowingAt(s, |rows|);
        FlatIn(groups, row);
        rows := rows + [row];
        row := IdxNext(row);
      }
    }
  }
}
