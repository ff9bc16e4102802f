/** nginx's red-black tree: insertion and deletion with in-place rotations and
    recolouring around one shared sentinel.
 */
module RedBlackTree {
  import opened RedBlackShape
  import opened RedBlackSteps

  class RBTree {
    var root: Node
    const sentinel: Node
    ghost var model: Tree

    /** The heap holds `model`: links, colours and keys, with parent links below the root. */
    ghost predicate Linked()
      reads this, Nodes(model)
    {
      && sentinel !in Nodes(model)
      && root == Ptr(model, sentinel)
      && Rep(Snap(Nodes(model)), model, null, sentinel)
    }

    /** A red-black search tree. */
    ghost predicate Valid()
      reads this, sentinel, Nodes(model)
    {
      Linked() && !sentinel.red && Balanced(model) && Sorted(Items(model))
    }

    /** ngx_rbtree_init */
    constructor (sentinel: Node)
      modifies sentinel
      ensures Valid() && model == Leaf && this.sentinel == sentinel
    {
      this.sentinel := sentinel;
      root := sentinel;
      model := Leaf;
      new;
      sentinel.red := false;
      assert RB(model, 0);
    }

    /** What the heap holds around a node in focus. */
    lemma At(c: Ctx, t: Tree)
      requires Linked() && model == Plug(c, t) && t.Bin?
      ensures model.Bin? && t.node in Nodes(model) && t.node != sentinel
      ensures t.node.key == t.key && t.node.red == t.red
      ensures t.node.left == Ptr(t.left, sentinel) && t.node.right == Ptr(t.right, sentinel)
      ensures t.left.Leaf? <==> t.node.left == sentinel
      ensures t.right.Leaf? <==> t.node.right == sentinel
      ensures t.node.left != sentinel ==> t.node.left != t.node.right
      ensures !c.Top? ==> t.node.parent == c.node
      ensures t.node == root <==> c.Top?
    {
      PlugNodes(c, t);
      PlugRep(Snap(Nodes(model)), c, t, sentinel);
      RootOf(c, t);
    }

    lemma AtParent(c: Ctx, t: Tree)
      requires Linked() && model == Plug(c, t) && t.Bin?
      ensures t.node == root <==> c.Top?
      ensures !c.Top? ==> t.node.parent == c.node && c.node.red == c.red && c.node in Nodes(model)
    {
      At(c, t);
      if !c.Top? { At(c.up, Close(c, t)); }
    }

    /** The same for the sibling of a node in focus. */
    lemma AtSibling(c: Ctx, t: Tree)
      requires Linked() && model == Plug(c, t) && !c.Top?
      ensures IsRed(Sib(c)) <==> Sib(c).Bin? && Sib(c).node.red
      ensures (if c.InL? then c.node.right else c.node.left) == Ptr(Sib(c), sentinel)
      ensures Sib(c).Bin? ==> Sib(c).node != sentinel && Sib(c).node in Nodes(model)
    {
      At(c.up, Close(c, t));
      if Sib(c).Bin? {
        At(Frame(c.InR?, c.up, c.red, c.node, c.key, t), Sib(c));
      }
    }

    /** What the heap holds around a subtree in focus that may be empty. */
    lemma AtHole(c: Ctx, t: Tree)
      requires Linked() && model == Plug(c, t) && !c.Top?
      ensures model.Bin? && c.node in Nodes(model) && c.node != sentinel && c.node.red == c.red
      ensures t.Bin? ==> t.node.parent == c.node
      ensures (if c.InL? then c.node.left else c.node.right) == Ptr(t, sentinel)
      ensures (if c.InL? then c.node.right else c.node.left) == Ptr(Sib(c), sentinel)
      ensures Sib(c).Bin? ==> Sib(c).node in Nodes(model) && Sib(c).node != sentinel && Sib(c).node.red == Sib(c).red
      ensures Sib(c).Bin? ==> c.node.left != c.node.right
    {
      At(c.up, Close(c, t));
      if t.Bin? { At(c, t); }
      AtSibling(c, t);
    }

    /** The children of the sibling. */
    lemma AtKids(c: Ctx, t: Tree)
      requires Linked() && model == Plug(c, t) && !c.Top? && Sib(c).Bin? && !sentinel.red
      ensures var w := Sib(c).node;
        && w.left == Ptr(Sib(c).left, sentinel) && w.left.red == IsRed(Sib(c).left)
        && w.right == Ptr(Sib(c).right, sentinel) && w.right.red == IsRed(Sib(c).right)
        && (Sib(c).left.Bin? ==> w.left in Nodes(model)) && (Sib(c).right.Bin? ==> w.right in Nodes(model))
    {
      var side, W := Frame(c.InR?, c.up, c.red, c.node, c.key, t), Sib(c);
      At(side, W);
      if W.left.Bin? { At(Below(side, W, true), W.left); }
      if W.right.Bin? { At(Below(side, W, false), W.right); }
    }

    /** ngx_rbt_red, ngx_rbt_black and ngx_rbt_copy_color on a tree node */
    method Paint(x: Node, red: bool, ghost c: Ctx, ghost t: Tree)
      requires Linked() && model == Plug(c, t) && t.Bin? && t.node == x
      modifies this`model, x`red
      ensures Linked() && model == Plug(c, t.(red := red)) && x.red == red
      ensures Nodes(model) == old(Nodes(model)) && Items(model) == old(Items(model))
    {
      hide Items; hide Nodes; hide Rep; hide Plug;
      ghost var t' := t.(red := red);
      PaintItems(t, red);
      SwapItems(c, t, t');
      SameTop(c, t, t');
      At(c, t);
      ghost var m: Mem := Snap(Nodes(model));
      x.red := red;
      model := Plug(c, t');
      ghost var m': Mem := Snap(Nodes(model));
      assert m' == m[x := m[x].(red := red)];
      PaintRep(m, m', c, t, red, sentinel);
    }

    /** ngx_rbtree_left_rotate, by the links it changes */
    method TurnLeft(node: Node, ghost c: Ctx, ghost y: Node, ghost b: Node)
      requires RecOf(node).right == y && RecOf(y).left == b && y != node && y != sentinel && node != sentinel
      requires b != node && b != y
      requires !c.Top? ==> c.node != node && c.node != y && c.node != b && c.node != sentinel
      requires node == root <==> c.Top?
      requires !c.Top? ==> RecOf(node).parent == c.node && RecOf(c.node).left != RecOf(c.node).right
      requires c.InL? ==> RecOf(c.node).left == node
      requires c.InR? ==> RecOf(c.node).right == node
      modifies this`root, node, y, if b == sentinel then {} else {b}, if c.Top? then {} else {c.node}
      ensures root == if c.Top? then y else old(root)
      ensures RecOf(node) == old(RecOf(node)).(right := b, parent := y)
      ensures RecOf(y) == old(RecOf(y)).(left := node, parent := old(RecOf(node)).parent)
      ensures b != sentinel ==> RecOf(b) == old(RecOf(b)).(parent := node)
      ensures !c.Top? ==> RecOf(c.node) == Aim(c, old(RecOf(c.node)), y)
    {
      var temp := node.right;
      node.right := temp.left;

      if temp.left != sentinel {
        temp.left.parent := node;
      }

      temp.parent := node.parent;

      if node == root {
        root := temp;
      } else if node == node.parent.left {
        node.parent.left := temp;
      } else {
        node.parent.right := temp;
      }

      temp.left := node;
      node.parent := temp;
    }

    method LeftRotate(node: Node, ghost c: Ctx, ghost t: Tree)
      requires Linked() && model == Plug(c, t) && t.Bin? && t.node == node && t.right.Bin?
      modifies this, Nodes(model)
      ensures Linked() && model == Plug(c, RotL(t))
      ensures Nodes(model) == old(Nodes(model)) && Items(model) == old(Items(model))
    {
      hide Items; hide Nodes; hide Rep; hide Plug; hide RecOf;
      RotItems(t);
      SwapItems(c, t, RotL(t));
      SameTop(c, t, RotL(t));
      At(c, t);
      ghost var m: Mem := Snap(Nodes(model));
      RotLApart(m, c, t, sentinel);
      ghost var y, b := t.right.node, t.right.left;
      TurnLeft(node, c, y, Ptr(b, sentinel));
      model := Plug(c, RotL(t));
      ghost var m': Mem := Snap(Nodes(model));
      RotLRep(m, m', c, t, sentinel);
    }

    /** ngx_rbtree_right_rotate, by the links it changes */
    method TurnRight(node: Node, ghost c: Ctx, ghost y: Node, ghost b: Node)
      requires RecOf(node).left == y && RecOf(y).right == b && y != node && y != sentinel && node != sentinel
      requires b != node && b != y
      requires !c.Top? ==> c.node != node && c.node != y && c.node != b && c.node != sentinel
      requires node == root <==> c.Top?
      requires !c.Top? ==> RecOf(node).parent == c.node && RecOf(c.node).left != RecOf(c.node).right
      requires c.InL? ==> RecOf(c.node).left == node
      requires c.InR? ==> RecOf(c.node).right == node
      modifies this`root, node, y, if b == sentinel then {} else {b}, if c.Top? then {} else {c.node}
      ensures root == if c.Top? then y else old(root)
      ensures RecOf(node) == old(RecOf(node)).(left := b, parent := y)
      ensures RecOf(y) == old(RecOf(y)).(right := node, parent := old(RecOf(node)).parent)
      ensures b != sentinel ==> RecOf(b) == old(RecOf(b)).(parent := node)
      ensures !c.Top? ==> RecOf(c.node) == Aim(c, old(RecOf(c.node)), y)
    {
      var temp := node.left;
      node.left := temp.right;

      if temp.right != sentinel {
        temp.right.parent := node;
      }

      temp.parent := node.parent;

      if node == root {
        root := temp;
      } else if node == node.parent.right {
        node.parent.right := temp;
      } else {
        node.parent.left := temp;
      }

      temp.right := node;
      node.parent := temp;
    }

    method RightRotate(node: Node, ghost c: Ctx, ghost t: Tree)
      requires Linked() && model == Plug(c, t) && t.Bin? && t.node == node && t.left.Bin?
      modifies this, Nodes(model)
      ensures Linked() && model == Plug(c, RotR(t))
      ensures Nodes(model) == old(Nodes(model)) && Items(model) == old(Items(model))
    {
      hide Items; hide Nodes; hide Rep; hide Plug; hide RecOf;
      RotItems(t);
      SwapItems(c, t, RotR(t));
      SameTop(c, t, RotR(t));
      At(c, t);
      ghost var m: Mem := Snap(Nodes(model));
      RotRApart(m, c, t, sentinel);
      ghost var y, b := t.left.node, t.left.right;
      TurnRight(node, c, y, Ptr(b, sentinel));
      model := Plug(c, RotR(t));
      ghost var m': Mem := Snap(Nodes(model));
      RotRRep(m, m', c, t, sentinel);
    }

    // ---------- insertion

    method HangLinks(temp: Node, node: Node, goLeft: bool)
      requires temp != node
      modifies temp, node
      ensures RecOf(node) == Rec(old(node.key), sentinel, sentinel, temp, true) && node.key == old(node.key)
      ensures RecOf(temp) ==
        if goLeft then old(RecOf(temp)).(left := node) else old(RecOf(temp)).(right := node)
    {
      if goLeft {
        temp.left := node;
      } else {
        temp.right := node;
      }
      node.parent := temp;
      node.left := sentinel;
      node.right := sentinel;
      node.red := true;
    }

    /** ngx_rbtree_insert_value: a red node is hung below the leaf its key leads to. */
    method InsertValue(start: Node, node: Node) returns (ghost c: Ctx)
      requires Linked() && start == root && model.Bin? && Sorted(Items(model))
      requires node !in Nodes(model) && node != sentinel
      modifies this`model, node, Nodes(model)
      ensures Linked() && root == old(root)
      ensures !c.Top? && old(model) == Plug(c, Leaf) && node.key == old(node.key)
      ensures model == Plug(c, Bin(true, Leaf, node, node.key, Leaf))
      ensures AllAtMost(Before(c), node.key) && AllAbove(After(c), node.key)
    {
      hide Items; hide Nodes; hide Rep; hide Plug; hide Before; hide After; hide Sorted; hide RecOf;
      var temp := start;
      c := Top;
      ghost var t := model;
      TopFocus(model, node.key);
      At(c, t);
      var goLeft := node.key < temp.key;

      while (if goLeft then temp.left else temp.right) != sentinel
        invariant Linked() && model == Plug(c, t) && t.Bin? && t.node == temp
        invariant goLeft == (node.key < t.key)
        invariant temp.left == Ptr(t.left, sentinel) && temp.right == Ptr(t.right, sentinel)
        invariant t.left.Leaf? <==> temp.left == sentinel
        invariant t.right.Leaf? <==> temp.right == sentinel
        invariant temp in Nodes(model)
        invariant AllAtMost(Before(c), node.key) && AllAbove(After(c), node.key)
        decreases t
        modifies {}
      {
        Descend(c, t, node.key, goLeft);
        c, t := Below(c, t, goLeft), if goLeft then t.left else t.right;
        At(c, t);
        temp := if goLeft then temp.left else temp.right;
        goLeft := node.key < temp.key;
      }

      Descend(c, t, node.key, goLeft);
      c := Below(c, t, goLeft);
      ghost var m: Mem := Snap(Nodes(model));
      ghost var leaf := Bin(true, Leaf, node, node.key, Leaf);
      HangNodes(c, leaf);
      SameTop(c, Leaf, leaf);

      HangLinks(temp, node, goLeft);

      model := Plug(c, leaf);
      ghost var m': Mem := Snap(Nodes(model));
      HangRep(m, m', c, leaf, sentinel);
    }

    /** The insertion loop: a red node in focus, every rule kept but for a red parent. */
    ghost predicate InsertInv(node: Node, c: Ctx, t: Tree, h: nat)
      reads this, Nodes(model)
    {
      && Linked() && model == Plug(c, t) && node in Nodes(model)
      && IsRed(t) && t.node == node && RB(t, h) && CtxRB(c, h)
    }

    /** One round of the insertion loop whose red parent is a left child. */
    method InsertFixLeft(n: Node, ghost c0: Ctx, ghost t0: Tree, ghost h0: nat)
      returns (node: Node, ghost c: Ctx, ghost t: Tree, ghost h: nat)
      requires InsertInv(n, c0, t0, h0) && RedFrame(c0) && c0.up.InL? && !sentinel.red
      modifies this, Nodes(model)
      ensures InsertInv(node, c, t, h) && Depth(c) < Depth(c0)
      ensures Nodes(model) == old(Nodes(model)) && Items(model) == old(Items(model))
    {
      hide Items; hide Nodes; hide Rep; hide Plug; hide Linked; hide RB; hide CtxRB;
      node, c, t, h := n, c0, t0, h0;
      ghost var g, P := c.up, Close(c, t);
      ghost var u := Sib(g);
      PlugStep(c, t); PlugStep(g, P);
      At(c, t); At(g, P); At(g.up, Close(g, P));
      AtSibling(g, P);

      var temp := node.parent.parent.right;

      if temp.red {
        RecolourRB(c, t, h);
        Paint(node.parent, false, g, P);
        P := P.(red := false);
        ghost var side := Frame(false, g.up, g.red, g.node, g.key, P);
        PlugStep(g, P); PlugStep(side, u);
        Paint(temp, false, side, u);
        u := u.(red := false);
        PlugStep(side, u);
        Paint(node.parent.parent, true, g.up, Close(side, u));
        node := node.parent.parent;
        c, t, h := g.up, Close(side, u).(red := true), h + 1;
      } else {
        if node == node.parent.right {
          OutsideRB(c, t, h);
          node := node.parent;
          LeftRotate(node, g, P);
          c, t := Outside(c, t).0, Outside(c, t).1;
          P := Close(c, t);
          PlugStep(c, t); PlugStep(g, P);
          At(c, t); At(g, P); At(g.up, Close(g, P));
        }
        LiftRB(c, t, h);
        Paint(node.parent, false, g, P);
        P := P.(red := false);
        PlugStep(g, P);
        Paint(node.parent.parent, true, g.up, Close(g, P));
        ghost var G := Close(g, P).(red := true);
        RightRotate(node.parent.parent, g.up, G);
        c := Frame(true, g.up, false, P.node, P.key, RotR(G).right);
        PlugStep(c, t);
        At(c, t);
      }
    }

    /** One round of the insertion loop whose red parent is a right child. */
    method InsertFixRight(n: Node, ghost c0: Ctx, ghost t0: Tree, ghost h0: nat)
      returns (node: Node, ghost c: Ctx, ghost t: Tree, ghost h: nat)
      requires InsertInv(n, c0, t0, h0) && RedFrame(c0) && c0.up.InR? && !sentinel.red
      modifies this, Nodes(model)
      ensures InsertInv(node, c, t, h) && Depth(c) < Depth(c0)
      ensures Nodes(model) == old(Nodes(model)) && Items(model) == old(Items(model))
    {
      hide Items; hide Nodes; hide Rep; hide Plug; hide Linked; hide RB; hide CtxRB;
      node, c, t, h := n, c0, t0, h0;
      ghost var g, P := c.up, Close(c, t);
      ghost var u := Sib(g);
      PlugStep(c, t); PlugStep(g, P);
      At(c, t); At(g, P); At(g.up, Close(g, P));
      AtSibling(g, P);

      var temp := node.parent.parent.left;

      if temp.red {
        RecolourRB(c, t, h);
        Paint(node.parent, false, g, P);
        P := P.(red := false);
        ghost var side := Frame(true, g.up, g.red, g.node, g.key, P);
        PlugStep(g, P); PlugStep(side, u);
        Paint(temp, false, side, u);
        u := u.(red := false);
        PlugStep(side, u);
        Paint(node.parent.parent, true, g.up, Close(side, u));
        node := node.parent.parent;
        c, t, h := g.up, Close(side, u).(red := true), h + 1;
      } else {
        if node == node.parent.left {
          OutsideRB(c, t, h);
          node := node.parent;
          RightRotate(node, g, P);
          c, t := Outside(c, t).0, Outside(c, t).1;
          P := Close(c, t);
          PlugStep(c, t); PlugStep(g, P);
          At(c, t); At(g, P); At(g.up, Close(g, P));
        }
        LiftRB(c, t, h);
        Paint(node.parent, false, g, P);
        P := P.(red := false);
        PlugStep(g, P);
        Paint(node.parent.parent, true, g.up, Close(g, P));
        ghost var G := Close(g, P).(red := true);
        LeftRotate(node.parent.parent, g.up, G);
        c := Frame(false, g.up, false, P.node, P.key, RotL(G).left);
        PlugStep(c, t);
        At(c, t);
      }
    }

    method InsertFirst(node: Node)
      requires Linked() && root == sentinel && node != sentinel
      modifies this, node
      ensures Linked() && model == Bin(false, Leaf, node, node.key, Leaf) && node.key == old(node.key)
    {
      node.parent := null;
      node.left := sentinel;
      node.right := sentinel;
      node.red := false;
      root := node;
      model := Bin(false, Leaf, node, node.key, Leaf);
    }

    /** ngx_rbtree_insert: re-balance tree */
    method InsertFixup(n: Node, ghost c0: Ctx, ghost t0: Tree, ghost h0: nat)
      requires InsertInv(n, c0, t0, h0) && !sentinel.red && sentinel !in Nodes(model)
      modifies this, Nodes(model)
      ensures Linked() && Balanced(model)
      ensures Nodes(model) == old(Nodes(model)) && Items(model) == old(Items(model))
    {
      hide Items; hide Nodes; hide Rep; hide Plug; hide RB; hide CtxRB; hide Balanced;
      ghost var c, t, h := c0, t0, h0;
      AtParent(c, t);
      var node := n;

      while node != root && node.parent.red
        invariant InsertInv(node, c, t, h)
        invariant node == root <==> c.Top?
        invariant !c.Top? ==> node.parent == c.node && c.node.red == c.red
        invariant Nodes(model) == old(Nodes(model)) && Items(model) == old(Items(model))
        decreases Depth(c)
      {
        RedHasParent(c, h);
        PlugStep(c, t);
        AtParent(c.up, Close(c, t));
        PlugStep(c.up, Close(c, t)); At(c.up.up, Close(c.up, Close(c, t)));
        if node.parent == node.parent.parent.left {
          node, c, t, h := InsertFixLeft(node, c, t, h);
        } else {
          node, c, t, h := InsertFixRight(node, c, t, h);
        }
        AtParent(c, t);
      }

      BlackRootRB(c, t, h);
      TopFocus(model, 0);
      TopFocus(model.(red := false), 0);
      At(Top, model);
      Paint(root, false, Top, model);
    }

    /** ngx_rbtree_insert */
    method Insert(node: Node)
      requires Valid() && node !in Nodes(model) && node != sentinel
      modifies this, node, Nodes(model)
      ensures Valid() && node.key == old(node.key)
      ensures Items(model) == InsertSorted(old(Items(model)), Item(node, node.key))
      ensures Nodes(model) == old(Nodes(model)) + {node}
    {
      if root == sentinel {
        assert model.Leaf?;
        InsertFirst(node);
        assert RB(model, 1);
        return;
      }
      assert model.Bin?;
      hide Items, Nodes, Rep, Plug, Before, After, Sorted, RB, CtxRB, InsertSorted;
      ghost var c := InsertValue(root, node);
      ghost var t := Bin(true, Leaf, node, node.key, Leaf);
      HangItems(c, t);
      HangNodes(c, t);
      ghost var h := HangRB(c, t);
      ghost var x := Item(node, node.key);
      InsertSortedHas(old(Items(model)), x);
      InsertFixup(node, c, t, h);
      RepKeys(Snap(Nodes(model)), model, null, sentinel);
    }

    // ---------- deletion

    /** The deletion loop: the subtree in focus is one black node short. When it is the
        sentinel, the sentinel's parent link leads back to the tree. */
    ghost predicate DeleteInv(temp: Node, c: Ctx, t: Tree, h: nat)
      reads this, sentinel, Nodes(model)
    {
      && Linked() && model == Plug(c, t) && model.Bin?
      && sentinel !in Nodes(model) && !sentinel.red
      && temp == Ptr(t, sentinel) && (t.Leaf? && !c.Top? ==> sentinel.parent == c.node)
      && Short(t, h) && CtxRB(c, h + 1)
    }

    /** A red sibling is rotated up, which leaves a black sibling. */
    method RedSiblingLeft(temp: Node, ghost c0: Ctx, ghost t: Tree, ghost h: nat) returns (ghost c: Ctx)
      requires DeleteInv(temp, c0, t, h) && c0.InL? && IsRed(Sib(c0))
      modifies this, Nodes(model)
      ensures DeleteInv(temp, c, t, h) && c.InL? && c.red && !IsRed(Sib(c))
      ensures Depth(c) == Depth(c0) + 1 && c.node == c0.node
      ensures Nodes(model) == old(Nodes(model)) && Items(model) == old(Items(model))
    {
      hide Items; hide Nodes; hide Rep; hide Plug; hide Linked; hide RB; hide CtxRB; hide Short;
      c := c0;
      ghost var W := Sib(c);
      RedSiblingRB(c, h);
      AtHole(c, t);
      var w := temp.parent.right;

      ghost var side := Frame(false, c.up, c.red, c.node, c.key, t);
      PlugStep(c, t); PlugStep(side, W);
      Paint(w, false, side, W);
      W := W.(red := false);
      PlugStep(side, W);
      Paint(temp.parent, true, c.up, Close(side, W));
      LeftRotate(temp.parent, c.up, Close(side, W).(red := true));
      c := Frame(true, Frame(true, c.up, false, W.node, W.key, W.right), true, c.node, c.key, W.left);
      PlugStep(c, t); PlugStep(c.up, Close(c, t));
      AtHole(c, t);
    }

    /** A red inner nephew is rotated to the outside. */
    method InnerNephewLeft(temp: Node, ghost c0: Ctx, ghost t: Tree, ghost h: nat) returns (ghost c: Ctx)
      requires DeleteInv(temp, c0, t, h) && c0.InL? && !IsRed(Sib(c0)) && Sib(c0).Bin?
      requires IsRed(Sib(c0).left) && !IsRed(Sib(c0).right)
      modifies this, Nodes(model)
      ensures DeleteInv(temp, c, t, h) && c.InL? && !IsRed(Sib(c)) && Sib(c).Bin? && IsRed(Sib(c).right)
      ensures Depth(c) == Depth(c0) && c.node == c0.node && c.red == c0.red
      ensures Nodes(model) == old(Nodes(model)) && Items(model) == old(Items(model))
    {
      hide Items; hide Nodes; hide Rep; hide Plug; hide Linked; hide RB; hide CtxRB; hide Short;
      c := c0;
      ghost var W := Sib(c);
      InnerNephewRB(c, h);
      AtHole(c, t);
      AtKids(c, t);
      var w := temp.parent.right;

      ghost var side := Frame(false, c.up, c.red, c.node, c.key, t);
      ghost var deep := Frame(true, side, W.red, W.node, W.key, W.right);
      PlugStep(c, t); PlugStep(side, W); PlugStep(deep, W.left);
      Paint(w.left, false, deep, W.left);
      W := Close(deep, W.left.(red := false));
      PlugStep(deep, W.left);
      Paint(w, true, side, W);
      W := W.(red := true);
      RightRotate(w, side, W);
      PlugStep(side, RotR(W));
      c := c.(right := RotR(W));
      PlugStep(c, t);
      AtHole(c, t);
    }

    /** A red outer nephew: one rotation pays back the missing black node. */
    method OuterNephewLeft(temp: Node, ghost c: Ctx, ghost t: Tree, ghost h: nat)
      requires DeleteInv(temp, c, t, h) && c.InL? && !IsRed(Sib(c)) && Sib(c).Bin? && IsRed(Sib(c).right) && !IsRed(t)
      modifies this, Nodes(model)
      ensures Linked() && model.Bin? && Balanced(model)
      ensures Nodes(model) == old(Nodes(model)) && Items(model) == old(Items(model))
    {
      hide Items; hide Nodes; hide Rep; hide Plug; hide Linked; hide RB; hide CtxRB; hide Short; hide Balanced;
      ghost var W := Sib(c);
      OuterNephewRB(c, t, h);
      AtHole(c, t);
      AtKids(c, t);
      var w := temp.parent.right;

      ghost var side := Frame(false, c.up, c.red, c.node, c.key, t);
      PlugStep(c, t); PlugStep(side, W);
      Paint(w, temp.parent.red, side, W);
      W := W.(red := c.red);
      PlugStep(side, W);
      Paint(temp.parent, false, c.up, Close(side, W));
      side := Frame(false, c.up, false, c.node, c.key, t);
      ghost var deep := Frame(false, side, W.red, W.node, W.key, W.left);
      PlugStep(side, W); PlugStep(deep, W.right);
      Paint(w.right, false, deep, W.right);
      W := Close(deep, W.right.(red := false));
      PlugStep(deep, W.right); PlugStep(side, W);
      LeftRotate(temp.parent, c.up, Close(side, W));
    }

    /** One round of the deletion loop whose short subtree is a left child. */
    method DeleteFixLeft(n: Node, ghost c0: Ctx, ghost t0: Tree, ghost h0: nat)
      returns (temp: Node, ghost c: Ctx, ghost t: Tree, ghost h: nat)
      requires DeleteInv(n, c0, t0, h0) && c0.InL? && !IsRed(t0)
      modifies this, Nodes(model)
      ensures DeleteInv(temp, c, t, h) && Measure(c, t) < Measure(c0, t0)
      ensures Nodes(model) == old(Nodes(model)) && Items(model) == old(Items(model))
    {
      hide Items; hide Nodes; hide Rep; hide Plug; hide Linked; hide RB; hide CtxRB; hide Short; hide Balanced;
      temp, c, t, h := n, c0, t0, h0;
      SiblingBin(c, h);
      AtHole(c, t);
      var w := temp.parent.right;

      if w.red {
        c := RedSiblingLeft(temp, c, t, h);
        SiblingBin(c, h);
        AtHole(c, t);
        w := temp.parent.right;
      }

      AtKids(c, t);
      if !w.left.red && !w.right.red {
        BlackNephewsRB(c, t, h);
        ghost var side := Frame(false, c.up, c.red, c.node, c.key, t);
        PlugStep(c, t); PlugStep(side, Sib(c));
        Paint(w, true, side, Sib(c));
        ghost var W := Sib(c).(red := true);
        PlugStep(side, W);
        temp := temp.parent;
        h := if c.red then h else h + 1;
        c, t := c.up, Close(side, W);
        At(c, t);
      } else {
        if !w.right.red {
          c := InnerNephewLeft(temp, c, t, h);
        }
        OuterNephewLeft(temp, c, t, h);
        c, t := Top, model;
        TopFocus(model, 0);
        h := BalancedShort(model);
        temp := root;
        At(c, t);
      }
    }

    /** A red sibling is rotated up, which leaves a black sibling. */
    method RedSiblingRight(temp: Node, ghost c0: Ctx, ghost t: Tree, ghost h: nat) returns (ghost c: Ctx)
      requires DeleteInv(temp, c0, t, h) && c0.InR? && IsRed(Sib(c0))
      modifies this, Nodes(model)
      ensures DeleteInv(temp, c, t, h) && c.InR? && c.red && !IsRed(Sib(c))
      ensures Depth(c) == Depth(c0) + 1 && c.node == c0.node
      ensures Nodes(model) == old(Nodes(model)) && Items(model) == old(Items(model))
    {
      hide Items; hide Nodes; hide Rep; hide Plug; hide Linked; hide RB; hide CtxRB; hide Short;
      c := c0;
      ghost var W := Sib(c);
      RedSiblingRB(c, h);
      AtHole(c, t);
      var w := temp.parent.left;

      ghost var side := Frame(true, c.up, c.red, c.node, c.key, t);
      PlugStep(c, t); PlugStep(side, W);
      Paint(w, false, side, W);
      W := W.(red := false);
      PlugStep(side, W);
      Paint(temp.parent, true, c.up, Close(side, W));
      RightRotate(temp.parent, c.up, Close(side, W).(red := true));
      c := Frame(false, Frame(false, c.up, false, W.node, W.key, W.left), true, c.node, c.key, W.right);
      PlugStep(c, t); PlugStep(c.up, Close(c, t));
      AtHole(c, t);
    }

    /** A red inner nephew is rotated to the outside. */
    method InnerNephewRight(temp: Node, ghost c0: Ctx, ghost t: Tree, ghost h: nat) returns (ghost c: Ctx)
      requires DeleteInv(temp, c0, t, h) && c0.InR? && !IsRed(Sib(c0)) && Sib(c0).Bin?
      requires IsRed(Sib(c0).right) && !IsRed(Sib(c0).left)
      modifies this, Nodes(model)
      ensures DeleteInv(temp, c, t, h) && c.InR? && !IsRed(Sib(c)) && Sib(c).Bin? && IsRed(Sib(c).left)
      ensures Depth(c) == Depth(c0) && c.node == c0.node && c.red == c0.red
      ensures Nodes(model) == old(Nodes(model)) && Items(model) == old(Items(model))
    {
      hide Items; hide Nodes; hide Rep; hide Plug; hide Linked; hide RB; hide CtxRB; hide Short;
      c := c0;
      ghost var W := Sib(c);
      InnerNephewRB(c, h);
      AtHole(c, t);
      AtKids(c, t);
      var w := temp.parent.left;

      ghost var side := Frame(true, c.up, c.red, c.node, c.key, t);
      ghost var deep := Frame(false, side, W.red, W.node, W.key, W.left);
      PlugStep(c, t); PlugStep(side, W); PlugStep(deep, W.right);
      Paint(w.right, false, deep, W.right);
      W := Close(deep, W.right.(red := false));
      PlugStep(deep, W.right);
      Paint(w, true, side, W);
      W := W.(red := true);
      LeftRotate(w, side, W);
      PlugStep(side, RotL(W));
      c := c.(left := RotL(W));
      PlugStep(c, t);
      AtHole(c, t);
    }

    /** A red outer nephew: one rotation pays back the missing black node. */
    method OuterNephewRight(temp: Node, ghost c: Ctx, ghost t: Tree, ghost h: nat)
      requires DeleteInv(temp, c, t, h) && c.InR? && !IsRed(Sib(c)) && Sib(c).Bin? && IsRed(Sib(c).left) && !IsRed(t)
      modifies this, Nodes(model)
      ensures Linked() && model.Bin? && Balanced(model)
      ensures Nodes(model) == old(Nodes(model)) && Items(model) == old(Items(model))
    {
      hide Items; hide Nodes; hide Rep; hide Plug; hide Linked; hide RB; hide CtxRB; hide Short; hide Balanced;
      ghost var W := Sib(c);
      OuterNephewRB(c, t, h);
      AtHole(c, t);
      AtKids(c, t);
      var w := temp.parent.left;

      ghost var side := Frame(true, c.up, c.red, c.node, c.key, t);
      PlugStep(c, t); PlugStep(side, W);
      Paint(w, temp.parent.red, side, W);
      W := W.(red := c.red);
      PlugStep(side, W);
      Paint(temp.parent, false, c.up, Close(side, W));
      side := Frame(true, c.up, false, c.node, c.key, t);
      ghost var deep := Frame(true, side, W.red, W.node, W.key, W.right);
      PlugStep(side, W); PlugStep(deep, W.left);
      Paint(w.left, false, deep, W.left);
      W := Close(deep, W.left.(red := false));
      PlugStep(deep, W.left); PlugStep(side, W);
      RightRotate(temp.parent, c.up, Close(side, W));
    }

    /** One round of the deletion loop whose short subtree is a right child. */
    method DeleteFixRight(n: Node, ghost c0: Ctx, ghost t0: Tree, ghost h0: nat)
      returns (temp: Node, ghost c: Ctx, ghost t: Tree, ghost h: nat)
      requires DeleteInv(n, c0, t0, h0) && c0.InR? && !IsRed(t0)
      modifies this, Nodes(model)
      ensures DeleteInv(temp, c, t, h) && Measure(c, t) < Measure(c0, t0)
      ensures Nodes(model) == old(Nodes(model)) && Items(model) == old(Items(model))
    {
      hide Items; hide Nodes; hide Rep; hide Plug; hide Linked; hide RB; hide CtxRB; hide Short; hide Balanced;
      temp, c, t, h := n, c0, t0, h0;
      SiblingBin(c, h);
      AtHole(c, t);
      var w := temp.parent.left;

      if w.red {
        c := RedSiblingRight(temp, c, t, h);
        SiblingBin(c, h);
        AtHole(c, t);
        w := temp.parent.left;
      }

      AtKids(c, t);
      if !w.right.red && !w.left.red {
        BlackNephewsRB(c, t, h);
        ghost var side := Frame(true, c.up, c.red, c.node, c.key, t);
        PlugStep(c, t); PlugStep(side, Sib(c));
        Paint(w, true, side, Sib(c));
        ghost var W := Sib(c).(red := true);
        PlugStep(side, W);
        temp := temp.parent;
        h := if c.red then h else h + 1;
        c, t := c.up, Close(side, W);
        At(c, t);
      } else {
        if !w.left.red {
          c := InnerNephewRight(temp, c, t, h);
        }
        OuterNephewRight(temp, c, t, h);
        c, t := Top, model;
        TopFocus(model, 0);
        h := BalancedShort(model);
        temp := root;
        At(c, t);
      }
    }

    lemma AtTemp(c: Ctx, t: Tree)
      requires Linked() && model == Plug(c, t) && model.Bin? && !sentinel.red
      ensures Ptr(t, sentinel) == root <==> c.Top?
      ensures Ptr(t, sentinel).red == IsRed(t)
    {
      RootOf(c, t);
      if t.Bin? { At(c, t); }
      RepNodes(Snap(Nodes(model)), model, null, sentinel);
    }

    /** ngx_rbtree_delete: a delete fixup */
    method DeleteFixup(n: Node, ghost c0: Ctx, ghost t0: Tree, ghost h0: nat)
      requires DeleteInv(n, c0, t0, h0)
      modifies this, Nodes(model)
      ensures Linked() && Balanced(model)
      ensures Nodes(model) == old(Nodes(model)) && Items(model) == old(Items(model))
    {
      hide Items; hide Nodes; hide Rep; hide Plug; hide Linked; hide RB; hide CtxRB; hide Short; hide Balanced;
      ghost var c, t, h := c0, t0, h0;
      var temp := n;
      AtTemp(c, t);

      while temp != root && !temp.red
        invariant DeleteInv(temp, c, t, h)
        invariant temp == root <==> c.Top?
        invariant temp.red == IsRed(t)
        invariant Nodes(model) == old(Nodes(model)) && Items(model) == old(Items(model))
        decreases Measure(c, t)
      {
        SiblingBin(c, h);
        AtHole(c, t);
        if temp == temp.parent.left {
          temp, c, t, h := DeleteFixLeft(temp, c, t, h);
        } else {
          temp, c, t, h := DeleteFixRight(temp, c, t, h);
        }
        AtTemp(c, t);
      }

      PaidBackRB(c, t, h);
      At(c, t);
      Paint(temp, false, c, t);
    }

    /** ngx_rbtree_min */
    method Min(start: Node, ghost outer: Ctx, ghost R: Tree) returns (subst: Node, ghost c: Ctx, ghost st: Tree)
      requires Linked() && model == Plug(outer, R) && R.Bin? && start == R.node
      ensures Linked() && R == Plug(c, st) && Spine(c) && st.Bin? && st.left.Leaf? && subst == st.node
      ensures subst.left == sentinel
    {
      hide Items; hide Nodes; hide Rep; hide Plug; hide Linked;
      subst, c, st := start, Top, R;
      TopFocus(R, 0);
      At(outer, R);
      while subst.left != sentinel
        invariant Linked() && R == Plug(c, st) && Spine(c) && st.Bin? && subst == st.node
        invariant subst.left == Ptr(st.left, sentinel) && (st.left.Leaf? <==> subst.left == sentinel)
        decreases st
      {
        subst := subst.left;
        c, st := InL(c, st.red, st.node, st.key, st.right), st.left;
        PlugStep(c, st);
        PlugComp(outer, c, st);
        At(Comp(outer, c), st);
      }
    }

    /** The node itself is spliced out; its only subtree moves up. */
    method SpliceOutLinks(node: Node, temp: Node, ghost c: Ctx)
      requires !c.Top? && c.node != node && c.node != temp && temp != node && c.node != sentinel
      requires RecOf(node).parent == c.node && RecOf(c.node).left != RecOf(c.node).right
      requires c.InL? ==> RecOf(c.node).left == node
      requires c.InR? ==> RecOf(c.node).right == node
      modifies c.node, temp
      ensures RecOf(c.node) == Aim(c, old(RecOf(c.node)), temp)
      ensures RecOf(temp) == old(RecOf(temp)).(parent := c.node)
    {
      if node == node.parent.left {
        node.parent.left := temp;
      } else {
        node.parent.right := temp;
      }
      temp.parent := node.parent;
    }

    method SpliceOut(node: Node, temp: Node, ghost c: Ctx, ghost u: Tree, ghost t: Tree)
      requires Linked() && model == Plug(c, u) && OneSided(u, t) && u.node == node && temp == Ptr(t, sentinel)
      requires !c.Top? && !sentinel.red && sentinel !in Nodes(model)
      modifies this`model, sentinel, Nodes(model)
      ensures Linked() && model == Plug(c, t) && root == old(root) && !sentinel.red
      ensures t.Leaf? ==> sentinel.parent == c.node
      ensures Nodes(model) == old(Nodes(model)) - {node}
    {
      hide Items; hide Nodes; hide Rep; hide Plug; hide RecOf;
      At(c, u);
      AtHole(c, u);
      ghost var m: Mem := Snap(Nodes(model));
      SpliceApart(m, c, u, t, sentinel);
      SameTop(c, u, t);
      Fields(sentinel);
      SpliceOutLinks(node, temp, c);
      Fields(sentinel);
      model := Plug(c, t);
      SpliceRep(m, Snap(Nodes(model)), c, u, t, sentinel);
    }

    /** The successor `subst` of `node` leaves its place to its right subtree. */
    method UnlinkMin(node: Node, subst: Node, temp: Node, ghost x: Node)
      requires RecOf(subst).parent == x && subst != x && temp != x && temp != subst && temp != node && node != subst
      requires if x == node then RecOf(x).right == subst && RecOf(x).left != subst else RecOf(x).left == subst
      modifies x, temp
      ensures RecOf(x) == if x == node then old(RecOf(x)).(right := temp) else old(RecOf(x)).(left := temp)
      ensures RecOf(temp) == old(RecOf(temp)).(parent := if x == node then subst else x)
    {
      if subst == subst.parent.left {
        subst.parent.left := temp;
      } else {
        subst.parent.right := temp;
      }
      if subst.parent == node {
        temp.parent := subst;
      } else {
        temp.parent := subst.parent;
      }
    }

    /** `subst` takes the place, the colour and the subtrees of `node`. */
    method TakePlace(node: Node, subst: Node, ghost c: Ctx, ghost l: Node, ghost r: Node)
      requires RecOf(node).left == l && RecOf(node).right == r && l != sentinel && subst != node && node != sentinel
      requires l != r && l != subst && r != subst && l != node && r != node && subst != sentinel
      requires node == root <==> c.Top?
      requires !c.Top? ==> c.node != node && c.node != subst && c.node != l && c.node != r && c.node != sentinel
      requires !c.Top? ==> RecOf(node).parent == c.node && RecOf(c.node).left != RecOf(c.node).right
      requires c.InL? ==> RecOf(c.node).left == node
      requires c.InR? ==> RecOf(c.node).right == node
      modifies this`root, subst, l, if r == sentinel then {} else {r}, if c.Top? then {} else {c.node}
      ensures root == if c.Top? then subst else old(root)
      ensures RecOf(subst) == old(RecOf(node)).(key := old(RecOf(subst)).key)
      ensures RecOf(l) == old(RecOf(l)).(parent := subst)
      ensures r != sentinel ==> RecOf(r) == old(RecOf(r)).(parent := subst)
      ensures !c.Top? ==> RecOf(c.node) == Aim(c, old(RecOf(c.node)), subst)
    {
      subst.left := node.left;
      subst.right := node.right;
      subst.parent := node.parent;
      subst.red := node.red;

      if node == root {
        root := subst;
      } else {
        if node == node.parent.left {
          node.parent.left := subst;
        } else {
          node.parent.right := subst;
        }
      }

      if subst.left != sentinel {
        subst.left.parent := subst;
      }
      if subst.right != sentinel {
        subst.right.parent := subst;
      }
    }

    method DetachMin(node: Node, subst: Node, temp: Node, ghost c: Ctx, ghost u: Tree, ghost c2: Ctx, ghost st: Tree)
      requires Linked() && model == Plug(c, u) && Succ(u, c2, st) && u.node == node && subst == st.node
      requires temp == Ptr(st.right, sentinel) && !sentinel.red && sentinel !in Nodes(model)
      modifies sentinel, Nodes(model)
      ensures Unlinked(Snap(Nodes(model)), c, u, st, Plug(c2, st.right), sentinel)
      ensures !sentinel.red
      ensures st.right.Leaf? ==> sentinel.parent == if c2.Top? then subst else c2.node
    {
      hide Items; hide Nodes; hide Rep; hide Plug; hide RecOf; hide RepCtx; hide Unlinked;
      ghost var m: Mem := Snap(Nodes(model));
      MinApart(m, c, u, c2, st, sentinel);
      Fields(sentinel);
      UnlinkMin(node, subst, temp, if c2.Top? then node else c2.node);
      Fields(sentinel);
      UnlinkMinRep(m, Snap(Nodes(model)), c, u, c2, st, sentinel);
    }

    method AttachMin(node: Node, subst: Node, ghost c: Ctx, ghost u: Tree, ghost st: Tree, ghost R: Tree)
      requires Unlinked(Snap(Nodes(model)), c, u, st, R, sentinel) && u.node == node && subst == st.node
      requires sentinel !in Nodes(model) && model == Plug(c, u) && root == Ptr(model, sentinel)
      modifies this, Nodes(model)
      ensures Linked() && model == Plug(c, Bin(u.red, u.left, st.node, st.key, R))
      ensures Nodes(model) == old(Nodes(model)) - {node}
    {
      hide Items; hide Nodes; hide Rep; hide Plug; hide RecOf; hide RepCtx;
      ghost var m: Mem := Snap(Nodes(model));
      TakeApart(m, c, u, st, R, sentinel);
      TakeNodes(Nodes(model), c, u, st, R, sentinel);
      RootOf(c, u);
      TakePlace(node, subst, c, u.left.node, Ptr(R, sentinel));
      ghost var u' := Bin(u.red, u.left, st.node, st.key, R);
      SameTop(c, u, u');
      model := Plug(c, u');
      TakePlaceRep(m, Snap(Nodes(model)), c, u, st, R, sentinel);
    }

    /** The two steps of replacing `node` by its successor. */
    method SpliceMin(node: Node, subst: Node, temp: Node, ghost c: Ctx, ghost u: Tree, ghost c2: Ctx, ghost st: Tree)
      requires Linked() && model == Plug(c, u) && Succ(u, c2, st) && u.node == node && subst == st.node
      requires temp == Ptr(st.right, sentinel) && !sentinel.red && sentinel !in Nodes(model)
      modifies this, sentinel, Nodes(model)
      ensures Linked() && model == Plug(c, Replaced(u, c2, st)) && !sentinel.red
      ensures st.right.Leaf? ==> sentinel.parent == if c2.Top? then subst else c2.node
      ensures Nodes(model) == old(Nodes(model)) - {node}
    {
      hide Items; hide Nodes; hide Rep; hide Plug; hide RecOf; hide RepCtx; hide Unlinked;
      DetachMin(node, subst, temp, c, u, c2, st);
      AttachMin(node, subst, c, u, st, Plug(c2, st.right));
    }

    /** The root has at most one child, which becomes the root. */
    method RemoveRoot(node: Node, temp: Node, ghost t: Tree)
      requires Linked() && OneSided(model, t) && model.node == node && temp == Ptr(t, sentinel)
      requires node == root && !sentinel.red
      modifies this, sentinel, Nodes(model)
      ensures Linked() && model == Black(t) && !sentinel.red
      ensures Nodes(model) == old(Nodes(model)) - {node}
    {
      ghost var m: Mem := Snap(Nodes(model));
      RootApart(m, model, t, sentinel);
      hide Items; hide Nodes; hide Rep;
      root := temp;
      temp.red := false;
      ghost var u := model;
      model := Black(t);
      RootRep(m, Snap(Nodes(model)), u, t, sentinel);
    }

    /** DEBUG stuff: the deleted node keeps no link into the tree. */
    method Clear(node: Node)
      requires Linked() && node !in Nodes(model)
      modifies node
      ensures Linked()
      ensures node.left == null && node.right == null && node.parent == null && node.key == 0
      ensures node.red == old(node.red)
    {
      node.left := null;
      node.right := null;
      node.parent := null;
      node.key := 0;
    }

    ghost predicate Removed(items: seq<Item>, nodes: set<Node>, node: Node)
      reads this, sentinel, Nodes(model)
    {
      && Linked() && !sentinel.red && model.Bin? && Sorted(Items(model))
      && Items(model) == Without(items, node) && Nodes(model) == nodes - {node}
    }

    /** `node` has at most one subtree, which takes its place. */
    method SpliceNode(node: Node, temp: Node, ghost c: Ctx, ghost u: Tree, ghost t: Tree) returns (ghost h: nat)
      requires Valid() && model == Plug(c, u) && OneSided(u, t) && u.node == node && temp == Ptr(t, sentinel) && !c.Top?
      modifies this`model, sentinel, Nodes(model)
      ensures Removed(old(Items(model)), old(Nodes(model)), node)
      ensures u.red ==> Balanced(model)
      ensures !u.red ==> DeleteInv(temp, c, t, h)
    {
      hide Nodes; hide Rep; hide Plug; hide Sorted; hide RB; hide CtxRB; hide Short; hide Balanced; hide Without;
      h := UnplugRB(c, u);
      RemovedRB(c, u, t, h);
      assert Items(t) == Items(u.left) + Items(u.right);
      RemoveItems(Snap(Nodes(model)), c, u, t, sentinel);
      SpliceOut(node, temp, c, u, t);
      RootOf(c, t);
      if !u.red { h := h - 1; }
    }

    /** `node` has two subtrees; its successor `subst` takes its place. */
    method SpliceSucc(node: Node, subst: Node, temp: Node, ghost c: Ctx, ghost u: Tree, ghost c2: Ctx, ghost st: Tree)
      returns (ghost C: Ctx, ghost h: nat)
      requires Valid() && model == Plug(c, u) && Succ(u, c2, st) && u.node == node && subst == st.node
      requires temp == Ptr(st.right, sentinel)
      modifies this, sentinel, Nodes(model)
      ensures Removed(old(Items(model)), old(Nodes(model)), node)
      ensures st.red ==> Balanced(model)
      ensures !st.red ==> DeleteInv(temp, C, st.right, h)
    {
      hide Nodes; hide Rep; hide Plug; hide Sorted; hide RB; hide CtxRB; hide Short; hide Balanced; hide Without;
      SuccItems(Snap(Nodes(model)), c, u, c2, st, sentinel);
      C, h := SuccRB(c, u, c2, st);
      SpliceMin(node, subst, temp, c, u, c2, st);
      RootOf(c, Replaced(u, c2, st));
    }

    method RemoveRootWhole(node: Node, temp: Node, ghost t: Tree)
      requires Valid() && OneSided(model, t) && model.node == node && temp == Ptr(t, sentinel) && node == root
      modifies this, sentinel, Nodes(model)
      ensures Valid()
      ensures Items(model) == Without(old(Items(model)), node) && Nodes(model) == old(Nodes(model)) - {node}
    {
      hide Nodes; hide Rep; hide RB; hide Balanced; hide Sorted; hide Without;
      ghost var u := model;
      ghost var h := UnplugRB(Top, u);
      RemovedRB(Top, u, t, h);
      BlackShort(t, h - 1);
      assert Items(Black(t)) == Items(u.left) + Items(u.right);
      RemoveItems(Snap(Nodes(model)), Top, u, Black(t), sentinel);
      RemoveRoot(node, temp, t);
    }

    /** ngx_rbtree_delete */
    method Delete(node: Node)
      requires Valid() && node in Nodes(model)
      modifies this, sentinel, Nodes(model)
      ensures Valid()
      ensures Items(model) == Without(old(Items(model)), node)
      ensures Nodes(model) == old(Nodes(model)) - {node}
      ensures node.left == null && node.right == null && node.parent == null && node.key == 0
    {
      hide Items, Nodes, Rep, Plug, Sorted, RB, CtxRB, Short, Balanced, Without;
      ghost var c, u := Locate(model, node);
      At(c, u);
      var subst: Node;
      var temp: Node?;
      ghost var c2, st, t := Top, u, u.right;

      if node.left == sentinel {
        temp := node.right;
        subst := node;
      } else if node.right == sentinel {
        temp := node.left;
        subst := node;
        t := u.left;
      } else {
        ghost var outer := Below(c, u, false);
        PlugStep(outer, u.right);
        subst, c2, st := Min(node.right, outer, u.right);
        PlugComp(outer, c2, st);
        At(Comp(outer, c2), st);
        SuccNotNode(Snap(Nodes(model)), c, u, c2, st, sentinel);
        if subst.left != sentinel {
          assert false;  // a minimum has no left child
        } else {
          temp := subst.right;
        }
      }

      if subst == root {
        RootOf(c, u);
        RemoveRootWhole(node, temp, t);
        Clear(node);
        return;
      }

      var red := subst.red;
      ghost var C, h;
      if subst == node {
        C := c;
        h := SpliceNode(node, temp, c, u, t);
      } else {
        C, h := SpliceSucc(node, subst, temp, c, u, c2, st);
        t := st.right;
      }
      Clear(node);

      if red {
        return;
      }
      DeleteFixup(temp, C, t, h);
    }

    /** Any run of insertions of new nodes and deletions of member nodes. */
    method Run(ops: seq<Op>)
      requires Valid() && Legal(ops, Nodes(model), sentinel)
      modifies this, sentinel, Nodes(model), set o | o in ops :: o.node
      ensures Valid() && Nodes(model) == Live(old(Nodes(model)), ops)
    {
      hide Nodes; hide Items; hide Balanced; hide Rep; hide InsertSorted; hide Without;
      for i := 0 to |ops|
        invariant Valid() && Legal(ops[i..], Nodes(model), sentinel)
        invariant Nodes(model) <= old(Nodes(model)) + set o | o in ops :: o.node
        invariant Live(Nodes(model), ops[i..]) == Live(old(Nodes(model)), ops)
      {
        var op := ops[i];
        assert ops[i..] == [op] + ops[i + 1..] && op in ops;
        match op
        case Ins(node) => Insert(node);
        case Del(node) => Delete(node);
      }
      assert ops[|ops|..] == [];
    }
  }
}
