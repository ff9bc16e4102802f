/** What each step of nginx's red-black tree does to the tree as a value, to the
    memory that holds it, to the colour rules and to the sequence of its nodes.
 */
module RedBlackSteps {
  import opened RedBlackShape

  ghost function RotL(t: Tree): Tree
    requires t.Bin? && t.right.Bin?
  {
    var r := t.right;
    Bin(r.red, Bin(t.red, t.left, t.node, t.key, r.left), r.node, r.key, r.right)
  }

  ghost function RotR(t: Tree): Tree
    requires t.Bin? && t.left.Bin?
  {
    var l := t.left;
    Bin(l.red, l.left, l.node, l.key, Bin(t.red, l.right, t.node, t.key, t.right))
  }

  lemma PaintItems(t: Tree, red: bool)
    requires t.Bin?
    ensures Items(t.(red := red)) == Items(t) && Nodes(t.(red := red)) == Nodes(t)
  {}

  lemma Assoc<T>(a: seq<T>, b: seq<T>, c: seq<T>, d: seq<T>, e: seq<T>)
    ensures a + b + c + d + e == a + b + (c + d + e)
  {}

  lemma RotItems(t: Tree)
    requires t.Bin?
    ensures t.right.Bin? ==> Items(RotL(t)) == Items(t) && Nodes(RotL(t)) == Nodes(t)
    ensures t.left.Bin? ==> Items(RotR(t)) == Items(t) && Nodes(RotR(t)) == Nodes(t)
  {
    if t.right.Bin? {
      var r := t.right;
      Assoc(Items(t.left), [Item(t.node, t.key)], Items(r.left), [Item(r.node, r.key)], Items(r.right));
    }
    if t.left.Bin? {
      var l := t.left;
      Assoc(Items(l.left), [Item(l.node, l.key)], Items(l.right), [Item(t.node, t.key)], Items(t.right));
    }
  }

  /** Trees with the same nodes in the same order are interchangeable inside a context. */
  lemma {:induction false} SwapItems(c: Ctx, t: Tree, t': Tree)
    requires Items(t) == Items(t') && Nodes(t) == Nodes(t')
    ensures Items(Plug(c, t)) == Items(Plug(c, t')) && Nodes(Plug(c, t)) == Nodes(Plug(c, t'))
  {
    PlugNodes(c, t); PlugNodes(c, t');
    PlugItems(c, t); PlugItems(c, t');
  }

  lemma {:induction false} RootOf(c: Ctx, t: Tree)
    ensures c.Top? ==> Plug(c, t) == t
    ensures !c.Top? ==> Plug(c, t).Bin? && Plug(c, t).node in CtxNodes(c)
    decreases c
  {
    if !c.Top? { RootOf(c.up, Close(c, t)); }
  }

  lemma {:induction false} SameTop(c: Ctx, t: Tree, t': Tree)
    ensures c.Top? ==> Plug(c, t) == t && Plug(c, t') == t'
    ensures !c.Top? ==> Plug(c, t).Bin? && Plug(c, t').Bin? && Plug(c, t).node == Plug(c, t').node
    decreases c
  {
    if !c.Top? { SameTop(c.up, Close(c, t), Close(c, t')); }
  }

  lemma PaintRep(m: Mem, m': Mem, c: Ctx, t: Tree, red: bool, s: Node)
    requires Rep(m, Plug(c, t), null, s) && t.Bin? && t.node in m
    requires m' == m[t.node := m[t.node].(red := red)]
    ensures Rep(m', Plug(c, t.(red := red)), null, s)
  {
    var t' := t.(red := red);
    PlugRep(m, c, t, s);
    RepFrame(m, m', t.left, t.node, s);
    RepFrame(m, m', t.right, t.node, s);
    RepCtxFrame(m, m', c, t.node, s);
    PlugRep(m', c, t', s);
  }

  /** The memory after a rotation of `x` over its child `y`, with `b` changing sides. */
  ghost predicate Turned(m: Mem, m': Mem, c: Ctx, x: Node, x': Rec, y: Node, y': Rec, b: Tree)
  {
    && m'.Keys == m.Keys
    && x in m && m'[x] == x'.(parent := y)
    && y in m && m'[y] == y'.(parent := m[x].parent)
    && (b.Bin? ==> b.node in m && m'[b.node] == m[b.node].(parent := x))
    && (!c.Top? ==> c.node in m && m'[c.node] == Aim(c, m[c.node], y))
    && forall z :: z in m && z != x && z != y && (b.Bin? ==> z != b.node) && (!c.Top? ==> z != c.node)
         ==> m'[z] == m[z]
  }

  /** The nodes touched by a left rotation are all different. */
  lemma RotLApart(m: Mem, c: Ctx, t: Tree, s: Node)
    requires Rep(m, Plug(c, t), null, s) && t.Bin? && t.right.Bin?
    ensures var (x, y, b) := (t.node, t.right.node, t.right.left);
      && x in m && y in m && x != y && s != x && s != y
      && (b.Bin? ==> b.node in m && b.node != x && b.node != y && b.node != s)
      && (!c.Top? ==> c.node in m && c.node != x && c.node != y && c.node != s && (b.Bin? ==> c.node != b.node))
      && m[x].right == y && m[y].left == Ptr(b, s)
      && (!c.Top? ==> m[x].parent == c.node && m[c.node].left != m[c.node].right)
      && (c.InL? ==> m[c.node].left == x) && (c.InR? ==> m[c.node].right == x)
  {
    PlugRep(m, c, t, s);
    RepNodes(m, t, Up(c), s);
  }

  lemma RotRApart(m: Mem, c: Ctx, t: Tree, s: Node)
    requires Rep(m, Plug(c, t), null, s) && t.Bin? && t.left.Bin?
    ensures var (x, y, b) := (t.node, t.left.node, t.left.right);
      && x in m && y in m && x != y && s != x && s != y
      && (b.Bin? ==> b.node in m && b.node != x && b.node != y && b.node != s)
      && (!c.Top? ==> c.node in m && c.node != x && c.node != y && c.node != s && (b.Bin? ==> c.node != b.node))
      && m[x].left == y && m[y].right == Ptr(b, s)
      && (!c.Top? ==> m[x].parent == c.node && m[c.node].left != m[c.node].right)
      && (c.InL? ==> m[c.node].left == x) && (c.InR? ==> m[c.node].right == x)
  {
    PlugRep(m, c, t, s);
    RepNodes(m, t, Up(c), s);
  }

  lemma RotLLocal(m: Mem, m': Mem, c: Ctx, t: Tree, s: Node)
    requires Rep(m, t, Up(c), s) && t.Bin? && t.right.Bin?
    requires !c.Top? ==> c.node !in Nodes(t)
    requires t.node in m && t.right.node in m
    requires Turned(m, m', c, t.node, m[t.node].(right := Ptr(t.right.left, s)),
                    t.right.node, m[t.right.node].(left := t.node), t.right.left)
    ensures Rep(m', RotL(t), if c.Top? then null else m[t.node].parent, s)
  {
    hide Items;
    var y, b := t.right.node, t.right.left;
    assert Rep(m', RotL(t).left, y, s) by {
      RepFrame(m, m', t.left, t.node, s);
      RepNodes(m, b, y, s);
      RepReparent(m, m', b, y, t.node, s);
    }
    RepFrame(m, m', t.right.right, y, s);
  }

  lemma RotLRep(m: Mem, m': Mem, c: Ctx, t: Tree, s: Node)
    requires Rep(m, Plug(c, t), null, s) && t.Bin? && t.right.Bin?
    requires t.node in m && t.right.node in m
    requires Turned(m, m', c, t.node, m[t.node].(right := Ptr(t.right.left, s)),
                    t.right.node, m[t.right.node].(left := t.node), t.right.left)
    ensures Rep(m', Plug(c, RotL(t)), null, s)
  {
    hide Plug; hide Items;
    PlugRep(m, c, t, s);
    RotItems(t);
    RotLLocal(m, m', c, t, s);
    RepCtxRefill(m, m', c, t.node, t.right.node, s);
    PlugRep(m', c, RotL(t), s);
  }

  lemma RotRLocal(m: Mem, m': Mem, c: Ctx, t: Tree, s: Node)
    requires Rep(m, t, Up(c), s) && t.Bin? && t.left.Bin?
    requires !c.Top? ==> c.node !in Nodes(t)
    requires t.node in m && t.left.node in m
    requires Turned(m, m', c, t.node, m[t.node].(left := Ptr(t.left.right, s)),
                    t.left.node, m[t.left.node].(right := t.node), t.left.right)
    ensures Rep(m', RotR(t), if c.Top? then null else m[t.node].parent, s)
  {
    hide Items;
    var y, b := t.left.node, t.left.right;
    assert Rep(m', RotR(t).right, y, s) by {
      RepFrame(m, m', t.right, t.node, s);
      RepNodes(m, b, y, s);
      RepReparent(m, m', b, y, t.node, s);
    }
    RepFrame(m, m', t.left.left, y, s);
  }

  lemma RotRRep(m: Mem, m': Mem, c: Ctx, t: Tree, s: Node)
    requires Rep(m, Plug(c, t), null, s) && t.Bin? && t.left.Bin?
    requires t.node in m && t.left.node in m
    requires Turned(m, m', c, t.node, m[t.node].(left := Ptr(t.left.right, s)),
                    t.left.node, m[t.left.node].(right := t.node), t.left.right)
    ensures Rep(m', Plug(c, RotR(t)), null, s)
  {
    hide Plug; hide Items;
    PlugRep(m, c, t, s);
    RotItems(t);
    RotRLocal(m, m', c, t, s);
    RepCtxRefill(m, m', c, t.node, t.left.node, s);
    PlugRep(m', c, RotR(t), s);
  }

  // ---------- insertion, on values

  ghost predicate AllAtMost(s: seq<Item>, k: nat) {
    forall i :: 0 <= i < |s| ==> s[i].key <= k
  }

  ghost predicate AllAbove(s: seq<Item>, k: nat) {
    forall i :: 0 <= i < |s| ==> k < s[i].key
  }

  /** The context of one child of `t`. */
  ghost function Below(c: Ctx, t: Tree, goLeft: bool): Ctx
    requires t.Bin?
  {
    if goLeft then InL(c, t.red, t.node, t.key, t.right) else InR(c, t.left, t.red, t.node, t.key)
  }

  lemma TopFocus(t: Tree, k: nat)
    ensures Plug(Top, t) == t && AllAtMost(Before(Top), k) && AllAbove(After(Top), k)
  {}

  lemma SortedPart(a: seq<Item>, b: seq<Item>, c: seq<Item>)
    requires Sorted(a + b + c)
    ensures Sorted(b)
  {
    forall i, j | 0 <= i < j < |b| ensures b[i].key <= b[j].key {
      assert (a + b + c)[|a| + i] == b[i] && (a + b + c)[|a| + j] == b[j];
    }
  }

  lemma SortedMiddle(a: seq<Item>, x: Item, b: seq<Item>)
    requires Sorted(a + [x] + b)
    ensures AllAtMost(a, x.key) && forall i :: 0 <= i < |b| ==> x.key <= b[i].key
  {
    var s := a + [x] + b;
    assert s[|a|] == x;
    forall i | 0 <= i < |a| ensures a[i].key <= x.key { assert s[i] == a[i]; }
    forall i | 0 <= i < |b| ensures x.key <= b[i].key { assert s[|a| + 1 + i] == b[i]; }
  }

  /** One step down the search path keeps everything before it at most `k`, everything after above. */
  lemma Descend(c: Ctx, t: Tree, k: nat, goLeft: bool)
    requires t.Bin? && Sorted(Items(Plug(c, t))) && goLeft == (k < t.key)
    requires AllAtMost(Before(c), k) && AllAbove(After(c), k)
    ensures var c' := Below(c, t, goLeft); var t' := if goLeft then t.left else t.right;
      && Plug(c', t') == Plug(c, t)
      && AllAtMost(Before(c'), k) && AllAbove(After(c'), k)
  {
    var x := Item(t.node, t.key);
    assert Items(t) == Items(t.left) + [x] + Items(t.right);
    PlugItems(c, t);
    hide Items; hide Sorted;
    SortedPart(Before(c), Items(t), After(c));
    SortedMiddle(Items(t.left), x, Items(t.right));
    if k < t.key {
      assert After(Below(c, t, true)) == [x] + Items(t.right) + After(c);
    } else {
      assert Before(Below(c, t, false)) == Before(c) + Items(t.left) + [x];
    }
  }

  lemma HangNodes(c: Ctx, leaf: Tree)
    requires leaf.Bin? && leaf.left.Leaf? && leaf.right.Leaf?
    ensures Nodes(Plug(c, leaf)) == Nodes(Plug(c, Leaf)) + {leaf.node}
  {
    PlugNodes(c, Leaf);
    PlugNodes(c, leaf);
  }

  lemma HangRep(m: Mem, m': Mem, c: Ctx, leaf: Tree, s: Node)
    requires Rep(m, Plug(c, Leaf), null, s) && m.Keys == Nodes(Plug(c, Leaf))
    requires !c.Top? && leaf.Bin? && leaf.red && leaf.left.Leaf? && leaf.right.Leaf? && leaf.node != s
    requires leaf.node !in m && m'.Keys == m.Keys + {leaf.node} && c.node in m
    requires m'[leaf.node] == Rec(leaf.key, s, s, c.node, true)
    requires m'[c.node] == Aim(c, m[c.node], leaf.node)
    requires forall z :: z in m && z != c.node ==> m'[z] == m[z]
    ensures Rep(m', Plug(c, leaf), null, s)
  {
    PlugRep(m, c, Leaf, s);
    PlugNodes(c, Leaf);
    RepCtxRefill(m, m', c, s, leaf.node, s);
    PlugRep(m', c, leaf, s);
  }

  /** The other subtree of a context's lowest node. */
  ghost function Sib(c: Ctx): Tree
    requires !c.Top?
  {
    if c.InL? then c.right else c.left
  }

  ghost function Frame(inLeft: bool, up: Ctx, red: bool, node: Node, key: nat, sib: Tree): Ctx {
    if inLeft then InL(up, red, node, key, sib) else InR(up, sib, red, node, key)
  }

  lemma PlugStep(c: Ctx, t: Tree)
    requires !c.Top?
    ensures Plug(c, t) == Plug(c.up, Close(c, t)) && Depth(c) == 1 + Depth(c.up)
  {}

  /** Red parent and red uncle: blackening both and reddening the grandparent moves the
      violation two levels up. */
  lemma RecolourRB(c: Ctx, t: Tree, h: nat)
    requires IsRed(t) && RB(t, h) && CtxRB(c, h) && RedFrame(c) && IsRed(Sib(c.up))
    ensures CtxRB(c.up.up, h + 1)
    ensures var g := c.up;
      RB(Close(Frame(g.InR?, g.up, g.red, g.node, g.key, Close(c, t).(red := false)),
               Sib(g).(red := false)).(red := true), h + 1)
  {}

  /** An inner red node rotated over its red parent: the parent becomes the outer red node. */
  ghost function Outside(c: Ctx, t: Tree): (Ctx, Tree)
    requires !c.Top? && t.Bin?
  {
    if c.InR?
    then (InL(c.up, t.red, t.node, t.key, t.right), Bin(c.red, c.left, c.node, c.key, t.left))
    else (InR(c.up, t.left, t.red, t.node, t.key), Bin(c.red, t.right, c.node, c.key, c.right))
  }

  lemma OutsideRB(c: Ctx, t: Tree, h: nat)
    requires IsRed(t) && RB(t, h) && CtxRB(c, h) && RedFrame(c)
    ensures var (c', t') := Outside(c, t); IsRed(t') && RB(t', h) && CtxRB(c', h)
  {}

  /** Red parent on the outside of a black uncle: one rotation ends the violation. */
  lemma LiftRB(c: Ctx, t: Tree, h: nat)
    requires IsRed(t) && RB(t, h) && CtxRB(c, h) && RedFrame(c) && !IsRed(Sib(c.up))
    requires c.InL? == c.up.InL?
    ensures var g := c.up; var G := Close(g, Close(c, t).(red := false)).(red := true);
      && CtxRB(Frame(true, g.up, false, c.node, c.key, if c.InL? then RotR(G).right else RotL(G).left), h)
      && CtxRB(Frame(false, g.up, false, c.node, c.key, if c.InL? then RotR(G).right else RotL(G).left), h)
  {}

  // ---------- what insertion and deletion do to the sequence of nodes

  /** A node goes behind all nodes with the same key. */
  ghost function InsertSorted(s: seq<Item>, x: Item): seq<Item> {
    if s == [] || x.key < s[0].key then [x] + s else [s[0]] + InsertSorted(s[1..], x)
  }

  lemma {:induction false} InsertSortedHas(s: seq<Item>, x: Item)
    ensures x in InsertSorted(s, x)
  {
    if s != [] { InsertSortedHas(s[1..], x); }
  }

  lemma {:induction false} InsertBetween(a: seq<Item>, b: seq<Item>, x: Item)
    requires AllAtMost(a, x.key) && AllAbove(b, x.key)
    ensures InsertSorted(a + b, x) == a + [x] + b
  {
    if a == [] {
      assert a + b == b;
    } else {
      InsertBetween(a[1..], b, x);
      assert (a + b)[1..] == a[1..] + b;
      assert [a[0]] + (a[1..] + [x] + b) == a + [x] + b;
    }
  }

  lemma SortedBetween(a: seq<Item>, b: seq<Item>, x: Item)
    requires Sorted(a + b) && AllAtMost(a, x.key) && AllAbove(b, x.key)
    ensures Sorted(a + [x] + b)
  {
    var s, s' := a + b, a + [x] + b;
    forall i, j | 0 <= i < j < |s'| ensures s'[i].key <= s'[j].key {
      if i != |a| && j != |a| {
        assert s'[i] == s[if i < |a| then i else i - 1] && s'[j] == s[if j < |a| then j else j - 1];
      }
    }
  }

  lemma HangItems(c: Ctx, leaf: Tree)
    requires leaf.Bin? && leaf.left.Leaf? && leaf.right.Leaf?
    requires Sorted(Items(Plug(c, Leaf)))
    requires AllAtMost(Before(c), leaf.key) && AllAbove(After(c), leaf.key)
    ensures Items(Plug(c, leaf)) == InsertSorted(Items(Plug(c, Leaf)), Item(leaf.node, leaf.key))
    ensures Sorted(Items(Plug(c, leaf)))
  {
    PlugItems(c, Leaf);
    PlugItems(c, leaf);
    var x := Item(leaf.node, leaf.key);
    assert Items(leaf) == [x];
    assert Before(c) + [] + After(c) == Before(c) + After(c);
    InsertBetween(Before(c), After(c), x);
    SortedBetween(Before(c), After(c), x);
  }

  lemma HangRB(c: Ctx, leaf: Tree) returns (h: nat)
    requires Balanced(Plug(c, Leaf)) && leaf.Bin? && leaf.red && leaf.left.Leaf? && leaf.right.Leaf?
    ensures RB(leaf, h) && CtxRB(c, h)
  {
    h := UnplugRB(c, Leaf);
  }

  lemma RedHasParent(c: Ctx, h: nat)
    requires CtxRB(c, h) && RedFrame(c)
    ensures !c.up.Top? && !c.up.red
  {}

  /** Blackening the root when the loop is over leaves a red-black tree. */
  lemma BlackRootRB(c: Ctx, t: Tree, h: nat)
    requires IsRed(t) && RB(t, h) && CtxRB(c, h) && !RedFrame(c)
    ensures Plug(c, t).Bin? && Balanced(Plug(c, t).(red := false))
  {
    if c.Top? {
      assert RB(t.(red := false), h + 1);
    } else {
      PlugRB(c, t, h);
      RootOf(c, t);
      assert Plug(c, t).(red := false) == Plug(c, t);
    }
  }

  // ---------- the colour rules under deletion

  /** One black node short of `h + 1`; blackening a red root would pay it back. */
  ghost predicate Short(t: Tree, h: nat) {
    if IsRed(t) then RB(t.(red := false), h + 1) else RB(t, h)
  }

  ghost function Measure(c: Ctx, t: Tree): nat {
    2 * Depth(c) + if IsRed(t) then 0 else 1
  }

  /** The sibling of a short subtree is never the sentinel. */
  lemma SiblingBin(c: Ctx, h: nat)
    requires !c.Top? && CtxRB(c, h + 1)
    ensures Sib(c).Bin?
  {}

  lemma RedSiblingRB(c: Ctx, h: nat)
    requires !c.Top? && CtxRB(c, h + 1) && IsRed(Sib(c))
    ensures !c.red
    ensures c.InL? ==>
      var W := c.right;
      && !IsRed(W.left)
      && CtxRB(InL(InL(c.up, false, W.node, W.key, W.right), true, c.node, c.key, W.left), h + 1)
    ensures c.InR? ==>
      var W := c.left;
      && !IsRed(W.right)
      && CtxRB(InR(InR(c.up, W.left, false, W.node, W.key), W.right, true, c.node, c.key), h + 1)
  {}

  lemma SibRB(c: Ctx, h: nat)
    requires !c.Top? && CtxRB(c, h)
    ensures RB(Sib(c), h)
  {}

  /** Another black sibling of the same black height. */
  lemma SibChanged(c: Ctx, t: Tree, h: nat)
    requires !c.Top? && CtxRB(c, h) && RB(t, h) && !IsRed(t)
    ensures c.InL? ==> CtxRB(c.(right := t), h)
    ensures c.InR? ==> CtxRB(c.(left := t), h)
  {}

  /** The red child of a black node takes its place. */
  lemma RaisedRB(w: Tree, h: nat)
    requires w.Bin? && !w.red && RB(w, h + 1)
    ensures IsRed(w.left) && !IsRed(w.right) ==>
      var i := w.left; RB(Bin(false, i.left, i.node, i.key, Bin(true, i.right, w.node, w.key, w.right)), h + 1)
    ensures IsRed(w.right) && !IsRed(w.left) ==>
      var i := w.right; RB(Bin(false, Bin(true, w.left, w.node, w.key, i.left), i.node, i.key, i.right), h + 1)
  {
    assert RB(w.left, h) && RB(w.right, h);
    if IsRed(w.left) && !IsRed(w.right) {
      assert RB(Bin(true, w.left.right, w.node, w.key, w.right), h);
    }
    if IsRed(w.right) && !IsRed(w.left) {
      assert RB(Bin(true, w.left, w.node, w.key, w.right.left), h);
    }
  }

  lemma InnerNephewRB(c: Ctx, h: nat)
    requires !c.Top? && CtxRB(c, h + 1) && Sib(c).Bin? && !Sib(c).red
    ensures c.InL? && IsRed(c.right.left) && !IsRed(c.right.right) ==> var W := c.right; var i := W.left;
      CtxRB(c.(right := Bin(false, i.left, i.node, i.key, Bin(true, i.right, W.node, W.key, W.right))), h + 1)
    ensures c.InR? && IsRed(c.left.right) && !IsRed(c.left.left) ==> var W := c.left; var i := W.right;
      CtxRB(c.(left := Bin(false, Bin(true, W.left, W.node, W.key, i.left), i.node, i.key, i.right)), h + 1)
  {
    hide CtxRB, RB;
    SibRB(c, h + 1);
    var w := Sib(c);
    RaisedRB(w, h);
    if c.InL? && IsRed(w.left) && !IsRed(w.right) {
      var i := w.left;
      SibChanged(c, Bin(false, i.left, i.node, i.key, Bin(true, i.right, w.node, w.key, w.right)), h + 1);
    }
    if c.InR? && IsRed(w.right) && !IsRed(w.left) {
      var i := w.right;
      SibChanged(c, Bin(false, Bin(true, w.left, w.node, w.key, i.left), i.node, i.key, i.right), h + 1);
    }
  }

  lemma OuterNephewRB(c: Ctx, t: Tree, h: nat)
    requires !c.Top? && CtxRB(c, h + 1) && Short(t, h) && !IsRed(t) && Sib(c).Bin? && !Sib(c).red
    ensures c.InL? && IsRed(c.right.right) ==> var W := c.right; var T :=
      Bin(c.red, Bin(false, t, c.node, c.key, W.left), W.node, W.key, W.right.(red := false));
      Plug(c.up, T).Bin? && Balanced(Plug(c.up, T))
    ensures c.InR? && IsRed(c.left.left) ==> var W := c.left; var T :=
      Bin(c.red, W.left.(red := false), W.node, W.key, Bin(false, W.right, c.node, c.key, t));
      Plug(c.up, T).Bin? && Balanced(Plug(c.up, T))
  {
    var h' := if c.red then h + 1 else h + 2;
    assert RB(Sib(c).left, h) && RB(Sib(c).right, h);
    if c.InL? && IsRed(c.right.right) {
      var W := c.right;
      var T := Bin(c.red, Bin(false, t, c.node, c.key, W.left), W.node, W.key, W.right.(red := false));
      assert RB(T.left, h + 1) && RB(T.right, h + 1);
      assert RB(T, h');
      PlugRB(c.up, T, h');
      RootOf(c.up, T);
    } else if c.InR? && IsRed(c.left.left) {
      var W := c.left;
      var T := Bin(c.red, W.left.(red := false), W.node, W.key, Bin(false, W.right, c.node, c.key, t));
      assert RB(T.left, h + 1) && RB(T.right, h + 1);
      assert RB(T, h');
      PlugRB(c.up, T, h');
      RootOf(c.up, T);
    }
  }

  lemma BlackNephewsRB(c: Ctx, t: Tree, h: nat)
    requires !c.Top? && CtxRB(c, h + 1) && Short(t, h) && !IsRed(t)
    requires Sib(c).Bin? && !Sib(c).red && !IsRed(Sib(c).left) && !IsRed(Sib(c).right)
    ensures var h' := if c.red then h else h + 1;
      && CtxRB(c.up, h' + 1)
      && Short(Close(Frame(c.InR?, c.up, c.red, c.node, c.key, t), Sib(c).(red := true)), h')
      && IsRed(Close(Frame(c.InR?, c.up, c.red, c.node, c.key, t), Sib(c).(red := true))) == c.red
  {}

  lemma BalancedShort(t: Tree) returns (h: nat)
    requires Balanced(t)
    ensures Short(t, h) && CtxRB(Top, h + 1)
  {
    h :| RB(t, h);
  }

  lemma Fields(x: Node)
    ensures RecOf(x) == Rec(x.key, x.left, x.right, x.parent, x.red)
  {}

  // ---------- deletion, on values

  /** Every step down is to the left. */
  ghost predicate Spine(c: Ctx) {
    c.Top? || (c.InL? && Spine(c.up))
  }

  /** A node with at most one subtree, `t`. */
  ghost predicate OneSided(u: Tree, t: Tree) {
    u.Bin? && ((u.left.Leaf? && t == u.right) || (u.right.Leaf? && t == u.left))
  }

  lemma PaidBackRB(c: Ctx, t: Tree, h: nat)
    requires Short(t, h) && CtxRB(c, h + 1) && (c.Top? || IsRed(t)) && Plug(c, t).Bin?
    ensures t.Bin? && Balanced(Plug(c, t.(red := false)))
  {
    if IsRed(t) {
      PlugRB(c, t.(red := false), h + 1);
    } else {
      assert t.(red := false) == t && RB(t, h);
    }
  }

  lemma SpliceApart(m: Mem, c: Ctx, u: Tree, t: Tree, s: Node)
    requires Rep(m, Plug(c, u), null, s) && OneSided(u, t) && !c.Top? && m.Keys == Nodes(Plug(c, u))
    ensures u.node in m && c.node in m && u.node != c.node && u.node != s && c.node != s
    ensures m[u.node].parent == c.node && m[c.node].left != m[c.node].right
    ensures c.InL? ==> m[c.node].left == u.node
    ensures c.InR? ==> m[c.node].right == u.node
    ensures t.Bin? ==> t.node in m && t.node != u.node && t.node != c.node && t.node != s
    ensures Nodes(Plug(c, t)) == m.Keys - {u.node}
  {
    PlugRep(m, c, u, s);
    PlugNodes(c, u);
    PlugNodes(c, t);
    RepNodes(m, u, c.node, s);
    assert Nodes(u) == Nodes(t) + {u.node};
  }

  lemma SpliceRep(m: Mem, m': Mem, c: Ctx, u: Tree, t: Tree, s: Node)
    requires Rep(m, Plug(c, u), null, s) && OneSided(u, t) && !c.Top?
    requires u.node in m && c.node in m && m'.Keys == m.Keys - {u.node} && c.node != u.node
    requires m'[c.node] == Aim(c, m[c.node], Ptr(t, s))
    requires t.Bin? ==> t.node in m' && m'[t.node] == m[t.node].(parent := c.node)
    requires forall z :: z in m' && z != c.node && (t.Bin? ==> z != t.node) ==> m'[z] == m[z]
    ensures Rep(m', Plug(c, t), null, s)
  {
    hide Items; hide Plug;
    PlugRep(m, c, u, s);
    assert Nodes(u) == Nodes(t) + {u.node};
    RepCtxNodes(m, c, u.node, s);
    RepNodes(m, t, u.node, s);
    RepReparent(m, m', t, u.node, c.node, s);
    RepCtxRefill(m, m', c, u.node, Ptr(t, s), s);
    PlugRep(m', c, t, s);
  }

  /** `st` is the leftmost node of the right subtree of `u`, at the hole of `c2`. */
  ghost predicate Succ(u: Tree, c2: Ctx, st: Tree) {
    && u.Bin? && u.left.Bin? && u.right == Plug(c2, st) && Spine(c2)
    && st.Bin? && st.left.Leaf?
  }

  ghost function Replaced(u: Tree, c2: Ctx, st: Tree): Tree
    requires Succ(u, c2, st)
  {
    Bin(u.red, u.left, st.node, st.key, Plug(c2, st.right))
  }

  lemma MinApartOuter(m: Mem, c: Ctx, u: Tree, s: Node)
    requires Rep(m, Plug(c, u), null, s) && u.Bin?
    ensures Rep(m, u, Up(c), s) && RepCtx(m, c, u.node, s) && Nodes(u) !! CtxNodes(c)
    ensures Rep(m, u.left, u.node, s) && Rep(m, u.right, u.node, s)
    ensures u.node !in Nodes(u.left) && u.node !in Nodes(u.right) && Nodes(u.left) !! Nodes(u.right)
    ensures u.node in m && u.node != s && Nodes(u) == Nodes(u.left) + {u.node} + Nodes(u.right)
    ensures m[u.node].left == Ptr(u.left, s) && m[u.node].right == Ptr(u.right, s)
  {
    PlugRep(m, c, u, s);
  }

  lemma RepUnhang(m: Mem, t: Tree, p: Node?, s: Node)
    requires Rep(m, t, p, s)
    ensures Rep(m, t, null, s)
  {}

  lemma MinUnplug(m: Mem, n: Node, c2: Ctx, st: Tree, s: Node)
    requires Rep(m, Plug(c2, st), n, s) && st.Bin?
    ensures Rep(m, st, Up(c2), s) && RepCtx(m, c2, st.node, s) && Nodes(st) !! CtxNodes(c2)
    ensures Nodes(Plug(c2, st)) == CtxNodes(c2) + Nodes(st)
  {
    hide Rep; hide RepCtx; hide Nodes; hide CtxNodes; hide Plug;
    RepUnhang(m, Plug(c2, st), n, s);
    PlugRep(m, c2, st, s);
    PlugNodes(c2, st);
  }

  lemma SpineLeft(c: Ctx)
    requires Spine(c) && !c.Top?
    ensures c.InL? && Spine(c.up)
  {}

  lemma {:induction false} MinApartInner(m: Mem, n: Node, R: Tree, c2: Ctx, st: Tree, s: Node)
    requires R == Plug(c2, st) && Rep(m, R, n, s) && st.Bin? && st.left.Leaf? && Spine(c2)
    requires Rep(m, st, Up(c2), s) && RepCtx(m, c2, st.node, s)
    ensures Nodes(st) == {st.node} + Nodes(st.right)
    ensures st.node !in Nodes(st.right) && st.node in m && st.node != s && m[st.node].key == st.key
    ensures m[st.node].parent == if c2.Top? then n else c2.node
    ensures c2.Top? ==> R.Bin? && R.node == st.node
    ensures !c2.Top? ==> c2.node in m && c2.node != s && c2.node in CtxNodes(c2) && m[c2.node].left == st.node
    ensures st.right.Bin? ==> st.right.node in m && st.right.node != s && st.right.node in Nodes(st.right)
  {
    hide Spine;
    if c2.Top? {
      assert R == st;
    } else {
      assert c2.InL? by { SpineLeft(c2); }
    }
  }

  lemma MinApart(m: Mem, c: Ctx, u: Tree, c2: Ctx, st: Tree, s: Node)
    requires Rep(m, Plug(c, u), null, s) && Succ(u, c2, st)
    ensures Rep(m, st, Up(c2), s) && RepCtx(m, c2, st.node, s) && Nodes(st) !! CtxNodes(c2)
    ensures u.node !in Nodes(st) && u.node !in CtxNodes(c2)
    ensures st.node in m && u.node in m && u.node != s && st.node != s && u.node != st.node
    ensures m[st.node].parent == if c2.Top? then u.node else c2.node
    ensures if c2.Top? then m[u.node].right == st.node && m[u.node].left != st.node else m[c2.node].left == st.node
    ensures !c2.Top? ==> c2.node in m && c2.node != s && c2.node != st.node && c2.node != u.node
    ensures st.right.Bin? ==>
              st.right.node in m && st.right.node != s && st.right.node != u.node && st.right.node != st.node
    ensures !c2.Top? && st.right.Bin? ==> c2.node != st.right.node
  {
    assert u.left.node in Nodes(u.left);
    hide Plug; hide Rep; hide RepCtx; hide Nodes; hide CtxNodes;
    MinApartOuter(m, c, u, s);
    MinUnplug(m, u.node, c2, st, s);
    MinApartInner(m, u.node, u.right, c2, st, s);
  }

  ghost predicate UnlinkedNodes(all: set<Node>, c: Ctx, u: Tree, st: Tree, R: Tree, s: Node)
    requires u.Bin? && st.Bin?
  {
    && all == Nodes(u.left) + Nodes(R) + CtxNodes(c) + {u.node, st.node}
    && u.node != st.node && u.node != s && st.node != s
    && Nodes(u.left) !! Nodes(R) && Nodes(u.left) !! CtxNodes(c) && Nodes(R) !! CtxNodes(c)
    && u.node !in Nodes(u.left) && u.node !in Nodes(R) && u.node !in CtxNodes(c)
    && st.node !in Nodes(u.left) && st.node !in Nodes(R) && st.node !in CtxNodes(c)
  }

  /** The memory between the two steps: `st.node` is out of the tree, `u.node` still in it. */
  ghost predicate Unlinked(m: Mem, c: Ctx, u: Tree, st: Tree, R: Tree, s: Node) {
    && u.Bin? && u.left.Bin? && st.Bin?
    && UnlinkedNodes(m.Keys, c, u, st, R, s)
    && m[u.node].left == Ptr(u.left, s) && m[u.node].right == Ptr(R, s) && m[u.node].red == u.red
    && (!c.Top? ==> m[u.node].parent == c.node)
    && m[st.node].key == st.key
    && Rep(m, u.left, u.node, s) && Rep(m, R, null, s) && RepCtx(m, c, u.node, s)
  }

  lemma StepNodes(m: Mem, st: Tree, p: Node?, s: Node)
    requires st.Bin? && st.left.Leaf? && Rep(m, st, p, s)
    ensures Nodes(st) == {st.node} + Nodes(st.right) && st.node !in Nodes(st.right) && st.node != s
    ensures st.node in m && m[st.node].key == st.key
  {}

  lemma UnlinkMinNodes(m: Mem, c: Ctx, u: Tree, c2: Ctx, st: Tree, s: Node)
    requires Rep(m, Plug(c, u), null, s) && Succ(u, c2, st) && m.Keys == Nodes(Plug(c, u))
    ensures UnlinkedNodes(m.Keys, c, u, st, Plug(c2, st.right), s)
  {
    hide Plug; hide Rep; hide RepCtx; hide Nodes; hide CtxNodes;
    PlugNodes(c, u);
    PlugNodes(c2, st.right);
    MinApartOuter(m, c, u, s);
    MinUnplug(m, u.node, c2, st, s);
    StepNodes(m, st, Up(c2), s);
  }

  /** The memory after the link to `st` has been led past it, to its right subtree. */
  ghost predicate Bypassed(m: Mem, m1: Mem, n: Node, c2: Ctx, st: Tree, s: Node)
    requires st.Bin?
  {
    var x := if c2.Top? then n else c2.node;
    var r := st.right;
    && m1.Keys == m.Keys && x in m
    && m1[x] == (if c2.Top? then m[x].(right := Ptr(r, s)) else m[x].(left := Ptr(r, s)))
    && (r.Bin? ==> r.node in m && m1[r.node] == m[r.node].(parent := if c2.Top? then st.node else c2.node))
    && forall z :: z in m && z != x && (r.Bin? ==> z != r.node) ==> m1[z] == m[z]
  }

  lemma BypassRest(m: Mem, m1: Mem, n: Node, c2: Ctx, st: Tree, s: Node)
    requires st.Bin? && Rep(m, st, Up(c2), s) && RepCtx(m, c2, st.node, s) && Nodes(st) !! CtxNodes(c2) && Spine(c2)
    requires n !in Nodes(st) && n !in CtxNodes(c2) && n in m && m[n].right == Ptr(Plug(c2, st), s)
    requires Bypassed(m, m1, n, c2, st, s)
    ensures m1[n] == m[n].(right := Ptr(Plug(c2, st.right), s)) && m1[st.node] == m[st.node]
    ensures forall z :: z in m && z !in CtxNodes(c2) && z !in Nodes(st) && z != n ==> m1[z] == m[z]
  {
    SameTop(c2, st, st.right);
    assert st.right.Bin? ==> st.right.node in Nodes(st.right);
  }

  lemma UnlinkRight(m: Mem, m1: Mem, n: Node, c2: Ctx, st: Tree, s: Node)
    requires st.Bin? && Rep(m, st, Up(c2), s) && RepCtx(m, c2, st.node, s) && Nodes(st) !! CtxNodes(c2) && Spine(c2)
    requires n !in Nodes(st) && n !in CtxNodes(c2)
    requires Bypassed(m, m1, n, c2, st, s)
    ensures Rep(m1, Plug(c2, st.right), null, s)
  {
    hide Plug; hide Items;
    RepReparent(m, m1, st.right, st.node, Up(c2), s);
    RepCtxRefill(m, m1, c2, st.node, Ptr(st.right, s), s);
    PlugRep(m1, c2, st.right, s);
  }

  lemma UnlinkRest(m: Mem, m1: Mem, c: Ctx, u: Tree, c2: Ctx, st: Tree, s: Node)
    requires Succ(u, c2, st) && m1.Keys == m.Keys
    requires Rep(m, u, Up(c), s) && RepCtx(m, c, u.node, s) && Nodes(u) !! CtxNodes(c)
    requires Nodes(u.right) == CtxNodes(c2) + Nodes(st)
    requires forall z :: z in m && z !in CtxNodes(c2) && z !in Nodes(st) && z != u.node ==> m1[z] == m[z]
    ensures Rep(m1, u.left, u.node, s) && RepCtx(m1, c, u.node, s)
  {
    RepNodes(m, u, Up(c), s);
    RepCtxNodes(m, c, u.node, s);
    RepFrame(m, m1, u.left, u.node, s);
    RepCtxFrame(m, m1, c, u.node, s);
  }

  lemma UnlinkMinRep(m: Mem, m1: Mem, c: Ctx, u: Tree, c2: Ctx, st: Tree, s: Node)
    requires Rep(m, Plug(c, u), null, s) && Succ(u, c2, st) && m.Keys == Nodes(Plug(c, u))
    requires Bypassed(m, m1, u.node, c2, st, s)
    ensures Unlinked(m1, c, u, st, Plug(c2, st.right), s)
  {
    assert m1.Keys == m.Keys;
    hide Plug; hide Rep; hide RepCtx; hide Nodes; hide CtxNodes; hide UnlinkedNodes; hide Bypassed;
    UnlinkMinNodes(m, c, u, c2, st, s);
    MinApartOuter(m, c, u, s);
    MinUnplug(m, u.node, c2, st, s);
    StepNodes(m, st, Up(c2), s);
    UnlinkRight(m, m1, u.node, c2, st, s);
    BypassRest(m, m1, u.node, c2, st, s);
    UnlinkRest(m, m1, c, u, c2, st, s);
  }

  lemma TakeNodes(all: set<Node>, c: Ctx, u: Tree, st: Tree, R: Tree, s: Node)
    requires u.Bin? && st.Bin? && UnlinkedNodes(all, c, u, st, R, s)
    ensures Nodes(Plug(c, Bin(u.red, u.left, st.node, st.key, R))) == all - {u.node}
  {
    PlugNodes(c, Bin(u.red, u.left, st.node, st.key, R));
  }

  lemma TakeApart(m: Mem, c: Ctx, u: Tree, st: Tree, R: Tree, s: Node)
    requires Unlinked(m, c, u, st, R, s)
    ensures u.left.node in m && u.left.node != s && u.left.node != u.node && u.left.node != st.node
    ensures R.Bin? ==> R.node in m && R.node != s && R.node != u.node && R.node != st.node && R.node != u.left.node
    ensures !c.Top? ==> c.node in m && c.node != s && c.node != u.node && c.node != st.node && c.node != u.left.node
    ensures !c.Top? && R.Bin? ==> c.node != R.node
    ensures !c.Top? ==> m[c.node].left != m[c.node].right
    ensures c.InL? ==> m[c.node].left == u.node
    ensures c.InR? ==> m[c.node].right == u.node
  {}

  lemma TakeLeft(m1: Mem, m2: Mem, u: Tree, x: Node, s: Node)
    requires u.Bin? && u.left.Bin? && Rep(m1, u.left, u.node, s)
    requires u.left.node in m1 && u.left.node in m2 && m2[u.left.node] == m1[u.left.node].(parent := x)
    requires Agree(m1, m2, Nodes(u.left) - {u.left.node})
    ensures Rep(m2, u.left, x, s)
  {
    RepReparent(m1, m2, u.left, u.node, x, s);
  }

  lemma TakePlaceRep(m1: Mem, m2: Mem, c: Ctx, u: Tree, st: Tree, R: Tree, s: Node)
    requires Unlinked(m1, c, u, st, R, s) && m2.Keys == m1.Keys - {u.node}
    requires m2[st.node] == m1[u.node].(key := st.key)
    requires u.left.node in m2 && m2[u.left.node] == m1[u.left.node].(parent := st.node)
    requires R.Bin? ==> R.node in m2 && m2[R.node] == m1[R.node].(parent := st.node)
    requires !c.Top? ==> c.node in m2 && m2[c.node] == Aim(c, m1[c.node], st.node)
    requires forall z | z in m2 && z != st.node && z != u.left.node && (R.Bin? ==> z != R.node)
                          && (!c.Top? ==> z != c.node)
               :: m2[z] == m1[z]
    ensures Rep(m2, Plug(c, Bin(u.red, u.left, st.node, st.key, R)), null, s)
  {
    hide Plug; hide Items;
    TakeApart(m1, c, u, st, R, s);
    TakeLeft(m1, m2, u, st.node, s);
    RepReparent(m1, m2, R, null, st.node, s);
    RepCtxRefill(m1, m2, c, u.node, st.node, s);
    PlugRep(m2, c, Bin(u.red, u.left, st.node, st.key, R), s);
  }

  /** The sequence of nodes without `x`. */
  ghost function Without(s: seq<Item>, x: Node): seq<Item> {
    if s == [] then [] else if s[0].node == x then s[1..] else [s[0]] + Without(s[1..], x)
  }

  lemma {:induction false} WithoutBetween(a: seq<Item>, x: Item, b: seq<Item>)
    requires forall i :: 0 <= i < |a| ==> a[i].node != x.node
    ensures Without(a + [x] + b, x.node) == a + b
  {
    var s := a + [x] + b;
    if a == [] {
      assert s == [x] + b;
    } else {
      assert s[0] == a[0];
      assert s[1..] == a[1..] + [x] + b;
      WithoutBetween(a[1..], x, b);
      assert [a[0]] + (a[1..] + b) == a + b;
    }
  }

  lemma SortedDrop(a: seq<Item>, x: Item, b: seq<Item>)
    requires Sorted(a + [x] + b)
    ensures Sorted(a + b)
  {
    var s, s' := a + [x] + b, a + b;
    forall i, j | 0 <= i < j < |s'| ensures s'[i].key <= s'[j].key {
      assert s'[i] == s[if i < |a| then i else i + 1] && s'[j] == s[if j < |a| then j else j + 1];
    }
  }

  lemma HasNodeConcat(a: seq<Item>, b: seq<Item>, x: Node)
    requires HasNode(a + b, x)
    ensures HasNode(a, x) || HasNode(b, x)
  {}

  lemma {:induction false} BeforeNodes(c: Ctx, x: Node)
    requires HasNode(Before(c), x)
    ensures x in CtxNodes(c)
  {
    match c
    case Top =>
    case InL(up, _, _, _, _) => BeforeNodes(up, x);
    case InR(up, l, _, n, k) =>
      assert Before(c) + [] == Before(c) == Before(up) + Items(l) + [Item(n, k)];
      HasNodeSplit(Before(up) + Items(l), Item(n, k), [], x);
      if HasNode(Before(up) + Items(l), x) {
        HasNodeConcat(Before(up), Items(l), x);
        if HasNode(Before(up), x) { BeforeNodes(up, x); } else { ItemsNodes(l); }
      }
  }

  lemma Regroup5<T>(a: seq<T>, b: seq<T>, c: seq<T>, d: seq<T>, e: seq<T>)
    ensures a + (b + c + d) + e == (a + b) + c + (d + e)
    ensures a + (b + d) + e == (a + b) + (d + e)
  {}

  lemma {:induction false} ItemsAround(c: Ctx, u: Tree)
    requires u.Bin?
    ensures Items(Plug(c, u)) ==
      (Before(c) + Items(u.left)) + [Item(u.node, u.key)] + (Items(u.right) + After(c))
  {
    PlugItems(c, u);
    Regroup5(Before(c), Items(u.left), [Item(u.node, u.key)], Items(u.right), After(c));
  }

  lemma NotBefore(m: Mem, c: Ctx, u: Tree, s: Node)
    requires Rep(m, Plug(c, u), null, s) && u.Bin?
    ensures !HasNode(Before(c) + Items(u.left), u.node)
  {
    PlugRep(m, c, u, s);
    if HasNode(Before(c) + Items(u.left), u.node) {
      HasNodeConcat(Before(c), Items(u.left), u.node);
      if HasNode(Before(c), u.node) { BeforeNodes(c, u.node); } else { ItemsNodes(u.left); }
    }
  }

  /** Taking `u.node` out of a context and joining its subtrees removes it from the sequence. */
  lemma RemoveItems(m: Mem, c: Ctx, u: Tree, v: Tree, s: Node)
    requires Rep(m, Plug(c, u), null, s) && u.Bin? && Items(v) == Items(u.left) + Items(u.right)
    ensures Items(Plug(c, v)) == Without(Items(Plug(c, u)), u.node)
    ensures Sorted(Items(Plug(c, u))) ==> Sorted(Items(Plug(c, v)))
  {
    hide Items; hide Sorted; hide Without; hide Before; hide After; hide Plug; hide Rep;
    var x := Item(u.node, u.key);
    var a, b := Before(c) + Items(u.left), Items(u.right) + After(c);
    ItemsAround(c, u);
    PlugItems(c, v);
    Regroup5(Before(c), Items(u.left), [x], Items(u.right), After(c));
    NotBefore(m, c, u, s);
    WithoutBetween(a, x, b);
    if Sorted(Items(Plug(c, u))) { SortedDrop(a, x, b); }
  }

  lemma Front<T>(x: seq<T>, y: seq<T>, z: seq<T>)
    ensures [] + (x + y) + z == x + ([] + y + z)
  {}

  lemma {:induction false} SpineBefore(c: Ctx)
    requires Spine(c)
    ensures Before(c) == []
  {
    if !c.Top? { SpineBefore(c.up); }
  }

  lemma {:induction false} SpineItems(c: Ctx, st: Tree)
    requires Spine(c) && st.Bin? && st.left.Leaf?
    ensures Items(Plug(c, st)) == [Item(st.node, st.key)] + Items(Plug(c, st.right))
  {
    PlugItems(c, st);
    PlugItems(c, st.right);
    SpineBefore(c);
    assert Items(st) == [Item(st.node, st.key)] + Items(st.right);
    hide Plug, Items, Before, After, Spine;
    Front([Item(st.node, st.key)], Items(st.right), After(c));
  }

  lemma {:induction false} SwapNodeRB(c: Ctx, l: Tree, red: bool, n: Node, k: nat, n': Node, k': nat, c2: Ctx, h: nat)
    requires CtxRB(Comp(InR(c, l, red, n, k), c2), h)
    ensures CtxRB(Comp(InR(c, l, red, n', k'), c2), h)
    decreases c2
  {
    if !c2.Top? { SwapNodeRB(c, l, red, n, k, n', k', c2.up, if c2.red then h else h + 1); }
  }

  lemma RemovedRB(c: Ctx, u: Tree, t: Tree, h: nat)
    requires CtxRB(c, h) && RB(u, h) && OneSided(u, t) && (IsRed(u) ==> !c.Top? && !c.red)
    ensures u.red ==> Balanced(Plug(c, t))
    ensures !u.red ==> h > 0 && Short(t, h - 1)
  {
    if u.red { PlugRB(c, t, h); }
  }

  ghost function Black(t: Tree): Tree {
    if t.Bin? then t.(red := false) else t
  }

  lemma BlackShort(t: Tree, h: nat)
    requires Short(t, h)
    ensures Balanced(Black(t))
  {}

  lemma RootApart(m: Mem, u: Tree, t: Tree, s: Node)
    requires Rep(m, u, null, s) && OneSided(u, t)
    ensures Nodes(u) == Nodes(t) + {u.node} && u.node !in Nodes(t) && Nodes(Black(t)) == Nodes(t)
    ensures t.Bin? ==> t.node in Nodes(t) && t.node in m && t.node != s
  {}

  lemma RootRep(m: Mem, m': Mem, u: Tree, t: Tree, s: Node)
    requires Rep(m, u, null, s) && OneSided(u, t) && m'.Keys == Nodes(t)
    requires t.Bin? ==> t.node in m && t.node in m' && m'[t.node] == m[t.node].(red := false)
    requires forall z | z in m' && (t.Bin? ==> z != t.node) :: z in m && m'[z] == m[z]
    ensures Rep(m', Black(t), null, s)
  {
    if t.Bin? {
      RepFrame(m, m', t.left, t.node, s);
      RepFrame(m, m', t.right, t.node, s);
    }
  }

  lemma SuccNotNode(m: Mem, c: Ctx, u: Tree, c2: Ctx, st: Tree, s: Node)
    requires Rep(m, Plug(c, u), null, s) && Succ(u, c2, st)
    ensures st.node != u.node && (c.Top? || Plug(c, u).Bin?)
    ensures st.node != Ptr(Plug(c, u), s)
  {
    MinApart(m, c, u, c2, st, s);
    MinApartOuter(m, c, u, s);
    PlugNodes(c2, st);
    RootOf(c, u);
  }

  lemma SuccItems(m: Mem, c: Ctx, u: Tree, c2: Ctx, st: Tree, s: Node)
    requires Rep(m, Plug(c, u), null, s) && Succ(u, c2, st)
    ensures var v := Replaced(u, c2, st);
      && Items(Plug(c, v)) == Without(Items(Plug(c, u)), u.node)
      && (Sorted(Items(Plug(c, u))) ==> Sorted(Items(Plug(c, v))))
  {
    var v := Replaced(u, c2, st);
    assert Items(v) == Items(u.left) + [Item(st.node, st.key)] + Items(Plug(c2, st.right));
    hide Items; hide Sorted; hide Without; hide Rep; hide Plug;
    SpineItems(c2, st);
    assert Items(v) == Items(u.left) + Items(u.right);
    RemoveItems(m, c, u, v, s);
  }

  /** The colour rules after the successor `st` has moved to the place of `u.node`. */
  lemma SuccRB(c: Ctx, u: Tree, c2: Ctx, st: Tree) returns (C: Ctx, h: nat)
    requires Balanced(Plug(c, u)) && Succ(u, c2, st)
    ensures Plug(C, st.right) == Plug(c, Replaced(u, c2, st)) && !C.Top?
    ensures C.node == if c2.Top? then st.node else c2.node
    ensures st.red ==> Balanced(Plug(C, st.right))
    ensures !st.red ==> Short(st.right, h) && CtxRB(C, h + 1)
  {
    var was := InR(c, u.left, u.red, u.node, u.key);
    var now := InR(c, u.left, u.red, st.node, st.key);
    PlugComp(was, c2, st);
    assert Plug(was, u.right) == Plug(c, u);
    h := UnplugRB(Comp(was, c2), st);
    SwapNodeRB(c, u.left, u.red, u.node, u.key, st.node, st.key, c2, h);
    C := Comp(now, c2);
    PlugComp(now, c2, st.right);
    assert Plug(now, Plug(c2, st.right)) == Plug(c, Replaced(u, c2, st));
    RemovedRB(C, st, st.right, h);
    if !st.red { h := h - 1; }
  }

  // ---------- runs

  datatype Op = Ins(node: Node) | Del(node: Node)

  ghost function Live(nodes: set<Node>, ops: seq<Op>): set<Node>
    decreases |ops|
  {
    if ops == [] then nodes
    else Live(if ops[0].Ins? then nodes + {ops[0].node} else nodes - {ops[0].node}, ops[1..])
  }

  ghost predicate Legal(ops: seq<Op>, nodes: set<Node>, sentinel: Node) {
    ops == [] ||
    (var n := ops[0].node;
     if ops[0].Ins? then n !in nodes && n != sentinel && Legal(ops[1..], nodes + {n}, sentinel)
     else n in nodes && Legal(ops[1..], nodes - {n}, sentinel))
  }
}
