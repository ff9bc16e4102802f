/** The values behind nginx's intrusive red-black tree: the nodes, the tree
    they form, the position inside that tree at which a rebalancing loop
    stands, and what it means for the heap to hold such a tree.
 */
module RedBlackShape {

  import opened Common

  /** ngx_rbtree_node_t. A pointer may be NULL, and is once a node is deleted. */
  class Node {
    var key: nat
    var left: Node?
    var right: Node?
    var parent: Node?
    var red: bool

    constructor (key: nat)
      ensures this.key == key
    {
      this.key, red := key, false;
      left, right, parent := null, null, null;
    }
  }

  datatype Tree = Leaf | Bin(red: bool, left: Tree, node: Node, key: nat, right: Tree)

  /** A tree with one subtree missing, read from the hole upwards. */
  datatype Ctx =
    | Top
    | InL(up: Ctx, red: bool, node: Node, key: nat, right: Tree)
    | InR(up: Ctx, left: Tree, red: bool, node: Node, key: nat)

  datatype Item = Item(node: Node, key: nat)

  ghost function Nodes(t: Tree): set<Node> {
    if t.Leaf? then {} else Nodes(t.left) + {t.node} + Nodes(t.right)
  }

  ghost function CtxNodes(c: Ctx): set<Node> {
    match c
    case Top => {}
    case InL(up, _, n, _, r) => CtxNodes(up) + {n} + Nodes(r)
    case InR(up, l, _, n, _) => CtxNodes(up) + {n} + Nodes(l)
  }

  ghost function Items(t: Tree): seq<Item> {
    if t.Leaf? then [] else Items(t.left) + [Item(t.node, t.key)] + Items(t.right)
  }

  ghost function Before(c: Ctx): seq<Item> {
    match c
    case Top => []
    case InL(up, _, _, _, _) => Before(up)
    case InR(up, l, _, n, k) => Before(up) + Items(l) + [Item(n, k)]
  }

  ghost function After(c: Ctx): seq<Item> {
    match c
    case Top => []
    case InL(up, _, n, k, r) => [Item(n, k)] + Items(r) + After(up)
    case InR(up, _, _, _, _) => After(up)
  }

  ghost function Close(c: Ctx, t: Tree): (r: Tree)
    requires !c.Top?
    ensures r.Bin?
  {
    if c.InL? then Bin(c.red, t, c.node, c.key, c.right) else Bin(c.red, c.left, c.node, c.key, t)
  }

  ghost function Plug(c: Ctx, t: Tree): Tree {
    if c.Top? then t else Plug(c.up, Close(c, t))
  }

  /** The context of a hole inside a subtree that itself sits in `outer`. */
  ghost function Comp(outer: Ctx, inner: Ctx): Ctx {
    match inner
    case Top => outer
    case InL(up, red, n, k, r) => InL(Comp(outer, up), red, n, k, r)
    case InR(up, l, red, n, k) => InR(Comp(outer, up), l, red, n, k)
  }

  ghost function Depth(c: Ctx): nat {
    if c.Top? then 0 else 1 + Depth(c.up)
  }

  /** The node above the hole; null at the root, whose parent link is not kept. */
  ghost function Up(c: Ctx): Node? {
    if c.Top? then null else c.node
  }

  ghost function Ptr(t: Tree, sentinel: Node): Node {
    if t.Leaf? then sentinel else t.node
  }

  lemma {:induction false} PlugComp(outer: Ctx, inner: Ctx, t: Tree)
    ensures Plug(Comp(outer, inner), t) == Plug(outer, Plug(inner, t))
    decreases inner
  {
    if !inner.Top? { PlugComp(outer, inner.up, Close(inner, t)); }
  }

  lemma Regroup<T>(a: seq<T>, b: seq<T>, c: seq<T>, d: seq<T>, e: seq<T>)
    ensures a + (b + c + d) + e == a + b + (c + d + e) == a + b + c + d + e
  {
  }

  lemma {:induction false} PlugItems(c: Ctx, t: Tree)
    ensures Items(Plug(c, t)) == Before(c) + Items(t) + After(c)
    decreases c
  {
    match c
    case Top =>
    case InL(up, _, n, k, r) =>
      PlugItems(up, Close(c, t));
      Regroup(Before(up), Items(t), [Item(n, k)], Items(r), After(up));
    case InR(up, l, _, n, k) =>
      PlugItems(up, Close(c, t));
      Regroup(Before(up), Items(l), [Item(n, k)], Items(t), After(up));
  }

  ghost predicate HasNode(s: seq<Item>, x: Node) {
    exists i :: 0 <= i < |s| && s[i].node == x
  }

  lemma HasNodeSplit(a: seq<Item>, m: Item, b: seq<Item>, x: Node)
    ensures HasNode(a + [m] + b, x) <==> HasNode(a, x) || m.node == x || HasNode(b, x)
  {
    var s := a + [m] + b;
    if i :| 0 <= i < |a| && a[i].node == x { assert s[i].node == x; }
    if i :| 0 <= i < |b| && b[i].node == x { assert s[|a| + 1 + i].node == x; }
    assert s[|a|] == m;
  }

  lemma {:induction false} ItemsNodes(t: Tree)
    ensures forall x :: x in Nodes(t) <==> HasNode(Items(t), x)
  {
    if t.Bin? {
      ItemsNodes(t.left);
      ItemsNodes(t.right);
      forall x ensures x in Nodes(t) <==> HasNode(Items(t), x) {
        HasNodeSplit(Items(t.left), Item(t.node, t.key), Items(t.right), x);
      }
    }
  }

  /** Any member node can be brought into focus. */
  lemma {:induction false} Locate(t: Tree, x: Node) returns (c: Ctx, u: Tree)
    requires x in Nodes(t)
    ensures Plug(c, u) == t && u.Bin? && u.node == x
  {
    if t.node == x {
      c, u := Top, t;
    } else if x in Nodes(t.left) {
      c, u := Locate(t.left, x);
      var f := InL(Top, t.red, t.node, t.key, t.right);
      PlugComp(f, c, u);
      assert Plug(f, t.left) == Plug(Top, t);
      c := Comp(f, c);
    } else {
      c, u := Locate(t.right, x);
      var f := InR(Top, t.left, t.red, t.node, t.key);
      PlugComp(f, c, u);
      assert Plug(f, t.right) == Plug(Top, t);
      c := Comp(f, c);
    }
  }

  // ---------- the heap

  datatype Rec = Rec(key: nat, left: Node?, right: Node?, parent: Node?, red: bool)

  type Mem = map<Node, Rec>

  ghost function RecOf(x: Node): Rec
    reads x
  {
    Rec(x.key, x.left, x.right, x.parent, x.red)
  }

  ghost function Snap(s: set<Node>): (m: Mem)
    reads s
    ensures m.Keys == s
  {
    map x | x in s :: RecOf(x)
  }

  /** The memory `m` holds the tree `t`, hung below `p`; all its nodes are
      distinct and none is the sentinel. At the root `p` is null and the parent
      link is unconstrained. */
  ghost predicate Rep(m: Mem, t: Tree, p: Node?, s: Node) {
    t.Leaf? ||
    (&& t.node in m && t.node != s
     && m[t.node].key == t.key && m[t.node].red == t.red
     && m[t.node].left == Ptr(t.left, s) && m[t.node].right == Ptr(t.right, s)
     && (p != null ==> m[t.node].parent == p)
     && Rep(m, t.left, t.node, s) && Rep(m, t.right, t.node, s)
     && t.node !in Nodes(t.left) && t.node !in Nodes(t.right)
     && Nodes(t.left) !! Nodes(t.right))
  }

  /** The memory holds the context `c` around a subtree whose root is `hole`. */
  ghost predicate RepCtx(m: Mem, c: Ctx, hole: Node, s: Node) {
    c.Top? ||
    (var sib := if c.InL? then c.right else c.left;
     && c.node in m && c.node != s
     && m[c.node].key == c.key && m[c.node].red == c.red
     && m[c.node].left == (if c.InL? then hole else Ptr(sib, s))
     && m[c.node].right == (if c.InL? then Ptr(sib, s) else hole)
     && (!c.up.Top? ==> m[c.node].parent == c.up.node)
     && Rep(m, sib, c.node, s) && c.node !in Nodes(sib)
     && RepCtx(m, c.up, c.node, s)
     && c.node !in CtxNodes(c.up) && Nodes(sib) !! CtxNodes(c.up))
  }

  lemma {:induction false} PlugNodes(c: Ctx, t: Tree)
    ensures Nodes(Plug(c, t)) == CtxNodes(c) + Nodes(t)
    decreases c
  {
    if !c.Top? { PlugNodes(c.up, Close(c, t)); }
  }

  /** Holding a tree is holding the context and the subtree, apart. */
  lemma {:induction false} PlugRep(m: Mem, c: Ctx, t: Tree, s: Node)
    ensures Rep(m, Plug(c, t), null, s) <==>
      Rep(m, t, Up(c), s) && RepCtx(m, c, Ptr(t, s), s) && Nodes(t) !! CtxNodes(c)
    decreases c
  {
    if !c.Top? {
      PlugRep(m, c.up, Close(c, t), s);
      var sib := if c.InL? then c.right else c.left;
      assert Nodes(Close(c, t)) == Nodes(t) + {c.node} + Nodes(sib);
      if Rep(m, t, Up(c), s) && RepCtx(m, c, Ptr(t, s), s) && Nodes(t) !! CtxNodes(c) {
        assert Rep(m, Close(c, t), Up(c.up), s);
      }
    }
  }

  ghost predicate Agree(m: Mem, m': Mem, d: set<Node>) {
    forall x :: x in d && x in m ==> x in m' && m'[x] == m[x]
  }

  lemma {:induction false} RepFrame(m: Mem, m': Mem, t: Tree, p: Node?, s: Node)
    requires Rep(m, t, p, s) && Agree(m, m', Nodes(t))
    ensures Rep(m', t, p, s)
  {
    if t.Bin? {
      RepFrame(m, m', t.left, t.node, s);
      RepFrame(m, m', t.right, t.node, s);
    }
  }

  lemma {:induction false} RepNodes(m: Mem, t: Tree, p: Node?, s: Node)
    requires Rep(m, t, p, s)
    ensures Nodes(t) <= m.Keys && s !in Nodes(t)
  {
    if t.Bin? {
      RepNodes(m, t.left, t.node, s);
      RepNodes(m, t.right, t.node, s);
    }
  }

  lemma {:induction false} RepKeys(m: Mem, t: Tree, p: Node?, s: Node)
    requires Rep(m, t, p, s)
    ensures forall x :: x in Items(t) ==> x.node in m && m[x.node].key == x.key
  {
    if t.Bin? {
      RepKeys(m, t.left, t.node, s);
      RepKeys(m, t.right, t.node, s);
    }
  }

  lemma {:induction false} RepCtxNodes(m: Mem, c: Ctx, hole: Node, s: Node)
    requires RepCtx(m, c, hole, s)
    ensures CtxNodes(c) <= m.Keys && s !in CtxNodes(c)
  {
    if !c.Top? {
      RepNodes(m, if c.InL? then c.right else c.left, c.node, s);
      RepCtxNodes(m, c.up, c.node, s);
    }
  }

  /** A subtree rehung below another node, only its root's parent link changing. */
  lemma RepReparent(m: Mem, m': Mem, t: Tree, p: Node?, p': Node?, s: Node)
    requires Rep(m, t, p, s)
    requires t.Bin? ==> Agree(m, m', Nodes(t) - {t.node})
    requires t.Bin? ==> t.node in m' && m'[t.node] == m[t.node].(parent := m'[t.node].parent)
    requires t.Bin? && p' != null ==> m'[t.node].parent == p'
    ensures Rep(m', t, p', s)
  {
    if t.Bin? {
      RepFrame(m, m', t.left, t.node, s);
      RepFrame(m, m', t.right, t.node, s);
    }
  }

  lemma {:induction false} RepCtxFrame(m: Mem, m': Mem, c: Ctx, hole: Node, s: Node)
    requires RepCtx(m, c, hole, s) && Agree(m, m', CtxNodes(c))
    ensures RepCtx(m', c, hole, s)
  {
    if !c.Top? {
      RepFrame(m, m', if c.InL? then c.right else c.left, c.node, s);
      RepCtxFrame(m, m', c.up, c.node, s);
    }
  }

  ghost function Aim(c: Ctx, r: Rec, hole: Node): Rec {
    if c.InL? then r.(left := hole) else r.(right := hole)
  }

  /** Another root put into the hole, only the link to it changing. */
  lemma RepCtxRefill(m: Mem, m': Mem, c: Ctx, hole: Node, hole': Node, s: Node)
    requires RepCtx(m, c, hole, s)
    requires !c.Top? ==> Agree(m, m', CtxNodes(c) - {c.node})
    requires !c.Top? ==> c.node in m' && m'[c.node] == Aim(c, m[c.node], hole')
    ensures RepCtx(m', c, hole', s)
  {
    if !c.Top? {
      RepFrame(m, m', if c.InL? then c.right else c.left, c.node, s);
      RepCtxFrame(m, m', c.up, c.node, s);
    }
  }

  // ---------- colours

  ghost predicate IsRed(t: Tree) { t.Bin? && t.red }

  ghost predicate RedFrame(c: Ctx) { !c.Top? && c.red }

  /** No red node has a red child, and every path to a leaf meets `h` black nodes. */
  ghost predicate RB(t: Tree, h: nat) {
    if t.Leaf? then h == 0
    else if t.red then
      !IsRed(t.left) && !IsRed(t.right) && RB(t.left, h) && RB(t.right, h)
    else
      h > 0 && RB(t.left, h - 1) && RB(t.right, h - 1)
  }

  /** The same of a context, its hole standing for a black subtree with `h` black
      nodes on every path; a red node has a node above it. */
  ghost predicate CtxRB(c: Ctx, h: nat) {
    c.Top? ||
    (var sib := if c.InL? then c.right else c.left;
     && RB(sib, h)
     && (c.red ==> !IsRed(sib) && !c.up.Top? && !c.up.red)
     && CtxRB(c.up, if c.red then h else h + 1))
  }

  ghost predicate Balanced(t: Tree) {
    !IsRed(t) && exists h :: RB(t, h)
  }

  lemma {:induction false} PlugRB(c: Ctx, t: Tree, h: nat)
    requires CtxRB(c, h) && RB(t, h)
    requires IsRed(t) ==> !c.Top? && !c.red
    ensures Balanced(Plug(c, t))
    decreases c
  {
    if !c.Top? {
      PlugRB(c.up, Close(c, t), if c.red then h else h + 1);
    }
  }

  lemma {:induction false} UnplugRB(c: Ctx, t: Tree) returns (h: nat)
    requires Balanced(Plug(c, t))
    ensures CtxRB(c, h) && RB(t, h)
    ensures IsRed(t) ==> !c.Top? && !c.red
    decreases c
  {
    if c.Top? {
      h :| RB(t, h);
    } else {
      var h' := UnplugRB(c.up, Close(c, t));
      h := if c.red then h' else h' - 1;
    }
  }

  // ---------- order

  ghost predicate Sorted(s: seq<Item>) {
    forall i, j :: 0 <= i < j < |s| ==> s[i].key <= s[j].key
  }

  // ---------- height

  ghost function Height(t: Tree): nat {
    if t.Leaf? then 0
    else 1 + if Height(t.left) < Height(t.right) then Height(t.right) else Height(t.left)
  }

  lemma {:induction false} BlackHeightBounds(t: Tree, h: nat)
    requires RB(t, h)
    ensures Height(t) <= 2 * h + (if IsRed(t) then 1 else 0)
    ensures |Items(t)| + 1 >= Pow2(h)
  {
    if t.Bin? {
      BlackHeightBounds(t.left, if t.red then h else h - 1);
      BlackHeightBounds(t.right, if t.red then h else h - 1);
    }
  }

  /** What balance is for: a tree of `n` nodes has height at most 2 log2(n + 1). */
  lemma LogarithmicHeight(t: Tree)
    requires Balanced(t)
    ensures exists h: nat :: Height(t) <= 2 * h && Pow2(h) <= |Items(t)| + 1
  {
    var h :| RB(t, h);
    BlackHeightBounds(t, h);
  }
}
