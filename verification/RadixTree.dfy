/** nginx's radix tree: a binary trie of the prefixes of 32-bit keys whose nodes come from
    whole pages or from a list of freed nodes. The nodes are found by their paths, and the
    stored values form a finite map from prefixes, of which a search returns the longest.
 */
module RadixTree {

  import opened Common
  import opened RadixShape

  datatype Rc = Ok | Error | Busy

  /** The different nodes of `list` are linked from `head` on through `right`. */
  ghost predicate Chain(head: Node?, list: seq<Node>)
    reads list
  {
    if list == [] then head == null
    else head == list[0] && list[0] !in list[1..] && Chain(list[0].right, list[1..])
  }

  ghost function At(nodes: map<Prefix, Node>, p: Prefix): Node? {
    if p in nodes then nodes[p] else null
  }

  /** The nodes by their paths: closed under prefixes, no node twice, none of them freed, and
      every stored prefix among them. */
  ghost predicate Trie(root: Node, nodes: map<Prefix, Node>, routes: map<Prefix, nat>, spare: seq<Node>) {
    && At(nodes, []) == root
    && (forall p :: p in nodes ==> |p| <= 32 && (p != [] ==> Up(p) in nodes))
    && (forall p, q :: p in nodes && q in nodes && nodes[p] == nodes[q] ==> p == q)
    && (forall p :: p in routes ==> p in nodes && routes[p] != NO_VALUE)
    && (forall p :: p in nodes ==> nodes[p] !in spare)
  }

  /** The fields of a node. */
  datatype Rec = Rec(left: Node?, right: Node?, parent: Node?, value: nat)

  ghost function RecOf(n: Node): Rec
    reads n
  {
    Rec(n.left, n.right, n.parent, n.value)
  }

  /** What the fields of the node at `p` are. */
  ghost predicate Fields(nodes: map<Prefix, Node>, routes: map<Prefix, nat>, p: Prefix, r: Rec) {
    && r.left == At(nodes, Child(p, false))
    && r.right == At(nodes, Child(p, true))
    && r.parent == (if p == [] then null else At(nodes, Up(p)))
    && r.value == if p in routes then routes[p] else NO_VALUE
  }

  lemma TrieFacts(root: Node, nodes: map<Prefix, Node>, routes: map<Prefix, nat>, spare: seq<Node>, q: Prefix)
    requires Trie(root, nodes, routes, spare) && q in nodes
    ensures q != [] ==> Up(q) in nodes
    ensures nodes[q] !in spare
    ensures forall p :: p in nodes && p != q ==> nodes[p] != nodes[q]
  {}

  /** Without its first node the list is a list still, and that node is in no list. */
  lemma Pop(root: Node, nodes: map<Prefix, Node>, routes: map<Prefix, nat>, free: Node, spare: seq<Node>)
    requires Trie(root, nodes, routes, spare) && Chain(free, spare)
    ensures spare != [] && spare[0] == free
    ensures Trie(root, nodes, routes, spare[1..]) && Chain(free.right, spare[1..])
    ensures free !in spare[1..] && forall p :: p in nodes ==> nodes[p] != free
  {
    assert spare[0] in spare;
  }

  lemma ChainEnds(head: Node?, list: seq<Node>)
    requires Chain(head, list)
    ensures head == null <==> list == []
  {}

  // ---------- memory

  /** The nodes that can still be cut: those of the current page and of the pages to come. */
  ghost function Stock(slots: nat, supply: nat, perPage: nat): nat { slots + supply * perPage }

  lemma StockNext(slots: nat, supply: nat, perPage: nat)
    requires slots > 0
    ensures Stock(slots - 1, supply, perPage) + 1 == Stock(slots, supply, perPage)
  {}

  lemma StockPage(supply: nat, perPage: nat)
    requires supply > 0
    ensures Stock(perPage, supply - 1, perPage) == Stock(0, supply, perPage)
  {}

  lemma StockAll(supply: nat, perPage: nat)
    ensures Stock(0, supply, perPage) == supply * perPage
    ensures supply == 0 ==> supply * perPage == 0
  {}

  lemma PerPage(pageSize: nat, nodeSize: nat)
    requires 0 < nodeSize <= pageSize
    ensures pageSize / nodeSize > 0
  {}

  lemma StockNone(slots: nat, supply: nat, perPage: nat)
    requires perPage > 0
    ensures Stock(slots, supply, perPage) == 0 <==> slots == 0 && supply == 0
  {
    if supply > 0 { MulLe(1, supply, perPage); }
  }

  // ---------- leaves

  ghost predicate Leaf(nodes: map<Prefix, Node>, p: Prefix) {
    p in nodes && Child(p, false) !in nodes && Child(p, true) !in nodes
  }

  /** Only stored prefixes, and the root, are leaves. */
  ghost predicate TightIn(nodes: map<Prefix, Node>, routes: map<Prefix, nat>) {
    forall p :: Leaf(nodes, p) && p != [] ==> p in routes
  }

  // ---------- one value more or less

  function Put(routes: map<Prefix, nat>, p: Prefix, value: nat): map<Prefix, nat> {
    if value == NO_VALUE then routes - {p} else routes[p := value]
  }

  lemma PutNone(p: Prefix)
    ensures Put(map[], p, NO_VALUE) == map[]
  {}

  lemma PutTrie(root: Node, nodes: map<Prefix, Node>, routes: map<Prefix, nat>, spare: seq<Node>,
                p: Prefix, value: nat)
    requires Trie(root, nodes, routes, spare) && p in nodes
    ensures Trie(root, nodes, Put(routes, p, value), spare)
  {}

  lemma PutOther(nodes: map<Prefix, Node>, routes: map<Prefix, nat>, p: Prefix, value: nat,
                 q: Prefix, r: Rec)
    requires Fields(nodes, routes, q, r)
    ensures Fields(nodes, Put(routes, p, value), q, if q == p then r.(value := value) else r)
  {}

  // ---------- one node more

  lemma HangTrie(root: Node, nodes: map<Prefix, Node>, routes: map<Prefix, nat>, spare: seq<Node>,
                 p: Prefix, b: bool, next: Node)
    requires Trie(root, nodes, routes, spare) && p in nodes && |p| < 32 && Child(p, b) !in nodes
    requires (forall q :: q in nodes ==> nodes[q] != next) && next !in spare
    ensures Trie(root, nodes[Child(p, b) := next], routes, spare)
  {
    ChildUp(p, b);
  }

  lemma HangOther(nodes: map<Prefix, Node>, routes: map<Prefix, nat>, p: Prefix, b: bool, next: Node,
                  q: Prefix, r: Rec)
    requires Child(p, b) !in nodes && q in nodes && Fields(nodes, routes, q, r)
    requires q != [] ==> Up(q) in nodes
    ensures q != p ==> Fields(nodes[Child(p, b) := next], routes, q, r)
    ensures q == p ==> Fields(nodes[Child(p, b) := next], routes, q, if b then r.(right := next) else r.(left := next))
  {
    ChildUp(p, b);
    ChildUp(q, false);
    ChildUp(q, true);
  }

  lemma HangNew(root: Node, nodes: map<Prefix, Node>, routes: map<Prefix, nat>, spare: seq<Node>,
                p: Prefix, b: bool, next: Node)
    requires Trie(root, nodes, routes, spare) && p in nodes && Child(p, b) !in nodes
    ensures Fields(nodes[Child(p, b) := next], routes, Child(p, b), Rec(null, null, nodes[p], NO_VALUE))
  {
    var c := Child(p, b);
    ChildUp(p, b);
    ChildUp(c, false);
    ChildUp(c, true);
  }

  lemma NextOnPath(p: Prefix, b: Prefix, m: nat)
    requires m <= |b|
    ensures p <= b[..m] && p != b[..m] ==> Child(p, false) <= b[..m] || Child(p, true) <= b[..m]
  {
    if p <= b[..m] && p != b[..m] {
      assert Child(p, b[|p|]) <= b[..m];
    }
  }

  /** The nodes are those of `first` and every one of `m` bits or fewer. */
  ghost predicate Deep(first: map<Prefix, Node>, nodes: map<Prefix, Node>, m: nat) {
    forall q :: q in nodes <==> q in first || |q| <= m
  }

  /** The nodes are those of `first` and the path down to `p`. */
  ghost predicate Onto(first: map<Prefix, Node>, nodes: map<Prefix, Node>, p: Prefix) {
    forall q :: q in nodes <==> q in first || q <= p
  }

  /** The nodes are those of `first` and the path of `b` down to depth `i`, where it leaves them. */
  ghost predicate Added(first: map<Prefix, Node>, nodes: map<Prefix, Node>, b: Prefix, i: nat) {
    && i <= |b| && Onto(first, nodes, b[..i])
    && (forall j :: i < j <= |b| ==> b[..j] !in first)
  }

  ghost predicate Kept(first: map<Prefix, Node>, nodes: map<Prefix, Node>) {
    forall q :: q in first ==> q in nodes && nodes[q] == first[q]
  }

  lemma KeptMore(first: map<Prefix, Node>, nodes: map<Prefix, Node>, p: Prefix, next: Node)
    requires Kept(first, nodes) && p !in nodes
    ensures Kept(first, nodes[p := next])
  {}

  lemma AddedOut(first: map<Prefix, Node>, nodes: map<Prefix, Node>, b: Prefix, i: nat)
    requires Added(first, nodes, b, i) && i < |b|
    ensures b[..i + 1] !in nodes
  {}

  lemma LongerPath(q: Prefix, b: Prefix, i: nat)
    requires i < |b|
    ensures q <= b[..i + 1] <==> q <= b[..i] || q == b[..i + 1]
  {
    if q <= b[..i + 1] && |q| <= i { assert q == b[..|q|]; }
  }

  lemma AddedMore(first: map<Prefix, Node>, nodes: map<Prefix, Node>, b: Prefix, i: nat, next: Node)
    requires Added(first, nodes, b, i) && i < |b|
    ensures Added(first, nodes[b[..i + 1] := next], b, i + 1)
  {
    var after := nodes[b[..i + 1] := next];
    forall q ensures q in after <==> q in first || q <= b[..i + 1] {
      LongerPath(q, b, i);
    }
  }

  /** How deep the nodes reach on the path to `p`. */
  ghost function Reach(nodes: map<Prefix, Node>, p: Prefix): (i: nat)
    ensures i <= |p|
    decreases |p|
  {
    if p == [] || p in nodes then |p| else Reach(nodes, Up(p))
  }

  lemma {:induction false} ReachIs(nodes: map<Prefix, Node>, b: Prefix, i: nat, m: nat)
    requires i <= m <= |b| && b[..i] in nodes && forall j :: i < j <= m ==> b[..j] !in nodes
    ensures Reach(nodes, b[..m]) == i
    decreases m
  {
    if i < m {
      assert Up(b[..m]) == b[..m - 1];
      ReachIs(nodes, b, i, m - 1);
    }
  }

  /** Where the path ends before `p` it has no node at `p`. */
  lemma OntoShort(first: map<Prefix, Node>, nodes: map<Prefix, Node>, p: Prefix, k: nat)
    requires k < |p| && Onto(first, nodes, p[..k]) && Reach(first, p) <= k
    ensures p !in nodes
  {}

  lemma AddedPath(first: map<Prefix, Node>, nodes: map<Prefix, Node>, b: Prefix, i: nat)
    requires Added(first, nodes, b, i)
    ensures i <= |b| && Onto(first, nodes, b[..i])
  {}

  /** With the whole path of a stored prefix added, only stored prefixes are leaves still. */
  lemma TightMore(before: map<Prefix, Node>, was: map<Prefix, nat>, after: map<Prefix, Node>,
                  b: Prefix, m: nat, value: nat)
    requires TightIn(before, was) && m <= |b| && value != NO_VALUE
    requires Onto(before, after, b[..m])
    ensures TightIn(after, Put(was, b[..m], value))
  {
    forall p | Leaf(after, p) && p != [] ensures p in Put(was, b[..m], value) {
      NextOnPath(p, b, m);
      if p in before {
        assert Leaf(before, p);
      }
    }
  }

  lemma PushChain(node: Node, spare: seq<Node>)
    requires Chain(node.right, spare) && node !in spare
    ensures Chain(node, [node] + spare)
  {
    assert ([node] + spare)[1..] == spare;
  }

  // ---------- one node less

  lemma DropTrie(root: Node, nodes: map<Prefix, Node>, routes: map<Prefix, nat>, spare: seq<Node>, p: Prefix)
    requires Trie(root, nodes, routes, spare) && Leaf(nodes, p) && p != []
    ensures Trie(root, nodes - {p}, routes - {p}, [nodes[p]] + spare)
    ensures |nodes - {p}| == |nodes| - 1
  {
    var after := nodes - {p};
    forall q | q in after && q != [] ensures Up(q) in after {
      UpChild(q);
    }
    assert after[p := nodes[p]] == nodes;
  }

  lemma DropOther(nodes: map<Prefix, Node>, routes: map<Prefix, nat>, p: Prefix, q: Prefix, r: Rec)
    requires Leaf(nodes, p) && p != [] && q in nodes && q != p
    requires Fields(nodes, routes, q, r) && (q != [] ==> Up(q) in nodes)
    ensures q != Up(p) ==> Fields(nodes - {p}, routes - {p}, q, r)
    ensures q == Up(p) ==>
              Fields(nodes - {p}, routes - {p}, q, if p[|p| - 1] then r.(right := null) else r.(left := null))
  {
    UpChild(p);
    if q != [] { UpChild(q); }
    ChildUp(q, false);
    ChildUp(q, true);
  }

  /** The leaves but `p` are stored. */
  ghost predicate TightBut(nodes: map<Prefix, Node>, routes: map<Prefix, nat>, p: Prefix) {
    forall q :: Leaf(nodes, q) && q != [] && q != p ==> q in routes
  }

  lemma TightLess(nodes: map<Prefix, Node>, routes: map<Prefix, nat>, p: Prefix)
    requires TightBut(nodes, routes, p) && p != []
    ensures TightBut(nodes - {p}, routes - {p}, Up(p))
  {
    forall q | Leaf(nodes - {p}, q) && q != [] && q != Up(p) ensures q in routes - {p} {
      ChildUp(q, false);
      ChildUp(q, true);
      assert Leaf(nodes, q);
    }
  }

  lemma TightWhole(nodes: map<Prefix, Node>, routes: map<Prefix, nat>, p: Prefix)
    requires TightIn(nodes, routes)
    ensures TightBut(nodes, routes, p)
  {}

  lemma TightAgain(nodes: map<Prefix, Node>, routes: map<Prefix, nat>, p: Prefix)
    requires TightBut(nodes, routes, p) && (Leaf(nodes, p) && p != [] ==> p in routes)
    ensures TightIn(nodes, routes)
  {}

  lemma Fewer(nodes: map<Prefix, Node>, p: Prefix)
    requires p in nodes
    ensures |nodes - {p}| < |nodes|
  {
    assert (nodes - {p})[p := nodes[p]] == nodes;
  }

  /** The `n`-th key of a level, if the level has more than one. */
  ghost predicate Turn(key: bv32, inc: bv32, m: nat, was: nat, n: nat) {
    if was < 32 then m == was + 1 && inc == BitAt(was) && Short(key, m) && n == Num(Bits(key)[..m])
    else m == 32 && inc == 0 && key == 0
  }

  /** The first `n` prefixes of `m` bits are in place. */
  ghost predicate Seen(nodes: map<Prefix, Node>, m: nat, n: nat) {
    forall q :: |q| == m && Num(q) < n ==> q in nodes
  }

  /** The nodes are those of `first` and perhaps some of `m` bits or fewer. */
  ghost predicate Within(first: map<Prefix, Node>, nodes: map<Prefix, Node>, m: nat) {
    && (forall q :: q in first ==> q in nodes)
    && (forall q :: q in nodes ==> q in first || |q| <= m)
  }

  /** Not every prefix of `m` bits or fewer has a node. */
  ghost predicate Lacks(nodes: map<Prefix, Node>, m: nat) {
    exists q :: |q| <= m && q !in nodes
  }

  lemma FirstBit()
    ensures BitAt(0) == 0x8000_0000
  {}

  lemma NextBit(was: nat)
    requires was <= 32
    ensures Half(BitAt(was)) == BitAt(if was < 32 then was + 1 else 32)
  {
    LastBit();
  }

  lemma FirstTurn(inc: bv32, m: nat, was: nat)
    requires was <= 32 && inc == BitAt(was) && m == if was < 32 then was + 1 else 32
    ensures Turn(0, inc, m, was, 0)
  {
    hide BitAt, Half;
    LastBit();
    NumZero(m);
  }

  lemma NextTurn(key: bv32, inc: bv32, m: nat, was: nat, n: nat)
    requires Turn(key, inc, m, was, n) && was <= 32
    ensures var next := Add(key, inc);
            && (next != 0 ==> was < 32 && Turn(next, inc, m, was, n + 1))
            && (was < 32 ==> n < Pow2(m) && (next == 0 ==> n + 1 == Pow2(m)))
  {
    hide BitAt, Bits, Short, Num, Half;
    if was < 32 { NextKey(key, Add(key, inc), m); }
  }

  lemma SeenNone(nodes: map<Prefix, Node>, m: nat)
    ensures Seen(nodes, m, 0) && Within(nodes, nodes, m)
  {}

  lemma WithinNext(first: map<Prefix, Node>, before: map<Prefix, Node>, nodes: map<Prefix, Node>, p: Prefix, m: nat)
    requires Within(first, before, m) && Onto(before, nodes, p) && |p| == m
    ensures Within(first, nodes, m)
  {}

  /** An insertion that fails leaves its prefix without a node. */
  lemma Insufficient(first: map<Prefix, Node>, before: map<Prefix, Node>, nodes: map<Prefix, Node>, p: Prefix, k: nat,
                     m: nat)
    requires Within(first, before, m) && |p| == m && Reach(before, p) <= k < m && Onto(before, nodes, p[..k])
    ensures Within(first, nodes, m) && Lacks(nodes, m)
  {
    OntoShort(before, nodes, p, k);
  }

  lemma WithinMore(first: map<Prefix, Node>, before: map<Prefix, Node>, nodes: map<Prefix, Node>, was: nat, m: nat,
                   d: nat)
    requires Deep(first, before, was) && Within(before, nodes, m) && Lacks(nodes, m) && was <= m <= d
    ensures Within(first, nodes, d) && Lacks(nodes, d)
  {
    var q :| |q| <= m && q !in nodes;
    assert |q| <= d;
  }

  lemma SeenNext(before: map<Prefix, Node>, nodes: map<Prefix, Node>, m: nat, n: nat, key: bv32, inc: bv32, was: nat)
    requires Seen(before, m, n) && Turn(key, inc, m, was, n) && was <= 32
    requires Onto(before, nodes, Bits(key)[..m])
    ensures was < 32 ==> Seen(nodes, m, n + 1)
  {
    hide BitAt, Bits, Short, Num, Half;
    forall q | was < 32 && |q| == m && Num(q) < n + 1 ensures q in nodes {
      if Num(q) == n { NumSame(q, Bits(key)[..m]); }
    }
  }

  lemma SeenAll(first: map<Prefix, Node>, nodes: map<Prefix, Node>, m: nat, n: nat, was: nat)
    requires Deep(first, first, was) && Within(first, nodes, m) && m == if was < 32 then was + 1 else 32
    requires was < 32 ==> Seen(nodes, m, n) && n == Pow2(m)
    ensures Deep(first, nodes, m)
  {
    forall q: Prefix | |q| <= m ensures q in nodes {
      if |q| > was { NumBound(q); }
    }
  }

  lemma DeepNone(nodes: map<Prefix, Node>)
    requires [] in nodes
    ensures Deep(nodes, nodes, 0)
  {
    assert forall q: Prefix :: |q| == 0 ==> q == [];
  }

  lemma DeepSelf(first: map<Prefix, Node>, nodes: map<Prefix, Node>, m: nat)
    requires Deep(first, nodes, m)
    ensures Deep(nodes, nodes, m)
  {}

  lemma DeepMore(first: map<Prefix, Node>, before: map<Prefix, Node>, nodes: map<Prefix, Node>, was: nat, m: nat)
    requires Deep(first, before, was) && Deep(before, nodes, m) && was <= m
    ensures Deep(first, nodes, m)
  {}

  lemma LeadingNone()
    ensures Leading(0, 0)
  {}

  lemma LeadingMore(mask: bv32, m: nat)
    requires Leading(mask, m)
    ensures Leading(NextMask(mask), if m < 32 then m + 1 else 32)
  {
    if m < 32 {
      LeadingNext(mask, m);
    } else {
      hide Test, NextMask, Half;
      forall i | 0 <= i < 32 ensures Test(NextMask(mask), BitAt(i)) {
        if i == 0 { TopSet(mask); } else { ShiftAt(mask, i); }
      }
    }
  }

  class Tree {
    var root: Node
    var free: Node?
    /** Nodes left in the current page, nodes a page holds, and pages the pool can still give. */
    var slots: nat
    const perPage: nat
    var supply: nat

    ghost var nodes: map<Prefix, Node>
    ghost var routes: map<Prefix, nat>
    ghost var spare: seq<Node>
    /** Nodes ever cut from pages, and how many can be cut in all. */
    ghost var drawn: nat
    ghost const capacity: nat

    ghost predicate Shape()
      reads this
    {
      Trie(root, nodes, routes, spare)
    }

    ghost predicate Good(p: Prefix)
      requires p in nodes
      reads this, nodes[p]
    {
      Fields(nodes, routes, p, RecOf(nodes[p]))
    }

    /** The tree and the list of freed nodes stand, and all but `k` of the nodes ever cut are
        in one of them. */
    ghost predicate Held(k: nat)
      reads this, nodes.Values, spare
    {
      && perPage > 0
      && Shape()
      && (forall p :: p in nodes ==> Good(p))
      && Chain(free, spare)
      && |nodes| + |spare| + k == drawn
      && drawn + Stock(slots, supply, perPage) == capacity
    }

    ghost predicate Valid()
      reads this, nodes.Values, spare
    {
      Held(0)
    }

    /** How many nodes can be had: freed ones, those of the current page and of the pages to come. */
    ghost function Room(): nat
      reads this
    {
      |spare| + Stock(slots, supply, perPage)
    }

    /** No node is lost: what is not in the tree can be had. */
    lemma Conserved()
      requires Valid()
      ensures |nodes| + Room() == capacity
    {}

    ghost predicate Tight()
      reads this
    {
      TightIn(nodes, routes)
    }

    /** All the nodes of the first `d` bits and no others. */
    ghost predicate Full(d: int)
      reads this
    {
      forall q :: q in nodes <==> |q| <= d
    }

    lemma Alone(node: Node)
      requires nodes == map[[] := node] && routes == map[] && spare == [] && root == node
      requires node.left == null && node.right == null && node.parent == null && node.value == NO_VALUE
      ensures Shape() && Tight() && (forall p :: p in nodes ==> Good(p)) && |nodes| == 1
    {
      assert Child([], false) != [] && Child([], true) != [];
      assert forall p :: p in nodes ==> p == [];
    }

    /** An empty tree: the root alone, cut from the first page. */
    constructor (perPage: nat, supply: nat)
      requires perPage > 0 && supply > 0
      ensures Valid() && Tight() && routes == map[] && this.perPage == perPage && nodes.Keys == {[]}
      ensures capacity == Stock(0, supply, perPage)
      ensures fresh(nodes.Values) && spare == []
    {
      hide Stock, Trie, TightIn, Fields;
      var node := new Node();
      node.right, node.left, node.parent, node.value := null, null, null, NO_VALUE;
      root, free := node, null;
      this.perPage, this.supply, slots := perPage, supply - 1, perPage - 1;
      nodes, routes, spare, drawn := map[[] := node], map[], [], 1;
      capacity := Stock(0, supply, perPage);
      StockNext(perPage, supply - 1, perPage);
      StockPage(supply, perPage);
      new;
      Alone(node);
    }

    // ---------- paths

    lemma RootAt()
      requires Valid()
      ensures forall b: Prefix :: b[..0] in nodes && nodes[b[..0]] == root
    {
      assert forall b: Prefix :: b[..0] == [];
    }

    lemma TopBit()
      ensures BitAt(0) == 0x8000_0000
    {}

    lemma Shift(i: nat)
      ensures Half(BitAt(i)) == BitAt(i + 1)
    {}

    lemma NoBit(key: bv32)
      ensures !Test(key, BitAt(32))
    {
      LastBit();
    }

    lemma StepKey(key: bv32, i: nat)
      ensures i < 32 ==> Child(Bits(key)[..i], Test(key, BitAt(i))) == Bits(key)[..i + 1]
      ensures i == 32 ==> !Test(key, BitAt(i))
      ensures Half(BitAt(i)) == BitAt(i + 1)
    {
      hide Test;
      Shift(i);
      if i == 32 { NoBit(key); }
    }

    lemma StepMask(mask: bv32, m: nat, i: nat)
      requires i <= m && Leading(mask, m)
      ensures m <= 32 && (Test(mask, BitAt(i)) <==> i < m)
    {
      LastBit();
    }

    lemma {:induction false} PrefixesIn(p: Prefix, q: Prefix)
      requires Valid() && p in nodes && q <= p
      ensures q in nodes
      decreases |p|
    {
      hide Chain, Fields;
      if q != p { PrefixesIn(Up(p), q); }
    }

    /** A node with no child on one side has nothing below it there. */
    lemma {:induction false} NothingBelow(b: Prefix, i: nat, j: nat)
      requires Valid() && i <= j <= |b| && b[..i] !in nodes
      ensures b[..j] !in nodes
    {
      hide Chain, Fields;
      if j > i && b[..j] in nodes {
        assert Up(b[..j]) == b[..j - 1];
        NothingBelow(b, i, j - 1);
      }
    }

    // ---------- ngx_radix32tree_find

    lemma EndOfPath(b: Prefix, i: nat)
      requires Valid() && |b| == 32 && i <= 32
      requires i < 32 ==> b[..i + 1] !in nodes
      ensures Longest(routes, b) == Longest(routes, b[..i])
    {
      forall j | i < j <= |b| ensures b[..j] !in routes {
        NothingBelow(b, i + 1, j);
      }
      LongestAbove(routes, b, i);
    }

    /** One turn of the search: the value of the node at depth `i` decides, or the one above
        it does; and where the path ends no longer prefix is stored. */
    lemma Visit(key: bv32, i: nat)
      requires Valid() && i <= 32 && Bits(key)[..i] in nodes
      ensures var b, n := Bits(key), nodes[Bits(key)[..i]];
              var next := if Test(key, BitAt(i)) then n.right else n.left;
              && Longest(routes, b[..i]) ==
                   (if n.value != NO_VALUE then n.value
                    else if i == 0 then NO_VALUE else Longest(routes, b[..i - 1]))
              && Half(BitAt(i)) == BitAt(i + 1)
              && (next == null ==> Longest(routes, b) == Longest(routes, b[..i]))
              && (next != null ==> i < 32 && b[..i + 1] in nodes && nodes[b[..i + 1]] == next)
    {
      hide Test, BitAt, Bits, Leading, Chain, Half;
      var b := Bits(key);
      var n := nodes[b[..i]];
      assert Good(b[..i]);
      assert i > 0 ==> Up(b[..i]) == b[..i - 1];
      StepKey(key, i);
      var next := if Test(key, BitAt(i)) then n.right else n.left;
      if next == null {
        EndOfPath(b, i);
      }
    }

    method Find(key: bv32) returns (value: nat)
      requires Valid()
      ensures value == Longest(routes, Bits(key))
    {
      hide Test, BitAt, Bits, Leading, Chain, Shape, Longest, Good, Half;
      TopBit();
      var bit: bv32 := 0x8000_0000;
      value := NO_VALUE;
      var node: Node? := root;
      RootAt();
      ghost var b, i := Bits(key), 0;
      while node != null
        invariant bit == BitAt(i)
        invariant node != null ==> i <= 32 && b[..i] in nodes && nodes[b[..i]] == node
        invariant node != null ==> value == (if i == 0 then NO_VALUE else Longest(routes, b[..i - 1]))
        invariant node == null ==> value == Longest(routes, b)
        decreases node != null, 33 - i
      {
        Visit(key, i);
        if node.value != NO_VALUE { value := node.value; }
        var right := Test(key, bit);
        if right { node := node.right; } else { node := node.left; }
        bit := Half(bit);
        i := i + 1;
      }
    }

    /** The child of a node on the path of `key` is the next node of that path. */
    lemma Below(key: bv32, i: nat)
      requires Valid() && i < 32 && Bits(key)[..i] in nodes
      ensures var b, n := Bits(key), nodes[Bits(key)[..i]];
              (if Test(key, BitAt(i)) then n.right else n.left) == At(nodes, b[..i + 1])
      ensures Half(BitAt(i)) == BitAt(i + 1)
    {
      hide Test, BitAt, Bits, Leading, Chain, Half;
      StepKey(key, i);
      assert Good(Bits(key)[..i]);
    }

    // ---------- ngx_radix_alloc

    /** A node from the list of freed ones, or the next one of a page. */
    method Alloc() returns (r: Node?)
      requires Valid()
      modifies this
      ensures root == old(root) && nodes == old(nodes) && routes == old(routes)
      ensures r == null <==> old(free == null && slots == 0 && supply == 0)
      ensures r == null <==> old(Room()) == 0
      ensures Room() == if r == null then 0 else old(Room()) - 1
      ensures r == null ==> Valid() && spare == old(spare) && free == null && slots == 0 && supply == 0
      ensures r != null ==> Held(1) && (forall p :: p in nodes ==> nodes[p] != r) && r !in spare
      ensures r != null ==> r in old(spare) || fresh(r)
      ensures (forall x :: x in spare ==> x in old(spare)) && |spare| <= old(|spare|)
    {
      hide Trie, Fields, Chain, RecOf, Stock;
      ChainEnds(free, spare);
      StockNone(slots, supply, perPage);
      if free != null {
        r := free;
        Pop(root, nodes, routes, free, spare);
        free := free.right;
        spare := spare[1..];
        return;
      }
      if slots == 0 {
        if supply == 0 { return null; }
        StockPage(supply, perPage);
        supply := supply - 1;
        slots := perPage;
      }
      r := new Node();
      StockNext(slots, supply, perPage);
      slots := slots - 1;
      drawn := drawn + 1;
    }

    // ---------- ngx_radix32tree_insert

    /** The links of a new child. */
    method Link(b: bool, node: Node, next: Node)
      requires node != next
      modifies node, next
      ensures RecOf(next) == Rec(null, null, node, NO_VALUE)
      ensures RecOf(node) == old(if b then RecOf(node).(right := next) else RecOf(node).(left := next))
    {
      next.right := null;
      next.left := null;
      next.parent := node;
      next.value := NO_VALUE;
      if b {
        node.right := next;
      } else {
        node.left := next;
      }
    }

    /** What the fields of the nodes must be once `next` is a child of the node at `p`. */
    lemma BeforeHang(p: Prefix, b: bool, next: Node)
      requires Held(1) && p in nodes && |p| < 32 && Child(p, b) !in nodes
      requires (forall q :: q in nodes ==> nodes[q] != next) && next !in spare
      ensures var n, c := nodes, Child(p, b);
              && Trie(root, n[c := next], routes, spare) && nodes[p] !in spare
              && Fields(n[c := next], routes, c, Rec(null, null, n[p], NO_VALUE))
              && Fields(n[c := next], routes, p,
                        if b then RecOf(n[p]).(right := next) else RecOf(n[p]).(left := next))
      ensures forall q :: q in nodes && q != p ==>
                            && nodes[q] != nodes[p]
                            && Fields(nodes[Child(p, b) := next], routes, q, RecOf(nodes[q]))
    {
      hide Trie, Fields, Child, Up, At, RecOf, Chain;
      var n := nodes;
      HangTrie(root, n, routes, spare, p, b, next);
      HangNew(root, n, routes, spare, p, b, next);
      TrieFacts(root, n, routes, spare, p);
      assert Good(p);
      HangOther(n, routes, p, b, next, p, RecOf(n[p]));
      forall q | q in n && q != p ensures Fields(n[Child(p, b) := next], routes, q, RecOf(n[q])) {
        TrieFacts(root, n, routes, spare, q);
        assert Good(q);
        HangOther(n, routes, p, b, next, q, RecOf(n[q]));
      }
    }

    /** Makes `next` the child of the node at `p` on side `b`, without a value. */
    method Hang(ghost p: Prefix, b: bool, node: Node, next: Node)
      requires Held(1) && p in nodes && nodes[p] == node && |p| < 32 && Child(p, b) !in nodes
      requires (forall q :: q in nodes ==> nodes[q] != next) && next !in spare
      modifies this`nodes, node, next
      ensures nodes == old(nodes)[Child(p, b) := next]
      ensures Valid()
    {
      hide Trie, Fields, Child, Up, At, RecOf, Chain;
      ghost var n := nodes;
      BeforeHang(p, b, next);
      Link(b, node, next);
      nodes := nodes[Child(p, b) := next];
      forall q | q in nodes ensures Good(q) {
        if q != Child(p, b) && q != p { assert RecOf(n[q]) == old(RecOf(n[q])); }
      }
    }

    /** Sets the value of the node at `p`. */
    method SetValue(ghost p: Prefix, node: Node, value: nat)
      requires Valid() && p in nodes && nodes[p] == node
      modifies this`routes, node`value
      ensures Valid() && routes == Put(old(routes), p, value)
    {
      hide Trie, Fields, Put, Chain;
      PutTrie(root, nodes, routes, spare, p, value);
      TrieFacts(root, nodes, routes, spare, p);
      forall q | q in nodes
        ensures Fields(nodes, Put(routes, p, value), q,
                       if q == p then RecOf(nodes[q]).(value := value) else RecOf(nodes[q]))
      {
        assert Good(q);
        PutOther(nodes, routes, p, value, q, RecOf(nodes[q]));
      }
      node.value := value;
      routes := Put(routes, p, value);
      assert forall q :: q in nodes ==> Good(q);
    }

    /** A new node below `node` on side `b`, or null when memory runs out. */
    method NewChild(ghost p: Prefix, b: bool, node: Node, ghost pool: set<Node>) returns (next: Node?)
      requires forall x :: x in spare ==> x in pool
      requires Valid() && p in nodes && nodes[p] == node && |p| < 32 && Child(p, b) !in nodes
      modifies this, node, pool
      ensures Valid() && root == old(root) && routes == old(routes)
      ensures next == null ==> nodes == old(nodes) && free == null && slots == 0 && supply == 0
      ensures next == null <==> old(Room()) == 0
      ensures Room() == if next == null then 0 else old(Room()) - 1
      ensures next != null ==> nodes == old(nodes)[Child(p, b) := next] && (next in old(spare) || fresh(next))
      ensures (forall x :: x in spare ==> x in old(spare)) && |spare| <= old(|spare|)
    {
      hide Valid, Held, Child, Stock;
      next := Alloc();
      if next == null { return; }
      Hang(p, b, node, next);
    }

    lemma KeptAll()
      ensures Kept(nodes, nodes)
    {}

    lemma AddedNone(b: Prefix, i: nat)
      requires Valid() && i < |b| && b[..i] in nodes && b[..i + 1] !in nodes
      ensures Added(nodes, nodes, b, i)
    {
      forall q | q <= b[..i] ensures q in nodes { PrefixesIn(b[..i], q); }
      forall j | i < j <= |b| ensures b[..j] !in nodes { NothingBelow(b, i + 1, j); }
    }

    /** The new nodes of a prefix, from depth `i0` down to its mask; null when memory runs out. */
    method GrowPath(key: bv32, mask: bv32, start: Node, first: bv32, ghost m: nat, ghost i0: nat)
      returns (node: Node?)
      requires Valid() && Leading(mask, m) && i0 < m && first == BitAt(i0)
      requires Bits(key)[..i0] in nodes && nodes[Bits(key)[..i0]] == start && Bits(key)[..i0 + 1] !in nodes
      modifies this, start, spare
      ensures Valid() && root == old(root) && routes == old(routes)
      ensures node != null ==> Bits(key)[..m] in nodes && nodes[Bits(key)[..m]] == node
      ensures node != null ==> Added(old(nodes), nodes, Bits(key), m) && (node in old(spare) || fresh(node))
      ensures node == null ==> free == null && slots == 0 && supply == 0
      ensures node == null <==> old(Room()) < m - i0
      ensures Room() == if node == null then 0 else old(Room()) - (m - i0)
      ensures node == null ==> Added(old(nodes), nodes, Bits(key), i0 + old(Room()))
      ensures Kept(old(nodes), nodes)
      ensures forall q :: q in nodes && q !in old(nodes) ==> nodes[q] in old(spare) || fresh(nodes[q])
      ensures (forall x :: x in spare ==> x in old(spare)) && |spare| <= old(|spare|)
    {
      hide Valid, Held, BitAt, Test, Bits, Leading, Child, Added, Kept, Half, Room;
      ghost var b := Bits(key);
      var bit;
      node, bit := start, first;
      ghost var i := i0;
      ghost var pool := set x | x in spare;
      StepMask(mask, m, i);
      AddedNone(b, i);
      assert Kept(nodes, nodes) by { KeptAll(); }
      while Test(mask, bit)
        invariant Valid() && routes == old(routes) && root == old(root)
        invariant i0 <= i <= m <= 32 && bit == BitAt(i) && (Test(mask, bit) <==> i < m)
        invariant b[..i] in nodes && nodes[b[..i]] == node
        invariant Added(old(nodes), nodes, b, i) && Room() == old(Room()) - (i - i0)
        invariant i == i0 ==> node == start
        invariant i > i0 ==> node in old(spare) || fresh(node)
        invariant Kept(old(nodes), nodes)
        invariant forall q :: q in nodes && q !in old(nodes) ==> nodes[q] in old(spare) || fresh(nodes[q])
        invariant (forall x :: x in spare ==> x in old(spare)) && |spare| <= old(|spare|)
        decreases m - i
      {
        StepKey(key, i);
        AddedOut(old(nodes), nodes, b, i);
        var right := Test(key, bit);
        ghost var n := nodes;
        var next := NewChild(b[..i], right, node, pool);
        if next == null { return null; }
        AddedMore(old(nodes), n, b, i, next);
        KeptMore(old(nodes), n, b[..i + 1], next);
        bit := Half(bit);
        node := next;
        i := i + 1;
        StepMask(mask, m, i);
      }
    }

    method Grow(key: bv32, mask: bv32, value: nat, start: Node, first: bv32, ghost m: nat, ghost i0: nat)
      returns (rc: Rc)
      requires Valid() && Leading(mask, m) && i0 < m && first == BitAt(i0)
      requires Bits(key)[..i0] in nodes && nodes[Bits(key)[..i0]] == start && Bits(key)[..i0 + 1] !in nodes
      modifies this, start, spare
      ensures Valid() && root == old(root)
      ensures rc == Ok || rc == Error
      ensures rc == Ok ==> routes == Put(old(routes), Bits(key)[..m], value)
      ensures rc == Ok ==> Onto(old(nodes), nodes, Bits(key)[..m])
      ensures rc == Error ==> routes == old(routes) && free == null && slots == 0 && supply == 0
      ensures rc == Error <==> old(Room()) < m - i0
      ensures Room() == if rc == Error then 0 else old(Room()) - (m - i0)
      ensures rc == Error ==> Onto(old(nodes), nodes, Bits(key)[..i0 + old(Room())])
      ensures forall q :: q in old(nodes) ==> q in nodes && nodes[q] == old(nodes[q])
      ensures forall q :: q in nodes && q !in old(nodes) ==> nodes[q] in old(spare) || fresh(nodes[q])
      ensures (forall x :: x in spare ==> x in old(spare)) && |spare| <= old(|spare|)
    {
      hide Valid, Held, BitAt, Test, Bits, Leading, Put, Added, Half, Stock;
      var node := GrowPath(key, mask, start, first, m, i0);
      if node == null {
        AddedPath(old(nodes), nodes, Bits(key), i0 + old(Room()));
        return Error;
      }
      AddedPath(old(nodes), nodes, Bits(key), m);
      SetValue(Bits(key)[..m], node, value);
      return Ok;
    }

    /** At its full depth a node tells by its value whether the prefix is stored; a path that
        ends before has no such prefix. */
    lemma Stored(b: Prefix, i: nat, m: nat)
      requires Valid() && i <= m <= |b| && b[..i] in nodes
      ensures forall q :: q <= b[..i] ==> q in nodes
      ensures i == m ==> (nodes[b[..i]].value != NO_VALUE <==> b[..m] in routes)
      ensures i < m && b[..i + 1] !in nodes ==> b[..m] !in routes
      ensures i == m || b[..i + 1] !in nodes ==> Reach(nodes, b[..m]) == i
    {
      hide Chain;
      assert Good(b[..i]);
      forall q | q <= b[..i] ensures q in nodes { PrefixesIn(b[..i], q); }
      if i == m || b[..i + 1] !in nodes {
        forall j | i < j <= m ensures b[..j] !in nodes { NothingBelow(b, i + 1, j); }
        ReachIs(nodes, b, i, m);
      }
    }

    /** Stores `value` under the first bits of `key` that `mask` covers. It takes one node for each
        depth that the path does not reach yet, and fails exactly if there are not so many: then the
        path is as long as the nodes go. */
    method Insert(key: bv32, mask: bv32, value: nat, ghost m: nat) returns (rc: Rc)
      requires Valid() && Leading(mask, m)
      modifies this, nodes.Values, spare
      ensures Valid() && root == old(root)
      ensures rc == Busy <==> Bits(key)[..m] in old(routes)
      ensures rc == Ok ==> routes == Put(old(routes), Bits(key)[..m], value)
      ensures rc != Ok ==> routes == old(routes)
      ensures rc == Error ==> free == null && slots == 0 && supply == 0
      ensures rc == Error <==> old(Room()) < m - Reach(old(nodes), Bits(key)[..m])
      ensures rc == Ok ==> Room() == old(Room()) - (m - Reach(old(nodes), Bits(key)[..m]))
      ensures rc == Error ==> Room() == 0
      ensures rc == Error ==> Onto(old(nodes), nodes, Bits(key)[..Reach(old(nodes), Bits(key)[..m]) + old(Room())])
      ensures rc == Busy ==> nodes == old(nodes) && Room() == old(Room())
      ensures rc == Ok ==> Onto(old(nodes), nodes, Bits(key)[..m])
      ensures forall q :: q in old(nodes) ==> q in nodes
      ensures rc == Ok && value != NO_VALUE && old(Tight()) ==> Tight()
      ensures forall q :: q in nodes ==> nodes[q] in old(nodes.Values) || nodes[q] in old(spare) || fresh(nodes[q])
      ensures (forall x :: x in spare ==> x in old(spare)) && |spare| <= old(|spare|)
    {
      hide Valid, Held, BitAt, Test, Bits, Leading, Put, Half, Stock, Reach;
      TopBit();
      RootAt();
      var bit: bv32 := 0x8000_0000;
      var node, next: Node? := root, root;
      ghost var b, i := Bits(key), 0;
      StepMask(mask, m, i);
      while Test(mask, bit)
        invariant Valid()
        invariant i <= m <= 32 && bit == BitAt(i) && (Test(mask, bit) <==> i < m)
        invariant b[..i] in nodes && nodes[b[..i]] == node && next == node
        decreases m - i
        modifies {}
      {
        Below(key, i);
        var right := Test(key, bit);
        next := if right then node.right else node.left;
        if next == null { break; }
        bit := Half(bit);
        node := next;
        i := i + 1;
        StepMask(mask, m, i);
      }
      Stored(b, i, m);
      ghost var before := nodes;
      if next != null {
        if node.value != NO_VALUE { return Busy; }
        SetValue(b[..m], node, value);
        rc := Ok;
      } else {
        rc := Grow(key, mask, value, node, bit, m, i);
      }
      if rc == Ok && value != NO_VALUE && old(Tight()) {
        TightMore(before, old(routes), nodes, b, m, value);
      }
    }

    // ---------- ngx_radix32tree_delete

    /** Takes `node` off its parent and puts it first in the list of freed nodes: the links. */
    method Unlink(node: Node, up: Node)
      requires node != up
      modifies `free, node`right, up`left, up`right
      ensures RecOf(up) == old(if up.right == node then RecOf(up).(right := null) else RecOf(up).(left := null))
      ensures free == node && node.right == old(free)
    {
      if up.right == node {
        up.right := null;
      } else {
        up.left := null;
      }
      node.right := free;
      free := node;
    }

    /** The parent of a node is above it, and its link on the last bit of the path. */
    lemma ParentOf(p: Prefix)
      requires Valid() && p in nodes && p != []
      ensures Up(p) in nodes && nodes[p].parent == nodes[Up(p)] && nodes[Up(p)] != nodes[p] && Up(p) != p
      ensures (nodes[Up(p)].right == nodes[p]) == p[|p| - 1]
    {
      hide Chain;
      assert Good(p) && Good(Up(p));
      UpChild(p);
      assert p[|p| - 1] || Child(Up(p), true) != p;
    }

    /** What the fields of the nodes must be once the leaf at `p` is gone. */
    lemma BeforeDrop(p: Prefix)
      requires Valid() && p in nodes && Leaf(nodes, p) && p != []
      ensures var n, up := nodes, Up(p);
              && Trie(root, n - {p}, routes - {p}, [n[p]] + spare) && |n - {p}| + |[n[p]] + spare| == drawn
              && drawn + Stock(slots, supply, perPage) == capacity && perPage > 0 && Chain(free, spare)
              && up in n && n[p].parent == n[up] && n[up] != n[p] && n[p] !in spare && n[up] !in spare
              && Fields(n - {p}, routes - {p}, up, if n[up].right == n[p] then RecOf(n[up]).(right := null)
                                                   else RecOf(n[up]).(left := null))
      ensures forall q :: q in nodes && q != p && q != Up(p) ==>
                            && nodes[q] != nodes[p] && nodes[q] != nodes[Up(p)]
                            && Fields(nodes - {p}, routes - {p}, q, RecOf(nodes[q]))
    {
      hide Trie, Fields, Child, Up, Leaf, Chain, RecOf;
      var n := nodes;
      ParentOf(p);
      DropTrie(root, n, routes, spare, p);
      TrieFacts(root, n, routes, spare, p);
      TrieFacts(root, n, routes, spare, Up(p));
      assert Good(Up(p));
      DropOther(n, routes, p, Up(p), RecOf(n[Up(p)]));
      forall q | q in n && q != p && q != Up(p)
        ensures Fields(n - {p}, routes - {p}, q, RecOf(n[q]))
      {
        TrieFacts(root, n, routes, spare, q);
        assert Good(q);
        DropOther(n, routes, p, q, RecOf(n[q]));
      }
    }

    lemma AfterDrop()
      requires perPage > 0 && Trie(root, nodes, routes, spare) && Chain(free, spare) && |nodes| + |spare| == drawn
      requires drawn + Stock(slots, supply, perPage) == capacity
      requires forall q :: q in nodes ==> Fields(nodes, routes, q, RecOf(nodes[q]))
      ensures Valid()
    {
      hide Trie, Fields, Chain, RecOf;
    }

    /** Unlinks the leaf at `p` from its parent and puts it first in the list of freed nodes. */
    method Drop(ghost p: Prefix, node: Node)
      requires Valid() && p in nodes && Leaf(nodes, p) && p != [] && nodes[p] == node
      requires node.parent != null
      modifies this`nodes, this`routes, this`spare, this`free, node, node.parent
      ensures Valid() && nodes == old(nodes) - {p} && routes == old(routes) - {p} && spare == [node] + old(spare)
      ensures node.parent == old(node.parent)
    {
      hide Trie, Fields, Child, Up, Leaf, Chain, RecOf, Good, Held, Valid;
      ghost var n, after := nodes, nodes - {p};
      BeforeDrop(p);
      Unlink(node, node.parent);
      PushChain(node, spare);
      nodes, routes, spare := after, routes - {p}, [node] + spare;
      forall q | q in nodes ensures Fields(nodes, routes, q, RecOf(nodes[q])) {
        if q != Up(p) { assert RecOf(n[q]) == old(RecOf(n[q])); }
      }
      AfterDrop();
    }

    lemma Missing(b: Prefix, i: nat, m: nat)
      requires Valid() && i <= m <= |b| && b[..i] !in nodes
      ensures b[..m] !in nodes && b[..m] !in routes && !Leaf(nodes, b[..m])
    {
      hide Chain;
      NothingBelow(b, i, m);
    }

    lemma LeafAt(p: Prefix)
      requires Valid() && p in nodes
      ensures Leaf(nodes, p) <==> nodes[p].left == null && nodes[p].right == null
      ensures p == [] <==> nodes[p].parent == null
      ensures p in routes <==> nodes[p].value != NO_VALUE
      ensures p == [] <==> nodes[p] == root
    {
      hide Chain;
      assert Good(p);
    }

    /** Frees the leaf at `target` and every node above it that is left with neither a child
        nor a value, up to but not including the root. */
    method Prune(ghost target: Prefix, leaf: Node)
      requires Valid() && target in nodes && Leaf(nodes, target) && target != [] && nodes[target] == leaf
      modifies this`nodes, this`routes, this`spare, this`free, nodes.Values
      ensures Valid() && routes == old(routes) - {target}
      ensures old(Tight()) ==> Tight()
      ensures forall q :: q in nodes ==> q in old(nodes) && nodes[q] == old(nodes[q])
    {
      hide Valid, Held, Leaf, TightBut, Up;
      var node := leaf;
      ghost var p := target;
      ghost var tight := Tight();
      if tight { TightWhole(nodes, routes, p); }
      LeafAt(p);
      while true
        invariant Valid() && p in nodes && Leaf(nodes, p) && p != [] && nodes[p] == node && node.parent != null
        invariant routes - {p} == old(routes) - {target}
        invariant forall q :: q in nodes ==> q in old(nodes) && nodes[q] == old(nodes[q])
        invariant tight ==> TightBut(nodes, routes, p)
        decreases |nodes|
      {
        ParentOf(p);
        if tight { TightLess(nodes, routes, p); }
        Fewer(nodes, p);
        Drop(p, node);
        node := node.parent;
        p := Up(p);
        LeafAt(p);
        if node.right != null || node.left != null { break; }
        if node.value != NO_VALUE { break; }
        if node.parent == null { break; }
      }
      if tight { TightAgain(nodes, routes, p); }
    }

    /** Forgets the prefix of `key` that `mask` covers; a leaf is freed with the ancestors it
        leaves without children and value. */
    method Delete(key: bv32, mask: bv32, ghost m: nat) returns (rc: Rc)
      requires Valid() && Leading(mask, m)
      requires m > 0 || root.left != null || root.right != null
      modifies this, nodes.Values
      ensures Valid() && root == old(root) && routes == old(routes) - {Bits(key)[..m]}
      ensures rc == Ok <==> Bits(key)[..m] in old(routes) || Leaf(old(nodes), Bits(key)[..m])
      ensures rc == Ok || (rc == Error && nodes == old(nodes))
      ensures old(Tight()) ==> Tight()
      ensures old(Tight()) ==> (rc == Ok <==> Bits(key)[..m] in old(routes))
      ensures drawn == old(drawn) && forall q :: q in nodes ==> q in old(nodes) && nodes[q] == old(nodes[q])
    {
      hide Valid, Held, BitAt, Test, Bits, Leading, Leaf, TightBut, Half;
      TopBit();
      RootAt();
      var bit: bv32 := 0x8000_0000;
      var node: Node? := root;
      ghost var b, i := Bits(key), 0;
      StepMask(mask, m, i);
      while node != null && Test(mask, bit)
        invariant Valid()
        invariant i <= m <= 32 && bit == BitAt(i) && (Test(mask, bit) <==> i < m)
        invariant node != null ==> b[..i] in nodes && nodes[b[..i]] == node
        invariant node == null ==> i <= m && b[..i] !in nodes
        decreases m - i
        modifies {}
      {
        Below(key, i);
        var right := Test(key, bit);
        node := if right then node.right else node.left;
        bit := Half(bit);
        i := i + 1;
        StepMask(mask, m, i);
      }
      if node == null {
        Missing(b, i, m);
        return Error;
      }
      Stored(b, m, m);
      LeafAt(b[..m]);
      if node.right != null || node.left != null {
        if node.value != NO_VALUE {
          SetValue(b[..m], node, NO_VALUE);
          return Ok;
        }
        return Error;
      }
      Prune(b[..m], node);
      return Ok;
    }

    // ---------- ngx_radix_tree_create

    lemma RootIn()
      requires Valid()
      ensures [] in nodes
    {}

    /** The prefixes of one length. The loop over the keys ends when the 32-bit sum wraps around
        to 0. */
    method Level(mask: bv32, inc: bv32, ghost m: nat, ghost was: nat) returns (ok: bool)
      requires Valid() && routes == map[] && spare == [] && Leading(mask, m)
      requires inc == BitAt(was) && m == if was < 32 then was + 1 else 32
      requires was <= 32 && Deep(nodes, nodes, was)
      modifies this, nodes.Values
      ensures Valid() && routes == map[] && spare == []
      ensures ok ==> Deep(old(nodes), nodes, m)
      ensures !ok ==> Room() == 0 && Within(old(nodes), nodes, m) && Lacks(nodes, m)
      ensures forall q :: q in nodes ==> nodes[q] in old(nodes.Values) || fresh(nodes[q])
    {
      hide Valid, Held, Leading, Bits, BitAt, Room, Lacks, Num, Turn, Seen, Add, Pow2, Half, Put, Onto, Deep, Within;
      var key: bv32 := 0;
      ghost var n: nat := 0;
      FirstTurn(inc, m, was);
      SeenNone(nodes, m);
      while true
        invariant Valid() && routes == map[] && spare == []
        invariant Turn(key, inc, m, was, n) && Seen(nodes, m, n)
        invariant Within(old(nodes), nodes, m)
        invariant forall q :: q in nodes ==> nodes[q] in old(nodes.Values) || fresh(nodes[q])
        decreases if was < 32 then Pow2(m) - n else 0
      {
        ghost var before, room := nodes, Room();
        PutNone(Bits(key)[..m]);
        var rc := Insert(key, mask, NO_VALUE, m);
        if rc != Ok {
          ghost var p := Bits(key)[..m];
          ghost var k := Reach(before, p) + room;
          assert p[..k] == Bits(key)[..k];
          Insufficient(old(nodes), before, nodes, p, k, m);
          return false;
        }
        WithinNext(old(nodes), before, nodes, Bits(key)[..m], m);
        SeenNext(before, nodes, m, n, key, inc, was);
        NextTurn(key, inc, m, was, n);
        key := Add(key, inc);
        if key == 0 { break; }
        n := n + 1;
      }
      SeenAll(old(nodes), nodes, m, n + 1, was);
      ok := true;
    }

    /** Inserts every prefix of `bits` bits or fewer without a value. */
    method Preallocate(bits: nat) returns (ok: bool)
      requires Valid() && routes == map[] && spare == []
      modifies this, nodes.Values
      ensures Valid() && routes == map[] && spare == []
      ensures ok ==> Deep(old(nodes), nodes, if bits < 32 then bits else 32)
      ensures !ok ==> Room() == 0 && Within(old(nodes), nodes, if bits < 32 then bits else 32)
                      && Lacks(nodes, if bits < 32 then bits else 32)
      ensures forall q :: q in nodes ==> nodes[q] in old(nodes.Values) || fresh(nodes[q])
    {
      hide Valid, Held, Leading, Bits, BitAt, Half, NextMask, Deep, Room, Within, Lacks;
      var left, mask: bv32, inc: bv32 := bits, 0, 0x8000_0000;
      ghost var m: nat := 0;
      LeadingNone();
      FirstBit();
      RootIn();
      DeepNone(nodes);
      while left > 0
        invariant Valid() && routes == map[] && spare == [] && Leading(mask, m)
        invariant m == if bits - left < 32 then bits - left else 32
        invariant inc == BitAt(m) && 0 <= left <= bits
        invariant Deep(old(nodes), nodes, m)
        invariant forall q :: q in nodes ==> nodes[q] in old(nodes.Values) || fresh(nodes[q])
        decreases left
      {
        left := left - 1;
        LeadingMore(mask, m);
        mask := NextMask(mask);
        ghost var before, was := nodes, m;
        DeepSelf(old(nodes), nodes, m);
        m := if m < 32 then m + 1 else 32;
        ok := Level(mask, inc, m, was);
        if !ok {
          WithinMore(old(nodes), before, nodes, was, m, if bits < 32 then bits else 32);
          return;
        }
        DeepMore(old(nodes), before, nodes, was, m);
        NextBit(was);
        inc := Half(inc);
      }
      ok := true;
    }
  }

  /** How many bits are preallocated: at most all, and by default as the size of a page says. */
  function Depth(preallocate: int, pageSize: nat, treeSize: nat): int
    requires treeSize > 0
  {
    var fit := pageSize / treeSize;
    if preallocate != -1 then (if preallocate < 32 then preallocate else 32)
    else if fit == 128 then 6 else if fit == 256 then 7 else 8
  }

  lemma QuotientIs(x: nat, d: nat, k: nat)
    requires d > 0
    ensures x / d == k <==> k * d <= x < k * d + d
  {
    if k * d <= x < k * d + d { DivMod(x, d, k, x - k * d); }
  }

  /** The default goes by the header of the tree, five words, where nodes of four words are meant.
      Both give the same exactly if the page is of none of these sizes, in words. */
  lemma DefaultMeant(page: nat, word: nat)
    requires word > 0
    ensures Depth(-1, page, 5 * word) == Depth(-1, page, 4 * word) <==>
              !(512 * word <= page < 516 * word || 1024 * word <= page < 1028 * word
                || 640 * word <= page < 645 * word || 1280 * word <= page < 1285 * word)
  {
    QuotientIs(page, 4 * word, 128);
    QuotientIs(page, 4 * word, 256);
    QuotientIs(page, 5 * word, 128);
    QuotientIs(page, 5 * word, 256);
  }

  /** On the four platforms that are named, with words of 8 and 4 bytes and pages of 4 and 8 KB, 6,
      7, 7 and 8 bits are meant, and the default is 8 on each. */
  lemma DefaultIsEight()
    ensures Depth(-1, 4096, 4 * 8) == 6 && Depth(-1, 4096, 5 * 8) == 8
    ensures Depth(-1, 4096, 4 * 4) == 7 && Depth(-1, 4096, 5 * 4) == 8
    ensures Depth(-1, 8192, 4 * 8) == 7 && Depth(-1, 8192, 5 * 8) == 8
    ensures Depth(-1, 8192, 4 * 4) == 8 && Depth(-1, 8192, 5 * 4) == 8
  {}

  // ---------- how many nodes

  ghost function Longer(s: set<Prefix>, b: bool): set<Prefix> {
    set q | q in s :: Child(q, b)
  }

  lemma {:induction false} LongerSize(s: set<Prefix>, b: bool)
    ensures |Longer(s, b)| == |s|
  {
    if s != {} {
      var q :| q in s;
      LongerSize(s - {q}, b);
      assert Longer(s, b) == Longer(s - {q}, b) + {Child(q, b)};
      forall p | p in s - {q} ensures Child(p, b) != Child(q, b) {
        ChildUp(p, b);
        ChildUp(q, b);
      }
    }
  }

  lemma LongerApart(s: set<Prefix>)
    ensures Longer(s, false) !! Longer(s, true)
  {
    forall p, q | p in s && q in s ensures Child(p, false) != Child(q, true) {
      assert !Child(p, false)[|p|] && Child(q, true)[|q|];
    }
  }

  /** The prefixes of `n` bits. */
  ghost function OfLength(n: nat): set<Prefix> {
    if n == 0 then {[]} else Longer(OfLength(n - 1), false) + Longer(OfLength(n - 1), true)
  }

  lemma {:induction false} OfLengthIs(n: nat, q: Prefix)
    ensures q in OfLength(n) <==> |q| == n
  {
    if n > 0 {
      if |q| == n {
        OfLengthIs(n - 1, Up(q));
        UpChild(q);
      }
      if q in OfLength(n) {
        var b :| q in Longer(OfLength(n - 1), b);
        var p :| p in OfLength(n - 1) && q == Child(p, b);
        OfLengthIs(n - 1, p);
      }
    }
  }

  lemma {:induction false} OfLengthSize(n: nat)
    ensures |OfLength(n)| == Pow2(n)
  {
    if n > 0 {
      hide Longer;
      var s := OfLength(n - 1);
      OfLengthSize(n - 1);
      LongerSize(s, false);
      LongerSize(s, true);
      LongerApart(s);
    }
  }

  ghost function UpTo(d: nat): set<Prefix> {
    if d == 0 then OfLength(0) else UpTo(d - 1) + OfLength(d)
  }

  lemma {:induction false} UpToIs(d: nat)
    ensures forall q :: q in UpTo(d) <==> |q| <= d
  {
    hide OfLength;
    forall q ensures q in UpTo(d) <==> |q| <= d {
      OfLengthIs(d, q);
      if d > 0 { UpToIs(d - 1); }
    }
  }

  /** How many nodes the first `d` bits need. */
  function NodesOf(d: nat): (n: nat)
    ensures n > 0
  {
    Pow2(d) - 1 + Pow2(d)
  }

  lemma {:induction false} UpToSize(d: nat)
    ensures |UpTo(d)| == NodesOf(d)
  {
    hide OfLength;
    OfLengthSize(d);
    if d > 0 {
      UpToSize(d - 1);
      UpToIs(d - 1);
      forall q | q in OfLength(d) ensures q !in UpTo(d - 1) { OfLengthIs(d, q); }
      assert UpTo(d - 1) !! OfLength(d);
    }
  }

  lemma FullSize(nodes: map<Prefix, Node>, d: nat)
    requires forall q :: q in nodes <==> |q| <= d
    ensures |nodes| == NodesOf(d)
  {
    hide UpTo;
    UpToIs(d);
    UpToSize(d);
    assert nodes.Keys == UpTo(d);
  }

  lemma {:induction false} Subset<T>(s: set<T>, t: set<T>)
    requires s <= t
    ensures |s| <= |t|
  {
    assert t == s + (t - s);
  }

  lemma DeepFull(first: map<Prefix, Node>, nodes: map<Prefix, Node>, d: nat)
    requires first.Keys == {[]} && Deep(first, nodes, d)
    ensures forall q :: q in nodes <==> |q| <= d
  {
    assert forall q :: q in first ==> q in first.Keys;
  }

  lemma LacksSize(first: map<Prefix, Node>, nodes: map<Prefix, Node>, d: nat)
    requires first.Keys == {[]} && Within(first, nodes, d) && Lacks(nodes, d)
    ensures |nodes| < NodesOf(d)
  {
    hide UpTo;
    UpToIs(d);
    UpToSize(d);
    assert forall q :: q in first ==> q in first.Keys;
    var q :| |q| <= d && q !in nodes;
    Subset(nodes.Keys, UpTo(d) - {q});
  }

  /** A new tree, with the nodes of its first bits in place: as many as `preallocate` says,
      or for -1 as many as fit the page. Null exactly if the pages have not that many nodes. */
  method Create(pageSize: nat, nodeSize: nat, treeSize: nat, supply: nat, preallocate: int) returns (tree: Tree?)
    requires 0 < nodeSize <= pageSize && 0 < treeSize && preallocate >= -1
    ensures tree != null ==> fresh(tree) && tree.Valid() && tree.routes == map[] && fresh(tree.nodes.Values)
    ensures tree != null ==> tree.spare == []
    ensures tree != null ==> tree.Full(Depth(preallocate, pageSize, treeSize))
    ensures tree != null && preallocate == 0 ==> tree.Tight()
    ensures tree == null <==> supply * (pageSize / nodeSize) < NodesOf(Depth(preallocate, pageSize, treeSize))
    ensures tree != null ==>
              tree.Room() == supply * (pageSize / nodeSize) - NodesOf(Depth(preallocate, pageSize, treeSize))
  {
    hide TightIn, NodesOf, Stock, Deep, Within, Lacks, Tree.Valid, Tree.Held, Tree.Room;
    var perPage := pageSize / nodeSize;
    PerPage(pageSize, nodeSize);
    StockAll(supply, perPage);
    if supply == 0 { return null; }
    tree := new Tree(perPage, supply);
    ghost var first := tree.nodes;
    tree.Conserved();
    if preallocate == 0 {
      FullSize(tree.nodes, 0);
      return;
    }
    var bits := preallocate;
    if preallocate == -1 {
      var fit := pageSize / treeSize;
      bits := if fit == 128 then 6 else if fit == 256 then 7 else 8;
    }
    var ok := tree.Preallocate(bits);
    tree.Conserved();
    if !ok {
      LacksSize(first, tree.nodes, Depth(preallocate, pageSize, treeSize));
      return null;
    }
    DeepFull(first, tree.nodes, Depth(preallocate, pageSize, treeSize));
    FullSize(tree.nodes, Depth(preallocate, pageSize, treeSize));
  }

  // ---------- runs in which a prefix is deleted that was never stored

  lemma OneBitMask()
    ensures Leading(0x8000_0000, 1)
  {
    LeadingNone();
    LeadingNext(0, 0);
  }

  lemma TwoBitMask()
    ensures Leading(0xC000_0000, 2)
  {
    OneBitMask();
    LeadingNext(0x8000_0000, 1);
  }

  lemma LastLeaf(nodes: map<Prefix, Node>, p: Prefix)
    requires forall q :: q in nodes <==> |q| <= |p|
    ensures Leaf(nodes, p)
  {}

  /** A preallocated leaf is deleted. */
  method DeletePreallocated() returns (tree: Tree?, rc: Rc, ghost before: map<Prefix, nat>)
    ensures tree != null && tree.Valid() && before == map[] && tree.routes == map[] && rc == Ok
  {
    hide Leading, Bits, Leaf, Tree.Valid, Tree.Held;
    tree := Create(4096, 32, 40, 1, 1);
    OneBitMask();
    LastLeaf(tree.nodes, Bits(0)[..1]);
    before := tree.routes;
    rc := tree.Delete(0, 0x8000_0000, 1);
  }

  lemma {:induction false} RootReach(nodes: map<Prefix, Node>, p: Prefix)
    requires forall q :: q in nodes <==> |q| <= 0
    ensures Reach(nodes, p) == 0
    decreases |p|
  {
    if p != [] { RootReach(nodes, Up(p)); }
  }

  lemma OneLeaf(first: map<Prefix, Node>, nodes: map<Prefix, Node>, p: Prefix)
    requires (forall q :: q in first <==> |q| <= 0) && Onto(first, nodes, p) && |p| == 1
    ensures Leaf(nodes, p)
  {}

  /** There is room for one node below the root: a prefix of two bits is refused, and the node of its
      first bit is deleted. */
  method DeleteLeftover() returns (tree: Tree?, stored: Rc, rc: Rc, ghost before: map<Prefix, nat>)
    ensures tree != null && tree.Valid() && before == map[] && tree.routes == map[] && stored == Error && rc == Ok
  {
    hide Leading, Bits, Leaf, Onto, Reach, Tree.Valid, Tree.Held;
    tree := Create(64, 32, 40, 1, 0);
    OneBitMask();
    TwoBitMask();
    ghost var first, p := tree.nodes, Bits(0)[..1];
    RootReach(first, Bits(0)[..2]);
    stored := tree.Insert(0, 0xC000_0000, 7, 2);
    OneLeaf(first, tree.nodes, p);
    before := tree.routes;
    rc := tree.Delete(0, 0x8000_0000, 1);
  }
}
