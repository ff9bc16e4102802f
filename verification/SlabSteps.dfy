/** The steps of nginx's slab pool on values: what a change of a mark, of a list or of a page
    run does to the invariant of the state.
 */
module SlabSteps {

  import opened Common
  import opened SlabRing
  import opened SlabState

  // ---------- rings that a step does not touch

  lemma RingKeeps(d: Table, e: Table, h: Ref, l: seq<nat>, tag: nat)
    requires Ring(d, h, l, tag) && h in e && e[h].next == d[h].next
    requires forall i :: i in l && Page(i) in d ==>
                           Page(i) in e && e[Page(i)].next == d[Page(i)].next && e[Page(i)].prev == d[Page(i)].prev
    ensures Ring(e, h, l, tag)
  {
    forall i | i in l ensures Page(i) in d {
      var k :| 0 <= k < |l| && l[k] == i;
      assert LinkedAt(d, h, l, tag, k);
    }
    RingFrame(d, e, h, l, tag);
  }

  lemma RingsFrame(d: Table, e: Table, m: Model)
    requires |m.lists| == LISTS && Rings(d, m)
    requires forall r :: r in d ==> r in e && e[r].next == d[r].next && e[r].prev == d[r].prev
    ensures Rings(e, m)
  {
    RingKeeps(d, e, FreeHead, m.free, TAG_PAGE);
    forall s: nat | s < LISTS ensures Ring(e, Slot(s), m.lists[s], Tag(s + MIN_SHIFT)) {
      RingKeeps(d, e, Slot(s), m.lists[s], Tag(s + MIN_SHIFT));
    }
  }

  /** Page `x` and the pages of list `s` are on no other ring. */
  ghost predicate Apart(m: Model, s: nat, x: nat)
    requires |m.lists| == LISTS && s < LISTS
  {
    && (forall i :: i in m.free ==> i != x && i !in m.lists[s])
    && (forall t: nat, i :: t < LISTS && t != s && i in m.lists[t] ==> i != x && i !in m.lists[s])
  }

  lemma ApartAt(m: Model, s: nat, x: nat, t: nat, i: nat)
    requires |m.lists| == LISTS && s < LISTS && t < LISTS && t != s && i in m.lists[t] && Apart(m, s, x)
    ensures i != x && i !in m.lists[s]
  {}

  lemma ListedApart(m: Model, s: nat, x: nat)
    requires |m.used| == |m.kind| && |m.lists| == LISTS && s < LISTS && Listed(m)
    requires x < |m.kind| && m.kind[x] == Cut(s + MIN_SHIFT)
    ensures Apart(m, s, x)
  {}

  /** Only list `s` changes. */
  lemma RingsSlot(d: Table, e: Table, m: Model, s: nat, l: seq<nat>, x: nat)
    requires |m.lists| == LISTS && s < LISTS && Rings(d, m) && Apart(m, s, x)
    requires Ring(e, Slot(s), l, Tag(s + MIN_SHIFT))
    requires forall r :: r in d && r != Slot(s) && r != Page(x) && !(r.Page? && r.i in m.lists[s]) ==>
               r in e && e[r] == d[r]
    ensures Rings(e, m.(lists := m.lists[s := l]))
  {
    RingKeeps(d, e, FreeHead, m.free, TAG_PAGE);
    forall t: nat | t < LISTS && t != s ensures Ring(e, Slot(t), m.lists[t], Tag(t + MIN_SHIFT)) {
      forall i | i in m.lists[t] && Page(i) in d ensures Page(i) in e && e[Page(i)] == d[Page(i)] {
        ApartAt(m, s, x, t, i);
      }
      RingKeeps(d, e, Slot(t), m.lists[t], Tag(t + MIN_SHIFT));
    }
  }

  /** Only the list of free runs changes, and pages on no list. */
  lemma RingsFree(d: Table, e: Table, m: Model, l: seq<nat>, lo: nat, hi: nat)
    requires |m.lists| == LISTS && Rings(d, m) && Ring(e, FreeHead, l, TAG_PAGE)
    requires forall t: nat, i :: t < LISTS && i in m.lists[t] ==> i !in m.free && !(lo <= i < hi)
    requires forall r :: r in d && r != FreeHead && !(r.Page? && (r.i in m.free || lo <= r.i < hi)) ==>
               r in e && e[r] == d[r]
    ensures Rings(e, m.(free := l))
  {
    forall t: nat | t < LISTS ensures Ring(e, Slot(t), m.lists[t], Tag(t + MIN_SHIFT)) {
      forall i | i in m.lists[t] && Page(i) in d ensures Page(i) in e && e[Page(i)] == d[Page(i)] {
        assert i !in m.free && !(lo <= i < hi);
      }
      RingKeeps(d, e, Slot(t), m.lists[t], Tag(t + MIN_SHIFT));
    }
  }

  // ---------- marks

  lemma Settle(n: nat, d: Table, w: seq<seq<Word>>, m: Model, x: nat)
    requires InvBut(n, d, w, m, x) && (x < n ==> Marked(d, w, m, x))
    ensures Inv(n, d, w, m)
  {}

  lemma Unsettle(n: nat, d: Table, w: seq<seq<Word>>, m: Model, x: nat)
    requires Inv(n, d, w, m)
    ensures InvBut(n, d, w, m, x)
  {}

  function WithSlab(d: Table, x: nat, slab: Slab): (e: Table)
    requires Page(x) in d
    ensures e.Keys == d.Keys
  {
    d[Page(x) := d[Page(x)].(slab := slab)]
  }

  /** The marks of page `x` may be written at any time. */
  lemma WriteMarks(n: nat, d: Table, w: seq<seq<Word>>, m: Model, x: nat, slab: Slab, ws: seq<Word>)
    requires InvBut(n, d, w, m, x) && x < n && m.kind[x].Cut?
    ensures InvBut(n, WithSlab(d, x, slab), w[x := ws], m, x)
  {
    var e, v := WithSlab(d, x, slab), w[x := ws];
    RingsFrame(d, e, m);
    forall i: nat | i < n ensures Described(e, m, i) {
      assert Described(d, m, i);
    }
    forall i: nat | i < n && i != x ensures Marked(e, v, m, i) {
      assert Marked(d, w, m, i);
    }
  }

  lemma UseListed(m: Model, e: Model, x: nat)
    requires |m.used| == |m.kind| && |m.lists| == LISTS && Listed(m) && x < |m.kind| && m.kind[x].Cut?
    requires e == m.(used := e.used) && |e.used| == |m.used|
    requires m.used[x] != All(m.kind[x].shift) && e.used[x] != All(m.kind[x].shift)
    requires forall i: nat :: i < |m.used| && i != x ==> e.used[i] == m.used[i]
    ensures Listed(e)
  {}

  /** Another set of used chunks of page `x`, neither full. */
  lemma UseSome(n: nat, d: Table, w: seq<seq<Word>>, m: Model, x: nat, u: Word)
    requires InvBut(n, d, w, m, x) && x < n && m.kind[x].Cut?
    requires m.used[x] != All(m.kind[x].shift) && u != All(m.kind[x].shift)
    ensures InvBut(n, d, w, m.(used := m.used[x := u]), x)
  {
    var e := m.(used := m.used[x := u]);
    hide Ring, All;
    UseListed(m, e, x);
    forall i: nat | i < n ensures Described(d, e, i) {
      assert Described(d, m, i);
    }
    forall i: nat | i < n && i != x ensures Marked(d, w, e, i) {
      assert Marked(d, w, m, i);
    }
  }

  function Closed(d: Table, x: nat, tag: nat): (e: Table)
    requires Page(x) in d && d[Page(x)].prev.ref in d && d[Page(x)].next in d
    ensures e.Keys == d.Keys
  {
    var e := Unlinked(d, Page(x));
    e[Page(x) := e[Page(x)].(next := Null, prev := Prev(Null, tag))]
  }

  lemma CloseRings(n: nat, d: Table, m: Model, s: nat)
    requires |m.used| == |m.kind| && |m.lists| == LISTS && s < LISTS && Rings(d, m) && Listed(m) && m.lists[s] != []
    ensures var l := m.lists[s];
            && Page(l[0]) in d && d[Page(l[0])].prev.ref in d && d[Page(l[0])].next in d
            && Rings(Closed(d, l[0], Tag(s + MIN_SHIFT)), m.(lists := m.lists[s := Out(l, 0)]))
  {
    var l, shift := m.lists[s], s + MIN_SHIFT;
    var x := l[0];
    assert x in l && Open(m, s, x);
    UnlinkRing(d, Slot(s), l, Tag(shift), 0);
    var e := Closed(d, x, Tag(shift));
    ListedApart(m, s, x);
    RingKeeps(Unlinked(d, Page(x)), e, Slot(s), Out(l, 0), Tag(shift));
    forall r | r in d && r != Slot(s) && r != Page(x) && !(r.Page? && r.i in l) ensures e[r] == d[r] {
      UnlinkOther(d, Slot(s), l, Tag(shift), 0, r);
    }
    RingsSlot(d, e, m, s, Out(l, 0), x);
  }

  lemma OutMembers(l: seq<nat>, k: nat)
    requires k < |l| && NoDup(l)
    ensures forall i :: i in Out(l, k) <==> i in l && i != l[k]
  {}

  lemma CloseListed(m: Model, s: nat)
    requires |m.used| == |m.kind| && |m.lists| == LISTS && s < LISTS && Listed(m) && m.lists[s] != []
    requires NoDup(m.lists[s])
    requires m.lists[s][0] < |m.kind|
    ensures var x := m.lists[s][0];
            Listed(m.(used := m.used[x := All(s + MIN_SHIFT)], lists := m.lists[s := Out(m.lists[s], 0)]))
  {
    hide All;
    var x, l := m.lists[s][0], m.lists[s];
    assert x in l && Open(m, s, x);
    var f := m.(used := m.used[x := All(s + MIN_SHIFT)], lists := m.lists[s := Out(l, 0)]);
    OutMembers(l, 0);
    forall t: nat, i: nat | t < LISTS ensures i in f.lists[t] <==> Open(f, t, i) {
      assert i in m.lists[t] <==> Open(m, t, i);
    }
  }

  /** With its last chunk used, the first page of a list leaves it. */
  lemma UseLast(n: nat, d: Table, w: seq<seq<Word>>, m: Model, s: nat)
    requires InvBut(n, d, w, m, if s < |m.lists| && m.lists[s] != [] then m.lists[s][0] else 0)
    requires s < LISTS && m.lists[s] != []
    ensures var x, shift := m.lists[s][0], s + MIN_SHIFT;
            && Page(x) in d && d[Page(x)].prev.ref in d && d[Page(x)].next in d && x < n
            && InvBut(n, Closed(d, x, Tag(shift)), w,
                      m.(used := m.used[x := All(shift)], lists := m.lists[s := Out(m.lists[s], 0)]), x)
  {
    hide All;
    var l, shift := m.lists[s], s + MIN_SHIFT;
    var x := l[0];
    assert x in l && Open(m, s, x);
    UnlinkRing(d, Slot(s), l, Tag(shift), 0);
    var e := Closed(d, x, Tag(shift));
    var f := m.(used := m.used[x := All(shift)], lists := m.lists[s := Out(l, 0)]);
    CloseRings(n, d, m, s);
    CloseListed(m, s);
    forall i: nat | i < n ensures Described(e, f, i) {
      assert Described(d, m, i);
      UnlinkOther(d, Slot(s), l, Tag(shift), 0, Page(i));
      if i != x && m.kind[i].Cut? && m.used[i] == All(m.kind[i].shift) { assert !Open(m, s, i); }
    }
    forall i: nat | i < n && i != x ensures Marked(e, w, f, i) {
      assert Marked(d, w, m, i);
      UnlinkOther(d, Slot(s), l, Tag(shift), 0, Page(i));
    }
  }

  lemma ReopenListed(m: Model, s: nat, x: nat, u: Word)
    requires |m.used| == |m.kind| && |m.lists| == LISTS && s < LISTS && Listed(m)
    requires x < |m.kind| && m.kind[x] == Cut(s + MIN_SHIFT) && m.used[x] == All(s + MIN_SHIFT)
    requires u != All(s + MIN_SHIFT)
    ensures Listed(m.(used := m.used[x := u], lists := m.lists[s := [x] + m.lists[s]]))
  {}

  /** A full page of which a chunk is freed comes first on the list of its chunks. */
  lemma Reopen(n: nat, d: Table, w: seq<seq<Word>>, m: Model, s: nat, x: nat, u: Word)
    requires InvBut(n, d, w, m, x) && s < LISTS && x < n && m.kind[x] == Cut(s + MIN_SHIFT)
    requires m.used[x] == All(s + MIN_SHIFT) && u != All(s + MIN_SHIFT)
    ensures d[Slot(s)].next in d && d[Slot(s)].next != Page(x)
    ensures InvBut(n, Pushed(d, Slot(s), x, Tag(s + MIN_SHIFT)), w,
                   m.(used := m.used[x := u], lists := m.lists[s := [x] + m.lists[s]]), x)
  {
    hide All;
    var l, shift := m.lists[s], s + MIN_SHIFT;
    assert !Open(m, s, x);
    PushRing(d, Slot(s), l, Tag(shift), x);
    var e := Pushed(d, Slot(s), x, Tag(shift));
    var f := m.(used := m.used[x := u], lists := m.lists[s := [x] + l]);
    ListedApart(m, s, x);
    forall r | r in d ensures e[r].slab == d[r].slab
                              && (r != Slot(s) && r != Page(x) && !(r.Page? && r.i in l) ==> e[r] == d[r]) {
      PushOther(d, Slot(s), l, Tag(shift), x, r);
    }
    RingsSlot(d, e, m, s, [x] + l, x);
    ReopenListed(m, s, x, u);
    forall i: nat | i < n ensures Described(e, f, i) {
      assert Described(d, m, i);
      assert i in l ==> Open(m, s, i);
    }
    forall i: nat | i < n && i != x ensures Marked(e, w, f, i) {
      assert Marked(d, w, m, i);
    }
  }

  // ---------- a page of chunks becomes free

  /** Page `x` out of the ring that it is on, if it is on one. */
  function Loose(d: Table, x: nat): (e: Table)
    requires Page(x) in d && (d[Page(x)].next != Null ==> d[Page(x)].prev.ref in d && d[Page(x)].next in d)
    ensures e.Keys == d.Keys
  {
    if d[Page(x)].next != Null then Unlinked(d, Page(x)) else d
  }

  predicate Returnable(d: Table, x: nat) {
    && Page(x) in d && FreeHead in d
    && (d[Page(x)].next != Null ==> d[Page(x)].prev.ref in d && d[Page(x)].next in d)
    && Loose(d, x)[FreeHead].next in d && Loose(d, x)[FreeHead].next != Page(x)
  }

  function Returned(d: Table, x: nat): (e: Table)
    requires Returnable(d, x)
    ensures e.Keys == d.Keys
  {
    Pushed(Loose(d, x), FreeHead, x, TAG_PAGE)
  }

  function Emptied(m: Model, s: nat, k: nat): Model
    requires s < |m.lists| && k < |m.lists[s]| && m.lists[s][k] < |m.kind| == |m.used|
  {
    var x := m.lists[s][k];
    Model(m.kind[x := FreeRun(1)], m.used[x := {}], [x] + m.free, m.lists[s := m.lists[s][..k] + m.lists[s][k + 1..]])
  }

  lemma FreeRing(d: Table, m: Model)
    requires |m.lists| == LISTS && Rings(d, m)
    ensures Ring(d, FreeHead, m.free, TAG_PAGE)
  {}

  /** The `k`-th page of list `s` off its list. */
  lemma OffList(d: Table, m: Model, s: nat, k: nat) returns (d1: Table)
    requires |m.used| == |m.kind| && |m.lists| == LISTS && s < LISTS && k < |m.lists[s]| && Rings(d, m) && Listed(m)
    requires m.lists[s][k] < |m.kind|
    ensures var x := m.lists[s][k];
            && Page(x) in d && d[Page(x)].next != Null && d[Page(x)].prev.ref in d && d[Page(x)].next in d
            && d1 == Unlinked(d, Page(x)) && NoDup(m.lists[s])
    ensures Rings(d1, m.(lists := m.lists[s := Out(m.lists[s], k)]))
    ensures forall r :: r in d ==>
              d1[r].slab == d[r].slab && (r != Slot(s) && !(r.Page? && r.i in m.lists[s]) ==> d1[r] == d[r])
  {
    hide All, Unlinked;
    var l, shift := m.lists[s], s + MIN_SHIFT;
    var x := l[k];
    assert x in l && Open(m, s, x);
    UnlinkRing(d, Slot(s), l, Tag(shift), k);
    NeighboursIn(d, Slot(s), l, Tag(shift), k);
    ListedApart(m, s, x);
    d1 := Unlinked(d, Page(x));
    forall r | r in d ensures d1[r].slab == d[r].slab
                              && (r != Slot(s) && !(r.Page? && r.i in l) ==> d1[r] == d[r]) {
      UnlinkOther(d, Slot(s), l, Tag(shift), k, r);
    }
    RingsSlot(d, d1, m, s, Out(l, k), x);
  }

  lemma SameRings(d: Table, m: Model, f: Model)
    requires |m.lists| == LISTS && Rings(d, m) && f.free == m.free && f.lists == m.lists
    ensures Rings(d, f)
  {}

  lemma EmptiedRings(d: Table, m: Model, s: nat, k: nat)
    requires |m.used| == |m.kind| && |m.lists| == LISTS && s < LISTS && k < |m.lists[s]| && Rings(d, m) && Listed(m)
    requires m.lists[s][k] < |m.kind|
    ensures var x := m.lists[s][k];
            && Returnable(d, x) && Rings(Returned(d, x), Emptied(m, s, k))
    ensures forall r :: r in d ==> Returned(d, m.lists[s][k])[r].slab == d[r].slab
    ensures forall i: nat :: Page(i) in d && i !in m.free && i !in m.lists[s] ==>
                               Returned(d, m.lists[s][k])[Page(i)] == d[Page(i)]
  {
    hide All, Unlinked, Pushed, Rings, Ring;
    var l := m.lists[s];
    var x := l[k];
    assert x in l && Open(m, s, x);
    var d1 := OffList(d, m, s, k);
    var m1 := m.(lists := m.lists[s := Out(l, k)]);
    OutMembers(l, k);
    assert Ring(d1, FreeHead, m.free, TAG_PAGE) by { FreeRing(d1, m1); }
    PushRing(d1, FreeHead, m.free, TAG_PAGE, x);
    var e := Pushed(d1, FreeHead, x, TAG_PAGE);
    forall r | r in d ensures e[r].slab == d1[r].slab
                              && (r != FreeHead && r != Page(x) && !(r.Page? && r.i in m.free) ==> e[r] == d1[r]) {
      PushOther(d1, FreeHead, m.free, TAG_PAGE, x, r);
    }
    forall t: nat, i | t < LISTS && i in m1.lists[t] ensures i !in m.free && i != x {
      assert i in m.lists[t] && Open(m, t, i);
    }
    RingsFree(d1, e, m1, [x] + m.free, x, x + 1);
    SameRings(e, m1.(free := [x] + m.free), Emptied(m, s, k));
  }

  lemma EmptiedListed(m: Model, s: nat, k: nat)
    requires |m.used| == |m.kind| && |m.lists| == LISTS && s < LISTS && k < |m.lists[s]| && Listed(m)
    requires NoDup(m.lists[s])
    requires m.lists[s][k] < |m.kind|
    ensures Listed(Emptied(m, s, k))
  {
    hide All;
    var x, f := m.lists[s][k], Emptied(m, s, k);
    assert x in m.lists[s] && Open(m, s, x);
    OutMembers(m.lists[s], k);
    forall t: nat, i: nat | t < LISTS ensures i in f.lists[t] <==> Open(f, t, i) {
      assert i in m.lists[t] <==> Open(m, t, i);
    }
  }

  lemma RingNoDup(d: Table, h: Ref, l: seq<nat>, tag: nat)
    requires Ring(d, h, l, tag)
    ensures NoDup(l)
  {}

  lemma EmptiedPartition(kind: seq<Kind>, x: nat)
    requires Partition(kind) && x < |kind| && (kind[x].Cut? || kind[x] == BusyRun(1))
    ensures Partition(kind[x := FreeRun(1)])
  {
    var f := kind[x := FreeRun(1)];
    forall i: nat | i < |f| ensures Placed(f, i) {
      assert Placed(kind, i);
    }
  }

  /** A page without a used chunk becomes a free run of one page. */
  lemma EmptyPage(n: nat, d: Table, w: seq<seq<Word>>, m: Model, s: nat, k: nat, x: nat)
    requires InvBut(n, d, w, m, x) && s < LISTS && k < |m.lists[s]| && m.lists[s][k] == x && x < n
    requires Page(x) in d && d[Page(x)].slab == Count(1)
    ensures Returnable(d, x) && Inv(n, Returned(d, x), w, Emptied(m, s, k))
  {
    hide All, Ring, Returnable;
    assert x in m.lists[s] && Open(m, s, x);
    EmptiedRings(d, m, s, k);
    assert Ring(d, Slot(s), m.lists[s], Tag(s + MIN_SHIFT));
    RingNoDup(d, Slot(s), m.lists[s], Tag(s + MIN_SHIFT));
    EmptiedListed(m, s, k);
    var e, f := Returned(d, x), Emptied(m, s, k);
    EmptiedPartition(m.kind, x);
    forall i: nat | i < n ensures Described(e, f, i) {
      assert Described(d, m, i) && Placed(m.kind, i);
      assert i in m.lists[s] ==> Open(m, s, i);
      assert i in m.free ==> m.kind[i].FreeRun?;
    }
    forall i: nat | i < n ensures Marked(e, w, f, i) {
      assert i != x ==> Marked(d, w, m, i);
    }
  }
}
