/** The page descriptors of nginx's slab pool and the rings they form: the list of free page
    runs and one list of partly used pages per chunk size, each doubly linked through its
    head, the type of the page kept in the low bits of the link to the previous one.
 */
module SlabRing {

  import opened Common

  /** A machine word as the set of the positions of its one bits. */
  type Word = set<nat>

  /** What the slab word of a descriptor is written and read as. */
  datatype Slab =
    | Count(pages: nat)               // pages of a free run; 0 in its other pages
    | Start(run: nat)                 // pages of an allocated run, with the top bit set
    | Busy                            // the other pages of an allocated run
    | Shift(small: nat)               // small chunks: the bitmap is in the page
    | Map(bits: Word)                 // exact chunks: the bitmap itself
    | ShiftMap(big: nat, high: Word)  // big chunks: the bitmap in the high half

  /** An address of a descriptor. */
  datatype Ref = Null | FreeHead | Slot(s: nat) | Page(i: nat)

  /** A link to the previous descriptor, with the type of the page in its two low bits. */
  datatype Prev = Prev(ref: Ref, tag: nat)

  datatype Desc = Desc(slab: Slab, next: Ref, prev: Prev)

  type Table = map<Ref, Desc>

  // ---------- rings

  ghost function First(h: Ref, l: seq<nat>): Ref {
    if l == [] then h else Page(l[0])
  }

  ghost function Before(h: Ref, l: seq<nat>, k: nat): Ref
    requires k <= |l|
  {
    if k == 0 then h else Page(l[k - 1])
  }

  ghost function After(h: Ref, l: seq<nat>, k: nat): Ref
    requires k < |l|
  {
    if k + 1 < |l| then Page(l[k + 1]) else h
  }

  ghost predicate LinkedAt(d: Table, h: Ref, l: seq<nat>, tag: nat, k: nat)
    requires k < |l|
  {
    && Page(l[k]) in d
    && d[Page(l[k])].next == After(h, l, k)
    && d[Page(l[k])].prev == Prev(Before(h, l, k), tag)
  }

  /** The pages `l`, in this order, linked from the head `h` and back to it. */
  ghost predicate Ring(d: Table, h: Ref, l: seq<nat>, tag: nat) {
    && h in d && d[h].next == First(h, l) && (h.FreeHead? || h.Slot?)
    && NoDup(l)
    && forall k :: 0 <= k < |l| ==> LinkedAt(d, h, l, tag, k)
  }

  lemma RingFrame(d: Table, e: Table, h: Ref, l: seq<nat>, tag: nat)
    requires Ring(d, h, l, tag) && h in e && e[h].next == d[h].next
    requires forall i :: i in l ==>
               Page(i) in d && Page(i) in e && e[Page(i)].next == d[Page(i)].next && e[Page(i)].prev == d[Page(i)].prev
    ensures Ring(e, h, l, tag)
  {
    forall k | 0 <= k < |l| ensures LinkedAt(e, h, l, tag, k) {
      assert LinkedAt(d, h, l, tag, k) && l[k] in l;
    }
  }

  // ---------- taking a page out

  function Unlinked(d: Table, r: Ref): (e: Table)
    requires r in d && d[r].prev.ref in d && d[r].next in d
    ensures e.Keys == d.Keys
  {
    var x := d[r];
    var d1 := d[x.prev.ref := d[x.prev.ref].(next := x.next)];
    d1[x.next := d1[x.next].(prev := x.prev)]
  }

  ghost function Out(l: seq<nat>, k: nat): seq<nat>
    requires k < |l|
  {
    l[..k] + l[k + 1..]
  }

  lemma NeighboursIn(d: Table, h: Ref, l: seq<nat>, tag: nat, k: nat)
    requires Ring(d, h, l, tag) && k < |l|
    ensures Page(l[k]) in d && d[Page(l[k])].prev.ref in d && d[Page(l[k])].next in d
    ensures d[Page(l[k])].next == After(h, l, k) && d[Page(l[k])].prev == Prev(Before(h, l, k), tag)
  {
    assert LinkedAt(d, h, l, tag, k);
    if k > 0 { assert LinkedAt(d, h, l, tag, k - 1); }
    if k + 1 < |l| { assert LinkedAt(d, h, l, tag, k + 1); }
  }

  lemma UnlinkRing(d: Table, h: Ref, l: seq<nat>, tag: nat, k: nat)
    requires Ring(d, h, l, tag) && k < |l|
    ensures Page(l[k]) in d && d[Page(l[k])].prev.ref in d && d[Page(l[k])].next in d
    ensures Ring(Unlinked(d, Page(l[k])), h, Out(l, k), tag)
  {
    NeighboursIn(d, h, l, tag, k);
    var e, m := Unlinked(d, Page(l[k])), Out(l, k);
    forall j | 0 <= j < |m| ensures LinkedAt(e, h, m, tag, j) {
      var i := if j < k then j else j + 1;
      assert LinkedAt(d, h, l, tag, i) && m[j] == l[i];
    }
  }

  /** Only the neighbours' links to each other change. */
  lemma UnlinkOther(d: Table, h: Ref, l: seq<nat>, tag: nat, k: nat, r: Ref)
    requires Ring(d, h, l, tag) && k < |l| && r in d
    ensures Page(l[k]) in d && d[Page(l[k])].prev.ref in d && d[Page(l[k])].next in d
    ensures Unlinked(d, Page(l[k]))[r].slab == d[r].slab
    ensures r != h && !(r.Page? && r.i in l) ==> Unlinked(d, Page(l[k]))[r] == d[r]
    ensures r == Page(l[k]) ==> Unlinked(d, r)[r] == d[r]
  {
    NeighboursIn(d, h, l, tag, k);
  }

  // ---------- putting a page first

  function Pushed(d: Table, h: Ref, i: nat, tag: nat): (e: Table)
    requires h in d && d[h].next in d && Page(i) in d && d[h].next != Page(i)
    ensures e.Keys == d.Keys
  {
    var next := d[h].next;
    var d1 := d[Page(i) := d[Page(i)].(next := next, prev := Prev(h, tag))];
    var d2 := d1[h := d1[h].(next := Page(i))];
    d2[next := d2[next].(prev := Prev(Page(i), tag))]
  }

  lemma PushRing(d: Table, h: Ref, l: seq<nat>, tag: nat, i: nat)
    requires Ring(d, h, l, tag) && i !in l && Page(i) in d
    ensures d[h].next in d && d[h].next != Page(i)
    ensures Ring(Pushed(d, h, i, tag), h, [i] + l, tag)
  {
    if l != [] { assert LinkedAt(d, h, l, tag, 0); }
    var e, m := Pushed(d, h, i, tag), [i] + l;
    forall k | 0 <= k < |m| ensures LinkedAt(e, h, m, tag, k) {
      if k > 0 { assert LinkedAt(d, h, l, tag, k - 1) && m[k] == l[k - 1]; }
    }
  }

  lemma PushOther(d: Table, h: Ref, l: seq<nat>, tag: nat, i: nat, r: Ref)
    requires Ring(d, h, l, tag) && i !in l && Page(i) in d && r in d
    ensures d[h].next in d && d[h].next != Page(i)
    ensures Pushed(d, h, i, tag)[r].slab == d[r].slab
    ensures r != h && r != Page(i) && !(r.Page? && r.i in l) ==> Pushed(d, h, i, tag)[r] == d[r]
  {
    if l != [] { assert LinkedAt(d, h, l, tag, 0); }
  }

  // ---------- one page in the place of another

  function Replaced(d: Table, i: nat, j: nat, slab: Slab): (e: Table)
    requires Page(i) in d && Page(j) in d && d[Page(i)].prev.ref in d && d[Page(i)].next in d
    ensures e.Keys == d.Keys
  {
    var x := d[Page(i)];
    var d1 := d[Page(j) := Desc(slab, x.next, x.prev)];
    var d2 := d1[x.prev.ref := d1[x.prev.ref].(next := Page(j))];
    d2[x.next := d2[x.next].(prev := Prev(Page(j), 0))]
  }

  lemma ReplaceRing(d: Table, h: Ref, l: seq<nat>, k: nat, j: nat, slab: Slab)
    requires Ring(d, h, l, 0) && k < |l| && j !in l && Page(j) in d
    ensures Page(l[k]) in d && d[Page(l[k])].prev.ref in d && d[Page(l[k])].next in d
    ensures Ring(Replaced(d, l[k], j, slab), h, l[k := j], 0)
  {
    NeighboursIn(d, h, l, 0, k);
    var e, m := Replaced(d, l[k], j, slab), l[k := j];
    forall i | 0 <= i < |m| ensures LinkedAt(e, h, m, 0, i) {
      assert LinkedAt(d, h, l, 0, i);
    }
  }

  lemma ReplaceOther(d: Table, h: Ref, l: seq<nat>, k: nat, j: nat, slab: Slab, r: Ref)
    requires Ring(d, h, l, 0) && k < |l| && j !in l && Page(j) in d && r in d
    ensures Page(l[k]) in d && d[Page(l[k])].prev.ref in d && d[Page(l[k])].next in d
    ensures r != Page(j) ==> Replaced(d, l[k], j, slab)[r].slab == d[r].slab
    ensures r == Page(j) ==> Replaced(d, l[k], j, slab)[r].slab == slab
    ensures r != h && r != Page(j) && !(r.Page? && r.i in l) ==> Replaced(d, l[k], j, slab)[r] == d[r]
  {
    NeighboursIn(d, h, l, 0, k);
  }
}
