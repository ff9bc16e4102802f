/** Page runs of nginx's slab pool on values: taking the first pages of a free run, giving a
    run back, and cutting a page into chunks.
 */
module SlabRuns {

  import opened Common
  import opened SlabRing
  import opened SlabState
  import opened SlabSteps

  /** `v` written to the descriptors of the pages from `lo` up to `hi`. */
  function Filled(d: Table, lo: nat, hi: nat, v: Desc): (e: Table)
    requires forall j: nat :: lo <= j < hi ==> Page(j) in d
    ensures e.Keys == d.Keys
    ensures forall r :: r in d ==> e[r] == if r.Page? && lo <= r.i < hi then v else d[r]
    decreases hi
  {
    if hi <= lo then d else Filled(d, lo, hi - 1, v)[Page(hi - 1) := v]
  }

  const ZERO: Desc := Desc(Count(0), Null, Prev(Null, TAG_PAGE))
  const TAKEN: Desc := Desc(Busy, Null, Prev(Null, TAG_PAGE))

  // ---------- taking pages

  /** The first `pages` pages of the free run at `i` as a run of their own. */
  ghost function Taken(kind: seq<Kind>, i: nat, pages: nat): (f: seq<Kind>)
    requires i < |kind| && kind[i].FreeRun?
    ensures |f| == |kind|
  {
    var len := kind[i].len;
    seq(|kind|, x requires 0 <= x < |kind| =>
      if x == i then BusyRun(pages)
      else if i < x < i + pages then Inside(i)
      else if x == i + pages && pages < len then FreeRun(len - pages)
      else if i + pages < x < i + len then Inside(i + pages)
      else kind[x])
  }

  /** A page outside the run keeps what it is, and the run it belongs to. */
  lemma TakenOther(kind: seq<Kind>, i: nat, pages: nat, x: nat)
    requires Partition(kind) && i < |kind| && kind[i].FreeRun? && 0 < pages <= kind[i].len && x < |kind|
    ensures !(i <= x < i + kind[i].len) ==>
              && Taken(kind, i, pages)[x] == kind[x]
              && (kind[x].Inside? ==> kind[x].head < x && Taken(kind, i, pages)[kind[x].head] == kind[kind[x].head])
              && (kind[x].FreeRun? || kind[x].BusyRun? ==>
                    forall j: nat :: x < j < x + kind[x].len ==> j < |kind| && Taken(kind, i, pages)[j] == kind[j])
  {
    assert Placed(kind, i) && Placed(kind, x);
    if !(i <= x < i + kind[i].len) && (kind[x].FreeRun? || kind[x].BusyRun?) {
      forall j: nat | x < j < x + kind[x].len ensures j < |kind| && Taken(kind, i, pages)[j] == kind[j] {
        assert kind[j] == Inside(x);
      }
    }
  }

  lemma TakenPartition(kind: seq<Kind>, i: nat, pages: nat)
    requires Partition(kind) && i < |kind| && kind[i].FreeRun? && 0 < pages <= kind[i].len
    ensures Partition(Taken(kind, i, pages))
  {
    var f, len := Taken(kind, i, pages), kind[i].len;
    assert Placed(kind, i);
    forall x: nat | x < |f| ensures Placed(f, x) {
      assert Placed(kind, x);
      TakenOther(kind, i, pages, x);
    }
  }

  ghost function TakenModel(m: Model, k: nat, pages: nat): Model
    requires k < |m.free| && m.free[k] < |m.kind| && m.kind[m.free[k]].FreeRun? && 0 < pages <= m.kind[m.free[k]].len
  {
    var i := m.free[k];
    m.(kind := Taken(m.kind, i, pages),
       free := if pages < m.kind[i].len then m.free[k := i + pages] else m.free[..k] + m.free[k + 1..])
  }

  /** The ring without the pages taken: the rest of the run stands in its place. */
  function Shortened(d: Table, i: nat, pages: nat, len: nat): (e: Table)
    requires Page(i) in d && d[Page(i)].prev.ref in d && d[Page(i)].next in d
    requires pages < len ==> Page(i + pages) in d
    ensures e.Keys == d.Keys
  {
    if pages < len then Replaced(d, i, i + pages, Count(len - pages)) else Unlinked(d, Page(i))
  }

  function TakenTable(d: Table, i: nat, pages: nat, len: nat): (e: Table)
    requires Page(i) in d && d[Page(i)].prev.ref in d && d[Page(i)].next in d && 0 < pages <= len
    requires forall j: nat :: i <= j < i + len ==> Page(j) in d
    ensures e.Keys == d.Keys
  {
    Filled(Shortened(d, i, pages, len)[Page(i) := Desc(Start(pages), Null, Prev(Null, TAG_PAGE))], i + 1, i + pages,
           TAKEN)
  }

  ghost predicate Takeable(n: nat, m: Model, k: nat, pages: nat) {
    && |m.kind| == n && k < |m.free| && m.free[k] < n && m.kind[m.free[k]].FreeRun?
    && 0 < pages <= m.kind[m.free[k]].len
  }

  /** `e` is `d` but for the links of the free runs and for the run of `len` pages at `i`, of
      which only page `i + pages` is written. */
  ghost predicate ShortenedTo(d: Table, e: Table, free: seq<nat>, i: nat, pages: nat, len: nat) {
    && e.Keys == d.Keys
    && (forall r :: r in d && !(r.Page? && i <= r.i < i + len) ==> e[r].slab == d[r].slab)
    && (forall r :: r in d && r != FreeHead && !(r.Page? && (r.i in free || i <= r.i < i + len)) ==> e[r] == d[r])
    && (forall j: nat :: i < j < i + len && j != i + pages && Page(j) in d ==> e[Page(j)] == d[Page(j)])
    && (pages < len ==> Page(i + pages) in e && e[Page(i + pages)].slab == Count(len - pages))
  }

  lemma ShortenedSplit(d: Table, free: seq<nat>, k: nat, pages: nat, len: nat)
    requires Ring(d, FreeHead, free, TAG_PAGE) && k < |free| && 0 < pages < len
    requires forall j: nat :: free[k] < j < free[k] + len ==> Page(j) in d && j !in free
    ensures var i := free[k];
            && Page(i) in d && d[Page(i)].prev.ref in d && d[Page(i)].next in d
            && var e := Shortened(d, i, pages, len);
            && Ring(e, FreeHead, free[k := i + pages], TAG_PAGE) && ShortenedTo(d, e, free, i, pages, len)
  {
    hide Ring;
    var i := free[k];
    ReplaceRing(d, FreeHead, free, k, i + pages, Count(len - pages));
    var e := Shortened(d, i, pages, len);
    forall r | r in d
      ensures r != Page(i + pages) ==> e[r].slab == d[r].slab
      ensures r != FreeHead && r != Page(i + pages) && !(r.Page? && r.i in free) ==> e[r] == d[r]
      ensures r == Page(i + pages) ==> e[r].slab == Count(len - pages)
    {
      ReplaceOther(d, FreeHead, free, k, i + pages, Count(len - pages), r);
    }
  }

  lemma ShortenedWhole(d: Table, free: seq<nat>, k: nat, len: nat)
    requires Ring(d, FreeHead, free, TAG_PAGE) && k < |free| && 0 < len
    requires forall j: nat :: free[k] < j < free[k] + len ==> Page(j) in d && j !in free
    ensures var i := free[k];
            && Page(i) in d && d[Page(i)].prev.ref in d && d[Page(i)].next in d
            && var e := Shortened(d, i, len, len);
            && Ring(e, FreeHead, free[..k] + free[k + 1..], TAG_PAGE) && ShortenedTo(d, e, free, i, len, len)
  {
    hide Ring;
    var i := free[k];
    UnlinkRing(d, FreeHead, free, TAG_PAGE, k);
    assert Out(free, k) == free[..k] + free[k + 1..];
    var e := Shortened(d, i, len, len);
    forall r | r in d
      ensures e[r].slab == d[r].slab
      ensures r != FreeHead && !(r.Page? && r.i in free) ==> e[r] == d[r]
    {
      UnlinkOther(d, FreeHead, free, TAG_PAGE, k, r);
    }
  }

  /** `e` is `d` with `pages` pages taken from the front of the free run of `len` pages at `i`. */
  ghost predicate TakenTo(d: Table, e: Table, free: seq<nat>, i: nat, pages: nat, len: nat) {
    && e.Keys == d.Keys && 0 < pages <= len && (forall j: nat :: i <= j < i + len ==> Page(j) in d)
    && e[Page(i)] == Desc(Start(pages), Null, Prev(Null, TAG_PAGE))
    && (forall j: nat :: i < j < i + pages ==> e[Page(j)] == TAKEN)
    && (pages < len ==> e[Page(i + pages)].slab == Count(len - pages))
    && (forall j: nat :: i + pages < j < i + len ==> e[Page(j)] == d[Page(j)])
    && (forall r :: r in d && !(r.Page? && i <= r.i < i + len) ==> e[r].slab == d[r].slab)
    && (forall r :: r in d && r != FreeHead && !(r.Page? && (r.i in free || i <= r.i < i + len)) ==> e[r] == d[r])
  }

  lemma FilledTo(d: Table, free: seq<nat>, i: nat, pages: nat, len: nat)
    requires 0 < pages <= len && (forall j: nat :: i <= j < i + len ==> Page(j) in d)
    requires d[Page(i)].prev.ref in d && d[Page(i)].next in d
    requires ShortenedTo(d, Shortened(d, i, pages, len), free, i, pages, len)
    ensures TakenTo(d, TakenTable(d, i, pages, len), free, i, pages, len)
  {
    hide Shortened;
  }

  lemma TakenFree(m: Model, k: nat, pages: nat)
    requires Takeable(|m.kind|, m, k, pages)
    ensures TakenModel(m, k, pages).free ==
              if pages < m.kind[m.free[k]].len then m.free[k := m.free[k] + pages] else m.free[..k] + m.free[k + 1..]
  {}

  lemma TakenKinds(m: Model, k: nat, pages: nat, j: nat)
    requires Takeable(|m.kind|, m, k, pages)
    ensures var f, i := TakenModel(m, k, pages), m.free[k];
            |f.kind| == |m.kind| && (j < |f.kind| && f.kind[j].FreeRun? ==> !(i <= j < i + pages))
  {}

  lemma SwapMember(l: seq<nat>, k: nat, j: nat, x: nat)
    requires k < |l| && NoDup(l)
    ensures x in l[k := j] <==> x == j || (x in l && x != l[k])
  {
    if x in l && x != l[k] {
      var a :| 0 <= a < |l| && l[a] == x;
      assert l[k := j][a] == x;
    }
    if x == j { assert l[k := j][k] == x; }
    if x in l[k := j] {
      var a :| 0 <= a < |l| && l[k := j][a] == x;
      assert a != k ==> l[a] == x;
    }
  }

  /** The free runs are still the pages on the list. */
  lemma FreeMembers(m: Model, k: nat, pages: nat)
    requires k < |m.free| && m.free[k] < |m.kind| && m.kind[m.free[k]].FreeRun? && 0 < pages <= m.kind[m.free[k]].len
    requires NoDup(m.free) && Partition(m.kind)
    requires forall i: nat :: i in m.free <==> i < |m.kind| && m.kind[i].FreeRun?
    ensures var f := TakenModel(m, k, pages);
            forall x: nat :: x in f.free <==> x < |f.kind| && f.kind[x].FreeRun?
  {
    var f, i := TakenModel(m, k, pages), m.free[k];
    var len := m.kind[i].len;
    assert Placed(m.kind, i);
    if pages == len {
      OutMembers(m.free, k);
      assert Out(m.free, k) == f.free;
    }
    forall x: nat ensures x in f.free <==> x < |f.kind| && f.kind[x].FreeRun? {
      if pages < len { SwapMember(m.free, k, i + pages, x); }
      assert x in m.free <==> x < |m.kind| && m.kind[x].FreeRun?;
      assert i < x < i + len ==> m.kind[x] == Inside(i);
    }
  }

  /** The ring of free runs is not touched by what is written to the pages taken. */
  lemma TakenRing(d: Table, m: Model, k: nat, pages: nat)
    requires Takeable(|m.kind|, m, k, pages) && Partition(m.kind) && NoDup(m.free)
    requires forall i: nat :: i in m.free <==> i < |m.kind| && m.kind[i].FreeRun?
    requires var i, len := m.free[k], m.kind[m.free[k]].len;
             && FreeHead in d && Page(i) in d && d[Page(i)].prev.ref in d && d[Page(i)].next in d
             && (forall j: nat :: i <= j < i + len ==> Page(j) in d)
             && Ring(Shortened(d, i, pages, len), FreeHead, TakenModel(m, k, pages).free, TAG_PAGE)
    ensures Ring(TakenTable(d, m.free[k], pages, m.kind[m.free[k]].len), FreeHead, TakenModel(m, k, pages).free,
                 TAG_PAGE)
  {
    hide Ring, Shortened, TakenModel;
    var i, len, l := m.free[k], m.kind[m.free[k]].len, TakenModel(m, k, pages).free;
    FreeMembers(m, k, pages);
    forall j | j in l ensures !(i <= j < i + pages) {
      TakenKinds(m, k, pages, j);
    }
    RingKeeps(Shortened(d, i, pages, len), TakenTable(d, i, pages, len), FreeHead, l, TAG_PAGE);
  }

  /** What the table holds once the pages are taken. */
  lemma TakenAt(n: nat, d: Table, m: Model, k: nat, pages: nat)
    requires Takeable(n, m, k, pages) && Domain(n, d) && Partition(m.kind) && Ring(d, FreeHead, m.free, TAG_PAGE)
    requires forall i: nat :: i in m.free <==> i < |m.kind| && m.kind[i].FreeRun?
    ensures var i, len := m.free[k], m.kind[m.free[k]].len;
            && Page(i) in d && d[Page(i)].prev.ref in d && d[Page(i)].next in d
            && (forall j: nat :: i <= j < i + len ==> Page(j) in d)
            && TakenTo(d, TakenTable(d, i, pages, len), m.free, i, pages, len)
            && Ring(TakenTable(d, i, pages, len), FreeHead, TakenModel(m, k, pages).free, TAG_PAGE)
  {
    hide Ring, Shortened, TakenTo, ShortenedTo, TakenModel, TakenTable;
    var i, len := m.free[k], m.kind[m.free[k]].len;
    assert Placed(m.kind, i);
    assert forall j: nat :: i < j < i + len ==> m.kind[j] == Inside(i) && j !in m.free;
    TakenFree(m, k, pages);
    if pages < len { ShortenedSplit(d, m.free, k, pages, len); } else { ShortenedWhole(d, m.free, k, len); }
    FilledTo(d, m.free, i, pages, len);
    RingNoDup(d, FreeHead, m.free, TAG_PAGE);
    TakenRing(d, m, k, pages);
  }

  /** A page of chunks stays as it is when pages are taken. */
  lemma TakenCut(kind: seq<Kind>, i: nat, pages: nat, x: nat)
    requires Partition(kind) && i < |kind| && kind[i].FreeRun? && 0 < pages <= kind[i].len && x < |kind|
    ensures kind[x].Cut? || Taken(kind, i, pages)[x].Cut? ==>
              Taken(kind, i, pages)[x] == kind[x] && !(i <= x < i + kind[i].len)
  {
    assert Placed(kind, i);
    assert i < x < i + kind[i].len ==> kind[x] == Inside(i);
  }

  lemma TakenListed(m: Model, k: nat, pages: nat)
    requires Takeable(|m.kind|, m, k, pages) && |m.used| == |m.kind| && |m.lists| == LISTS
    requires Listed(m) && Partition(m.kind) && NoDup(m.free)
    ensures Listed(TakenModel(m, k, pages))
  {
    hide All, Taken;
    var f := TakenModel(m, k, pages);
    FreeMembers(m, k, pages);
    forall s: nat, i: nat | s < LISTS ensures i in f.lists[s] <==> Open(f, s, i) {
      assert i in m.lists[s] <==> Open(m, s, i);
      if i < |m.kind| { TakenCut(m.kind, m.free[k], pages, i); }
    }
  }

  lemma TakenDescribed(n: nat, d: Table, e: Table, m: Model, k: nat, pages: nat, x: nat)
    requires Takeable(n, m, k, pages) && |m.used| == n && |m.lists| == LISTS && x < n
    requires Partition(m.kind) && Listed(m) && Domain(n, d)
    requires TakenTo(d, e, m.free, m.free[k], pages, m.kind[m.free[k]].len)
    requires forall i: nat :: i < n ==> Described(d, m, i)
    ensures Partition(TakenModel(m, k, pages).kind)
    ensures Page(x) in e && Described(e, TakenModel(m, k, pages), x)
  {
    hide All;
    var i, f := m.free[k], TakenModel(m, k, pages);
    var len := m.kind[i].len;
    TakenPartition(m.kind, i, pages);
    assert Placed(m.kind, i) && Placed(m.kind, x) && Placed(f.kind, x);
    assert Described(d, m, x);
    if i < x < i + len {
      assert m.kind[x] == Inside(i);
    } else if x != i {
      TakenOther(m.kind, i, pages, x);
      assert x in m.free ==> m.kind[x].FreeRun?;
    }
  }

  lemma TakenDomain(n: nat, d: Table, e: Table)
    requires Domain(n, d) && e.Keys == d.Keys
    ensures Domain(n, e)
  {}

  lemma RingsSame(d: Table, m: Model, f: Model)
    requires |m.lists| == LISTS && Rings(d, m) && f.free == m.free && f.lists == m.lists
    ensures Rings(d, f)
  {}

  lemma TakenRings(d: Table, e: Table, m: Model, k: nat, pages: nat)
    requires Takeable(|m.kind|, m, k, pages) && |m.used| == |m.kind| && |m.lists| == LISTS
    requires Listed(m) && Partition(m.kind) && Rings(d, m)
    requires TakenTo(d, e, m.free, m.free[k], pages, m.kind[m.free[k]].len)
    requires Ring(e, FreeHead, TakenModel(m, k, pages).free, TAG_PAGE)
    ensures Rings(e, TakenModel(m, k, pages))
  {
    hide Ring, All, Taken;
    var i, len := m.free[k], m.kind[m.free[k]].len;
    forall t: nat, x | t < LISTS && x in m.lists[t] ensures x !in m.free && !(i <= x < i + len) {
      assert Open(m, t, x);
      TakenCut(m.kind, i, pages, x);
    }
    RingsFree(d, e, m, TakenModel(m, k, pages).free, i, i + len);
    RingsSame(e, m.(free := TakenModel(m, k, pages).free), TakenModel(m, k, pages));
  }

  lemma ListedFree(m: Model)
    requires |m.used| == |m.kind| && |m.lists| == LISTS && Listed(m)
    ensures forall i: nat :: i in m.free <==> i < |m.kind| && m.kind[i].FreeRun?
  {}

  /** Taking pages from a free run keeps the invariant. */
  lemma TakeInv(n: nat, d: Table, w: seq<seq<Word>>, m: Model, k: nat, pages: nat)
    requires Inv(n, d, w, m) && Takeable(n, m, k, pages)
    ensures var i, len := m.free[k], m.kind[m.free[k]].len;
            && Page(i) in d && d[Page(i)].prev.ref in d && d[Page(i)].next in d
            && (forall j: nat :: i <= j < i + len ==> Page(j) in d)
            && Inv(n, TakenTable(d, i, pages, len), w, TakenModel(m, k, pages))
  {
    hide All, Ring, Taken, TakenTable, Described, Listed, Encodes;
    var i, len, f := m.free[k], m.kind[m.free[k]].len, TakenModel(m, k, pages);
    ListedFree(m);
    TakenAt(n, d, m, k, pages);
    var e := TakenTable(d, i, pages, len);
    RingNoDup(d, FreeHead, m.free, TAG_PAGE);
    TakenListed(m, k, pages);
    TakenPartition(m.kind, i, pages);
    TakenDomain(n, d, e);
    forall x: nat | x < n ensures Described(e, f, x) && Marked(e, w, f, x) {
      TakenDescribed(n, d, e, m, k, pages, x);
      assert Marked(d, w, m, x);
      TakenCut(m.kind, i, pages, x);
    }
    TakenRings(d, e, m, k, pages);
  }

  // ---------- giving a run back

  function GivenTable(d: Table, i: nat, len: nat): (e: Table)
    requires 0 < len && (forall j: nat :: i <= j < i + len ==> Page(j) in d)
    requires FreeHead in d && d[FreeHead].next in d && d[FreeHead].next != Page(i)
    ensures e.Keys == d.Keys
  {
    Pushed(Filled(WithSlab(d, i, Count(len)), i + 1, i + len, ZERO), FreeHead, i, TAG_PAGE)
  }

  ghost function GivenModel(m: Model, i: nat): Model
    requires i < |m.kind| && m.kind[i].BusyRun?
  {
    m.(kind := m.kind[i := FreeRun(m.kind[i].len)], free := [i] + m.free)
  }

  lemma GivenPartition(kind: seq<Kind>, i: nat)
    requires Partition(kind) && i < |kind| && kind[i].BusyRun?
    ensures Partition(kind[i := FreeRun(kind[i].len)])
  {
    var f := kind[i := FreeRun(kind[i].len)];
    forall x: nat | x < |f| ensures Placed(f, x) {
      assert Placed(kind, x);
    }
  }

  lemma GivenListed(m: Model, i: nat)
    requires |m.used| == |m.kind| && |m.lists| == LISTS && Listed(m) && i < |m.kind| && m.kind[i].BusyRun?
    ensures Listed(GivenModel(m, i))
  {}

  /** Only the run and the links of the free runs are written. */
  ghost predicate GivenTo(d: Table, e: Table, free: seq<nat>, i: nat, len: nat) {
    && e.Keys == d.Keys && Page(i) in d && e[Page(i)].slab == Count(len)
    && (forall j: nat :: i < j < i + len && Page(j) in d ==> e[Page(j)] == ZERO)
    && (forall r :: r in d && !(r.Page? && i <= r.i < i + len) ==> e[r].slab == d[r].slab)
    && (forall r :: r in d && r != FreeHead && !(r.Page? && (r.i in free || i <= r.i < i + len)) ==> e[r] == d[r])
  }

  /** The ring of free runs is not touched by what is written to other pages. */
  lemma FilledRing(n: nat, d: Table, m: Model, i: nat, len: nat)
    requires |m.kind| == n && Domain(n, d) && Ring(d, FreeHead, m.free, TAG_PAGE) && 0 < len <= n - i
    requires forall j: nat :: i <= j < i + len ==> j !in m.free
    ensures (forall j: nat :: i <= j < i + len ==> Page(j) in d)
    ensures var e := Filled(WithSlab(d, i, Count(len)), i + 1, i + len, ZERO);
            e.Keys == d.Keys && Ring(e, FreeHead, m.free, TAG_PAGE)
  {
    hide Ring;
    RingKeeps(d, Filled(WithSlab(d, i, Count(len)), i + 1, i + len, ZERO), FreeHead, m.free, TAG_PAGE);
  }

  lemma GivenOther(d: Table, free: seq<nat>, i: nat)
    requires Ring(d, FreeHead, free, TAG_PAGE) && i !in free && Page(i) in d
    ensures d[FreeHead].next in d && d[FreeHead].next != Page(i)
    ensures forall r :: r in d ==> Pushed(d, FreeHead, i, TAG_PAGE)[r].slab == d[r].slab
    ensures forall r :: r in d && r != FreeHead && r != Page(i) && !(r.Page? && r.i in free) ==>
                          Pushed(d, FreeHead, i, TAG_PAGE)[r] == d[r]
  {
    hide Ring, Pushed;
    PushRing(d, FreeHead, free, TAG_PAGE, i);
    forall r | r in d
      ensures Pushed(d, FreeHead, i, TAG_PAGE)[r].slab == d[r].slab
      ensures r != FreeHead && r != Page(i) && !(r.Page? && r.i in free) ==> Pushed(d, FreeHead, i, TAG_PAGE)[r] == d[r]
    {
      PushOther(d, FreeHead, free, TAG_PAGE, i, r);
    }
  }

  lemma GivenSame(d: Table, d1: Table, e: Table, free: seq<nat>, i: nat, len: nat)
    requires 0 < len && (forall j: nat :: i <= j < i + len ==> Page(j) in d && j !in free)
    requires d1 == Filled(WithSlab(d, i, Count(len)), i + 1, i + len, ZERO) && e.Keys == d.Keys
    requires forall r :: r in d ==> e[r].slab == d1[r].slab
    requires forall r :: r in d && r != FreeHead && r != Page(i) && !(r.Page? && r.i in free) ==> e[r] == d1[r]
    ensures GivenTo(d, e, free, i, len)
  {}

  lemma GivenAt(n: nat, d: Table, m: Model, i: nat, len: nat)
    requires |m.kind| == n && Domain(n, d) && Ring(d, FreeHead, m.free, TAG_PAGE) && 0 < len <= n - i
    requires forall j: nat :: i <= j < i + len ==> j !in m.free
    ensures (forall j: nat :: i <= j < i + len ==> Page(j) in d)
    ensures d[FreeHead].next in d && d[FreeHead].next != Page(i)
    ensures GivenTo(d, GivenTable(d, i, len), m.free, i, len)
    ensures Ring(GivenTable(d, i, len), FreeHead, [i] + m.free, TAG_PAGE)
  {
    hide Ring, Pushed, GivenTo, Filled;
    var d1 := Filled(WithSlab(d, i, Count(len)), i + 1, i + len, ZERO);
    PushRing(d, FreeHead, m.free, TAG_PAGE, i);
    FilledRing(n, d, m, i, len);
    PushRing(d1, FreeHead, m.free, TAG_PAGE, i);
    GivenOther(d1, m.free, i);
    GivenSame(d, d1, GivenTable(d, i, len), m.free, i, len);
  }

  lemma GivenDescribed(n: nat, d: Table, e: Table, m: Model, i: nat, x: nat)
    requires |m.kind| == |m.used| == n && |m.lists| == LISTS && x < n && i < n && m.kind[i].BusyRun?
    requires Partition(m.kind) && Listed(m) && Domain(n, d)
    requires GivenTo(d, e, m.free, i, m.kind[i].len)
    requires Described(d, m, x) && Described(d, m, i)
    ensures Partition(GivenModel(m, i).kind)
    ensures Page(x) in e && Described(e, GivenModel(m, i), x)
  {
    hide All;
    GivenPartition(m.kind, i);
    var len, f := m.kind[i].len, GivenModel(m, i);
    assert Placed(m.kind, i) && Placed(m.kind, x) && Placed(f.kind, x);
    if i < x < i + len {
      assert m.kind[x] == Inside(i);
    } else if x != i {
      assert x in m.free ==> m.kind[x].FreeRun?;
    }
  }

  lemma GivenRings(d: Table, e: Table, m: Model, i: nat)
    requires |m.used| == |m.kind| && |m.lists| == LISTS && i < |m.kind| && m.kind[i].BusyRun?
    requires Listed(m) && Partition(m.kind) && Rings(d, m)
    requires GivenTo(d, e, m.free, i, m.kind[i].len)
    requires Ring(e, FreeHead, [i] + m.free, TAG_PAGE)
    ensures Rings(e, GivenModel(m, i))
  {
    hide Ring, All;
    var len := m.kind[i].len;
    assert Placed(m.kind, i);
    assert forall j: nat :: i < j < i + len ==> m.kind[j] == Inside(i);
    forall t: nat, x | t < LISTS && x in m.lists[t] ensures x !in m.free && !(i <= x < i + len) {
      assert Open(m, t, x);
    }
    RingsFree(d, e, m, [i] + m.free, i, i + len);
    RingsSame(e, m.(free := [i] + m.free), GivenModel(m, i));
  }

  /** Giving a run back keeps the invariant. */
  lemma GiveInv(n: nat, d: Table, w: seq<seq<Word>>, m: Model, i: nat)
    requires Inv(n, d, w, m) && i < n && m.kind[i].BusyRun?
    ensures var len := m.kind[i].len;
            && 0 < len && (forall j: nat :: i <= j < i + len ==> Page(j) in d)
            && d[Page(i)].next == Null && d[FreeHead].next in d && d[FreeHead].next != Page(i)
            && Inv(n, GivenTable(d, i, len), w, GivenModel(m, i))
  {
    hide All, Ring, GivenTable, Listed, Encodes;
    var len, f := m.kind[i].len, GivenModel(m, i);
    assert Placed(m.kind, i) && Described(d, m, i);
    ListedFree(m);
    assert forall j: nat :: i < j < i + len ==> m.kind[j] == Inside(i);
    GivenAt(n, d, m, i, len);
    var e := GivenTable(d, i, len);
    GivenListed(m, i);
    GivenPartition(m.kind, i);
    TakenDomain(n, d, e);
    GivenRings(d, e, m, i);
    forall x: nat | x < n ensures Described(e, f, x) && Marked(e, w, f, x) {
      assert Described(d, m, x);
      GivenDescribed(n, d, e, m, i, x);
      assert Marked(d, w, m, x);
      assert i < x < i + len ==> m.kind[x] == Inside(i);
    }
  }

  // ---------- a free run given back again

  /** A free run that is given back is taken out of its ring and put first. */
  lemma AgainRings(d: Table, m: Model, k: nat)
    requires |m.used| == |m.kind| && |m.lists| == LISTS && k < |m.free| && Rings(d, m) && Listed(m) && FreeHead in d
    ensures var x := m.free[k];
            && Returnable(d, x) && Rings(Returned(d, x), m.(free := [x] + Out(m.free, k)))
            && (forall r :: r in d ==> Returned(d, x)[r].slab == d[r].slab)
            && (forall i: nat :: Page(i) in d && i !in m.free ==> Returned(d, x)[Page(i)] == d[Page(i)])
  {
    hide All, Unlinked, Pushed;
    var x := m.free[k];
    NeighboursIn(d, FreeHead, m.free, TAG_PAGE, k);
    UnlinkRing(d, FreeHead, m.free, TAG_PAGE, k);
    var d1, l := Unlinked(d, Page(x)), Out(m.free, k);
    OutMembers(m.free, k);
    PushRing(d1, FreeHead, l, TAG_PAGE, x);
    var e := Pushed(d1, FreeHead, x, TAG_PAGE);
    forall r | r in d
      ensures e[r].slab == d[r].slab && (r != FreeHead && !(r.Page? && r.i in m.free) ==> e[r] == d[r])
    {
      UnlinkOther(d, FreeHead, m.free, TAG_PAGE, k, r);
      PushOther(d1, FreeHead, l, TAG_PAGE, x, r);
      assert x in m.free;
    }
    forall t: nat, i | t < LISTS && i in m.lists[t] ensures i !in m.free {
      assert Open(m, t, i);
    }
    RingsFree(d, e, m, [x] + l, x, x);
  }

  lemma FreeAt(m: Model, k: nat)
    requires |m.used| == |m.kind| && |m.lists| == LISTS && Listed(m) && k < |m.free|
    ensures m.free[k] < |m.kind| && m.kind[m.free[k]].FreeRun?
  {
    assert m.free[k] in m.free;
  }

  lemma AgainListed(d: Table, m: Model, k: nat)
    requires |m.used| == |m.kind| && |m.lists| == LISTS && Listed(m) && k < |m.free| && Rings(d, m)
    ensures Listed(m.(free := [m.free[k]] + Out(m.free, k)))
  {
    hide All;
    RingNoDup(d, FreeHead, m.free, TAG_PAGE);
    OutMembers(m.free, k);
    var f := m.(free := [m.free[k]] + Out(m.free, k));
    assert m.free[k] in m.free;
    forall s: nat, i: nat | s < LISTS ensures i in f.lists[s] <==> Open(f, s, i) {
      assert i in m.lists[s] <==> Open(m, s, i);
    }
  }

  lemma AgainDescribed(d: Table, e: Table, w: seq<seq<Word>>, m: Model, f: Model, i: nat)
    requires i < |m.kind| == |m.used| == |w| && |m.lists| == LISTS && Page(i) in d && Page(i) in e && Placed(m.kind, i)
    requires Described(d, m, i) && Marked(d, w, m, i) && f.kind == m.kind && f.used == m.used && Listed(m)
    requires e[Page(i)].slab == d[Page(i)].slab && (i !in m.free ==> e[Page(i)] == d[Page(i)])
    ensures Described(e, f, i) && Marked(e, w, f, i)
  {
    hide Encodes, All, Kept;
  }

  /** The descriptors of a free run are already what giving it back writes. */
  lemma AgainSame(n: nat, d: Table, m: Model, x: nat)
    requires |m.kind| == |m.used| == n && Domain(n, d) && Partition(m.kind) && x < n && m.kind[x].FreeRun?
    requires forall i: nat :: i < n ==> Described(d, m, i)
    ensures var len := m.kind[x].len;
            && 0 < len && (forall j: nat :: x <= j < x + len ==> Page(j) in d)
            && Filled(WithSlab(d, x, Count(len)), x + 1, x + len, ZERO) == d
  {
    hide All;
    var len := m.kind[x].len;
    assert Placed(m.kind, x) && Described(d, m, x);
    forall j: nat | x < j < x + len ensures Page(j) in d && d[Page(j)] == ZERO {
      assert m.kind[j] == Inside(x) && Placed(m.kind, j) && Described(d, m, j);
    }
    hide Partition, Described;
    var e := Filled(WithSlab(d, x, Count(len)), x + 1, x + len, ZERO);
    forall r | r in d ensures e[r] == d[r] {}
  }

  /** Giving a free run back again keeps the invariant. */
  lemma AgainInv(n: nat, d: Table, w: seq<seq<Word>>, m: Model, k: nat)
    requires Inv(n, d, w, m) && k < |m.free|
    ensures |m.kind| == n && m.free[k] < n && m.kind[m.free[k]].FreeRun?
    ensures var x, len := m.free[k], m.kind[m.free[k]].len;
            && 0 < len && (forall j: nat :: x <= j < x + len ==> Page(j) in d)
            && Filled(WithSlab(d, x, Count(len)), x + 1, x + len, ZERO) == d
            && Returnable(d, x) && Inv(n, Returned(d, x), w, m.(free := [x] + Out(m.free, k)))
  {
    hide All, Ring, Returnable, Returned, Encodes, Described, Marked, Rings, Listed, Filled, Out;
    var x := m.free[k];
    FreeAt(m, k);
    AgainSame(n, d, m, x);
    AgainRings(d, m, k);
    var e, f := Returned(d, x), m.(free := [x] + Out(m.free, k));
    TakenDomain(n, d, e);
    AgainListed(d, m, k);
    forall i: nat | i < n ensures Described(e, f, i) && Marked(e, w, f, i) {
      AgainDescribed(d, e, w, m, f, i);
    }
  }

  // ---------- cutting a page

  function CutTable(d: Table, i: nat, s: nat, slab: Slab): (e: Table)
    requires Page(i) in d && Slot(s) in d
    ensures e.Keys == d.Keys
  {
    var d1 := d[Page(i) := Desc(slab, Slot(s), Prev(Slot(s), Tag(s + MIN_SHIFT)))];
    d1[Slot(s) := d1[Slot(s)].(next := Page(i))]
  }

  ghost function CutModel(m: Model, i: nat, s: nat, u: Word): Model
    requires i < |m.kind| == |m.used| && s < |m.lists|
  {
    m.(kind := m.kind[i := Cut(s + MIN_SHIFT)], used := m.used[i := u], lists := m.lists[s := [i]])
  }

  lemma CutPartition(kind: seq<Kind>, i: nat, shift: nat)
    requires Partition(kind) && i < |kind| && kind[i] == BusyRun(1) && IsShift(shift)
    ensures Partition(kind[i := Cut(shift)])
  {
    var f := kind[i := Cut(shift)];
    forall x: nat | x < |f| ensures Placed(f, x) {
      assert Placed(kind, x);
    }
  }

  lemma CutListed(m: Model, i: nat, s: nat, u: Word)
    requires |m.used| == |m.kind| && |m.lists| == LISTS && Listed(m) && i < |m.kind| && m.kind[i] == BusyRun(1)
    requires s < LISTS && m.lists[s] == [] && u != All(s + MIN_SHIFT)
    ensures Listed(CutModel(m, i, s, u))
  {}

  /** A page taken for chunks becomes the only page of its empty list. */
  lemma CutInv(n: nat, d: Table, w: seq<seq<Word>>, m: Model, i: nat, s: nat, slab: Slab, ws: seq<Word>, u: Word)
    requires Inv(n, d, w, m) && i < n && m.kind[i] == BusyRun(1) && s < LISTS && m.lists[s] == []
    requires Kept(s + MIN_SHIFT) < u < All(s + MIN_SHIFT) && Encodes(s + MIN_SHIFT, slab, ws, u)
    ensures Page(i) in d && Slot(s) in d
    ensures Inv(n, CutTable(d, i, s, slab), w[i := ws], CutModel(m, i, s, u))
  {
    hide All, Kept, Encodes;
    var e, f, v := CutTable(d, i, s, slab), CutModel(m, i, s, u), w[i := ws];
    CutPartition(m.kind, i, s + MIN_SHIFT);
    CutListed(m, i, s, u);
    TakenDomain(n, d, e);
    assert i !in m.free;
    forall t: nat, x | t < LISTS && x in m.lists[t] ensures x != i { assert Open(m, t, x); }
    RingsSlot(d, e, m, s, [i], i);
    RingsSame(e, m.(lists := m.lists[s := [i]]), f);
    forall x: nat | x < n ensures Described(e, f, x) && Marked(e, v, f, x) {
      assert Described(d, m, x) && Placed(m.kind, x);
      assert Marked(d, w, m, x);
    }
  }
}
