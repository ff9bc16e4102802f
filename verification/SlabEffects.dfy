/** What the steps of nginx's slab pool do to the set of allocations. */
module SlabEffects {

  import opened SlabRing
  import opened SlabState
  import opened SlabLive
  import opened SlabSteps
  import opened SlabRuns

  ghost predicate SamePage(m: Model, f: Model, j: nat)
    requires |m.used| == |m.kind| == |f.kind| == |f.used| && j < |m.kind|
  {
    && (forall off: nat :: LiveIn(m.kind[j], m.used[j], off) <==> LiveIn(f.kind[j], f.used[j], off))
    && ((exists off: nat :: LiveIn(m.kind[j], m.used[j], off)) ==> Capacity(m.kind[j]) == Capacity(f.kind[j]))
  }

  /** Away from page `i` nothing starts or ends or changes its capacity. */
  ghost predicate SameElsewhere(m: Model, f: Model, i: nat)
    requires |m.used| == |m.kind| == |f.kind| == |f.used|
  {
    forall j: nat :: j < |m.kind| && j != i ==> SamePage(m, f, j)
  }

  /** The allocations of page `i` are those of `live`. */
  ghost predicate LiveOn(start: nat, f: Model, live: map<nat, nat>, i: nat)
    requires |f.used| == |f.kind| && i < |f.kind|
  {
    forall p: nat :: p >= start && PageOf(start, p) == i ==>
                       && (p in live <==> LiveIn(f.kind[i], f.used[i], OffsetOf(start, p)))
                       && (p in live ==> live[p] == Capacity(f.kind[i]))
  }

  lemma LiveOne(start: nat, m: Model, f: Model, live: map<nat, nat>, live': map<nat, nat>, i: nat)
    requires |m.used| == |m.kind| == |f.kind| == |f.used| && i < |m.kind|
    requires LiveMap(start, m, live) && SameElsewhere(m, f, i) && LiveOn(start, f, live', i)
    requires forall p: nat :: p < start || PageOf(start, p) != i ==>
                                (p in live' <==> p in live) && (p in live ==> live'[p] == live[p])
    ensures LiveMap(start, f, live')
  {
    forall p: nat
      ensures p in live' <==> LiveAt(start, f, p)
      ensures p in live' ==> live'[p] == Capacity(f.kind[PageOf(start, p)])
    {
      if p >= start && PageOf(start, p) < |m.kind| && PageOf(start, p) != i {
        assert SamePage(m, f, PageOf(start, p));
      }
    }
  }

  // ---------- runs

  lemma LiveTaken(start: nat, m: Model, live: map<nat, nat>, k: nat, pages: nat)
    requires Takeable(|m.kind|, m, k, pages) && |m.used| == |m.kind| && Partition(m.kind) && LiveMap(start, m, live)
    ensures var i := m.free[k];
            && start + i * PAGE !in live
            && LiveMap(start, TakenModel(m, k, pages), live[start + i * PAGE := pages * PAGE])
  {
    var i, f := m.free[k], TakenModel(m, k, pages);
    var p := start + i * PAGE;
    var live' := live[p := pages * PAGE];
    assert Placed(m.kind, i);
    assert PageOf(start, p) == i;
    assert !LiveAt(start, m, p);
    forall j: nat | j < |m.kind| && j != i ensures SamePage(m, f, j) {
      assert i < j < i + m.kind[i].len ==> m.kind[j] == Inside(i);
    }
    forall q: nat | q >= start && PageOf(start, q) == i
      ensures (q in live' <==> OffsetOf(start, q) == 0) && (q in live' ==> live'[q] == pages * PAGE)
    {
      assert q != p ==> !LiveAt(start, m, q);
      if OffsetOf(start, q) == 0 { SamePlace(start, p, q); }
    }
    assert LiveOn(start, f, live', i);
    LiveOne(start, m, f, live, live', i);
  }

  lemma LiveGiven(start: nat, m: Model, live: map<nat, nat>, i: nat)
    requires |m.used| == |m.kind| && i < |m.kind| && m.kind[i].BusyRun? && LiveMap(start, m, live)
    ensures start + i * PAGE in live
    ensures LiveMap(start, GivenModel(m, i), live - {start + i * PAGE})
  {
    var p, f := start + i * PAGE, GivenModel(m, i);
    assert PageOf(start, p) == i && LiveAt(start, m, p);
    forall q: nat | q >= start && PageOf(start, q) == i ensures q !in live - {p} {
      if OffsetOf(start, q) == 0 { SamePlace(start, p, q); } else { assert !LiveAt(start, m, q); }
    }
    assert LiveOn(start, f, live - {p}, i);
    LiveOne(start, m, f, live, live - {p}, i);
  }

  // ---------- chunks

  /** The address of a chunk is the only one with its number. */
  lemma OneChunk(start: nat, x: nat, shift: nat, c: nat, q: nat)
    requires IsShift(shift) && c < Chunks(shift) && q >= start && PageOf(start, q) == x
    ensures OffsetOf(start, q) % Size(shift) == 0 && OffsetOf(start, q) / Size(shift) == c <==>
              q == Addr(start, x, shift, c)
  {
    hide Size, Chunks;
    AddrParts(start, x, shift, c);
    ChunkOffset(shift, c);
    if OffsetOf(start, q) % Size(shift) == 0 && OffsetOf(start, q) / Size(shift) == c {
      OffsetChunk(shift, OffsetOf(start, q));
      SamePlace(start, q, Addr(start, x, shift, c));
    }
  }

  lemma LiveUse(start: nat, m: Model, live: map<nat, nat>, x: nat, c: nat)
    requires |m.used| == |m.kind| && x < |m.kind| && m.kind[x].Cut? && IsShift(m.kind[x].shift)
    requires LiveMap(start, m, live) && Reserved(m.kind[x].shift) <= c < Chunks(m.kind[x].shift) && c !in m.used[x]
    ensures var p := Addr(start, x, m.kind[x].shift, c);
            && p !in live
            && LiveMap(start, m.(used := m.used[x := m.used[x] + {c}]), live[p := Size(m.kind[x].shift)])
  {
    hide Size, Chunks, Reserved;
    var shift := m.kind[x].shift;
    var p, f := Addr(start, x, shift, c), m.(used := m.used[x := m.used[x] + {c}]);
    var live' := live[p := Size(shift)];
    AddrParts(start, x, shift, c);
    ChunkOffset(shift, c);
    assert !LiveAt(start, m, p);
    forall q: nat | q >= start && PageOf(start, q) == x
      ensures (q in live' <==> LiveIn(f.kind[x], f.used[x], OffsetOf(start, q)))
              && (q in live' ==> live'[q] == Size(shift))
    {
      assert q in live <==> LiveAt(start, m, q);
      OneChunk(start, x, shift, c, q);
    }
    assert LiveOn(start, f, live', x);
    LiveOne(start, m, f, live, live', x);
  }

  lemma LiveUnuse(start: nat, m: Model, live: map<nat, nat>, x: nat, c: nat)
    requires |m.used| == |m.kind| && x < |m.kind| && m.kind[x].Cut? && IsShift(m.kind[x].shift)
    requires LiveMap(start, m, live) && Reserved(m.kind[x].shift) <= c < Chunks(m.kind[x].shift) && c in m.used[x]
    ensures var p := Addr(start, x, m.kind[x].shift, c);
            && p in live
            && LiveMap(start, m.(used := m.used[x := m.used[x] - {c}]), live - {p})
  {
    hide Size, Chunks, Reserved;
    var shift := m.kind[x].shift;
    var p, f := Addr(start, x, shift, c), m.(used := m.used[x := m.used[x] - {c}]);
    AddrParts(start, x, shift, c);
    ChunkOffset(shift, c);
    assert LiveAt(start, m, p);
    forall q: nat | q >= start && PageOf(start, q) == x
      ensures (q in live - {p} <==> LiveIn(f.kind[x], f.used[x], OffsetOf(start, q)))
              && (q in live - {p} ==> (live - {p})[q] == Size(shift))
    {
      assert q in live <==> LiveAt(start, m, q);
      OneChunk(start, x, shift, c, q);
    }
    assert LiveOn(start, f, live - {p}, x);
    LiveOne(start, m, f, live, live - {p}, x);
  }

  /** A page of which only the bitmap is in use holds no allocation. */
  lemma LiveEmptied(start: nat, m: Model, live: map<nat, nat>, s: nat, k: nat)
    requires |m.used| == |m.kind| && s < |m.lists| && k < |m.lists[s]| && m.lists[s][k] < |m.kind|
    requires var x := m.lists[s][k]; m.kind[x].Cut? && m.used[x] == Kept(m.kind[x].shift)
    requires LiveMap(start, m, live)
    ensures LiveMap(start, Emptied(m, s, k), live)
  {}

  lemma RunBase(start: nat, i: nat, q: nat)
    requires q >= start && PageOf(start, q) == i
    ensures forall u: Word :: LiveIn(BusyRun(1), u, OffsetOf(start, q)) <==> q == start + i * PAGE
  {}

  lemma FirstChunk(start: nat, i: nat, shift: nat, q: nat)
    requires IsShift(shift) && q >= start && PageOf(start, q) == i
    ensures LiveIn(Cut(shift), Kept(shift) + {Reserved(shift)}, OffsetOf(start, q)) <==>
              q == Addr(start, i, shift, Reserved(shift))
  {
    hide Size, Chunks, Reserved;
    Layout(shift);
    OneChunk(start, i, shift, Reserved(shift), q);
  }

  /** Cutting a page turns the run of one page into its first chunk. */
  lemma LiveCut(start: nat, m: Model, live: map<nat, nat>, i: nat, s: nat)
    requires |m.used| == |m.kind| && i < |m.kind| && m.kind[i] == BusyRun(1) && s < LISTS == |m.lists|
    requires LiveMap(start, m, live)
    ensures var shift := s + MIN_SHIFT;
            LiveMap(start, CutModel(m, i, s, Kept(shift) + {Reserved(shift)}),
                    (live - {start + i * PAGE})[Addr(start, i, shift, Reserved(shift)) := Size(shift)])
  {
    hide Size, Chunks, Reserved, LiveIn, Kept, Addr, OffsetOf;
    var shift := s + MIN_SHIFT;
    var c := Reserved(shift);
    var p, base, f := Addr(start, i, shift, c), start + i * PAGE, CutModel(m, i, s, Kept(shift) + {c});
    var live' := (live - {base})[p := Size(shift)];
    Layout(shift);
    AddrParts(start, i, shift, c);
    forall q: nat | q >= start && PageOf(start, q) == i
      ensures (q in live' <==> LiveIn(f.kind[i], f.used[i], OffsetOf(start, q)))
              && (q in live' ==> live'[q] == Size(shift))
    {
      assert q in live <==> LiveAt(start, m, q);
      RunBase(start, i, q);
      FirstChunk(start, i, shift, q);
    }
    assert LiveOn(start, f, live', i);
    LiveOne(start, m, f, live, live', i);
  }

  /** Nothing else starts in the run. */
  lemma CutNew(start: nat, m: Model, live: map<nat, nat>, i: nat, shift: nat)
    requires |m.used| == |m.kind| && i < |m.kind| && m.kind[i] == BusyRun(1) && IsShift(shift)
    requires LiveMap(start, m, live)
    ensures Addr(start, i, shift, Reserved(shift)) !in live - {start + i * PAGE}
  {
    hide Size, Chunks, Reserved;
    var p := Addr(start, i, shift, Reserved(shift));
    Layout(shift);
    AddrParts(start, i, shift, Reserved(shift));
    assert p in live <==> LiveAt(start, m, p);
    RunBase(start, i, p);
  }
}
