/** nginx's slab pool: allocation and freeing of chunks and page runs, in place on the
    descriptors and the bitmaps.
 */
module SlabPool {

  import opened Common
  import opened SlabRing
  import opened SlabState
  import opened SlabLive
  import opened SlabSteps
  import opened SlabRuns
  import opened SlabEffects
  import opened SlabMarks
  import opened SlabFacts

  datatype FreeRc = Freed | OutsidePool | WrongChunk | ChunkFree | PageFree | WrongPage

  /** The least power of two that holds `size` bytes, as a shift. */
  method ShiftFor(size: nat) returns (shift: nat)
    requires Size(MIN_SHIFT) < size < MAX_SIZE
    ensures MIN_SHIFT < shift < PAGE_SHIFT && Size(shift - 1) < size <= Size(shift)
  {
    shift := 1;
    var s := size - 1;
    while s / 2 != 0
      invariant shift >= 1 && s >= 1 && s * Pow2(shift - 1) <= size - 1 < (s + 1) * Pow2(shift - 1)
      decreases s
    {
      HalveStep(s, Pow2(shift - 1), size - 1);
      s := s / 2;
      shift := shift + 1;
    }
    assert s == 1;
    assert Size(3) == 8 && Size(11) == 2048;
    if shift <= 3 { PowLe(shift, 3); }
    if shift > 11 { PowLe(11, shift - 1); }
  }

  /** The parts of a pool: its descriptors, where its pages start, and how many there are. */
  datatype Plan = Plan(table: nat, descs: nat, start: nat, pages: nat)

  /** The bytes of a descriptor. */
  const DESC: nat := 24

  /** How the memory from `p` up to `end` is divided. */
  function Planned(p: nat, end: nat): Plan
    requires p <= end
  {
    var table := p + LISTS * DESC;
    var descs := (end - p) / (PAGE + DESC);
    var start := (table + descs * DESC + PAGE - 1) / PAGE * PAGE;
    var fit := if start <= end then (end - start) / PAGE else 0;
    Plan(table, descs, start, if descs > fit then fit else descs)
  }

  /** There are as many pages as fit, the descriptors end before them, and there is a descriptor
      for each; the one behind the last of them is zero if there are more. */
  lemma PlanFits(p: nat, end: nat)
    requires p <= end && Planned(p, end).start <= end
    ensures var q := Planned(p, end);
            && q.table + q.descs * DESC <= q.start && q.start % PAGE == 0 && q.pages <= q.descs
            && q.start + q.pages * PAGE <= end < q.start + (q.pages + 1) * PAGE
  {}

  class Pool {
    const n: nat
    const start: nat
    const end: nat
    /** Whether a zero descriptor follows that of the last page. */
    const spare: bool
    var desc: Table
    var words: seq<seq<Word>>

    ghost var model: Model
    /** The allocations, with the bytes each may use. */
    ghost var live: map<nat, nat>

    ghost predicate Bounds() {
      0 < start && start % PAGE == 0 && start + n * PAGE <= end < start + (n + 1) * PAGE
    }

    ghost predicate Valid()
      reads this
    {
      && Bounds() && Inv(n, desc, words, model) && LiveMap(start, model, live)
    }

    /** A pool of `n` pages that are all free. */
    constructor (n: nat, start: nat, end: nat, spare: bool, words: seq<seq<Word>>)
      requires n > 0 && 0 < start && start % PAGE == 0 && start + n * PAGE <= end < start + (n + 1) * PAGE
      requires |words| == n
      ensures Valid() && live == map[] && model == Fresh(n)
      ensures this.n == n && this.start == start && this.end == end && this.spare == spare
    {
      this.n, this.start, this.end, this.spare, this.words := n, start, end, spare, words;
      var d: Table := map[FreeHead := Desc(Count(0), Page(0), Prev(Null, 0))];
      var s := 0;
      while s < LISTS
        invariant 0 <= s <= LISTS
        invariant forall r :: r in d <==> r == FreeHead || (r.Slot? && r.s < s)
        invariant d[FreeHead] == Desc(Count(0), Page(0), Prev(Null, 0))
        invariant forall t: nat :: t < s ==> Slot(t) in d && d[Slot(t)] == Desc(Count(0), Slot(t), Prev(Null, 0))
      {
        d := d[Slot(s) := Desc(Count(0), Slot(s), Prev(Null, 0))];
        s := s + 1;
      }
      d := d[Page(0) := Desc(Count(n), FreeHead, Prev(FreeHead, 0))];
      var i := 1;
      while i < n
        invariant 1 <= i <= n
        invariant forall r :: r in d <==> r == FreeHead || (r.Slot? && r.s < LISTS) || (r.Page? && r.i < i)
        invariant d[FreeHead] == Desc(Count(0), Page(0), Prev(Null, 0))
        invariant d[Page(0)] == Desc(Count(n), FreeHead, Prev(FreeHead, 0))
        invariant forall t: nat :: t < LISTS ==> d[Slot(t)] == Desc(Count(0), Slot(t), Prev(Null, 0))
        invariant forall j: nat :: 1 <= j < i ==> d[Page(j)] == ZERO
      {
        d := d[Page(i) := ZERO];
        i := i + 1;
      }
      desc := d;
      var m := Fresh(n);
      model, live := m, map[];
      FreshInv(n, d, words);
      FreshLive(start, n);
    }

    // ---------- ngx_slab_alloc_pages

    /** Writes `v` to the descriptors of the pages from `lo` up to `hi`. */
    method Fill(lo: nat, hi: nat, v: Desc)
      requires lo <= hi && forall j: nat :: lo <= j < hi ==> Page(j) in desc
      modifies `desc
      ensures desc == Filled(old(desc), lo, hi, v)
    {
      hide Filled;
      ghost var d := desc;
      var p := lo;
      FillNone(d, lo, v);
      while p < hi
        invariant lo <= p <= hi && desc == Filled(d, lo, p, v)
      {
        FillNext(d, lo, p, v);
        desc := desc[Page(p) := v];
        p := p + 1;
      }
    }

    /** Cuts the first `pages` pages off the free run at `i`, the `k`-th of the list. */
    method TakeRun(i: nat, pages: nat, ghost k: nat)
      requires Valid() && Takeable(n, model, k, pages) && model.free[k] == i
      modifies this
      ensures Valid() && words == old(words)
      ensures Fits(old(model), i, pages) && i < n && model == TakenModel(old(model), k, pages)
      ensures model.kind[i] == BusyRun(pages)
      ensures start + i * PAGE !in old(live) && live == old(live)[start + i * PAGE := pages * PAGE]
    {
      hide Inv, LiveMap, Shortened, Filled;
      TakeInv(n, desc, words, model, k, pages);
      InvParts(n, desc, words, model);
      RingStep(n, desc, words, model, k);
      LiveTaken(start, model, live, k, pages);
      var len := desc[Page(i)].slab.pages;
      desc := Shortened(desc, i, pages, len)[Page(i) := Desc(Start(pages), Null, Prev(Null, TAG_PAGE))];
      Fill(i + 1, i + pages, TAKEN);
      model, live := TakenModel(model, k, pages), live[start + i * PAGE := pages * PAGE];
    }

    /** The first free run of at least `pages` pages gives its first ones. */
    method AllocPages(pages: nat) returns (page: Ref)
      requires Valid() && pages > 0
      modifies this
      ensures Valid() && words == old(words)
      ensures page == Null || page.Page?
      ensures page == Null ==> desc == old(desc) && model == old(model) && live == old(live)
      ensures page == Null <==> forall i: nat :: !Fits(old(model), i, pages)
      ensures page.Page? ==>
                exists k: nat :: && k < |old(model.free)| && old(model.free)[k] == page.i
                                 && Fits(old(model), page.i, pages)
                                              && forall j :: 0 <= j < k ==> !Fits(old(model), old(model.free)[j], pages)
      ensures page.Page? ==> && page.i < n && model.kind[page.i] == BusyRun(pages)
                             && model.lists == old(model.lists) && model.used == old(model.used)
                             && old(start + page.i * PAGE !in live)
                             && live == old(live)[start + page.i * PAGE := pages * PAGE]
    {
      hide Inv, LiveMap;
      RingStart(n, desc, words, model);
      var at := desc[FreeHead].next;
      ghost var k: nat := 0;
      if k < |model.free| { RingStep(n, desc, words, model, k); }
      while at != FreeHead && desc[at].slab.pages < pages
        invariant Inv(n, desc, words, model) && k <= |model.free|
        invariant at == if k < |model.free| then Page(model.free[k]) else FreeHead
        invariant at != FreeHead ==> at in desc && desc[at].slab.Count?
        invariant forall j :: 0 <= j < k ==> !Fits(model, model.free[j], pages)
        decreases |model.free| - k
        modifies {}
      {
        RingStep(n, desc, words, model, k);
        at := desc[at].next;
        k := k + 1;
        if k < |model.free| { RingStep(n, desc, words, model, k); }
      }
      if at == FreeHead {
        NoneFits(n, desc, words, model, pages);
        return Null;
      }
      RingStep(n, desc, words, model, k);
      TakeRun(at.i, pages, k);
      return at;
    }

    // ---------- ngx_slab_free_pages

    /** Puts the run of `pages` pages at `i` first on the list of free runs, out of the ring that
        it is on, if it is on one. */
    method FreePages(i: nat, pages: nat)
      requires 0 < pages && (forall j: nat :: i <= j < i + pages ==> Page(j) in desc)
      requires Returnable(Filled(WithSlab(desc, i, Count(pages)), i + 1, i + pages, ZERO), i)
      modifies `desc
      ensures desc == Returned(Filled(WithSlab(old(desc), i, Count(pages)), i + 1, i + pages, ZERO), i)
    {
      hide Filled, Pushed, Unlinked;
      desc := WithSlab(desc, i, Count(pages));
      Fill(i + 1, i + pages, ZERO);
      if desc[Page(i)].next != Null {
        desc := Unlinked(desc, Page(i));
      }
      desc := Pushed(desc, FreeHead, i, TAG_PAGE);
    }

    /** A run becomes free. */
    method FreeRunAt(i: nat, pages: nat)
      requires Valid() && i < n && model.kind[i] == BusyRun(pages)
      modifies this
      ensures Valid() && words == old(words) && start + i * PAGE in old(live)
      ensures live == old(live) - {start + i * PAGE} && model == GivenModel(old(model), i)
    {
      hide Inv, LiveMap, Filled;
      InvParts(n, desc, words, model);
      GiveInv(n, desc, words, model, i);
      LiveGiven(start, model, live, i);
      FreePages(i, pages);
      model, live := GivenModel(model, i), live - {start + i * PAGE};
    }

    /** A run that is free already is taken out of the free runs and put first. */
    method FreeRunAgain(i: nat, pages: nat)
      requires Valid() && i < n && model.kind[i] == FreeRun(pages)
      modifies `desc, `model
      ensures Valid() && model.kind == old(model.kind) && model.used == old(model.used)
      ensures model.lists == old(model.lists)
      ensures forall x :: x in model.free <==> x in old(model.free)
    {
      hide Inv, LiveMap, Filled, Returned, Returnable, Out;
      InvParts(n, desc, words, model);
      ghost var k := WhereFree(model, i);
      AgainInv(n, desc, words, model, k);
      FreePages(i, pages);
      ghost var f := model.(free := [i] + Out(model.free, k));
      LiveSame(start, model, f, live);
      SameFree(n, desc, words, model, f);
      model := f;
    }

    // ---------- ngx_slab_alloc_locked

    /** Takes a chunk of the first page of list `s`, and the page off the list with its last
        chunk. */
    method AllocChunk(s: nat) returns (p: nat)
      requires Valid() && s < LISTS && model.lists[s] != []
      modifies this
      ensures Valid() && p != 0 && p !in old(live) && live == old(live)[p := Size(s + MIN_SHIFT)]
    {
      hide Inv, LiveMap, Size, Chunks, Reserved, All, Kept, Closed, WithSlab, Encodes, Out, UsedModel;
      var shift := s + MIN_SHIFT;
      ListFirst(n, desc, words, model, s);
      var i := desc[Slot(s)].next.i;
      var slab, ws, c, full := TakeChunk(shift, desc[Page(i)].slab, words[i], model.used[i]);
      UseChunkInv(start, n, desc, words, model, live, s, slab, ws, c, full);
      desc := WithSlab(desc, i, slab);
      words := words[i := ws];
      if full {
        desc := Closed(desc, i, Tag(shift));
      }
      p := Addr(start, i, shift, c);
      model, live := UsedModel(model, s, c, full), live[p := Size(shift)];
    }

    /** Cuts a page just taken into chunks, alone on its list, and takes the first one. */
    method CutPage(i: nat, s: nat) returns (p: nat)
      requires Valid() && i < n && model.kind[i] == BusyRun(1) && s < LISTS && model.lists[s] == []
      modifies this
      ensures Valid() && p != 0 && start + i * PAGE in old(live)
      ensures live == (old(live) - {start + i * PAGE})[p := Size(s + MIN_SHIFT)]
      ensures p !in old(live) - {start + i * PAGE}
      ensures p == Addr(start, i, s + MIN_SHIFT, Reserved(s + MIN_SHIFT))
    {
      hide Inv, LiveMap, Size, Chunks, Reserved, All, Kept, Encodes;
      var shift := s + MIN_SHIFT;
      var slab, ws := FreshMarks(shift);
      FreshUsed(shift);
      InvParts(n, desc, words, model);
      CutInv(n, desc, words, model, i, s, slab, ws, Kept(shift) + {Reserved(shift)});
      LiveCut(start, model, live, i, s);
      LiveGiven(start, model, live, i);
      CutNew(start, model, live, i, shift);
      desc := CutTable(desc, i, s, slab);
      words := words[i := ws];
      p := Addr(start, i, shift, Reserved(shift));
      live := (live - {start + i * PAGE})[p := Size(shift)];
      model := CutModel(model, i, s, Kept(shift) + {Reserved(shift)});
    }

    /** Takes a page for chunks and its first chunk. */
    method AllocCut(s: nat) returns (p: nat)
      requires Valid() && s < LISTS && model.lists[s] == []
      modifies this
      ensures Valid()
      ensures p == 0 <==> forall i: nat :: !Fits(old(model), i, 1)
      ensures p == 0 ==> live == old(live)
      ensures p != 0 ==> p !in old(live) && live == old(live)[p := Size(s + MIN_SHIFT)]
    {
      hide Inv, LiveMap, Size, Chunks, Reserved, Fits;
      var page := AllocPages(1);
      if page == Null { return 0; }
      ghost var base := start + page.i * PAGE;
      assert old(live)[base := PAGE] - {base} == old(live);
      p := CutPage(page.i, s);
    }

    /** Room for `size` bytes; 0 when there is none. */
    method Alloc(size: nat) returns (p: nat)
      requires Valid()
      modifies this
      ensures Valid()
      ensures p == 0 <==> old(NoRoom(model, size))
      ensures p == 0 ==> live == old(live)
      ensures p != 0 ==> p !in old(live) && live == old(live)[p := RoomFor(size)]
    {
      hide Inv, LiveMap, Size, Chunks, Reserved, Fits;
      InvParts(n, desc, words, model);
      if size >= MAX_SIZE {
        assert NoRoom(model, size) <==> forall i: nat :: !Fits(model, i, PagesFor(size));
        var pages := (size + PAGE - 1) / PAGE;
        assert pages == PagesFor(size);
        var page := AllocPages(pages);
        if page == Null { return 0; }
        return start + page.i * PAGE;
      }
      var shift, s := MIN_SHIFT, 0;
      if size > Size(MIN_SHIFT) {
        shift := ShiftFor(size);
        s := shift - MIN_SHIFT;
      }
      SlotForIs(size, s);
      ListFirst(n, desc, words, model, s);
      if desc[Slot(s)].next != Slot(s) {
        assert !NoRoom(model, size);
        p := AllocChunk(s);
        return;
      }
      assert PagesFor(size) == 1;
      assert NoRoom(model, size) <==> forall i: nat :: !Fits(model, i, 1);
      p := AllocCut(s);
    }

    // ---------- ngx_slab_free_locked

    /** Unmarks chunk `c` of page `i`, which goes back on its list if it was full. */
    method Unmark(i: nat, c: nat, shift: nat) returns (empty: bool)
      requires Valid() && i < n && model.kind[i] == Cut(shift) && IsShift(shift)
      requires c < Chunks(shift) && c in model.used[i]
      modifies this
      ensures InvBut(n, desc, words, model, i) && model == UnusedModel(old(model), i, shift - MIN_SHIFT, c)
      ensures live == old(live)
      ensures Encodes(shift, desc[Page(i)].slab, words[i], model.used[i])
      ensures empty <==> model.used[i] <= Kept(shift)
      ensures !empty && Reserved(shift) <= c ==> Inv(n, desc, words, model)
    {
      hide Inv, InvBut, LiveMap, Size, Chunks, Reserved, All, Kept, WithSlab, Encodes, Pushed;
      InvParts(n, desc, words, model);
      CutFacts(n, desc, words, model, i);
      var s := shift - MIN_SHIFT;
      ghost var used := model.used[i];
      var slab, ws;
      slab, ws, empty := ClearChunk(shift, desc[Page(i)].slab, words[i], c, used);
      UnuseInv(n, desc, words, model, i, s, c, slab, ws);
      if desc[Page(i)].next == Null {
        desc := Pushed(desc, Slot(s), i, Tag(shift));
      }
      desc := WithSlab(desc, i, slab);
      words := words[i := ws];
      model := UnusedModel(model, i, s, c);
      if !empty && Reserved(shift) <= c {
        KeptLess(shift, used, c);
        Settle(n, desc, words, model, i);
      }
    }

    /** A page without chunks in use becomes free. */
    method FreeCut(i: nat, s: nat)
      requires Bounds() && InvBut(n, desc, words, model, i) && LiveMap(start, model, live) && i < n && s < LISTS
      requires model.kind[i] == Cut(s + MIN_SHIFT) && model.used[i] == Kept(s + MIN_SHIFT)
      modifies `desc, `model
      ensures Valid()
    {
      hide InvBut, LiveMap, Kept, Filled, Returned, Returnable;
      ButParts(n, desc, words, model, i);
      ghost var k := WhereOpen(n, desc, words, model, i, s);
      WriteMarks(n, desc, words, model, i, Count(1), words[i]);
      assert words[i := words[i]] == words;
      EmptyPage(n, WithSlab(desc, i, Count(1)), words, model, s, k, i);
      LiveEmptied(start, model, live, s, k);
      FillNone(WithSlab(desc, i, Count(1)), i + 1, ZERO);
      FreePages(i, 1);
      model := Emptied(model, s, k);
    }

    /** Frees chunk `c` of page `i`. A page without chunks in use goes back to the free runs. A
        chunk that holds the bitmap is freed as well, and no state of the pool is left then. */
    method FreeChunk(i: nat, c: nat, shift: nat)
      requires Valid() && i < n && model.kind[i] == Cut(shift) && IsShift(shift)
      requires c < Chunks(shift) && c in model.used[i]
      modifies this
      ensures Reserved(shift) <= c ==>
                Valid() && Addr(start, i, shift, c) in old(live) && live == old(live) - {Addr(start, i, shift, c)}
      ensures c < Reserved(shift) ==> forall m :: !Inv(n, desc, words, m)
    {
      hide Inv, InvBut, LiveMap, Size, Chunks, Reserved, All, Kept, Encodes, UnusedModel;
      ghost var p := Addr(start, i, shift, c);
      InvParts(n, desc, words, model);
      FreeChunkFacts(start, n, desc, words, model, live, i, c);
      var empty := Unmark(i, c, shift);
      if empty {
        live := live - {p};
        FreeCut(i, shift - MIN_SHIFT);
      } else if c < Reserved(shift) {
        ButParts(n, desc, words, model, i);
        Unkept(n, desc, words, model, i, shift, c);
      } else {
        live := live - {p};
      }
    }

    /** The addresses whose descriptor is the pool's own: any outside of the pool and on a page, and
        those behind the last page if a zero descriptor follows. */
    ghost predicate Readable(p: nat) {
      p < start || p > end || PageOf(start, p) < n || spare
    }

    /** The first page of a free run. */
    ghost predicate StartsFree(p: nat)
      reads this
    {
      start <= p <= end && PageOf(start, p) < n <= |model.kind| && model.kind[PageOf(start, p)].FreeRun?
      && OffsetOf(start, p) == 0
    }

    /** A chunk that holds a part of the bitmap of its page. */
    ghost predicate HoldsBitmap(p: nat)
      reads this
    {
      && start <= p <= end && PageOf(start, p) < n <= |model.kind| && model.kind[PageOf(start, p)].Cut?
      && var shift := model.kind[PageOf(start, p)].shift;
      OffsetOf(start, p) % Size(shift) == 0 && OffsetOf(start, p) / Size(shift) < Reserved(shift)
    }

    /** Frees an address on a page of chunks. */
    method FreeOnCut(p: nat, i: nat) returns (rc: FreeRc)
      requires Valid() && start <= p <= end && i == PageOf(start, p) < n && model.kind[i].Cut?
      modifies this
      ensures rc == Freed <==> p in old(live) || old(HoldsBitmap(p))
      ensures !old(HoldsBitmap(p)) ==> Valid() && live == old(live) - {p}
      ensures old(HoldsBitmap(p)) ==> forall m :: !Inv(n, desc, words, m)
      ensures rc != Freed ==> desc == old(desc) && words == old(words) && model == old(model)
      ensures rc != OutsidePool
    {
      hide Inv, LiveMap, Size, Chunks, Reserved, Encodes, Kept;
      IsLive(start, n, desc, words, model, live, p);
      CutFacts(n, desc, words, model, i);
      var shift := ShiftOf(desc[Page(i)].slab);
      ShiftRead(model.kind[i].shift, desc[Page(i)].slab, words[i], model.used[i]);
      OffsetMod(start, p, shift);
      if p % Size(shift) != 0 { return WrongChunk; }
      var c := (p % PAGE) / Size(shift);
      OffsetChunk(shift, OffsetOf(start, p));
      MarksUsed(shift, desc[Page(i)].slab, words[i], model.used[i], c);
      KeptUsed(shift, model.used[i], c);
      if !Marks(shift, desc[Page(i)].slab, words[i], c) { return ChunkFree; }
      OneChunk(start, i, shift, c, p);
      FreeChunk(i, c, shift);
      return Freed;
    }

    /** Frees an address on page `i`. */
    method FreeOnPage(p: nat, i: nat) returns (rc: FreeRc)
      requires Valid() && start <= p <= end && i == PageOf(start, p) < n
      modifies this
      ensures rc == Freed <==> p in old(live) || old(StartsFree(p)) || old(HoldsBitmap(p))
      ensures !old(HoldsBitmap(p)) ==> Valid() && live == old(live) - {p}
      ensures old(HoldsBitmap(p)) ==> forall m :: !Inv(n, desc, words, m)
      ensures old(StartsFree(p)) ==>
                model.kind == old(model.kind) && model.used == old(model.used) && words == old(words)
      ensures rc != Freed ==> desc == old(desc) && words == old(words) && model == old(model)
      ensures rc != OutsidePool
    {
      hide Inv, LiveMap, Size, Chunks, Reserved, Encodes;
      IsLive(start, n, desc, words, model, live, p);
      PageTag(n, desc, words, model, i);
      if desc[Page(i)].prev.tag != TAG_PAGE {
        rc := FreeOnCut(p, i);
        return;
      }
      PageFacts(n, desc, words, model, i);
      OffsetPage(start, p);
      if p % PAGE != 0 { return WrongChunk; }
      if desc[Page(i)].slab == Count(0) { return PageFree; }
      if desc[Page(i)].slab == Busy { return WrongPage; }
      if desc[Page(i)].slab.Count? {
        FreeRunAgain(i, desc[Page(i)].slab.pages);
      } else {
        FreeRunAt(i, desc[Page(i)].slab.run);
      }
      return Freed;
    }

    /** Frees an address. It is accepted exactly if it is an allocation, the first page of a free
        run or a chunk that holds a bitmap; any other one is reported and changes nothing. A free
        run stays free. With a part of its bitmap freed, a page is in no state of the pool any
        more. */
    method Free(p: nat) returns (rc: FreeRc)
      requires Valid() && Readable(p)
      modifies this
      ensures rc == Freed <==> p in old(live) || old(StartsFree(p)) || old(HoldsBitmap(p))
      ensures !old(HoldsBitmap(p)) ==> Valid() && live == old(live) - {p}
      ensures old(HoldsBitmap(p)) ==> forall m :: !Inv(n, desc, words, m)
      ensures old(StartsFree(p)) ==>
                model.kind == old(model.kind) && model.used == old(model.used) && words == old(words)
      ensures rc != Freed ==> desc == old(desc) && words == old(words) && model == old(model)
      ensures rc == OutsidePool <==> p < start || p > end
    {
      hide Inv, LiveMap, Size, Chunks, Reserved, Encodes;
      IsLive(start, n, desc, words, model, live, p);
      if p < start || p > end { return OutsidePool; }
      var i := (p - start) / PAGE;
      if i < n { rc := FreeOnPage(p, i); return; }
      OffsetPage(start, p);
      if p % PAGE != 0 { return WrongChunk; }
      return PageFree;
    }

    // ---------- what holds in every state

    /** Allocations lie in the pool and do not overlap. */
    lemma Disjoint(p: nat, q: nat)
      requires Valid() && p in live && q in live && p < q
      ensures start <= p && p + live[p] <= q && q + live[q] <= start + n * PAGE
    {
      InvParts(n, desc, words, model);
      assert LiveAt(start, model, p) && LiveAt(start, model, q);
      NoOverlap(start, model, p, q);
      EndsBefore(start, model, q);
    }

    /** An allocation starts on a page or at a multiple of its size, beyond the bitmap that its
        page holds if its chunks are small. */
    lemma Aligned(p: nat)
      requires Valid() && p in live
      ensures p >= start && PageOf(start, p) < |model.kind|
      ensures match model.kind[PageOf(start, p)]
              case BusyRun(len) => p % PAGE == 0 && live[p] == len * PAGE
              case Cut(shift) => && live[p] == Size(shift) && p % Size(shift) == 0
                                 && (shift < EXACT_SHIFT ==> p >= start + PageOf(start, p) * PAGE + Words(shift) * 8)
              case _ => false
    {
      InvParts(n, desc, words, model);
      assert LiveAt(start, model, p);
      ChunkPlace(start, model, p);
    }

    /** Every page is in a free run, in an allocated run or cut into chunks, and a list of
        chunks holds no full page. */
    lemma EveryPage(i: nat)
      requires Valid() && i < n
      ensures |model.kind| == |model.used| == n && |model.lists| == LISTS
      ensures match model.kind[i]
              case FreeRun(len) => i in model.free
              case BusyRun(len) => start + i * PAGE in live && live[start + i * PAGE] == len * PAGE
              case Inside(h) => h < n && (model.kind[h].FreeRun? || model.kind[h].BusyRun?)
                                && h < i < h + model.kind[h].len
              case Cut(shift) => IsShift(shift)
                                 && (i in model.lists[shift - MIN_SHIFT] <==> model.used[i] != All(shift))
    {
      InvParts(n, desc, words, model);
      assert Placed(model.kind, i);
      match model.kind[i]
      case BusyRun(len) => assert LiveAt(start, model, start + i * PAGE);
      case Cut(shift) => assert i in model.lists[shift - MIN_SHIFT] <==> Open(model, shift - MIN_SHIFT, i);
      case _ =>
    }

    /** With nothing allocated every page is in a free run. */
    lemma NothingLive(i: nat)
      requires Valid() && live == map[] && i < n
      ensures |model.kind| == n
      ensures model.kind[i].FreeRun?
              || (model.kind[i].Inside? && model.kind[i].head < n && model.kind[model.kind[i].head].FreeRun?)
    {
      EveryPage(i);
      if model.kind[i].Inside? { EveryPage(model.kind[i].head); }
      if model.kind[i].Cut? {
        CutFacts(n, desc, words, model, i);
        var shift := model.kind[i].shift;
        var c :| c in model.used[i] && c !in Kept(shift);
        AddrParts(start, i, shift, c);
        ChunkOffset(shift, c);
        assert LiveAt(start, model, Addr(start, i, shift, c));
      }
    }
  }

  // ---------- addresses that are not allocations

  /** An allocation in a pool of one page is the page or a chunk of it. */
  lemma OnlyPage(pool: Pool, p: nat)
    requires pool.Valid() && pool.n == 1 && p in pool.live
    ensures |pool.model.kind| == 1 && pool.start <= p && PageOf(pool.start, p) == 0
    ensures pool.live[p] == PAGE ==> p == pool.start && !pool.model.kind[0].Cut?
    ensures pool.live[p] == 8 ==> pool.model.kind[0] == Cut(3)
  {
    hide Inv, LiveMap, Size, Chunks, Reserved;
    pool.EveryPage(0);
    pool.Aligned(p);
    Sizes();
    if pool.model.kind[0].Cut? {
      var shift := pool.model.kind[0].shift;
      assert shift == 3 || shift == 4 || shift == 5 || shift == 6 || shift == 7 || shift == 8 || shift == 9
             || shift == 10 || shift == 11;
    }
  }

  /** A run that is freed twice: both are accepted, and the pool is as after the first. */
  method FreeTwice() returns (pool: Pool, rc: FreeRc)
    ensures rc == Freed && pool.Valid() && pool.live == map[]
  {
    hide Inv, LiveMap, Size, Chunks, Reserved;
    pool := new Pool(1, PAGE, 2 * PAGE, true, [[]]);
    assert Fits(pool.model, 0, 1) && PagesFor(PAGE) == 1 && RoomFor(PAGE) == PAGE;
    var p := pool.Alloc(PAGE);
    OnlyPage(pool, p);
    assert p == PAGE;
    rc := pool.Free(p);
    assert pool.live == map[];
    pool.NothingLive(0);
    rc := pool.Free(p);
  }

  /** The bitmap of a page of small chunks is freed: it is accepted, and no state of the pool is
      left. */
  method FreeBitmap() returns (pool: Pool, rc: FreeRc)
    ensures rc == Freed && forall m :: !Inv(pool.n, pool.desc, pool.words, m)
  {
    hide Inv, LiveMap, Chunks;
    pool := new Pool(1, PAGE, 2 * PAGE, true, [[]]);
    Sizes();
    assert Fits(pool.model, 0, 1) && PagesFor(8) == 1 && RoomFor(8) == 8;
    var p := pool.Alloc(8);
    OnlyPage(pool, p);
    Layout(3);
    rc := pool.Free(PAGE);
  }
}
