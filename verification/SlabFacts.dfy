/** What the code of nginx's slab pool reads from the descriptors and bitmaps, and the states
    between its steps.
 */
module SlabFacts {

  import opened Common
  import opened SlabRing
  import opened SlabState
  import opened SlabLive
  import opened SlabSteps
  import opened SlabRuns
  import opened SlabEffects
  import opened SlabMarks

  lemma HalveStep(s: nat, p: nat, x: nat)
    requires s * p <= x < (s + 1) * p
    ensures (s / 2) * (2 * p) <= x < (s / 2 + 1) * (2 * p)
  {
    var h := s / 2;
    assert 2 * h <= s <= 2 * h + 1;
    MulLe(2 * h, s, p);
    MulLe(s + 1, 2 * h + 2, p);
    assert h * (2 * p) == (2 * h) * p && (h + 1) * (2 * p) == (2 * h + 2) * p;
  }

  lemma {:induction false} PowLe(a: nat, b: nat)
    requires a <= b
    ensures Pow2(a) <= Pow2(b)
  {
    if a < b { PowLe(a, b - 1); }
  }

  /** Whether page `i` is the first of a free run of at least `pages` pages. */
  ghost predicate Fits(m: Model, i: nat, pages: nat) {
    i < |m.kind| && m.kind[i].FreeRun? && m.kind[i].len >= pages
  }

  lemma InvParts(n: nat, d: Table, w: seq<seq<Word>>, m: Model)
    requires Inv(n, d, w, m)
    ensures Sized(n, w, m) && Domain(n, d) && Partition(m.kind) && Listed(m)
  {}

  lemma ButParts(n: nat, d: Table, w: seq<seq<Word>>, m: Model, x: nat)
    requires InvBut(n, d, w, m, x)
    ensures Sized(n, w, m) && Domain(n, d) && Partition(m.kind) && Listed(m)
  {}

  lemma RingStart(n: nat, d: Table, w: seq<seq<Word>>, m: Model)
    requires Inv(n, d, w, m)
    ensures FreeHead in d && d[FreeHead].next == if 0 < |m.free| then Page(m.free[0]) else FreeHead
  {}

  lemma RingStep(n: nat, d: Table, w: seq<seq<Word>>, m: Model, k: nat)
    requires Inv(n, d, w, m) && k < |m.free|
    ensures |m.kind| == n && m.free[k] < n && Page(m.free[k]) in d && m.kind[m.free[k]].FreeRun?
    ensures d[Page(m.free[k])].slab == Count(m.kind[m.free[k]].len)
    ensures d[Page(m.free[k])].next == if k + 1 < |m.free| then Page(m.free[k + 1]) else FreeHead
  {
    assert m.free[k] in m.free;
    assert LinkedAt(d, FreeHead, m.free, TAG_PAGE, k);
    assert Described(d, m, m.free[k]);
  }

  lemma FillNone(d: Table, lo: nat, v: Desc)
    ensures Filled(d, lo, lo, v) == d
  {}

  lemma FillNext(d: Table, lo: nat, hi: nat, v: Desc)
    requires lo <= hi && forall j: nat :: lo <= j <= hi ==> Page(j) in d
    ensures Filled(d, lo, hi + 1, v) == Filled(d, lo, hi, v)[Page(hi) := v]
  {}

  /** The first page of a list has a chunk left. */
  lemma ListFirst(n: nat, d: Table, w: seq<seq<Word>>, m: Model, s: nat)
    requires Inv(n, d, w, m) && s < LISTS
    ensures |m.lists| == LISTS && Slot(s) in d && (d[Slot(s)].next != Slot(s) <==> m.lists[s] != [])
    ensures m.lists[s] != [] ==>
              var i := m.lists[s][0];
              && d[Slot(s)].next == Page(i) && i < n == |m.kind| == |m.used| == |w| && m.kind[i] == Cut(s + MIN_SHIFT)
              && Page(i) in d && Encodes(s + MIN_SHIFT, d[Page(i)].slab, w[i], m.used[i])
              && m.used[i] < All(s + MIN_SHIFT)
  {
    if m.lists[s] != [] {
      var i := m.lists[s][0];
      assert i in m.lists[s] && Open(m, s, i);
      assert Marked(d, w, m, i);
    }
  }

  lemma KeptOut(n: nat, d: Table, w: seq<seq<Word>>, m: Model, i: nat, c: nat)
    requires Inv(n, d, w, m) && i < n && m.kind[i].Cut? && c !in m.used[i] && c < Chunks(m.kind[i].shift)
    ensures Reserved(m.kind[i].shift) <= c
    ensures Kept(m.kind[i].shift) < m.used[i] + {c} <= All(m.kind[i].shift)
  {
    assert Marked(d, w, m, i);
  }

  lemma NoneFits(n: nat, d: Table, w: seq<seq<Word>>, m: Model, pages: nat)
    requires Inv(n, d, w, m) && forall j :: 0 <= j < |m.free| ==> !Fits(m, m.free[j], pages)
    ensures forall i: nat :: !Fits(m, i, pages)
  {}

  function ShiftOf(slab: Slab): nat {
    match slab
    case Shift(small) => small
    case ShiftMap(big, high) => big
    case _ => EXACT_SHIFT
  }

  /** The list of the chunks that hold `size` bytes: the least that do. */
  ghost function SlotFrom(size: nat, s: nat): nat
    requires s < LISTS
    decreases LISTS - s
  {
    if size <= Size(s + MIN_SHIFT) || s == LISTS - 1 then s else SlotFrom(size, s + 1)
  }

  ghost function SlotFor(size: nat): nat { SlotFrom(size, 0) }

  /** The bytes that an allocation of `size` bytes may use. */
  ghost function RoomFor(size: nat): nat {
    if size < MAX_SIZE then Size(SlotFor(size) + MIN_SHIFT) else (size + PAGE - 1) / PAGE * PAGE
  }

  ghost function PagesFor(size: nat): nat {
    if size < MAX_SIZE then 1 else (size + PAGE - 1) / PAGE
  }

  ghost predicate NoRoom(m: Model, size: nat)
    requires |m.lists| == LISTS
  {
    && (size < MAX_SIZE ==> SlotFor(size) < LISTS && m.lists[SlotFor(size)] == [])
    && forall i: nat :: !Fits(m, i, PagesFor(size))
  }

  lemma {:induction false} SlotFromIs(size: nat, s: nat, t: nat)
    requires t <= s < LISTS && size <= Size(s + MIN_SHIFT) && (s > t ==> Size(s + MIN_SHIFT - 1) < size)
    ensures SlotFrom(size, t) == s
    decreases s - t
  {
    if t < s {
      PowLe(t + MIN_SHIFT, s + MIN_SHIFT - 1);
      SlotFromIs(size, s, t + 1);
    }
  }

  lemma SlotForIs(size: nat, s: nat)
    requires s < LISTS && size <= Size(s + MIN_SHIFT) && (s > 0 ==> Size(s + MIN_SHIFT - 1) < size)
    ensures SlotFor(size) == s
  {
    SlotFromIs(size, s, 0);
  }

  lemma {:induction false} SlotRoom(size: nat, s: nat)
    requires s < LISTS && size < MAX_SIZE && (s > 0 ==> Size(s + MIN_SHIFT - 1) < size)
    ensures size <= Size(SlotFrom(size, s) + MIN_SHIFT)
    ensures Size(MIN_SHIFT) < size ==> Size(SlotFrom(size, s) + MIN_SHIFT) < 2 * size
    decreases LISTS - s
  {
    if s == LISTS - 1 { Sizes(); }
    if !(size <= Size(s + MIN_SHIFT) || s == LISTS - 1) {
      SlotRoom(size, s + 1);
    }
  }

  /** An allocation has room for what was asked, and a chunk is less than twice as large. */
  lemma RoomEnough(size: nat)
    ensures size <= RoomFor(size)
    ensures Size(MIN_SHIFT) < size < MAX_SIZE ==> RoomFor(size) < 2 * size
    ensures size >= MAX_SIZE ==> RoomFor(size) % PAGE == 0 && RoomFor(size) < size + PAGE
  {
    if size < MAX_SIZE {
      SlotRoom(size, 0);
    }
  }

  // ---------- reading what is freed

  lemma ShiftRead(shift: nat, slab: Slab, ws: seq<Word>, used: Word)
    requires Encodes(shift, slab, ws, used)
    ensures ShiftOf(slab) == shift
  {}

  lemma OffsetPage(start: nat, p: nat)
    requires start % PAGE == 0 && p >= start
    ensures p % PAGE == OffsetOf(start, p) && p == start + PageOf(start, p) * PAGE + OffsetOf(start, p)
  {}

  lemma Regroup(k: nat, c: nat, z: nat)
    requires z * c == PAGE
    ensures k * PAGE == (k * c) * z
  {}

  lemma AddMultiple(x: nat, z: nat, y: nat)
    requires z > 0
    ensures (x * z + y) % z == y % z
  {
    var q, r := y / z, y % z;
    assert x * z + y == (x + q) * z + r;
    DivMod(x * z + y, z, x + q, r);
  }

  lemma OffsetMod(start: nat, p: nat, shift: nat)
    requires start % PAGE == 0 && p >= start && IsShift(shift)
    ensures p % Size(shift) == OffsetOf(start, p) % Size(shift) && p % PAGE == OffsetOf(start, p)
  {
    hide Size;
    OffsetPage(start, p);
    Layout(shift);
    var k, off := start / PAGE + PageOf(start, p), OffsetOf(start, p);
    assert p == k * PAGE + off;
    Regroup(k, Chunks(shift), Size(shift));
    AddMultiple(k * Chunks(shift), Size(shift), off);
  }

  /** What a page of chunks and its links hold. */
  lemma CutFacts(n: nat, d: Table, w: seq<seq<Word>>, m: Model, i: nat)
    requires Inv(n, d, w, m) && i < n && |m.kind| == n && m.kind[i].Cut?
    ensures var shift := m.kind[i].shift;
            && IsShift(shift) && |m.used| == |w| == n && Page(i) in d && |m.lists| == LISTS
            && Kept(shift) < m.used[i] <= All(shift) && Encodes(shift, d[Page(i)].slab, w[i], m.used[i])
            && (d[Page(i)].next == Null <==> m.used[i] == All(shift)) && d[Page(i)].prev.tag == Tag(shift)
  {
    assert Placed(m.kind, i) && Marked(d, w, m, i) && Described(d, m, i);
    var shift := m.kind[i].shift;
    if m.used[i] != All(shift) {
      var s := shift - MIN_SHIFT;
      assert Open(m, s, i);
      var k :| 0 <= k < |m.lists[s]| && m.lists[s][k] == i;
      assert LinkedAt(d, Slot(s), m.lists[s], Tag(shift), k);
    }
  }

  lemma PageTag(n: nat, d: Table, w: seq<seq<Word>>, m: Model, i: nat)
    requires Inv(n, d, w, m) && i < n
    ensures |m.kind| == n && Page(i) in d
    ensures d[Page(i)].prev.tag == (if m.kind[i].Cut? then Tag(m.kind[i].shift) else TAG_PAGE)
  {
    if m.kind[i].Cut? {
      CutFacts(n, d, w, m, i);
    } else {
      assert Described(d, m, i) && Placed(m.kind, i);
      if m.kind[i].FreeRun? {
        assert i in m.free;
        var k :| 0 <= k < |m.free| && m.free[k] == i;
        assert LinkedAt(d, FreeHead, m.free, TAG_PAGE, k);
      }
    }
  }

  lemma PageFacts(n: nat, d: Table, w: seq<seq<Word>>, m: Model, i: nat)
    requires Inv(n, d, w, m) && i < n && |m.kind| == n && !m.kind[i].Cut?
    ensures Page(i) in d
    ensures m.kind[i].FreeRun? ==> d[Page(i)].slab == Count(m.kind[i].len) && m.kind[i].len > 0
    ensures m.kind[i].BusyRun? ==> d[Page(i)].slab == Start(m.kind[i].len)
    ensures m.kind[i].Inside? ==> d[Page(i)].slab == Busy || d[Page(i)].slab == Count(0)
  {
    assert Described(d, m, i) && Placed(m.kind, i);
  }

  /** An address is an allocation as its page says. */
  lemma IsLive(start: nat, n: nat, d: Table, w: seq<seq<Word>>, m: Model, live: map<nat, nat>, p: nat)
    requires Inv(n, d, w, m) && LiveMap(start, m, live)
    ensures |m.kind| == n == |m.used|
    ensures p in live <==> p >= start && PageOf(start, p) < n
                           && LiveIn(m.kind[PageOf(start, p)], m.used[PageOf(start, p)], OffsetOf(start, p))
  {}

  // ---------- freeing a chunk

  ghost function UnusedModel(m: Model, i: nat, s: nat, c: nat): Model
    requires i < |m.used| && s < |m.lists|
  {
    m.(used := m.used[i := m.used[i] - {c}],
       lists := if m.used[i] == All(s + MIN_SHIFT) then m.lists[s := [i] + m.lists[s]] else m.lists)
  }

  lemma SlotNext(n: nat, d: Table, w: seq<seq<Word>>, m: Model, s: nat)
    requires Inv(n, d, w, m) && s < LISTS
    ensures Slot(s) in d && d[Slot(s)].next in d
  {
    assert Ring(d, Slot(s), m.lists[s], Tag(s + MIN_SHIFT));
    if m.lists[s] != [] { assert LinkedAt(d, Slot(s), m.lists[s], Tag(s + MIN_SHIFT), 0); }
  }

  lemma LessThanAll(shift: nat, used: Word, c: nat)
    requires c in used && used <= All(shift)
    ensures used - {c} != All(shift)
  {}

  /** The invariant, but for the marks of the page, once the page is on its list with a chunk
      less and its marks are written. */
  lemma UnuseInv(n: nat, d: Table, w: seq<seq<Word>>, m: Model, i: nat, s: nat, c: nat, slab: Slab, ws: seq<Word>)
    requires Inv(n, d, w, m) && |m.kind| == |m.used| == |w| == n && |m.lists| == LISTS && i < n && s < LISTS
    requires m.kind[i] == Cut(s + MIN_SHIFT)
    requires c in m.used[i] && c < Chunks(s + MIN_SHIFT)
    ensures Page(i) in d && Slot(s) in d && d[Slot(s)].next in d
    ensures d[Page(i)].next == Null ==> d[Slot(s)].next != Page(i)
    ensures var e := if d[Page(i)].next == Null then Pushed(d, Slot(s), i, Tag(s + MIN_SHIFT)) else d;
            && InvBut(n, WithSlab(e, i, slab), w[i := ws], UnusedModel(m, i, s, c), i)
            && WithSlab(e, i, slab)[Page(i)].slab == slab
  {
    hide InvBut, Encodes, Chunks, All, Kept;
    CutFacts(n, d, w, m, i);
    var u, shift := m.used[i] - {c}, s + MIN_SHIFT;
    LessThanAll(shift, m.used[i], c);
    Unsettle(n, d, w, m, i);
    SlotNext(n, d, w, m, s);
    if m.used[i] == All(shift) {
      Reopen(n, d, w, m, s, i, u);
      WriteMarks(n, Pushed(d, Slot(s), i, Tag(shift)), w, UnusedModel(m, i, s, c), i, slab, ws);
    } else {
      UseSome(n, d, w, m, i, u);
      WriteMarks(n, d, w, UnusedModel(m, i, s, c), i, slab, ws);
    }
  }

  lemma RoomLeft(shift: nat)
    requires IsShift(shift)
    ensures Reserved(shift) + 1 < Chunks(shift)
  {
    Sizes();
    assert shift == 3 || shift == 4 || shift == 5 || shift == 6 || shift == 7 || shift == 8 || shift == 9
           || shift == 10 || shift == 11;
  }

  lemma FreshUsed(shift: nat)
    requires IsShift(shift)
    ensures Kept(shift) < Kept(shift) + {Reserved(shift)} < All(shift)
  {
    Layout(shift);
    hide Chunks, Size, Reserved;
    var last := Chunks(shift) - 1;
    assert Reserved(shift) in All(shift) && Reserved(shift) !in Kept(shift);
    RoomLeft(shift);
    assert last in All(shift) && last !in Kept(shift) + {Reserved(shift)};
  }

  /** The place of a page on its list. */
  ghost function WhereOpen(n: nat, d: Table, w: seq<seq<Word>>, m: Model, i: nat, s: nat): (k: nat)
    requires InvBut(n, d, w, m, i) && i < n && s < LISTS && |m.kind| == |m.used| == n && |m.lists| == LISTS
    requires m.kind[i] == Cut(s + MIN_SHIFT) && m.used[i] == Kept(s + MIN_SHIFT)
    ensures k < |m.lists[s]| && m.lists[s][k] == i
  {
    FreshUsed(s + MIN_SHIFT);
    assert Open(m, s, i);
    var k :| 0 <= k < |m.lists[s]| && m.lists[s][k] == i;
    k
  }

  ghost function UsedModel(m: Model, s: nat, c: nat, full: bool): Model
    requires s < |m.lists| && m.lists[s] != [] && m.lists[s][0] < |m.used|
  {
    var i := m.lists[s][0];
    m.(used := m.used[i := m.used[i] + {c}], lists := if full then m.lists[s := Out(m.lists[s], 0)] else m.lists)
  }

  lemma LiveSame(start: nat, m: Model, f: Model, live: map<nat, nat>)
    requires |m.used| == |m.kind| && LiveMap(start, m, live) && f.kind == m.kind && f.used == m.used
    ensures LiveMap(start, f, live)
  {}

  lemma ClosedSlab(n: nat, d: Table, w: seq<seq<Word>>, m: Model, s: nat)
    requires s < LISTS == |m.lists| && m.lists[s] != [] && InvBut(n, d, w, m, m.lists[s][0])
    ensures var i := m.lists[s][0];
            && Page(i) in d && d[Page(i)].prev.ref in d && d[Page(i)].next in d
            && Closed(d, i, Tag(s + MIN_SHIFT))[Page(i)].slab == d[Page(i)].slab
  {
    NeighboursIn(d, Slot(s), m.lists[s], Tag(s + MIN_SHIFT), 0);
    UnlinkOther(d, Slot(s), m.lists[s], Tag(s + MIN_SHIFT), 0, Page(m.lists[s][0]));
  }

  /** Marking a chunk of the first page of a list keeps the invariant. */
  lemma UseInv(n: nat, d: Table, w: seq<seq<Word>>, m: Model, s: nat, slab: Slab, ws: seq<Word>, c: nat, full: bool)
    requires Inv(n, d, w, m) && s < LISTS == |m.lists| && m.lists[s] != [] && |m.used| == |m.kind| == n
    requires m.lists[s][0] < n
    requires var u, shift := m.used[m.lists[s][0]] + {c}, s + MIN_SHIFT;
             Kept(shift) < u <= All(shift) && Encodes(shift, slab, ws, u) && (full <==> u == All(shift))
    ensures var i, shift := m.lists[s][0], s + MIN_SHIFT;
            && Page(i) in d && |w| == n
            && var e := WithSlab(d, i, slab);
            && (full ==> e[Page(i)].prev.ref in e && e[Page(i)].next in e)
            && Inv(n, if full then Closed(e, i, Tag(shift)) else e, w[i := ws], UsedModel(m, s, c, full))
  {
    hide Size, Chunks, Reserved, All, Kept, InvBut, Encodes;
    var i, shift := m.lists[s][0], s + MIN_SHIFT;
    ListFirst(n, d, w, m, s);
    var u := m.used[i] + {c};
    Unsettle(n, d, w, m, i);
    WriteMarks(n, d, w, m, i, slab, ws);
    var e, v := WithSlab(d, i, slab), w[i := ws];
    if full {
      UseLast(n, e, v, m, s);
      ClosedSlab(n, e, v, m, s);
      Settle(n, Closed(e, i, Tag(shift)), v, UsedModel(m, s, c, full), i);
    } else {
      UseSome(n, e, v, m, i, u);
      Settle(n, e, v, UsedModel(m, s, c, full), i);
    }
  }

  /** Marking the first free chunk of the first page of a list keeps the invariant and makes the
      chunk an allocation. */
  lemma UseChunkInv(start: nat, n: nat, d: Table, w: seq<seq<Word>>, m: Model, live: map<nat, nat>, s: nat, slab: Slab,
                    ws: seq<Word>, c: nat, full: bool)
    requires Inv(n, d, w, m) && LiveMap(start, m, live) && s < LISTS == |m.lists| && m.lists[s] != []
    requires |m.used| == |m.kind| == n && m.lists[s][0] < n && m.kind[m.lists[s][0]] == Cut(s + MIN_SHIFT)
    requires c < Chunks(s + MIN_SHIFT) && c !in m.used[m.lists[s][0]]
    requires var u, shift := m.used[m.lists[s][0]] + {c}, s + MIN_SHIFT;
             Encodes(shift, slab, ws, u) && (full <==> u == All(shift))
    ensures var i, shift := m.lists[s][0], s + MIN_SHIFT;
            var p, f := Addr(start, i, shift, c), UsedModel(m, s, c, full);
            && Page(i) in d && |w| == n && p !in live && |f.used| == |f.kind|
            && LiveMap(start, f, live[p := Size(shift)])
            && var e := WithSlab(d, i, slab);
            && (full ==> e[Page(i)].prev.ref in e && e[Page(i)].next in e)
            && Inv(n, if full then Closed(e, i, Tag(shift)) else e, w[i := ws], f)
  {
    hide Inv, LiveMap, Size, Chunks, Reserved, All, Kept, Closed, WithSlab, Encodes, Out;
    var i, shift := m.lists[s][0], s + MIN_SHIFT;
    KeptOut(n, d, w, m, i, c);
    InvParts(n, d, w, m);
    LiveUse(start, m, live, i, c);
    UseInv(n, d, w, m, s, slab, ws, c, full);
    LiveSame(start, m.(used := m.used[i := m.used[i] + {c}]), UsedModel(m, s, c, full),
             live[Addr(start, i, shift, c) := Size(shift)]);
  }

  ghost function Fresh(n: nat): Model
    requires n > 0
  {
    Model([FreeRun(n)] + seq(n - 1, _ => Inside(0)), seq(n, _ => {}), [0], seq(LISTS, _ => []))
  }

  lemma FreshInv(n: nat, d: Table, w: seq<seq<Word>>)
    requires n > 0 && |w| == n
    requires forall r :: r in d <==> r == FreeHead || (r.Slot? && r.s < LISTS) || (r.Page? && r.i < n)
    requires d[FreeHead].next == Page(0) && d[Page(0)] == Desc(Count(n), FreeHead, Prev(FreeHead, 0))
    requires forall t: nat :: t < LISTS ==> d[Slot(t)].next == Slot(t)
    requires forall j: nat :: 1 <= j < n ==> d[Page(j)] == ZERO
    ensures Inv(n, d, w, Fresh(n))
  {
    var m := Fresh(n);
    forall i: nat | i < n ensures Placed(m.kind, i) {}
    forall i: nat | i < n ensures Described(d, m, i) && Marked(d, w, m, i) { assert Placed(m.kind, i); }
    assert Ring(d, FreeHead, m.free, TAG_PAGE);
    forall s: nat | s < LISTS ensures Ring(d, Slot(s), m.lists[s], Tag(s + MIN_SHIFT)) {}
  }

  lemma FreshLive(start: nat, n: nat)
    requires n > 0
    ensures |Fresh(n).used| == |Fresh(n).kind| && LiveMap(start, Fresh(n), map[])
  {}

  // ---------- freeing what is not an allocation

  lemma KeptUsed(shift: nat, used: Word, c: nat)
    requires Kept(shift) <= used
    ensures c < Reserved(shift) ==> c in used
  {}

  lemma KeptMore(shift: nat, used: Word, c: nat)
    requires Kept(shift) < used && c < Reserved(shift)
    ensures !(used - {c} <= Kept(shift))
  {
    var b :| b in used && b !in Kept(shift);
    assert b in used - {c};
  }

  /** What freeing chunk `c` of page `i` does to the allocations, and whether the page has others. */
  lemma FreeChunkFacts(start: nat, n: nat, d: Table, w: seq<seq<Word>>, m: Model, live: map<nat, nat>, i: nat, c: nat)
    requires Inv(n, d, w, m) && |m.kind| == |m.used| == n && |m.lists| == LISTS && LiveMap(start, m, live) && i < n
    requires m.kind[i].Cut?
    requires IsShift(m.kind[i].shift) && c in m.used[i] && c < Chunks(m.kind[i].shift)
    ensures var shift := m.kind[i].shift;
            var p, u := Addr(start, i, shift, c), UnusedModel(m, i, shift - MIN_SHIFT, c);
            && |u.kind| == |u.used| == n && u.kind == m.kind && c !in u.used[i]
            && (Reserved(shift) <= c ==> p in live && LiveMap(start, u, live - {p}) && Kept(shift) <= u.used[i])
            && (c < Reserved(shift) ==> !(u.used[i] <= Kept(shift)))
  {
    hide Inv, LiveMap, Size, Chunks, Reserved, All, Kept, Encodes;
    var shift := m.kind[i].shift;
    var u := UnusedModel(m, i, shift - MIN_SHIFT, c);
    CutFacts(n, d, w, m, i);
    InvParts(n, d, w, m);
    if Reserved(shift) <= c {
      LiveUnuse(start, m, live, i, c);
      LiveSame(start, m.(used := m.used[i := m.used[i] - {c}]), u, live - {Addr(start, i, shift, c)});
      KeptLess(shift, m.used[i], c);
    } else {
      KeptMore(shift, m.used[i], c);
    }
  }

  /** The place of a free run on its ring. */
  ghost function WhereFree(m: Model, i: nat): (k: nat)
    requires |m.used| == |m.kind| && |m.lists| == LISTS && Listed(m) && i < |m.kind| && m.kind[i].FreeRun?
    ensures k < |m.free| && m.free[k] == i
  {
    var k :| 0 <= k < |m.free| && m.free[k] == i;
    k
  }

  lemma SameFree(n: nat, d: Table, w: seq<seq<Word>>, m: Model, f: Model)
    requires |m.used| == |m.kind| && |m.lists| == LISTS && Listed(m) && f.kind == m.kind && f.used == m.used
    requires Inv(n, d, w, f)
    ensures forall x :: x in f.free <==> x in m.free
  {}

  /** In every state of the pool a page of small chunks has the chunks of its bitmap marked. */
  lemma BitmapMarked(n: nat, d: Table, w: seq<seq<Word>>, f: Model, i: nat, shift: nat, used: Word, c: nat)
    requires Inv(n, d, w, f) && i < n && |w| == n && IsShift(shift) && Page(i) in d
    requires Encodes(shift, d[Page(i)].slab, w[i], used) && c < Reserved(shift)
    ensures c in used
  {
    Layout(shift);
    assert Described(d, f, i) && Placed(f.kind, i) && Marked(d, w, f, i);
    assert d[Page(i)].slab == Shift(shift);
    assert f.kind[i] == Cut(shift);
    assert c in Kept(shift) && c in f.used[i];
    assert c < Words(shift) * WORD;
  }

  /** A page that lost the mark of a part of its bitmap is in no state of the pool. */
  lemma Unkept(n: nat, d: Table, w: seq<seq<Word>>, m: Model, i: nat, shift: nat, c: nat)
    requires InvBut(n, d, w, m, i) && i < n == |m.kind| == |m.used| == |w| && m.kind[i] == Cut(shift) && IsShift(shift)
    requires Page(i) in d
    requires Encodes(shift, d[Page(i)].slab, w[i], m.used[i]) && c !in m.used[i] && c < Reserved(shift)
    ensures forall f :: !Inv(n, d, w, f)
  {
    forall f ensures !Inv(n, d, w, f) {
      if Inv(n, d, w, f) { BitmapMarked(n, d, w, f, i, shift, m.used[i], c); }
    }
  }
}
