/** The addresses that nginx's slab pool has given out: where they are, that they do not
    overlap each other or a bitmap, and how they follow from the marks of the pages.
 */
module SlabLive {

  import opened Common
  import opened SlabRing
  import opened SlabState

  function PageOf(start: nat, p: nat): nat
    requires p >= start
  {
    (p - start) / PAGE
  }

  function OffsetOf(start: nat, p: nat): nat
    requires p >= start
  {
    (p - start) % PAGE
  }

  function Addr(start: nat, i: nat, shift: nat, c: nat): nat {
    start + i * PAGE + c * Size(shift)
  }

  /** Whether an allocation starts `off` bytes into a page. */
  ghost predicate LiveIn(kind: Kind, used: Word, off: nat) {
    match kind
    case BusyRun(len) => off == 0
    case Cut(shift) => && off % Size(shift) == 0 && off / Size(shift) in used
                       && Reserved(shift) <= off / Size(shift) < Chunks(shift)
    case _ => false
  }

  ghost function Capacity(kind: Kind): nat {
    match kind
    case BusyRun(len) => len * PAGE
    case Cut(shift) => Size(shift)
    case _ => 0
  }

  ghost predicate LiveAt(start: nat, m: Model, p: nat)
    requires |m.used| == |m.kind|
  {
    && p >= start && PageOf(start, p) < |m.kind|
    && LiveIn(m.kind[PageOf(start, p)], m.used[PageOf(start, p)], OffsetOf(start, p))
  }

  /** `live` holds the allocations of the state, each with its capacity. */
  ghost predicate LiveMap(start: nat, m: Model, live: map<nat, nat>)
    requires |m.used| == |m.kind|
  {
    forall p: nat ::
      && (p in live <==> LiveAt(start, m, p))
      && (p in live ==> live[p] == Capacity(m.kind[PageOf(start, p)]))
  }

  // ---------- chunk addresses

  lemma ChunkOffset(shift: nat, c: nat)
    requires IsShift(shift) && c < Chunks(shift)
    ensures c * Size(shift) + Size(shift) <= PAGE
    ensures (c * Size(shift)) % Size(shift) == 0 && (c * Size(shift)) / Size(shift) == c
  {
    hide Size, Chunks, Words, Reserved;
    Layout(shift);
    MulLe(c + 1, Chunks(shift), Size(shift));
    DivMod(c * Size(shift), Size(shift), c, 0);
  }

  lemma OffsetChunk(shift: nat, off: nat)
    requires IsShift(shift) && off < PAGE && off % Size(shift) == 0
    ensures off / Size(shift) < Chunks(shift) && (off / Size(shift)) * Size(shift) == off
  {
    hide Size, Chunks, Words, Reserved;
    Layout(shift);
    var c := off / Size(shift);
    assert off == c * Size(shift);
    if c >= Chunks(shift) { MulLe(Chunks(shift), c, Size(shift)); }
  }

  lemma AddrParts(start: nat, i: nat, shift: nat, c: nat)
    requires IsShift(shift) && c < Chunks(shift)
    ensures var p := Addr(start, i, shift, c);
            PageOf(start, p) == i && OffsetOf(start, p) == c * Size(shift)
  {
    ChunkOffset(shift, c);
  }

  lemma SamePlace(start: nat, p: nat, q: nat)
    requires p >= start && q >= start && PageOf(start, p) == PageOf(start, q)
    requires OffsetOf(start, p) == OffsetOf(start, q)
    ensures p == q
  {}

  // ---------- no overlap

  /** An allocation ends before the next page that is not its own. */
  lemma EndsBefore(start: nat, m: Model, p: nat)
    requires |m.used| == |m.kind| && Partition(m.kind) && LiveAt(start, m, p)
    ensures var i := PageOf(start, p);
            && p + Capacity(m.kind[i]) <= start + |m.kind| * PAGE
            && forall j: nat :: i < j < |m.kind| && !m.kind[j].Inside? ==> p + Capacity(m.kind[i]) <= start + j * PAGE
  {
    var i := PageOf(start, p);
    assert Placed(m.kind, i);
    match m.kind[i]
    case BusyRun(len) =>
    case Cut(shift) =>
      var off := OffsetOf(start, p);
      OffsetChunk(shift, off);
      ChunkOffset(shift, off / Size(shift));
  }

  lemma ApartChunks(shift: nat, b: nat, c: nat)
    ensures b < c ==> b * Size(shift) + Size(shift) <= c * Size(shift)
    ensures b >= c ==> b * Size(shift) >= c * Size(shift)
  {
    hide Size;
    if b < c { MulLe(b + 1, c, Size(shift)); } else { MulLe(c, b, Size(shift)); }
  }

  /** Two allocations do not overlap. */
  lemma NoOverlap(start: nat, m: Model, p: nat, q: nat)
    requires |m.used| == |m.kind| && Partition(m.kind) && LiveAt(start, m, p) && LiveAt(start, m, q) && p < q
    ensures p + Capacity(m.kind[PageOf(start, p)]) <= q
  {
    var i, j := PageOf(start, p), PageOf(start, q);
    EndsBefore(start, m, p);
    if i == j {
      assert Placed(m.kind, i);
      match m.kind[i]
      case BusyRun(len) =>
      case Cut(shift) =>
        OffsetChunk(shift, OffsetOf(start, p));
        OffsetChunk(shift, OffsetOf(start, q));
        ApartChunks(shift, OffsetOf(start, p) / Size(shift), OffsetOf(start, q) / Size(shift));
    }
  }

  lemma Aligned(k: nat, shift: nat, off: nat)
    requires IsShift(shift) && off % Size(shift) == 0
    ensures (k * PAGE + off) % Size(shift) == 0
  {
    hide Size, Chunks;
    Layout(shift);
    var z, n := Size(shift), off / Size(shift);
    assert off == n * z;
    assert k * PAGE + off == (k * Chunks(shift) + n) * z;
    MulMod(k * Chunks(shift) + n, z);
  }

  /** A chunk is aligned to its size and does not reach into the bitmap of its page. */
  lemma ChunkPlace(start: nat, m: Model, p: nat)
    requires |m.used| == |m.kind| && Partition(m.kind) && LiveAt(start, m, p) && start % PAGE == 0
    ensures m.kind[PageOf(start, p)].BusyRun? ==> p % PAGE == 0
    ensures m.kind[PageOf(start, p)].Cut? ==>
              var shift := m.kind[PageOf(start, p)].shift;
              p % Size(shift) == 0 && (shift < EXACT_SHIFT ==> OffsetOf(start, p) >= Words(shift) * 8)
  {
    hide Size, Chunks, Reserved, Words;
    var i, off := PageOf(start, p), OffsetOf(start, p);
    assert Placed(m.kind, i);
    match m.kind[i]
    case BusyRun(len) =>
    case Cut(shift) =>
      OffsetChunk(shift, off);
      Layout(shift);
      ApartChunks(shift, off / Size(shift), Reserved(shift));
      Aligned(start / PAGE + i, shift, off);
  }
}
