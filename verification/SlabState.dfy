/** The state of nginx's slab pool, for 64-bit words and pages of 4096 bytes: what every page
    is, which chunks of it are in use, and what its descriptor, its bitmap and the rings must
    then hold.
 */
module SlabState {

  import opened Common
  import opened SlabRing

  // ---------- sizes

  const PAGE: nat := 4096
  const PAGE_SHIFT: nat := 12
  const MIN_SHIFT: nat := 3
  const EXACT_SHIFT: nat := 6
  const MAX_SIZE: nat := 2048
  /** One list for each shift from MIN_SHIFT to PAGE_SHIFT - 1. */
  const LISTS: nat := 9
  const WORD: nat := 64
  const MAP_SHIFT: nat := 32

  const TAG_PAGE: nat := 0
  const TAG_BIG: nat := 1
  const TAG_EXACT: nat := 2
  const TAG_SMALL: nat := 3

  ghost predicate IsShift(shift: nat) { MIN_SHIFT <= shift < PAGE_SHIFT }

  /** Bytes of a chunk, chunks of a page, words of its bitmap. */
  function Size(shift: nat): (z: nat)
    ensures z > 0
  {
    Pow2(shift)
  }

  function Chunks(shift: nat): nat {
    if shift <= PAGE_SHIFT then Pow2(PAGE_SHIFT - shift) else 0
  }

  function Words(shift: nat): nat { Chunks(shift) / WORD }

  /** The chunks that the bitmap in the page takes. */
  function Reserved(shift: nat): nat {
    if shift < EXACT_SHIFT then
      var n := Quotient(Chunks(shift) / 8, Size(shift));
      if n == 0 then 1 else n
    else 0
  }

  function Tag(shift: nat): nat {
    if shift < EXACT_SHIFT then TAG_SMALL else if shift == EXACT_SHIFT then TAG_EXACT else TAG_BIG
  }

  lemma Sizes()
    ensures Size(3) == 8 && Size(4) == 16 && Size(5) == 32 && Size(6) == 64 && Size(7) == 128
    ensures Size(8) == 256 && Size(9) == 512 && Size(10) == 1024 && Size(11) == 2048
  {}

  /** The chunks fill the page, the reserved ones cover the bitmap and leave room, and each
      encoding has a bit for every chunk. */
  lemma Layout(shift: nat)
    requires IsShift(shift)
    ensures Size(shift) * Chunks(shift) == PAGE && Chunks(shift) >= 2 && Reserved(shift) < Chunks(shift)
    ensures shift < EXACT_SHIFT ==> Words(shift) * WORD == Chunks(shift) && Words(shift) >= 1
    ensures shift < EXACT_SHIFT ==> 1 <= Reserved(shift) < 30 && Words(shift) * 8 <= Reserved(shift) * Size(shift)
    ensures shift == EXACT_SHIFT ==> Chunks(shift) == WORD
    ensures shift > EXACT_SHIFT ==> MAP_SHIFT + Chunks(shift) <= WORD
  {
    Sizes();
    assert shift == 3 || shift == 4 || shift == 5 || shift == 6 || shift == 7 || shift == 8 || shift == 9
           || shift == 10 || shift == 11;
  }

  // ---------- pages

  datatype Kind =
    | FreeRun(len: nat)    // first page of a free run
    | BusyRun(len: nat)    // first page of an allocated run
    | Inside(head: nat)    // another page of the run that starts at `head`
    | Cut(shift: nat)      // a page of chunks

  function Below(n: nat): (s: Word)
    ensures forall c: nat :: c in s <==> c < n
  {
    if n == 0 then {} else Below(n - 1) + {n - 1}
  }

  /** A word with every bit set. */
  const BUSY: Word := Below(WORD)

  ghost function All(shift: nat): Word { Below(Chunks(shift)) }

  ghost function Kept(shift: nat): Word { Below(Reserved(shift)) }

  datatype Model = Model(kind: seq<Kind>, used: seq<Word>, free: seq<nat>, lists: seq<seq<nat>>)

  /** The chunks in use, as the slab word and the bitmap of the page say. */
  ghost predicate Encodes(shift: nat, slab: Slab, words: seq<Word>, used: Word) {
    if shift < EXACT_SHIFT then
      && slab == Shift(shift) && |words| == Words(shift)
      && (forall c: nat :: c < Words(shift) * WORD ==> (c in used <==> c % WORD in words[c / WORD]))
      && (forall n, b: nat :: 0 <= n < |words| && b in words[n] ==> b < WORD)
    else if shift == EXACT_SHIFT then slab == Map(used)
    else slab == ShiftMap(shift, set c | c in used :: c + MAP_SHIFT)
  }

  ghost predicate RunAt(kind: seq<Kind>, i: nat, len: nat) {
    0 < len <= |kind| - i && forall j: nat :: i < j < i + len ==> kind[j] == Inside(i)
  }

  ghost predicate Placed(kind: seq<Kind>, i: nat)
    requires i < |kind|
  {
    match kind[i]
    case FreeRun(len) => RunAt(kind, i, len)
    case BusyRun(len) => RunAt(kind, i, len)
    case Inside(h) => h < i && (kind[h].FreeRun? || kind[h].BusyRun?) && i < h + kind[h].len
    case Cut(shift) => IsShift(shift)
  }

  ghost predicate Partition(kind: seq<Kind>) {
    forall i: nat :: i < |kind| ==> Placed(kind, i)
  }

  ghost predicate Sized(n: nat, w: seq<seq<Word>>, m: Model) {
    |m.kind| == n && |m.used| == n && |w| == n && |m.lists| == LISTS
  }

  ghost predicate Domain(n: nat, d: Table) {
    && Null !in d && FreeHead in d
    && (forall s: nat :: Slot(s) in d <==> s < LISTS)
    && (forall i: nat :: Page(i) in d <==> i < n)
  }

  ghost predicate Rings(d: Table, m: Model)
    requires |m.lists| == LISTS
  {
    && Ring(d, FreeHead, m.free, TAG_PAGE)
    && forall s: nat :: s < LISTS ==> Ring(d, Slot(s), m.lists[s], Tag(s + MIN_SHIFT))
  }

  /** Whether page `i` belongs on the list of chunks of shift s + MIN_SHIFT: such a page with a
      chunk left. */
  ghost predicate Open(m: Model, s: nat, i: nat)
    requires |m.used| == |m.kind|
  {
    i < |m.kind| && m.kind[i] == Cut(s + MIN_SHIFT) && m.used[i] != All(s + MIN_SHIFT)
  }

  ghost predicate Listed(m: Model)
    requires |m.used| == |m.kind| && |m.lists| == LISTS
  {
    && (forall i: nat :: i in m.free <==> i < |m.kind| && m.kind[i].FreeRun?)
    && (forall s: nat, i: nat :: s < LISTS ==> (i in m.lists[s] <==> Open(m, s, i)))
  }

  /** The descriptor of page `i`, but for the links of a page on a ring and the marks of chunks. */
  ghost predicate Described(d: Table, m: Model, i: nat)
    requires i < |m.kind| == |m.used| && Page(i) in d && Placed(m.kind, i)
  {
    var x := d[Page(i)];
    match m.kind[i]
    case FreeRun(len) => x.slab == Count(len) && m.used[i] == {}
    case BusyRun(len) => x == Desc(Start(len), Null, Prev(Null, TAG_PAGE)) && m.used[i] == {}
    case Inside(h) => && x == Desc(if m.kind[h].BusyRun? then Busy else Count(0), Null, Prev(Null, TAG_PAGE))
                      && m.used[i] == {}
    case Cut(shift) => m.used[i] == All(shift) ==> x.next == Null && x.prev == Prev(Null, Tag(shift))
  }

  /** The marks of page `i`: some chunk beside the bitmap is in use. */
  ghost predicate Marked(d: Table, w: seq<seq<Word>>, m: Model, i: nat)
    requires i < |m.kind| == |m.used| == |w| && Page(i) in d
  {
    m.kind[i].Cut? ==>
      && Kept(m.kind[i].shift) < m.used[i] <= All(m.kind[i].shift)
      && Encodes(m.kind[i].shift, d[Page(i)].slab, w[i], m.used[i])
  }

  /** Everything, but for the marks of page `x`. */
  ghost predicate InvBut(n: nat, d: Table, w: seq<seq<Word>>, m: Model, x: int) {
    && Sized(n, w, m) && Domain(n, d) && Partition(m.kind) && Rings(d, m) && Listed(m)
    && (forall i: nat :: i < n ==> Described(d, m, i))
    && (forall i: nat :: i < n && i != x ==> Marked(d, w, m, i))
  }

  ghost predicate Inv(n: nat, d: Table, w: seq<seq<Word>>, m: Model) {
    InvBut(n, d, w, m, -1)
  }
}
