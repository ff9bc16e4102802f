/** The three ways in which nginx's slab pool marks the chunks of a page: a bitmap in the page
    for small chunks, the slab word for exact ones, and its high half for big ones. Each takes
    the first free chunk and frees a given one.
 */
module SlabMarks {

  import opened Common
  import opened SlabRing
  import opened SlabState

  // ---------- small chunks: words in the page

  lemma SmallSet(shift: nat, ws: seq<Word>, used: Word, n: nat, b: nat)
    requires IsShift(shift) && shift < EXACT_SHIFT && Encodes(shift, Shift(shift), ws, used)
    requires n < |ws| && b < WORD
    ensures Encodes(shift, Shift(shift), ws[n := ws[n] + {b}], used + {n * WORD + b})
  {
    Layout(shift);
    var vs := ws[n := ws[n] + {b}];
    forall c: nat | c < Words(shift) * WORD ensures c in used + {n * WORD + b} <==> c % WORD in vs[c / WORD] {
      assert c in used <==> c % WORD in ws[c / WORD];
    }
  }

  lemma SmallClear(shift: nat, ws: seq<Word>, used: Word, n: nat, b: nat)
    requires IsShift(shift) && shift < EXACT_SHIFT && Encodes(shift, Shift(shift), ws, used)
    requires n < |ws| && b < WORD
    ensures Encodes(shift, Shift(shift), ws[n := ws[n] - {b}], used - {n * WORD + b})
  {
    Layout(shift);
    var vs := ws[n := ws[n] - {b}];
    forall c: nat | c < Words(shift) * WORD ensures c in used - {n * WORD + b} <==> c % WORD in vs[c / WORD] {
      assert c in used <==> c % WORD in ws[c / WORD];
    }
  }

  /** A bit of the bitmap is the chunk of its number. */
  lemma SmallBit(shift: nat, ws: seq<Word>, used: Word, n: nat, b: nat)
    requires IsShift(shift) && shift < EXACT_SHIFT && Encodes(shift, Shift(shift), ws, used)
    requires n < |ws| && b < WORD
    ensures n * WORD + b < Chunks(shift) && (n * WORD + b in used <==> b in ws[n])
  {
    Layout(shift);
    var c := n * WORD + b;
    assert c < Words(shift) * WORD && c / WORD == n && c % WORD == b;
  }

  /** All chunks are used exactly when all words are busy. */
  lemma SmallFull(shift: nat, ws: seq<Word>, used: Word)
    requires IsShift(shift) && shift < EXACT_SHIFT && Encodes(shift, Shift(shift), ws, used) && used <= All(shift)
    ensures used == All(shift) <==> forall n :: 0 <= n < |ws| ==> ws[n] == BUSY
  {
    Layout(shift);
    if used == All(shift) {
      forall n | 0 <= n < |ws| ensures ws[n] == BUSY {
        forall b: nat ensures b in ws[n] <==> b < WORD {
          if b < WORD { SmallBit(shift, ws, used, n, b); }
        }
      }
    }
    if forall n :: 0 <= n < |ws| ==> ws[n] == BUSY {
      forall c: nat | c < Chunks(shift) ensures c in used {
        assert c in used <==> c % WORD in ws[c / WORD];
      }
    }
  }

  /** The chunks of the words before `n` are used when those words are busy. */
  lemma SmallBefore(shift: nat, ws: seq<Word>, used: Word, n: nat, b: nat)
    requires IsShift(shift) && shift < EXACT_SHIFT && Encodes(shift, Shift(shift), ws, used)
    requires n < |ws| && b <= WORD && (forall k :: 0 <= k < n ==> ws[k] == BUSY)
    requires forall i: nat :: i < b ==> i in ws[n]
    ensures forall c: nat :: c < n * WORD + b ==> c in used
  {
    Layout(shift);
    forall c: nat | c < n * WORD + b ensures c in used {
      assert c < Words(shift) * WORD;
      assert c in used <==> c % WORD in ws[c / WORD];
    }
  }

  lemma AllMore(shift: nat, used: Word, c: nat)
    requires used <= All(shift) && c < Chunks(shift)
    ensures used + {c} <= All(shift)
  {}

  lemma SmallWords(shift: nat, ws: seq<Word>, used: Word)
    requires IsShift(shift) && shift < EXACT_SHIFT && Encodes(shift, Shift(shift), ws, used)
    ensures |ws| == Chunks(shift) / WORD && Chunks(shift) % WORD == 0
    ensures forall n :: 0 <= n < |ws| ==> forall b: nat :: b in ws[n] ==> b < WORD
  {
    Layout(shift);
  }

  /** The lowest bit of a word that is not set. */
  method FirstClear(w: Word) returns (i: nat)
    requires w != BUSY && forall b: nat :: b in w ==> b < WORD
    ensures i < WORD && i !in w && forall b: nat :: b < i ==> b in w
  {
    i := 0;
    while i < WORD && i in w
      invariant i <= WORD && forall b: nat :: b < i ==> b in w
    {
      i := i + 1;
    }
    if i == WORD { assert false; }
  }

  method TakeSmall(shift: nat, ws: seq<Word>, ghost used: Word) returns (vs: seq<Word>, c: nat, full: bool)
    requires IsShift(shift) && shift < EXACT_SHIFT && Encodes(shift, Shift(shift), ws, used) && used < All(shift)
    ensures c < Chunks(shift) && c !in used && (forall b: nat :: b < c ==> b in used)
    ensures Encodes(shift, Shift(shift), vs, used + {c})
    ensures full <==> used + {c} == All(shift)
  {
    hide Encodes, Size, Chunks, All;
    SmallWords(shift, ws, used);
    var map' := Chunks(shift) / WORD;
    var n := 0;
    while n < map'
      invariant 0 <= n <= map' && forall k :: 0 <= k < n ==> ws[k] == BUSY
    {
      if ws[n] != BUSY {
        var i := FirstClear(ws[n]);
        SmallBit(shift, ws, used, n, i);
        SmallBefore(shift, ws, used, n, i);
        SmallSet(shift, ws, used, n, i);
        vs := ws[n := ws[n] + {i}];
        c := n * WORD + i;
        AllMore(shift, used, c);
        SmallFull(shift, vs, used + {c});
        if vs[n] != BUSY { return vs, c, false; }
        ghost var taken := n;
        n := n + 1;
        while n < map'
          invariant taken < n <= map' && forall k :: 0 <= k < n ==> vs[k] == BUSY
        {
          if vs[n] != BUSY { return vs, c, false; }
          n := n + 1;
        }
        return vs, c, true;
      }
      n := n + 1;
    }
    SmallFull(shift, ws, used);
    assert false;
  }

  /** At most the bitmap's own chunks are used exactly when no bit is set beyond them. */
  lemma SmallEmpty(shift: nat, ws: seq<Word>, used: Word)
    requires IsShift(shift) && shift < EXACT_SHIFT && Encodes(shift, Shift(shift), ws, used)
    requires used <= All(shift)
    ensures |ws| > 0
    ensures used <= Kept(shift) <==> ws[0] - Below(Reserved(shift)) == {} && forall n :: 1 <= n < |ws| ==> ws[n] == {}
  {
    Layout(shift);
    var r := Reserved(shift);
    if used <= Kept(shift) {
      forall n, b: nat | 0 <= n < |ws| && b in ws[n] ensures n == 0 && b < r {
        SmallBit(shift, ws, used, n, b);
      }
      forall n | 1 <= n < |ws| ensures ws[n] == {} {
        assert forall b: nat :: b !in ws[n];
      }
    }
    if ws[0] - Below(r) == {} && forall n :: 1 <= n < |ws| ==> ws[n] == {} {
      forall c: nat | c in used ensures c < r {
        assert c % WORD in ws[c / WORD];
        assert c / WORD == 0;
        assert c !in ws[0] - Below(r);
      }
    }
  }

  /** Clears bit `c` of the bitmap and looks for another one beyond the bitmap's own chunks. */
  method ClearSmall(shift: nat, ws: seq<Word>, c: nat, ghost used: Word) returns (vs: seq<Word>, empty: bool)
    requires IsShift(shift) && shift < EXACT_SHIFT && Encodes(shift, Shift(shift), ws, used)
    requires used <= All(shift) && c < Chunks(shift)
    ensures Encodes(shift, Shift(shift), vs, used - {c})
    ensures empty <==> used - {c} <= Kept(shift)
  {
    hide Encodes, Size, Chunks, All, Kept;
    SmallWords(shift, ws, used);
    SmallClear(shift, ws, used, c / WORD, c % WORD);
    vs := ws[c / WORD := ws[c / WORD] - {c % WORD}];
    SmallEmpty(shift, vs, used - {c});
    var n := Quotient(Chunks(shift) / 8, Size(shift));
    if n == 0 { n := 1; }
    if vs[0] - Below(n) != {} { return vs, false; }
    var k := 1;
    while k < Chunks(shift) / WORD
      invariant 1 <= k <= |vs| && forall j :: 1 <= j < k ==> vs[j] == {}
    {
      if vs[k] != {} { return vs, false; }
      k := k + 1;
    }
    return vs, true;
  }

  lemma KeptLess(shift: nat, used: Word, c: nat)
    requires Kept(shift) <= used <= All(shift) && Reserved(shift) <= c
    ensures Kept(shift) <= used - {c} <= All(shift)
  {}

  // ---------- exact chunks: the slab word

  method TakeExact(bits: Word, ghost used: Word) returns (out: Word, c: nat, full: bool)
    requires bits == used && used < All(EXACT_SHIFT)
    ensures c < Chunks(EXACT_SHIFT) && c !in used && (forall b: nat :: b < c ==> b in used)
    ensures out == used + {c} && (full <==> used + {c} == All(EXACT_SHIFT))
  {
    Layout(EXACT_SHIFT);
    c := FirstClear(bits);
    out := bits + {c};
    full := out == BUSY;
  }

  // ---------- big chunks: the high half of the slab word

  /** The bits from MAP_SHIFT on, `n` of them. */
  function Mask(n: nat): (s: Word)
    ensures forall b: nat :: b in s <==> MAP_SHIFT <= b < MAP_SHIFT + n
  {
    if n == 0 then {} else Mask(n - 1) + {MAP_SHIFT + n - 1}
  }

  ghost function High(used: Word): Word { set c | c in used :: c + MAP_SHIFT }

  lemma HighAt(used: Word, b: nat)
    ensures b in High(used) <==> b >= MAP_SHIFT && b - MAP_SHIFT in used
  {
    if b >= MAP_SHIFT && b - MAP_SHIFT in used {
      var c: nat := b - MAP_SHIFT;
      assert c + MAP_SHIFT in High(used);
    }
  }

  lemma HighFull(used: Word, shift: nat)
    ensures High(used) == Mask(Chunks(shift)) <==> used == All(shift)
  {
    hide High, Chunks;
    forall b: nat ensures b in High(used) <==> b >= MAP_SHIFT && b - MAP_SHIFT in used { HighAt(used, b); }
    if High(used) == Mask(Chunks(shift)) {
      forall c: nat ensures c in used <==> c in All(shift) {
        assert c + MAP_SHIFT in High(used) <==> c in used;
      }
    }
    if used == All(shift) {
      forall b: nat ensures b in High(used) <==> b in Mask(Chunks(shift)) {}
    }
  }

  lemma HighSet(used: Word, c: nat)
    ensures High(used) + {MAP_SHIFT + c} == High(used + {c})
    ensures High(used) - {MAP_SHIFT + c} == High(used - {c})
  {
    hide High;
    forall b: nat
      ensures b in High(used) + {MAP_SHIFT + c} <==> b in High(used + {c})
      ensures b in High(used) - {MAP_SHIFT + c} <==> b in High(used - {c})
    {
      HighAt(used, b);
      HighAt(used + {c}, b);
      HighAt(used - {c}, b);
    }
  }

  method TakeBig(shift: nat, high: Word, ghost used: Word) returns (out: Word, c: nat, full: bool)
    requires IsShift(shift) && shift > EXACT_SHIFT && high == High(used) && used < All(shift)
    ensures c < Chunks(shift) && c !in used && (forall b: nat :: b < c ==> b in used)
    ensures out == High(used + {c}) && (full <==> used + {c} == All(shift))
  {
    hide High, Chunks;
    var mask := Mask(Chunks(shift));
    HighFull(used, shift);
    c := 0;
    while MAP_SHIFT + c in mask && MAP_SHIFT + c in high
      invariant c <= Chunks(shift) && forall b: nat :: b < c ==> b in used
      decreases Chunks(shift) - c
    {
      HighAt(used, MAP_SHIFT + c);
      c := c + 1;
    }
    assert c == Chunks(shift) ==> used == All(shift);
    HighAt(used, MAP_SHIFT + c);
    HighSet(used, c);
    HighFull(used + {c}, shift);
    out := high + {MAP_SHIFT + c};
    full := out == mask;
  }

  // ---------- any page of chunks

  lemma EncodedBig(shift: nat, slab: Slab, ws: seq<Word>, used: Word)
    requires shift > EXACT_SHIFT
    ensures Encodes(shift, slab, ws, used) <==> slab == ShiftMap(shift, High(used))
  {}

  /** Marks the first free chunk of a page. */
  method TakeChunk(shift: nat, slab: Slab, ws: seq<Word>, ghost used: Word)
    returns (slab': Slab, ws': seq<Word>, c: nat, full: bool)
    requires IsShift(shift) && Encodes(shift, slab, ws, used) && used < All(shift)
    ensures c < Chunks(shift) && c !in used && (forall b: nat :: b < c ==> b in used)
    ensures Encodes(shift, slab', ws', used + {c})
    ensures full <==> used + {c} == All(shift)
  {
    hide All, Chunks, High;
    if shift < EXACT_SHIFT {
      slab' := slab;
      ws', c, full := TakeSmall(shift, ws, used);
    } else if shift == EXACT_SHIFT {
      var out;
      out, c, full := TakeExact(slab.bits, used);
      slab', ws' := Map(out), ws;
    } else {
      EncodedBig(shift, slab, ws, used);
      var out;
      out, c, full := TakeBig(shift, slab.high, used);
      slab', ws' := ShiftMap(slab.big, out), ws;
      EncodedBig(shift, slab', ws', used + {c});
    }
  }

  /** Whether the page marks chunk `c` as used. */
  predicate Marks(shift: nat, slab: Slab, ws: seq<Word>, c: nat)
    requires shift < EXACT_SHIFT ==> c / WORD < |ws|
    requires shift == EXACT_SHIFT ==> slab.Map?
    requires shift > EXACT_SHIFT ==> slab.ShiftMap?
  {
    if shift < EXACT_SHIFT then c % WORD in ws[c / WORD]
    else if shift == EXACT_SHIFT then c in slab.bits
    else MAP_SHIFT + c in slab.high
  }

  lemma MarksUsed(shift: nat, slab: Slab, ws: seq<Word>, used: Word, c: nat)
    requires IsShift(shift) && Encodes(shift, slab, ws, used) && c < Chunks(shift)
    ensures shift < EXACT_SHIFT ==> c / WORD < |ws|
    ensures shift == EXACT_SHIFT ==> slab.Map?
    ensures shift > EXACT_SHIFT ==> slab.ShiftMap? && slab.big == shift
    ensures Marks(shift, slab, ws, c) <==> c in used
  {
    Layout(shift);
    if shift > EXACT_SHIFT {
      EncodedBig(shift, slab, ws, used);
      HighAt(used, MAP_SHIFT + c);
    } else if shift < EXACT_SHIFT {
      assert c < Words(shift) * WORD;
    }
  }

  lemma HighNone(used: Word)
    ensures High(used) == {} <==> used == {}
  {
    if used != {} {
      var c :| c in used;
      HighAt(used, c + MAP_SHIFT);
    }
  }

  /** Unmarks a chunk, and tells whether any other than the bitmap's own is left. */
  method ClearChunk(shift: nat, slab: Slab, ws: seq<Word>, c: nat, ghost used: Word)
    returns (slab': Slab, ws': seq<Word>, empty: bool)
    requires IsShift(shift) && Encodes(shift, slab, ws, used)
    requires used <= All(shift) && c < Chunks(shift)
    ensures Encodes(shift, slab', ws', used - {c})
    ensures empty <==> used - {c} <= Kept(shift)
  {
    hide All, Chunks, High;
    if shift < EXACT_SHIFT {
      slab' := slab;
      ws', empty := ClearSmall(shift, ws, c, used);
    } else if shift == EXACT_SHIFT {
      slab', ws' := Map(slab.bits - {c}), ws;
      empty := slab'.bits == {};
    } else {
      EncodedBig(shift, slab, ws, used);
      HighSet(used, c);
      slab', ws' := ShiftMap(slab.big, slab.high - {MAP_SHIFT + c}), ws;
      EncodedBig(shift, slab', ws', used - {c});
      HighNone(used - {c});
      empty := slab'.high == {};
    }
  }

  lemma FreshBig(shift: nat, ws: seq<Word>)
    requires shift > EXACT_SHIFT
    ensures Encodes(shift, ShiftMap(shift, {MAP_SHIFT}), ws, Kept(shift) + {Reserved(shift)})
  {
    assert Kept(shift) + {0} == {0};
    assert High({}) == {};
    HighSet({}, 0);
    assert {} + {0} == {0};
    EncodedBig(shift, ShiftMap(shift, {MAP_SHIFT}), ws, {0});
  }

  lemma FreshSmall(shift: nat, ws: seq<Word>)
    requires IsShift(shift) && shift < EXACT_SHIFT && |ws| == Words(shift) && |ws| > 0
    requires ws[0] == Below(Reserved(shift) + 1) && forall k :: 1 <= k < |ws| ==> ws[k] == {}
    ensures Encodes(shift, Shift(shift), ws, Kept(shift) + {Reserved(shift)})
  {
    Layout(shift);
    hide Size, Chunks, Reserved, Words;
    var used := Kept(shift) + {Reserved(shift)};
    forall c: nat | c < Words(shift) * WORD ensures c in used <==> c % WORD in ws[c / WORD] {
      if c < WORD { assert c / WORD == 0 && c % WORD == c; } else { assert ws[c / WORD] == {}; }
    }
    assert forall n, b: nat :: 0 <= n < |ws| && b in ws[n] ==> n == 0;
  }

  /** The marks of a page just cut: the bitmap's own chunks and the one after them. */
  method FreshMarks(shift: nat) returns (slab: Slab, ws: seq<Word>)
    requires IsShift(shift)
    ensures Encodes(shift, slab, ws, Kept(shift) + {Reserved(shift)})
  {
    if shift < EXACT_SHIFT {
      Layout(shift);
      hide Size, Chunks;
      slab := Shift(shift);
      var n := Quotient(Chunks(shift) / 8, Size(shift));
      if n == 0 { n := 1; }
      ws := [Below(n + 1)];
      var i := 1;
      while i < Chunks(shift) / WORD
        invariant 1 <= i == |ws| && ws[0] == Below(n + 1) && forall k :: 1 <= k < i ==> ws[k] == {}
        invariant i <= Chunks(shift) / WORD
      {
        ws := ws + [{}];
        i := i + 1;
      }
      FreshSmall(shift, ws);
    } else if shift == EXACT_SHIFT {
      slab, ws := Map({0}), [];
    } else {
      slab, ws := ShiftMap(shift, {MAP_SHIFT}), [];
      FreshBig(shift, ws);
    }
  }
}
