/** Values behind nginx's radix tree of IPv4 prefixes: keys and masks by their bits, the
    tree the nodes form, a position in it, and the memory that holds it.
 */
module RadixShape {

  import opened Common

  /** (uintptr_t) -1 */
  const NO_VALUE: nat := 0xFFFF_FFFF_FFFF_FFFF

  type Prefix = seq<bool>

  class Node {
    var right: Node?
    var left: Node?
    var parent: Node?
    var value: nat

    constructor () {
      right, left, parent, value := null, null, null, 0;
    }
  }

  // ---------- bits

  function Half(bit: bv32): bv32 { bit >> 1 }

  /** The top bit, shifted right `i` times. */
  function BitAt(i: nat): bv32 {
    if i == 0 then 0x8000_0000 else Half(BitAt(i - 1))
  }

  predicate Test(word: bv32, bit: bv32) {
    word & bit != 0
  }

  lemma LastBit()
    ensures BitAt(31) == 1 && BitAt(32) == 0
  {
    assert BitAt(8) == 0x80_0000;
    assert BitAt(16) == 0x8000;
    assert BitAt(24) == 0x80;
  }

  lemma {:induction false} BitSet(i: nat)
    requires i < 32
    ensures BitAt(i) != 0 && (i < 31 ==> BitAt(i) != 1)
    decreases 32 - i
  {
    if i == 31 { LastBit(); } else { BitSet(i + 1); }
  }

  /** A single bit, or none. */
  ghost predicate One(bit: bv32) { bit & (bit - 1) == 0 }

  lemma TopOne()
    ensures One(0x8000_0000)
  {}

  lemma HalfBit(bit: bv32)
    requires One(bit)
    ensures One(Half(bit))
  {}

  lemma {:induction false} OneBit(i: nat)
    ensures One(BitAt(i))
  {
    hide Half;
    if i == 0 {
      TopOne();
    } else {
      OneBit(i - 1);
      HalfBit(BitAt(i - 1));
    }
  }

  /** The bits of a key, from the top. */
  function Bits(key: bv32): (b: Prefix)
    ensures |b| == 32
  {
    seq(32, i requires 0 <= i < 32 => Test(key, BitAt(i)))
  }

  /** A mask of `m` leading ones. */
  ghost predicate Leading(mask: bv32, m: nat) {
    m <= 32 && forall i :: 0 <= i < 32 ==> (Test(mask, BitAt(i)) <==> i < m)
  }

  function NextMask(mask: bv32): bv32 { (mask >> 1) | 0x8000_0000 }

  lemma TopSet(mask: bv32)
    ensures Test(NextMask(mask), 0x8000_0000)
  {}

  lemma ShiftTest(mask: bv32, bit: bv32)
    requires One(bit) && bit != 1
    ensures Test(NextMask(mask), Half(bit)) <==> Test(mask, bit)
  {}

  lemma ShiftAt(mask: bv32, i: nat)
    requires 0 < i < 32
    ensures Test(NextMask(mask), BitAt(i)) <==> Test(mask, BitAt(i - 1))
  {
    hide Test, NextMask, Half;
    BitSet(i - 1);
    OneBit(i - 1);
    ShiftTest(mask, BitAt(i - 1));
  }

  /** The next longer mask: shifted right, with the top bit set. */
  lemma LeadingNext(mask: bv32, m: nat)
    requires Leading(mask, m) && m < 32
    ensures Leading(NextMask(mask), m + 1)
  {
    hide Test, NextMask, Half;
    forall i | 0 <= i < 32 ensures Test(NextMask(mask), BitAt(i)) <==> i < m + 1 {
      if i == 0 {
        TopSet(mask);
      } else {
        ShiftAt(mask, i);
      }
    }
  }

  // ---------- prefixes

  function Child(p: Prefix, b: bool): Prefix { p + [b] }

  function Up(p: Prefix): Prefix
    requires p != []
  {
    p[..|p| - 1]
  }

  lemma ChildUp(p: Prefix, b: bool)
    ensures Child(p, b) != [] && Up(Child(p, b)) == p && Child(p, b) != p
  {}

  lemma UpChild(p: Prefix)
    requires p != []
    ensures Child(Up(p), p[|p| - 1]) == p
  {}

  // ---------- counting through the prefixes of a length

  /** The number that a prefix spells. */
  ghost function Num(p: Prefix): nat {
    if p == [] then 0 else 2 * Num(Up(p)) + if p[|p| - 1] then 1 else 0
  }

  lemma {:induction false} NumBound(p: Prefix)
    ensures Num(p) < Pow2(|p|)
    decreases |p|
  {
    if p != [] { NumBound(Up(p)); }
  }

  lemma {:induction false} NumSame(p: Prefix, q: Prefix)
    requires |p| == |q| && Num(p) == Num(q)
    ensures p == q
    decreases |p|
  {
    if p != [] {
      NumSame(Up(p), Up(q));
      UpChild(p);
      UpChild(q);
    }
  }

  lemma NumMore(b: Prefix, k: nat)
    requires k < |b|
    ensures Num(b[..k + 1]) == 2 * Num(b[..k]) + if b[k] then 1 else 0
  {
    assert Up(b[..k + 1]) == b[..k];
  }

  lemma {:induction false} NumZero(k: nat)
    requires k <= 32
    ensures Num(Bits(0)[..k]) == 0
  {
    if k > 0 {
      NumZero(k - 1);
      NumMore(Bits(0), k - 1);
    }
  }

  function Add(word: bv32, b: bv32): bv32 { word + b }

  function Set(word: bv32, b: bv32): bv32 { word | b }

  function Clear(word: bv32, b: bv32): bv32 { word & !b }

  ghost predicate Apart(a: bv32, b: bv32) { a & b == 0 }

  lemma OneApart(a: bv32, b: bv32)
    requires One(a) && One(b) && a != b
    ensures Apart(a, b) && Apart(b, a)
  {}

  lemma {:induction false} BitsDiffer(i: nat, k: nat)
    requires i < k < 32
    ensures BitAt(i) != BitAt(k)
    decreases 32 - k
  {
    hide Half;
    if k == 31 {
      BitSet(i);
      LastBit();
    } else {
      BitsDiffer(i + 1, k + 1);
      assert BitAt(i + 1) == Half(BitAt(i)) && BitAt(k + 1) == Half(BitAt(k));
    }
  }

  lemma BitsApart(i: nat, k: nat)
    requires i < k < 32
    ensures Apart(BitAt(i), BitAt(k)) && Apart(BitAt(k), BitAt(i))
  {
    hide BitAt, One, Apart;
    OneBit(i);
    OneBit(k);
    BitsDiffer(i, k);
    OneApart(BitAt(i), BitAt(k));
  }

  lemma SetKeeps(word: bv32, a: bv32, b: bv32)
    requires Apart(a, b)
    ensures Test(Set(word, b), a) == Test(word, a)
  {}

  lemma Untouched(word: bv32, a: bv32, b: bv32)
    requires a & b == 0
    ensures Test(word & !b, a) == Test(word, a)
  {}

  lemma ClearKeeps(word: bv32, a: bv32, b: bv32)
    requires Apart(a, b)
    ensures Test(Clear(word, b), a) == Test(word, a)
  {
    hide Test;
    Untouched(word, a, b);
  }

  lemma Written(word: bv32, b: bv32)
    requires b != 0
    ensures Test(Set(word, b), b) && !Test(Clear(word, b), b)
  {}

  lemma BitSame(word: bv32, k: nat)
    requires k < 32
    ensures Test(Set(word, BitAt(k)), BitAt(k)) && !Test(Clear(word, BitAt(k)), BitAt(k))
  {
    hide *;
    BitSet(k);
    Written(word, BitAt(k));
  }

  lemma BitOther(word: bv32, k: nat, i: nat)
    requires k < 32 && i < 32 && i != k
    ensures Test(Set(word, BitAt(k)), BitAt(i)) == Test(word, BitAt(i))
    ensures Test(Clear(word, BitAt(k)), BitAt(i)) == Test(word, BitAt(i))
  {
    hide *;
    if i < k { BitsApart(i, k); } else { BitsApart(k, i); }
    SetKeeps(word, BitAt(i), BitAt(k));
    ClearKeeps(word, BitAt(i), BitAt(k));
  }

  /** A bit is written, and the others are as they were. */
  lemma BitsWritten(word: bv32, k: nat)
    requires k < 32
    ensures Bits(Set(word, BitAt(k))) == Bits(word)[k := true]
    ensures Bits(Clear(word, BitAt(k))) == Bits(word)[k := false]
  {
    hide Test, BitAt, Set, Clear;
    forall i: nat | i < 32
      ensures Bits(Set(word, BitAt(k)))[i] == (i == k || Bits(word)[i])
      ensures Bits(Clear(word, BitAt(k)))[i] == (i != k && Bits(word)[i])
    {
      if i == k { BitSame(word, k); } else { BitOther(word, k, i); }
    }
  }

  lemma NoCarry(word: bv32, b: bv32)
    requires !Test(word, b)
    ensures word + b == word | b
  {}

  lemma AddClear(word: bv32, b: bv32)
    requires !Test(word, b)
    ensures Add(word, b) == Set(word, b)
  {
    hide Test;
    NoCarry(word, b);
  }

  lemma OnlyBit(word: bv32, b: bv32)
    requires One(b) && Test(word, b)
    ensures word & b == b
  {}

  lemma SplitBit(word: bv32, b: bv32)
    requires word & b == b
    ensures (word & !b) + b == word
  {}

  lemma Split(word: bv32, b: bv32)
    requires One(b) && Test(word, b)
    ensures Clear(word, b) + b == word
  {
    OnlyBit(word, b);
    SplitBit(word, b);
  }

  lemma AddTwice(word: bv32, b: bv32)
    ensures Add(word + b, b) == Add(word, b + b)
  {}

  lemma AddMore(word: bv32, rest: bv32, b: bv32)
    requires rest + b == word
    ensures Add(word, b) == Add(rest, b + b)
  {
    hide Add;
    AddTwice(rest, b);
  }

  lemma AddSet(word: bv32, b: bv32)
    requires One(b) && Test(word, b)
    ensures Add(word, b) == Add(Clear(word, b), b + b)
  {
    hide Add, Clear;
    Split(word, b);
    AddMore(word, Clear(word, b), b);
  }

  lemma Twice(b: bv32)
    requires One(b) && b != 1
    ensures Half(b) + Half(b) == b
  {}

  lemma AddNone(word: bv32)
    ensures Add(word, 0) == word
  {}

  /** Adding a bit that is set clears it and adds the bit above it, if there is one. */
  lemma Carried(key: bv32, k: nat)
    requires k < 32 && Test(key, BitAt(k))
    ensures Add(key, BitAt(k)) == if k == 0 then Clear(key, BitAt(k)) else Add(Clear(key, BitAt(k)), BitAt(k - 1))
  {
    hide Add, Clear, Half;
    OneBit(k);
    AddSet(key, BitAt(k));
    if k == 0 {
      AddNone(Clear(key, BitAt(0)));
    } else {
      OneBit(k - 1);
      BitSet(k - 1);
      Twice(BitAt(k - 1));
    }
  }

  /** Adding the last bit of a prefix counts it on by one, with the carry into the bits above it,
      and leaves the bits below it. */
  lemma {:induction false} Counted(key: bv32, k: nat)
    requires k < 32
    ensures var p, next := Bits(key)[..k + 1], Bits(Add(key, BitAt(k)));
            && Num(next[..k + 1]) == (if Num(p) + 1 == Pow2(k + 1) then 0 else Num(p) + 1)
            && next[k + 1..] == Bits(key)[k + 1..]
    decreases k
  {
    hide Test, BitAt, Add, Set, Clear;
    var b, bits := BitAt(k), Bits(key);
    var next := Bits(Add(key, b));
    NumMore(bits, k);
    NumMore(next, k);
    BitsWritten(key, k);
    if !bits[k] {
      AddClear(key, b);
      assert next[..k] == bits[..k];
    } else {
      Carried(key, k);
      var low := Bits(Clear(key, b));
      assert low[..k] == bits[..k];
      if k > 0 {
        Counted(Clear(key, b), k - 1);
        assert next[k..] == low[k..];
        assert next[k] == next[k..][0] && low[k] == low[k..][0];
        assert next[k + 1..] == next[k..][1..];
      }
    }
  }

  ghost function Ones(k: nat): bv32 {
    if k == 0 then 0 else Ones(k - 1) | BitAt(k - 1)
  }

  lemma Without(x: bv32, a: bv32, b: bv32)
    requires x & a == 0 && x & b == 0
    ensures x & (a | b) == 0
  {}

  lemma {:induction false} NoOnes(x: bv32, k: nat)
    requires forall i :: 0 <= i < k ==> !Test(x, BitAt(i))
    ensures x & Ones(k) == 0
  {
    if k > 0 {
      NoOnes(x, k - 1);
      assert !Test(x, BitAt(k - 1));
      Without(x, Ones(k - 1), BitAt(k - 1));
    }
  }

  lemma AllOnes()
    ensures Ones(32) == 0xFFFF_FFFF
  {
    assert Ones(8) == 0xFF00_0000 && BitAt(8) == 0x80_0000;
    assert Ones(16) == 0xFFFF_0000 && BitAt(16) == 0x8000;
    assert Ones(24) == 0xFFFF_FF00 && BitAt(24) == 0x80;
  }

  /** The bits from `m` on are zero. */
  ghost predicate Short(key: bv32, m: nat) {
    forall i :: m <= i < 32 ==> !Bits(key)[i]
  }

  lemma {:induction false} NoNum(p: Prefix, i: nat)
    requires Num(p) == 0 && i < |p|
    ensures !p[i]
    decreases |p|
  {
    if i < |p| - 1 { NoNum(Up(p), i); }
  }

  lemma NoBits(key: bv32, m: nat)
    requires m <= 32 && Short(key, m) && Num(Bits(key)[..m]) == 0
    ensures key == 0
  {
    hide Test, BitAt, Ones;
    forall i | 0 <= i < 32 ensures !Test(key, BitAt(i)) {
      assert Bits(key)[i] == Test(key, BitAt(i));
      if i < m {
        NoNum(Bits(key)[..m], i);
        assert Bits(key)[..m][i] == Bits(key)[i];
      }
    }
    NoOnes(key, 32);
    AllOnes();
  }

  lemma ShortNext(key: bv32, next: bv32, m: nat)
    requires 1 <= m <= 32 && Short(key, m) && next == Add(key, BitAt(m - 1))
    ensures Short(next, m)
    ensures var n := Num(Bits(key)[..m]); Num(Bits(next)[..m]) == if n + 1 == Pow2(m) then 0 else n + 1
  {
    hide Test, BitAt, Bits, Add;
    Counted(key, m - 1);
    forall i | m <= i < 32 ensures Bits(next)[i] == Bits(key)[i] {
      assert Bits(next)[m..][i - m] == Bits(key)[m..][i - m];
    }
  }

  /** The next key of a level: the prefix counted on by one, or 0 after the last. */
  lemma NextKey(key: bv32, next: bv32, m: nat)
    requires 1 <= m <= 32 && Short(key, m) && next == Add(key, BitAt(m - 1))
    ensures var n := Num(Bits(key)[..m]);
            && n < Pow2(m) && Short(next, m)
            && (next == 0 <==> n + 1 == Pow2(m))
            && (next != 0 ==> Num(Bits(next)[..m]) == n + 1)
  {
    hide BitAt, Bits, Add, Short;
    NumBound(Bits(key)[..m]);
    ShortNext(key, next, m);
    NumZero(m);
    if Num(Bits(next)[..m]) == 0 { NoBits(next, m); }
  }

  /** The value stored under the longest prefix of `b`, or NO_VALUE. */
  function Longest(routes: map<Prefix, nat>, b: Prefix): nat {
    if b in routes then routes[b]
    else if b == [] then NO_VALUE
    else Longest(routes, Up(b))
  }

  /** What `Longest` means: some stored prefix of `b` that no stored prefix of `b` is longer
      than, or NO_VALUE and no stored prefix at all. */
  lemma {:induction false} LongestIsLongest(routes: map<Prefix, nat>, b: Prefix)
    ensures (exists k :: 0 <= k <= |b| && b[..k] in routes && Longest(routes, b) == routes[b[..k]]
                         && forall j :: k < j <= |b| ==> b[..j] !in routes)
            || (Longest(routes, b) == NO_VALUE && forall j :: 0 <= j <= |b| ==> b[..j] !in routes)
  {
    assert b[..|b|] == b;
    if b in routes {
      assert b[..|b|] in routes;
    } else if b == [] {
    } else {
      LongestIsLongest(routes, Up(b));
      assert forall j :: 0 <= j < |b| ==> Up(b)[..j] == b[..j];
    }
  }

  lemma {:induction false} LongestAbove(routes: map<Prefix, nat>, b: Prefix, i: nat)
    requires i <= |b| && forall j :: i < j <= |b| ==> b[..j] !in routes
    ensures Longest(routes, b) == Longest(routes, b[..i])
    decreases |b|
  {
    if i == |b| {
      assert b[..i] == b;
    } else {
      assert b[..|b|] == b;
      assert forall j :: 0 <= j < |b| ==> Up(b)[..j] == b[..j];
      LongestAbove(routes, Up(b), i);
    }
  }
}
