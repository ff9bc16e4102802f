/** The buffering of nginx's MD5: a message that comes in pieces is cut into blocks of 64 bytes
    and padded once, as in sections 3.1 and 3.2 of RFC 1321. The function that takes a block into
    the chaining words is a parameter.
 */
module Md5Stream {

  import opened Common

  const BLOCK: nat := 64
  const WORD64: nat := 0x1_0000_0000_0000_0000

  /** The four chaining words. */
  datatype Words = Words(a: nat, b: nat, c: nat, d: nat)

  const START: Words := Words(0x67452301, 0xefcdab89, 0x98badcfe, 0x10325476)

  type Body = (Words, seq<byte>) -> Words

  /** The whole blocks of `m`, taken in one after another. */
  ghost function Fold(body: Body, w: Words, m: seq<byte>): Words
    decreases |m|
  {
    if |m| < BLOCK then w else Fold(body, body(w, m[..BLOCK]), m[BLOCK..])
  }

  lemma {:induction false} FoldSplit(body: Body, w: Words, m: seq<byte>, r: seq<byte>)
    requires |m| % BLOCK == 0
    ensures Fold(body, w, m + r) == Fold(body, Fold(body, w, m), r)
    decreases |m|
  {
    if |m| == 0 {
      assert m + r == r;
    } else {
      assert |m| >= BLOCK;
      assert (m + r)[..BLOCK] == m[..BLOCK] && (m + r)[BLOCK..] == m[BLOCK..] + r;
      FoldSplit(body, body(w, m[..BLOCK]), m[BLOCK..], r);
    }
  }

  lemma FoldOne(body: Body, w: Words, m: seq<byte>)
    requires |m| == BLOCK
    ensures Fold(body, w, m) == body(w, m)
  {
    assert m[..BLOCK] == m && m[BLOCK..] == [];
  }

  /** A 64-bit number in bytes, the lowest first. */
  function Bytes64(n: nat): (b: seq<byte>)
    ensures |b| == 8
  {
    [n % 256, n / 256 % 256, n / 65536 % 256, n / 0x100_0000 % 256, n / 0x1_0000_0000 % 256,
     n / 0x100_0000_0000 % 256, n / 0x1_0000_0000_0000 % 256, n / 0x100_0000_0000_0000 % 256]
  }

  function Zeros(n: nat): (z: seq<byte>)
    ensures |z| == n && forall i :: 0 <= i < n ==> z[i] == 0
  {
    seq(n, _ => 0)
  }

  /** How many zero bytes make the message with its mark and length whole blocks. */
  function ZeroCount(len: nat): (k: nat)
    ensures k < BLOCK && (len + 1 + k + 8) % BLOCK == 0
  {
    (BLOCK + 55 - len % BLOCK) % BLOCK
  }

  /** The message, the mark, zero bytes and the number of its bits. */
  ghost function Padded(m: seq<byte>): (p: seq<byte>)
    ensures |p| % BLOCK == 0
  {
    m + [0x80] + Zeros(ZeroCount(|m|)) + Bytes64(8 * |m| % WORD64)
  }

  function WordBytes(w: nat): seq<byte> {
    [w % 256, w / 256 % 256, w / 65536 % 256, w / 0x100_0000 % 256]
  }

  function Digest(w: Words): seq<byte> {
    WordBytes(w.a) + WordBytes(w.b) + WordBytes(w.c) + WordBytes(w.d)
  }

  /** The whole blocks of a message are taken in, and the buffer holds the rest. */
  ghost predicate Taken(body: Body, m: seq<byte>, w: Words, buffer: seq<byte>)
    requires |buffer| == BLOCK
  {
    var used := |m| % BLOCK;
    w == Fold(body, START, m[..|m| - used]) && buffer[..used] == m[|m| - used..]
  }

  lemma Bits(n: nat)
    ensures n % WORD64 * 8 % WORD64 == 8 * n % WORD64
  {
    var q, r := n / WORD64, n % WORD64;
    assert 8 * n == 8 * r + (8 * q) * WORD64;
  }

  lemma PadText(m: seq<byte>, used: nat, l: seq<byte>)
    requires used == |m| % BLOCK && l == Bytes64(8 * |m| % WORD64)
    ensures var head, tail := m[..|m| - used], m[|m| - used..];
            Padded(m) == if used < 56 then head + (tail + [0x80] + Zeros(55 - used) + l)
                         else head + ((tail + [0x80] + Zeros(63 - used)) + (Zeros(56) + l))
  {
    hide Bytes64;
    var head, tail := m[..|m| - used], m[|m| - used..];
    assert m == head + tail;
    if used < 56 {
      assert ZeroCount(|m|) == 55 - used;
    } else {
      assert ZeroCount(|m|) == (63 - used) + 56;
      assert Zeros((63 - used) + 56) == Zeros(63 - used) + Zeros(56);
    }
  }

  /** The padded message ends in one block or two. */
  lemma PaddedFold(body: Body, m: seq<byte>, w: Words, buffer: seq<byte>)
    requires |buffer| == BLOCK && Taken(body, m, w, buffer)
    ensures var used, l := |m| % BLOCK, Bytes64(8 * |m| % WORD64);
            Fold(body, START, Padded(m)) ==
              if used < 56 then body(w, buffer[..used] + [0x80] + Zeros(55 - used) + l)
              else body(body(w, buffer[..used] + [0x80] + Zeros(63 - used)), Zeros(56) + l)
  {
    hide Fold, Bytes64;
    var used, l := |m| % BLOCK, Bytes64(8 * |m| % WORD64);
    var head, tail := m[..|m| - used], buffer[..used];
    assert |head| % BLOCK == 0;
    PadText(m, used, l);
    if used < 56 {
      var last := tail + [0x80] + Zeros(55 - used) + l;
      assert Padded(m) == head + last;
      FoldSplit(body, START, head, last);
      FoldOne(body, w, last);
    } else {
      var one, two := tail + [0x80] + Zeros(63 - used), Zeros(56) + l;
      assert Padded(m) == head + (one + two);
      FoldSplit(body, START, head, one + two);
      FoldSplit(body, w, one, two);
      FoldOne(body, w, one);
      FoldOne(body, body(w, one), two);
    }
  }

  lemma Copied(before: seq<byte>, after: seq<byte>, at: nat, data: seq<byte>)
    requires at + |data| <= |before| == |after|
    requires forall j :: 0 <= j < |data| ==> after[at + j] == data[j]
    requires forall j :: 0 <= j < |after| && !(at <= j < at + |data|) ==> after[j] == before[j]
    ensures after == before[..at] + data + before[at + |data|..]
  {
    var w := before[..at] + data + before[at + |data|..];
    forall j | 0 <= j < |after| ensures after[j] == w[j] {
      if at <= j < at + |data| { assert after[at + (j - at)] == data[j - at]; }
    }
  }

  lemma UsedIs(n: nat)
    ensures n % WORD64 % BLOCK == n % BLOCK
  {
    assert WORD64 == 0x400_0000_0000_0000 * BLOCK;
  }

  lemma SumWraps(n: nat, k: nat)
    ensures (n % WORD64 + k) % WORD64 == (n + k) % WORD64
  {}

  // ---------- what a piece does

  lemma LessThanBlock(n: nat, k: nat)
    requires n % BLOCK + k < BLOCK
    ensures (n + k) % BLOCK == n % BLOCK + k
  {}

  lemma TakenSmall(body: Body, m: seq<byte>, w: Words, buffer: seq<byte>, d: seq<byte>)
    requires |buffer| == BLOCK && Taken(body, m, w, buffer) && |m| % BLOCK + |d| < BLOCK
    ensures var used := |m| % BLOCK; Taken(body, m + d, w, buffer[..used] + d + buffer[used + |d|..])
  {
    var used, n := |m| % BLOCK, m + d;
    var now := used + |d|;
    LessThanBlock(|m|, |d|);
    assert n[..|n| - now] == m[..|m| - used];
    assert n[|n| - now..] == m[|m| - used..] + d;
    assert (buffer[..used] + d + buffer[used + |d|..])[..now] == buffer[..used] + d;
  }

  lemma BothWhole(n: nat, k: nat)
    requires n % BLOCK == 0 && k % BLOCK == 0
    ensures (n + k) % BLOCK == 0
  {}

  lemma FullBlock(n: nat, k: nat)
    requires n % BLOCK + k == BLOCK
    ensures (n + k) % BLOCK == 0
  {}

  lemma TakenBlock(body: Body, m: seq<byte>, w: Words, buffer: seq<byte>, d: seq<byte>)
    requires |buffer| == BLOCK && Taken(body, m, w, buffer) && |m| % BLOCK + |d| == BLOCK
    ensures var used := |m| % BLOCK;
            var full := buffer[..used] + d + buffer[used + |d|..];
            |full| == BLOCK && Taken(body, m + d, body(w, full), full)
  {
    var used, n := |m| % BLOCK, m + d;
    var full := buffer[..used] + d + buffer[used + |d|..];
    FullBlock(|m|, |d|);
    var head := m[..|m| - used];
    assert full == m[|m| - used..] + d;
    assert n == head + full && n[..|n|] == n && n[|n|..] == [] && full[..0] == [];
    FoldSplit(body, START, head, full);
    FoldOne(body, w, full);
  }

  lemma TakenMany(body: Body, m: seq<byte>, w: Words, buffer: seq<byte>, d: seq<byte>)
    requires |buffer| == BLOCK && Taken(body, m, w, buffer) && |m| % BLOCK == 0 && |d| % BLOCK == 0
    ensures Taken(body, m + d, Fold(body, w, d), buffer)
  {
    hide Fold;
    var n := m + d;
    BothWhole(|m|, |d|);
    assert m[..|m|] == m && n[..|n|] == n && n[|n|..] == [] && buffer[..0] == [];
    FoldSplit(body, START, m, d);
  }

  lemma TakenTail(body: Body, m: seq<byte>, w: Words, buffer: seq<byte>, d: seq<byte>)
    requires |buffer| == BLOCK && Taken(body, m, w, buffer) && |m| % BLOCK == 0 && |d| < BLOCK
    ensures Taken(body, m + d, w, buffer[..0] + d + buffer[|d|..])
  {
    TakenSmall(body, m, w, buffer, d);
  }

  class Context {
    const body: Body
    var words: Words
    var bytes: nat
    var buffer: array<byte>
    /** What was given so far. */
    ghost var message: seq<byte>

    /** The whole blocks are taken in, and the buffer holds the others. */
    ghost predicate Valid()
      reads this, buffer
    {
      && buffer.Length == BLOCK && bytes == |message| % WORD64
      && Taken(body, message, words, buffer[..])
    }

    constructor (body: Body)
      ensures Valid() && message == [] && this.body == body && fresh(buffer)
    {
      this.body := body;
      words, bytes, message := START, 0, [];
      buffer := new byte[BLOCK](_ => 0);
    }

    /** Copies `data` into the buffer from `at` on. */
    method Copy(at: nat, data: seq<byte>)
      requires at + |data| <= buffer.Length
      modifies buffer
      ensures buffer[..] == old(buffer[..at]) + data + old(buffer[at + |data|..])
    {
      var i := 0;
      while i < |data|
        invariant 0 <= i <= |data|
        invariant forall j :: 0 <= j < i ==> buffer[at + j] == data[j]
        invariant forall j :: 0 <= j < buffer.Length && !(at <= j < at + i) ==> buffer[j] == old(buffer[j])
      {
        buffer[at + i] := data[i];
        i := i + 1;
      }
      Copied(old(buffer[..]), buffer[..], at, data);
    }

    /** Takes whole blocks in. */
    method TakeBlocks(data: seq<byte>)
      requires |data| % BLOCK == 0
      modifies `words
      ensures words == Fold(body, old(words), data)
    {
      var rest := data;
      while |rest| > 0
        invariant |rest| % BLOCK == 0 && Fold(body, words, rest) == Fold(body, old(words), data)
        decreases |rest|
      {
        assert |rest| >= BLOCK;
        words := body(words, rest[..BLOCK]);
        rest := rest[BLOCK..];
      }
    }

    /** The rest of a block that is partly in the buffer. */
    method Top(used: nat, data: seq<byte>, ghost m: seq<byte>)
      requires buffer.Length == BLOCK && Taken(body, m, words, buffer[..]) && used == |m| % BLOCK
      requires used + |data| == BLOCK
      modifies `words, buffer
      ensures Taken(body, m + data, words, buffer[..]) && |m + data| % BLOCK == 0
    {
      hide Taken, Fold;
      TakenBlock(body, m, words, buffer[..], data);
      FullBlock(|m|, |data|);
      Copy(used, data);
      FoldOne(body, words, buffer[..]);
      TakeBlocks(buffer[..]);
    }

    /** Whole blocks, and what is left over into the buffer. */
    method Blocks(data: seq<byte>, ghost m: seq<byte>)
      requires buffer.Length == BLOCK && Taken(body, m, words, buffer[..]) && |m| % BLOCK == 0
      modifies `words, buffer
      ensures Taken(body, m + data, words, buffer[..])
    {
      hide Taken, Fold;
      var rest := data;
      ghost var n := m;
      if |rest| >= BLOCK {
        var whole := |rest| - |rest| % BLOCK;
        TakenMany(body, m, words, buffer[..], rest[..whole]);
        TakeBlocks(rest[..whole]);
        n := m + rest[..whole];
        rest := rest[whole..];
        BothWhole(|m|, whole);
      }
      assert n + rest == m + data;
      TakenTail(body, n, words, buffer[..], rest);
      Copy(0, rest);
    }

    /** A piece of the message. */
    method Update(data: seq<byte>)
      requires Valid()
      modifies this, buffer
      ensures Valid() && message == old(message) + data && buffer == old(buffer)
    {
      hide Taken, Fold;
      var used := bytes % BLOCK;
      ghost var m := message;
      UsedIs(|m|);
      SumWraps(|m|, |data|);
      bytes := (bytes + |data|) % WORD64;
      message := message + data;
      if used > 0 {
        var free := BLOCK - used;
        if |data| < free {
          TakenSmall(body, m, words, buffer[..], data);
          Copy(used, data);
          return;
        }
        Top(used, data[..free], m);
        Blocks(data[free..], m + data[..free]);
        assert m + data[..free] + data[free..] == message;
      } else {
        Blocks(data, m);
      }
    }

    /** Fills up a block that has no room for the length, and takes it in. */
    method Overflow(used: nat)
      requires buffer.Length == BLOCK && used <= BLOCK
      modifies `words, buffer
      ensures words == body(old(words), old(buffer[..used]) + Zeros(BLOCK - used))
    {
      hide Fold;
      Copy(used, Zeros(BLOCK - used));
      ghost var full := buffer[..];
      assert full == old(buffer[..used]) + Zeros(BLOCK - used);
      FoldOne(body, words, full);
      TakeBlocks(buffer[..]);
    }

    /** The last block: zero bytes after the first `used` bytes, and the length. */
    method Last(used: nat, length: nat)
      requires buffer.Length == BLOCK && used <= 56
      modifies `words, buffer
      ensures words == body(old(words), old(buffer[..used]) + Zeros(56 - used) + Bytes64(length))
    {
      hide Fold, Bytes64;
      Copy(used, Zeros(56 - used));
      assert buffer[..56] == old(buffer[..used]) + Zeros(56 - used);
      label zeroed:
      Copy(56, Bytes64(length));
      ghost var full := buffer[..];
      assert full == old@zeroed(buffer[..56]) + Bytes64(length);
      FoldOne(body, words, full);
      TakeBlocks(buffer[..]);
    }

    /** The digest of the whole message; the context is wiped. */
    method Final() returns (result: seq<byte>)
      requires Valid()
      modifies this, buffer
      ensures result == Digest(Fold(body, START, Padded(old(message))))
    {
      hide Taken, Fold, Digest, Padded, Bytes64;
      ghost var m, w, tail := message, words, buffer[..bytes % BLOCK];
      var used := bytes % BLOCK;
      UsedIs(|m|);
      PaddedFold(body, m, words, buffer[..]);
      Copy(used, [0x80]);
      used := used + 1;
      assert buffer[..used] == tail + [0x80];
      if BLOCK - used < 8 {
        Overflow(used);
        used := 0;
      }
      ghost var start := buffer[..used];
      Bits(|m|);
      Last(used, bytes * 8 % WORD64);
      assert [] + Zeros(56) == Zeros(56);
      result := Digest(words);
      words, bytes := Words(0, 0, 0, 0), 0;
    }
  }

  // ---------- any split

  ghost function Joined(pieces: seq<seq<byte>>): seq<byte> {
    if pieces == [] then [] else Joined(pieces[..|pieces| - 1]) + pieces[|pieces| - 1]
  }

  lemma JoinedNone()
    ensures Joined([]) == []
  {}

  lemma JoinedMore(pieces: seq<seq<byte>>, i: nat)
    requires i < |pieces|
    ensures Joined(pieces[..i + 1]) == Joined(pieces[..i]) + pieces[i]
  {
    assert pieces[..i + 1][..i] == pieces[..i];
  }

  /** However a message is cut into pieces, its digest is that of the padded whole. */
  method Md5(body: Body, pieces: seq<seq<byte>>) returns (result: seq<byte>)
    ensures result == Digest(Fold(body, START, Padded(Joined(pieces))))
  {
    hide Digest, Fold, Padded, Joined, Taken;
    JoinedNone();
    var ctx := new Context(body);
    var i := 0;
    while i < |pieces|
      invariant 0 <= i <= |pieces| && ctx.Valid() && ctx.message == Joined(pieces[..i]) && fresh(ctx)
      invariant fresh(ctx.buffer)
    {
      JoinedMore(pieces, i);
      ctx.Update(pieces[i]);
      i := i + 1;
    }
    assert pieces[..|pieces|] == pieces;
    result := ctx.Final();
  }
}
