/** Reading back what nginx prints for an IPv6 address gives the address, except where the text
    ends in 255.255.255.255, which the reader takes for its error value.
 */
module Inet6RoundTrip {

  import opened Common
  import opened Inet6

  // ---------- numbers are read back

  lemma HexStep(t: string, i: nat, s: Scan, d: nat)
    requires Going(s) && s.digit <= i < |t| && s.nibbles < 4 && d < 16 && t[i] == HexDigit(d)
    ensures Parse(t, i, s) == Parse(t, i + 1, s.(nibbles := s.nibbles + 1, word := s.word * 16 + d))
  {}

  lemma {:induction false} HexRead(t: string, i: nat, s: Scan, w: nat)
    requires Going(s) && s.nibbles == 0 && s.word == 0 && s.digit <= i && |Hex(w)| <= 4
    requires i + |Hex(w)| <= |t| && t[i..i + |Hex(w)|] == Hex(w)
    ensures Parse(t, i, s) == Parse(t, i + |Hex(w)|, s.(nibbles := |Hex(w)|, word := w))
  {
    hide Parse, Digit, HexDigit;
    if w < 16 {
      assert t[i] == Hex(w)[0];
      HexStep(t, i, s, w);
    } else {
      var h := Hex(w / 16);
      assert t[i..i + |h|] == h by { assert h == Hex(w)[..|h|]; }
      HexRead(t, i, s, w / 16);
      assert t[i + |h|] == Hex(w)[|h|];
      HexStep(t, i + |h|, s.(nibbles := |h|, word := w / 16), w % 16);
    }
  }

  lemma DecStep(t: string, i: nat, s: Scan, d: nat)
    requires Going(s) && s.digit <= i < |t| && s.nibbles < 4 && d < 10 && t[i] == '0' + d as char
    ensures Parse(t, i, s) == Parse(t, i + 1, s.(nibbles := s.nibbles + 1, word := s.word * 16 + d))
  {}

  lemma DecLength(b: nat)
    requires b < 256
    ensures |Dec(b)| <= 3
  {
    if b >= 10 {
      var h := b / 10;
      assert h < 26;
      if h >= 10 { assert |Dec(h / 10)| == 1; }
      assert |Dec(h)| <= 2;
    }
  }

  lemma {:induction false} QuadMore(c: char, rest: string, q: Quad)
    ensures QuadFrom([c] + rest, q) == match QuadStep(q, c)
                                       case None => INADDR_NONE
                                       case Some(r) => QuadFrom(rest, r)
  {
    hide QuadStep;
    assert ([c] + rest)[1..] == rest;
  }

  lemma Shorter(x: nat)
    requires x < 0x1_0000_0000_0000_0000
    ensures x % 0x1_0000_0000_0000_0000 == x
  {}

  lemma QuadDigit(rest: string, q: Quad, d: nat)
    requires q.octet < 256 && d < 10
    ensures QuadFrom(['0' + d as char] + rest, q) == QuadFrom(rest, q.(octet := q.octet * 10 + d))
  {
    hide QuadFrom;
    QuadMore('0' + d as char, rest, q);
    Shorter(q.octet * 10 + d);
  }

  lemma QuadDot(rest: string, q: Quad)
    requires q.octet < 256
    ensures QuadFrom("." + rest, q) == QuadFrom(rest, Quad((q.addr * 256 + q.octet) % 0x1_0000_0000, 0, q.n + 1))
  {
    hide QuadFrom;
    QuadMore('.', rest, q);
  }

  ghost function Number(p: seq<byte>): nat
    requires |p| == 16
  {
    var a: nat, b: nat, c: nat, d: nat := p[12], p[13], p[14], p[15];
    ((a * 256 + b) * 256 + c) * 256 + d
  }

  lemma {:induction false} QuadDec(rest: string, q: Quad, b: nat)
    requires q.octet == 0 && b < 256
    ensures QuadFrom(Dec(b) + rest, q) == QuadFrom(rest, q.(octet := b))
    decreases b
  {
    hide QuadFrom;
    if b < 10 {
      QuadDigit(rest, q, b);
    } else {
      var d := '0' + (b % 10) as char;
      assert Dec(b) + rest == Dec(b / 10) + ([d] + rest);
      QuadDec([d] + rest, q, b / 10);
      QuadDigit(rest, q.(octet := b / 10), b % 10);
    }
  }

  lemma Fits(x: nat)
    requires x < 0x1_0000_0000
    ensures x % 0x1_0000_0000 == x
  {}

  lemma QuadNext(rest: string, q: Quad, b: nat)
    requires q.octet == 0 && b < 256 && q.addr * 256 + b < 0x1_0000_0000
    ensures QuadFrom(Dec(b) + ("." + rest), q) == QuadFrom(rest, Quad(q.addr * 256 + b, 0, q.n + 1))
  {
    hide QuadFrom, Dec;
    QuadDec("." + rest, q, b);
    QuadDot(rest, q.(octet := b));
    Fits(q.addr * 256 + b);
  }

  lemma QuadLast(q: Quad, b: nat)
    requires q.octet == 0 && b < 256 && q.n == 3 && q.addr * 256 + b < 0x1_0000_0000
    ensures QuadFrom(Dec(b), q) == q.addr * 256 + b
  {
    hide Dec;
    QuadDec("", q, b);
    assert Dec(b) + "" == Dec(b);
  }

  lemma QuadRead(p: seq<byte>)
    requires |p| == 16
    ensures QuadFrom(Quads(p), Quad(0, 0, 0)) == Number(p)
  {
    hide Dec, QuadFrom;
    var a: nat, b: nat, c: nat, d: nat := p[12], p[13], p[14], p[15];
    var t3 := Dec(d);
    var t2 := Dec(c) + ("." + t3);
    var t1 := Dec(b) + ("." + t2);
    assert Quads(p) == Dec(a) + ("." + t1);
    QuadNext(t1, Quad(0, 0, 0), a);
    QuadNext(t2, Quad(a, 0, 1), b);
    QuadNext(t3, Quad(a * 256 + b, 0, 2), c);
    QuadLast(Quad((a * 256 + b) * 256 + c, 0, 3), d);
  }

  // ---------- words are read back

  /** What is read when word `k` comes next, at position `i` of the text: the words before it but
      for the run of zeros, which "::" stands for. */
  ghost predicate At(s: Scan, i: nat, p: seq<byte>, z: nat, len: nat, k: nat)
    requires |p| == 16 && k <= 8
  {
    && Going(s) && s.nibbles == 0 && s.word == 0 && s.digit <= i && (k > 0 ==> s.digit == i)
    && (k <= z ==> k < 8 && s.zero == -1 && s.out == p[..2 * k] && s.n == 8 - k)
    && (k > z ==> && z + len <= k && s.zero == 2 * z && s.out == p[..2 * z] + p[2 * (z + len)..2 * k]
                  && s.n == 8 - k + len)
  }

  lemma TwoBytes(p: seq<byte>, k: nat)
    requires |p| == 16 && k < 8
    ensures WordBytes(WordAt(p, k)) == p[2 * k..2 * k + 2] && WordAt(p, k) < 65536
  {}

  lemma OutMore(p: seq<byte>, z: nat, len: nat, k: nat)
    requires |p| == 16 && k < 8
    ensures p[..2 * k] + p[2 * k..2 * k + 2] == p[..2 * (k + 1)]
    ensures z + len <= k ==>
              p[..2 * z] + p[2 * (z + len)..2 * k] + p[2 * k..2 * k + 2] == p[..2 * z] + p[2 * (z + len)..2 * (k + 1)]
  {}

  /** A word and the colon after it. */
  lemma WordRead(t: string, i: nat, s: Scan, p: seq<byte>, z: nat, len: nat, k: nat) returns (r: Scan)
    requires |p| == 16 && k < 7 && k != z && At(s, i, p, z, len, k)
    requires var h := Hex(WordAt(p, k)); i + |h| < |t| && t[i..i + |h|] == h && t[i + |h|] == ':'
    ensures At(r, i + |Hex(WordAt(p, k))| + 1, p, z, len, k + 1)
    ensures Parse(t, i, s) == Parse(t, i + |Hex(WordAt(p, k))| + 1, r)
  {
    hide Hex, WordAt, WordBytes;
    var w := WordAt(p, k);
    TwoBytes(p, k);
    HexLength(w);
    HexRead(t, i, s, w);
    var j := i + |Hex(w)|;
    r := Scan(s.out + WordBytes(w), s.zero, j + 1, 0, 0, s.n - 1);
    OutMore(p, z, len, k);
  }

  /** The gap of zeros is the run that "::" stands for. */
  lemma GapIsRun(p: seq<byte>, z: nat, len: nat, k: nat)
    requires |p| == 16 && ZeroRun(p, z, len) && z + len <= k <= 8
    ensures p[..2 * z] + Zeros(2 * len) + p[2 * (z + len)..2 * k] == p[..2 * k]
  {
    forall j | 2 * z <= j < 2 * (z + len) ensures p[j] == 0 {
      assert WordAt(p, j / 2) == 0;
    }
  }

  lemma LastWord(s: Scan, i: nat, p: seq<byte>, z: nat, len: nat, nibbles: nat, w: nat)
    requires |p| == 16 && 7 != z && (z == 8 || (len >= 2 && ZeroRun(p, z, len))) && At(s, i, p, z, len, 7)
    requires 1 <= nibbles <= 4 && WordBytes(w) == p[14..16]
    ensures Finish(s.(nibbles := nibbles, word := w)) == Some(p)
  {
    hide WordBytes;
    var out := s.out + WordBytes(w);
    OutMore(p, z, len, 7);
    assert p[..16] == p;
    if z < 7 {
      GapIsRun(p, z, len, 8);
      assert out == p[..2 * z] + p[2 * (z + len)..16];
      assert out[..2 * z] == p[..2 * z] && out[2 * z..] == p[2 * (z + len)..16];
    }
  }

  /** The last word. */
  lemma LastRead(t: string, i: nat, s: Scan, p: seq<byte>, z: nat, len: nat)
    requires |p| == 16 && 7 != z && (z == 8 || (len >= 2 && ZeroRun(p, z, len))) && At(s, i, p, z, len, 7)
    requires i <= |t| && t[i..] == Hex(WordAt(p, 7))
    ensures Parse(t, i, s) == Some(p)
  {
    hide Hex, WordAt, Finish;
    var w := WordAt(p, 7);
    TwoBytes(p, 7);
    HexLength(w);
    assert t[i..i + |Hex(w)|] == Hex(w);
    HexRead(t, i, s, w);
    LastWord(s, i, p, z, len, |Hex(w)|, w);
  }

  /** A text that ends in "::". */
  lemma EndRead(t: string, s: Scan, p: seq<byte>, z: nat, len: nat)
    requires |p| == 16 && len >= 2 && z + len == 8 && ZeroRun(p, z, len) && At(s, |t|, p, z, len, 8)
    ensures Parse(t, |t|, s) == Some(p)
  {
    var out := s.out + WordBytes(0);
    assert p[16..16] == [];
    assert out == p[..2 * z] + [0, 0];
    assert out[..2 * z] == p[..2 * z] && out[2 * z..] == [0, 0];
    GapIsRun(p, z, len, 8);
    assert p[..16] == p;
    assert Zeros(2 * (len - 1)) + [0, 0] == Zeros(2 * len);
    assert p[..2 * z] + Zeros(2 * (len - 1)) + [0, 0] == p[..2 * z] + (Zeros(2 * (len - 1)) + [0, 0]);
  }

  /** The "::". */
  lemma ZeroRead(t: string, i: nat, s: Scan, p: seq<byte>, z: nat, len: nat) returns (r: Scan)
    requires |p| == 16 && len >= 2 && z + len <= 8 && i < |t| && t[i] == ':' && At(s, i, p, z, len, z)
    ensures At(r, i + 1, p, z, len, z + len) && Parse(t, i, s) == Parse(t, i + 1, r)
  {
    r := s.(zero := |s.out|, digit := i + 1);
    assert p[2 * (z + len)..2 * (z + len)] == [];
  }

  lemma ShownParts(p: seq<byte>, z: nat, len: nat, k: nat)
    requires |p| == 16 && k <= 8 && len >= 1
    ensures k == 8 ==> Shown(p, z, len, k, 8) == ""
    ensures k < 8 && k == z ==> Shown(p, z, len, k, 8) == ":" + Shown(p, z, len, k + len, 8)
    ensures k == 7 && k != z ==> Shown(p, z, len, k, 8) == Hex(WordAt(p, k))
    ensures k < 7 && k != z ==> Shown(p, z, len, k, 8) == Hex(WordAt(p, k)) + ":" + Shown(p, z, len, k + 1, 8)
  {
    hide Hex, WordAt;
    assert Shown(p, z, len, 8, 8) == "";
    if k == 7 && k != z { assert Hex(WordAt(p, k)) + "" + "" == Hex(WordAt(p, k)); }
  }

  /** The words from `k` on are read back. */
  lemma {:induction false} ShownRead(t: string, i: nat, s: Scan, p: seq<byte>, z: nat, len: nat, k: nat)
    requires |p| == 16 && k <= 8 && (z == 8 || (len >= 2 && ZeroRun(p, z, len))) && len >= 1 && At(s, i, p, z, len, k)
    requires i <= |t| && t[i..] == Shown(p, z, len, k, 8) && (k == 8 ==> z + len == 8)
    ensures Parse(t, i, s) == Some(p)
    decreases 8 - k
  {
    hide Hex, WordAt, WordBytes, Parse, Finish, Shown, At;
    ShownParts(p, z, len, k);
    if k == 8 {
      EndRead(t, s, p, z, len);
    } else if k == z {
      var r := ZeroRead(t, i, s, p, z, len);
      assert t[i + 1..] == t[i..][1..];
      ShownRead(t, i + 1, r, p, z, len, k + len);
    } else if k == 7 {
      LastRead(t, i, s, p, z, len);
    } else {
      var h := Hex(WordAt(p, k));
      assert t[i..][..|h|] == h && t[i..][|h|] == ':';
      var r := WordRead(t, i, s, p, z, len, k);
      assert t[i + |h| + 1..] == t[i..][|h| + 1..];
      ShownRead(t, i + |h| + 1, r, p, z, len, k + 1);
    }
  }

  // ---------- an IPv4 tail is read back

  lemma {:induction false} DecRead(t: string, i: nat, s: Scan, b: nat) returns (w: nat)
    requires Going(s) && s.digit <= i && s.nibbles + |Dec(b)| <= 4
    requires i + |Dec(b)| <= |t| && t[i..i + |Dec(b)|] == Dec(b)
    ensures Parse(t, i, s) == Parse(t, i + |Dec(b)|, s.(nibbles := s.nibbles + |Dec(b)|, word := w))
  {
    hide Parse;
    if b < 10 {
      assert t[i] == Dec(b)[0];
      w := s.word * 16 + b;
      DecStep(t, i, s, b);
    } else {
      var h := Dec(b / 10);
      assert t[i..i + |h|] == h by { assert h == Dec(b)[..|h|]; }
      var v := DecRead(t, i, s, b / 10);
      assert t[i + |h|] == Dec(b)[|h|];
      w := v * 16 + b % 10;
      DecStep(t, i + |h|, s.(nibbles := s.nibbles + |h|, word := v), b % 10);
    }
  }

  lemma QuadsStart(p: seq<byte>)
    requires |p| == 16
    ensures var q, d := Quads(p), Dec(p[12]); |q| > |d| && q[..|d|] == d && q[|d|] == '.'
  {}

  lemma WordOf(a: byte, b: byte)
    ensures WordBytes(a * 256 + b) == [a, b]
  {
    DivMod(a * 256 + b, 256, a, b);
  }

  lemma TailBytes(p: seq<byte>)
    requires |p| == 16
    ensures WordBytes(Number(p) / 65536) == p[12..14] && WordBytes(Number(p) % 65536) == p[14..16]
  {
    var a: nat, b: nat, c: nat, d: nat := p[12], p[13], p[14], p[15];
    DivMod(Number(p), 65536, a * 256 + b, c * 256 + d);
    WordOf(a, b);
    WordOf(c, d);
  }

  lemma ZeroFront(p: seq<byte>, len: nat, from: nat)
    requires |p| == 16 && ZeroRun(p, 0, len) && from <= 2 * len <= 16
    ensures Zeros(from) + p[from..] == p
  {
    forall j | 0 <= j < from ensures p[j] == 0 { assert WordAt(p, j / 2) == 0; }
  }

  lemma DottedEnd(s: Scan, i: nat, p: seq<byte>, len: nat, k: nat)
    requires |p| == 16 && 5 <= len <= 7 && k == (if len == 7 then 7 else 6) && ZeroRun(p, 0, len)
    requires At(s.(nibbles := 0, word := 0), i, p, 0, len, k) && 1 <= s.nibbles <= 4
    requires WordBytes(Number(p) / 65536) == p[12..14] && WordBytes(Number(p) % 65536) == p[14..16]
    ensures var e := s.(out := s.out + WordBytes(Number(p) / 65536), word := Number(p) % 65536, n := s.n - 1);
            Going(e) && Finish(e) == Some(p)
  {
    hide WordBytes, Number, ZeroRun, Zeros;
    var out := s.out + p[12..14] + p[14..16];
    assert p[..0] == [];
    var from := if len == 5 then 10 else 12;
    assert s.out == p[2 * len..2 * k];
    if len == 5 {
      assert p[10..12] + p[12..14] + p[14..16] == p[10..];
    } else {
      assert s.out == [] && p[12..14] + p[14..16] == p[12..];
    }
    assert out == p[from..];
    assert out[..0] == [] && out[0..] == out;
    ZeroFront(p, len, from);
    assert 2 * (s.n - 2) == from && s.zero == 0;
    assert [] + Zeros(from) + out == p;
  }

  lemma DottedRead(t: string, i: nat, s: Scan, p: seq<byte>, len: nat, k: nat)
    requires |p| == 16 && 5 <= len <= 7 && k == (if len == 7 then 7 else 6) && ZeroRun(p, 0, len)
    requires At(s, i, p, 0, len, k)
    requires i <= |t| && t[i..] == Quads(p)
    ensures Parse(t, i, s) == if Number(p) == INADDR_NONE then None else Some(p)
  {
    hide Dec, Finish, QuadFrom, Quads;
    QuadRead(p);
    var d := Dec(p[12]);
    QuadsStart(p);
    DecLength(p[12]);
    assert t[i..][..|d|] == d && t[i..][|d|] == '.';
    var w := DecRead(t, i, s, p[12]);
    var j := i + |d|;
    assert t[j] == '.' && t[s.digit..] == Quads(p);
    var a := Number(p);
    if a != INADDR_NONE {
      TailBytes(p);
      DottedEnd(s.(nibbles := |d|, word := w), i, p, len, k);
    }
  }

  // ---------- the round trip

  /** The addresses of which the text ends in 255.255.255.255. */
  predicate AllOnes(p: seq<byte>)
    requires |p| == 16
  {
    && (forall j :: 0 <= j < 10 ==> p[j] == 0)
    && ((p[10] == 0 && p[11] == 0) || (p[10] == 255 && p[11] == 255))
    && p[12] == 255 && p[13] == 255 && p[14] == 255 && p[15] == 255
  }

  lemma NumberNone(p: seq<byte>)
    requires |p| == 16
    ensures Number(p) == INADDR_NONE <==> p[12] == 255 && p[13] == 255 && p[14] == 255 && p[15] == 255
  {}

  /** They are the ones with an IPv4 tail that reads as the error value. */
  lemma OnesAreNone(p: seq<byte>, z: nat, len: nat)
    requires |p| == 16 && Longest(p, 8, z, len)
    ensures AllOnes(p) <==> Dotted(p, z, len) && Number(p) == INADDR_NONE
  {
    NumberNone(p);
    if AllOnes(p) {
      assert forall k: nat :: k < 5 ==> WordAt(p, k) == 0;
      assert ZeroRun(p, 0, 5);
      if p[10] == 0 {
        assert WordAt(p, 5) == 0;
        assert ZeroRun(p, 0, 6);
      }
      assert WordAt(p, 6) != 0 && WordAt(p, 7) != 0;
    }
    if Dotted(p, z, len) {
      forall j | 0 <= j < 2 * len ensures p[j] == 0 { assert WordAt(p, j / 2) == 0; }
    }
  }

  lemma StartAt(p: seq<byte>, z: nat, len: nat, i: nat)
    requires |p| == 16
    ensures At(START, i, p, z, len, 0)
  {}

  lemma {:induction false} HexStart(w: nat)
    ensures Hex(w)[0] != ':'
  {
    if w >= 16 { HexStart(w / 16); }
  }

  lemma ShownStart(p: seq<byte>, z: nat, len: nat)
    requires |p| == 16 && len >= 1 && z != 0
    ensures var t := Shown(p, z, len, 0, 8); t != [] && t[0] != ':'
  {
    HexStart(WordAt(p, 0));
  }

  /** What stands before the IPv4 tail. */
  lemma DottedText(p: seq<byte>, len: nat)
    requires |p| == 16 && 5 <= len <= 7
    ensures Shown(p, 0, len, 0, 6) == if len == 5 then ":" + Hex(WordAt(p, 5)) + ":" else ":"
  {}

  lemma DottedWord(t: string, s: Scan, p: seq<byte>)
    requires |p| == 16 && ZeroRun(p, 0, 5) && |t| >= 2 && At(s, 2, p, 0, 5, 5)
    requires t[2..] == Hex(WordAt(p, 5)) + ":" + Quads(p)
    ensures Parse(t, 2, s) == if Number(p) == INADDR_NONE then None else Some(p)
  {
    hide Quads, Hex, Parse, Number, WordAt, At;
    var h := Hex(WordAt(p, 5));
    assert t[2..][..|h|] == h && t[2..][|h|] == ':';
    var u := WordRead(t, 2, s, p, 0, 5, 5);
    assert t[2 + |h| + 1..] == t[2..][|h| + 1..] == Quads(p);
    DottedRead(t, 2 + |h| + 1, u, p, 5, 6);
  }

  /** A whole text with an IPv4 tail. */
  lemma DottedWhole(t: string, p: seq<byte>, len: nat)
    requires |p| == 16 && 5 <= len <= 7 && ZeroRun(p, 0, len) && |t| > 0
    requires t[1..] == Shown(p, 0, len, 0, 6) + Quads(p)
    ensures Parse(t, 1, START) == if Number(p) == INADDR_NONE then None else Some(p)
  {
    hide Quads, Hex, Parse, Number, WordAt, Shown;
    StartAt(p, 0, len, 1);
    DottedText(p, len);
    assert t[1..][0] == ':';
    var r := ZeroRead(t, 1, START, p, 0, len);
    assert t[2..] == t[1..][1..];
    if len == 5 {
      DottedWord(t, r, p);
    } else {
      assert t[2..] == Quads(p);
      DottedRead(t, 2, r, p, len, len);
    }
  }

  /** Reading the text of an address gives the address, and fails exactly for those. */
  lemma RoundTrip(p: seq<byte>, z: nat, len: nat)
    requires |p| == 16 && Longest(p, 8, z, len) && len >= 1
    ensures Parsed(Printed(p, z, len)) == if AllOnes(p) then None else Some(p)
  {
    hide Shown, Quads, Hex, Parse, Number;
    var t := Printed(p, z, len);
    OnesAreNone(p, z, len);
    if z == 0 {
      if Dotted(p, z, len) {
        assert t[0] == ':' && t[1..] == Shown(p, z, len, 0, 6) + Quads(p);
        DottedWhole(t, p, len);
      } else {
        assert t[0] == ':' && t[1..] == Shown(p, z, len, 0, 8);
        StartAt(p, z, len, 1);
        ShownRead(t, 1, START, p, z, len, 0);
      }
    } else {
      ShownStart(p, z, len);
      assert t == Shown(p, z, len, 0, 8) && t[0..] == t;
      StartAt(p, z, len, 0);
      ShownRead(t, 0, START, p, z, len, 0);
    }
  }

  lemma {:induction false} ShownLength(p: seq<byte>, z: nat, len: nat, k: nat)
    requires |p| == 16 && len >= 1 && k <= 8
    ensures |Shown(p, z, len, k, 8)| <= 5 * (8 - k)
    decreases 8 - k
  {
    hide Hex, WordAt;
    if k < 8 {
      if k == z {
        if k + len <= 8 { ShownLength(p, z, len, k + len); }
      } else {
        TwoBytes(p, k);
        HexLength(WordAt(p, k));
        ShownLength(p, z, len, k + 1);
      }
    }
  }

  /** The text fits the 45 bytes that the printer asks for. */
  lemma TextFits(p: seq<byte>, z: nat, len: nat)
    requires |p| == 16 && Longest(p, 8, z, len) && len >= 1
    ensures |Printed(p, z, len)| <= 45
  {
    hide Hex, WordAt, Shown, Dec;
    if Dotted(p, z, len) {
      DottedText(p, len);
      TwoBytes(p, 5);
      HexLength(WordAt(p, 5));
      DecLength(p[12]);
      DecLength(p[13]);
      DecLength(p[14]);
      DecLength(p[15]);
    } else {
      ShownLength(p, z, len, 0);
    }
  }

  /** The printer and the reader together. */
  method PrintAndRead(p: seq<byte>, addr: array<byte>) returns (ok: bool)
    requires |p| == 16 && addr.Length == 16
    modifies addr
    ensures ok <==> !AllOnes(p)
    ensures ok ==> addr[..] == p
  {
    var text := Ntop(p);
    ghost var z: nat, len: nat :| Longest(p, 8, z, len) && len >= 1 && text == Printed(p, z, len);
    RoundTrip(p, z, len);
    ok := Inet6Addr(text, addr);
  }
}
