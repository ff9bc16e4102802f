/** nginx's escaping of URIs by a table of characters for each use, and its unescaping. */
module UriEscape {

  import opened Common

  const PERCENT: byte := 37

  datatype Use = Uri | Args | UriComponent | Html | Refresh | Memcached | MailAuth

  /** A bit for each character to escape, in eight words of 32. */
  function Table(use: Use): (t: seq<nat>)
    ensures |t| == 8
  {
    match use
    case Uri => [0xffffffff, 0x80000029, 0, 0x80000000, 0xffffffff, 0xffffffff, 0xffffffff, 0xffffffff]
    case Args => [0xffffffff, 0x88000869, 0, 0x80000000, 0xffffffff, 0xffffffff, 0xffffffff, 0xffffffff]
    case UriComponent => [0xffffffff, 0xfc009fff, 0x78000001, 0xb8000001, 0xffffffff, 0xffffffff, 0xffffffff,
                          0xffffffff]
    case Html => [0xffffffff, 0x000000ad, 0, 0x80000000, 0xffffffff, 0xffffffff, 0xffffffff, 0xffffffff]
    case Refresh => [0xffffffff, 0x00000085, 0, 0x80000000, 0xffffffff, 0xffffffff, 0xffffffff, 0xffffffff]
    case _ => [0xffffffff, 0x00000021, 0, 0, 0, 0, 0, 0]
  }

  /** `table[c >> 5] & (1 << (c & 0x1f))` */
  predicate Escapes(use: Use, c: byte) {
    Table(use)[c / 32] / Pow2(c % 32) % 2 == 1
  }

  /** All tables but one escape the percent sign. */
  lemma EscapesPercent(use: Use)
    ensures Escapes(use, PERCENT) <==> use != Refresh
  {
    assert Pow2(5) == 32;
    assert PERCENT / 32 == 1 && PERCENT % 32 == 5;
  }

  // ---------- escaping

  /** The value of a hexadecimal digit, or 16. */
  function Hex(c: byte): (v: nat)
    ensures v <= 16
  {
    if 48 <= c <= 57 then c - 48
    else
      var l := if c / 32 % 2 == 0 then c + 32 else c;
      if 97 <= l <= 102 then l - 97 + 10 else 16
  }

  function HexDigit(d: nat): (c: byte)
    requires d < 16
    ensures c != PERCENT && Hex(c) == d
  {
    if d < 10 then 48 + d else 97 + (d - 10)
  }

  function Escape1(use: Use, c: byte): seq<byte> {
    if Escapes(use, c) then [PERCENT, HexDigit(c / 16), HexDigit(c % 16)] else [c]
  }

  ghost function Escaped(use: Use, s: seq<byte>): seq<byte> {
    if s == [] then [] else Escape1(use, s[0]) + Escaped(use, s[1..])
  }

  /** The characters that are escaped. */
  ghost function Count(use: Use, s: seq<byte>): nat {
    if s == [] then 0 else (if Escapes(use, s[0]) then 1 else 0) + Count(use, s[1..])
  }

  /** The text grows by two for each of them. */
  lemma {:induction false} EscapedLength(use: Use, s: seq<byte>)
    ensures |Escaped(use, s)| == |s| + 2 * Count(use, s)
  {
    hide Escapes;
    if s != [] { EscapedLength(use, s[1..]); }
  }

  /** The counting pass. */
  method CountEscapes(use: Use, src: seq<byte>) returns (n: nat)
    ensures n == Count(use, src)
  {
    hide Escapes;
    n := 0;
    var i := 0;
    assert src[0..] == src;
    while i < |src|
      invariant 0 <= i <= |src| && n + Count(use, src[i..]) == Count(use, src)
    {
      assert src[i..][1..] == src[i + 1..];
      if Escapes(use, src[i]) { n := n + 1; }
      i := i + 1;
    }
  }

  lemma EscapedNext(use: Use, src: seq<byte>, i: nat, dst: seq<byte>)
    requires i < |src|
    ensures dst + Escaped(use, src[i..]) == dst + Escape1(use, src[i]) + Escaped(use, src[i + 1..])
  {
    hide Escape1;
    assert src[i..][1..] == src[i + 1..];
  }

  lemma EscapedEnd(use: Use, s: seq<byte>, dst: seq<byte>)
    requires s == []
    ensures dst + Escaped(use, s) == dst
  {}

  lemma Escape1Is(use: Use, c: byte)
    ensures Escape1(use, c) == if Escapes(use, c) then [PERCENT, HexDigit(c / 16), HexDigit(c % 16)] else [c]
  {}

  /** The writing pass: it writes as many bytes as the counting pass says. */
  method EscapeUri(use: Use, src: seq<byte>) returns (dst: seq<byte>)
    ensures dst == Escaped(use, src) && |dst| == |src| + 2 * Count(use, src)
  {
    hide Escapes, Escape1, HexDigit, Escaped;
    dst := [];
    var i := 0;
    assert src[0..] == src;
    while i < |src|
      invariant 0 <= i <= |src| && dst + Escaped(use, src[i..]) == Escaped(use, src)
    {
      EscapedNext(use, src, i, dst);
      Escape1Is(use, src[i]);
      if Escapes(use, src[i]) {
        dst := dst + [PERCENT, HexDigit(src[i] / 16), HexDigit(src[i] % 16)];
      } else {
        dst := dst + [src[i]];
      }
      i := i + 1;
    }
    EscapedEnd(use, src[i..], dst);
    EscapedLength(use, src);
  }

  // ---------- unescaping

  /** A percent sign and two digits stand for a character. A percent sign before anything else is
      dropped, with the digit that may follow it and the character after that. */
  ghost function Unescaped(t: seq<byte>): seq<byte>
    decreases |t|
  {
    if t == [] then []
    else if t[0] != PERCENT then [t[0]] + Unescaped(t[1..])
    else Quoted(t[1..])
  }

  ghost function Quoted(t: seq<byte>): seq<byte>
    decreases |t|
  {
    if t == [] then []
    else if Hex(t[0]) == 16 then [t[0]] + Unescaped(t[1..])
    else QuotedSecond(Hex(t[0]), t[1..])
  }

  ghost function QuotedSecond(d: nat, t: seq<byte>): seq<byte>
    requires d < 16
    decreases |t|
  {
    if t == [] then []
    else if Hex(t[0]) == 16 then Unescaped(t[1..])
    else [d * 16 + Hex(t[0])] + Unescaped(t[1..])
  }

  datatype State = Usual | InQuoted | Second

  ghost function Rest(state: State, decoded: nat, t: seq<byte>): seq<byte>
    requires decoded < 16
  {
    match state
    case Usual => Unescaped(t)
    case InQuoted => Quoted(t)
    case Second => QuotedSecond(decoded, t)
  }

  lemma RestStart(src: seq<byte>)
    ensures [] + Rest(Usual, 0, src) == Unescaped(src)
  {}

  /** What one character adds. */
  lemma RestStep(state: State, decoded: nat, src: seq<byte>, i: nat, dst: seq<byte>)
    requires decoded < 16 && i < |src|
    ensures var ch, t, next := src[i], dst + Rest(state, decoded, src[i..]), src[i + 1..];
            match state
            case Usual => t == if ch == PERCENT then dst + Rest(InQuoted, decoded, next)
                               else dst + [ch] + Rest(Usual, decoded, next)
            case InQuoted => t == if Hex(ch) < 16 then dst + Rest(Second, Hex(ch), next)
                                  else dst + [ch] + Rest(Usual, decoded, next)
            case Second => t == if Hex(ch) < 16 then dst + [decoded * 16 + Hex(ch)] + Rest(Usual, decoded, next)
                                else dst + Rest(Usual, decoded, next)
  {
    hide Hex;
    assert src[i..][0] == src[i] && src[i..][1..] == src[i + 1..];
  }

  lemma RestEnd(state: State, decoded: nat)
    requires decoded < 16
    ensures Rest(state, decoded, []) == []
  {}

  method UnescapeUri(src: seq<byte>) returns (dst: seq<byte>)
    ensures dst == Unescaped(src)
  {
    hide Hex, Rest, Unescaped;
    dst := [];
    RestStart(src);
    var i, state, decoded: nat := 0, Usual, 0;
    assert src[0..] == src;
    while i < |src|
      invariant 0 <= i <= |src| && decoded < 16 && dst + Rest(state, decoded, src[i..]) == Unescaped(src)
    {
      var ch := src[i];
      RestStep(state, decoded, src, i, dst);
      match state {
        case Usual =>
          if ch == PERCENT { state := InQuoted; } else { dst := dst + [ch]; }
        case InQuoted =>
          if Hex(ch) < 16 {
            decoded := Hex(ch);
            state := Second;
          } else {
            state := Usual;
            dst := dst + [ch];
          }
        case Second =>
          state := Usual;
          if Hex(ch) < 16 { dst := dst + [decoded * 16 + Hex(ch)]; }
      }
      i := i + 1;
    }
    RestEnd(state, decoded);
    assert src[i..] == [] && dst + [] == dst;
  }

  // ---------- the round trip

  lemma OneBack(c: byte, rest: seq<byte>)
    ensures Unescaped([PERCENT, HexDigit(c / 16), HexDigit(c % 16)] + rest) == [c] + Unescaped(rest)
  {
    hide Hex;
    var h, l := HexDigit(c / 16), HexDigit(c % 16);
    var t := [PERCENT, h, l] + rest;
    assert t[1..] == [h, l] + rest;
    assert ([h, l] + rest)[1..] == [l] + rest;
    assert ([l] + rest)[1..] == rest;
    assert Unescaped(t) == Quoted([h, l] + rest);
    assert Quoted([h, l] + rest) == QuotedSecond(c / 16, [l] + rest);
  }

  lemma {:induction false} EscapedBack(use: Use, s: seq<byte>)
    requires Escapes(use, PERCENT) || PERCENT !in s
    ensures Unescaped(Escaped(use, s)) == s
  {
    hide Escapes, Hex;
    if s != [] {
      var c, rest := s[0], Escaped(use, s[1..]);
      EscapedBack(use, s[1..]);
      assert [c] + s[1..] == s;
      if Escapes(use, c) {
        OneBack(c, rest);
      } else {
        assert ([c] + rest)[1..] == rest;
      }
    }
  }

  lemma Below(x: nat, y: nat)
    requires x < y
    ensures x / y == 0
  {}

  lemma TopBit(k: nat)
    requires 1 <= k <= 6
    ensures 0x80000000 / Pow2(k) % 2 == 0
  {
    assert Pow2(1) == 2 && Pow2(2) == 4 && Pow2(3) == 8 && Pow2(4) == 16 && Pow2(5) == 32 && Pow2(6) == 64;
    assert k == 1 || k == 2 || k == 3 || k == 4 || k == 5 || k == 6;
  }

  lemma PowAtLeast(n: nat)
    requires n >= 8
    ensures Pow2(n) >= 256
  {
    if n == 8 { assert Pow2(8) == 256; } else { PowAtLeast(n - 1); }
  }

  lemma HexDigitRaw(d: nat)
    requires d < 16
    ensures !Escapes(Refresh, HexDigit(d))
  {
    hide Pow2;
    var c := HexDigit(d);
    if d < 10 {
      assert c / 32 == 1 && c % 32 == 16 + d && Table(Refresh)[1] == 0x85;
      PowAtLeast(c % 32);
      Below(0x85, Pow2(c % 32));
    } else {
      assert c / 32 == 3 && c % 32 == d - 9 && Table(Refresh)[3] == 0x80000000;
      TopBit(c % 32);
    }
  }

  /** The percent sign with two digits after it, which the refresh table lets through. */
  lemma RefreshLoses()
    ensures Unescaped(Escaped(Refresh, [PERCENT, 50, 53])) == [PERCENT]
  {
    hide Escapes;
    var s: seq<byte> := [PERCENT, 50, 53];
    EscapesPercent(Refresh);
    HexDigitRaw(2);
    HexDigitRaw(5);
    assert s[1..] == [50, 53] && s[1..][1..] == [53] && s[1..][1..][1..] == [];
    assert Escaped(Refresh, [53]) == [53];
    assert Escaped(Refresh, [50, 53]) == [50, 53];
    assert Escaped(Refresh, s) == s;
  }

  // ---------- a percent sign that is not escaped

  /** What one character of a text, escaped or not, makes the unescaping write, and where it goes
      on. */
  ghost function Written(state: State, decoded: nat, c: byte): (r: (seq<byte>, State, nat))
    requires decoded < 16
    ensures r.2 < 16
  {
    if Escapes(Refresh, c) then
      match state
      case Usual => ([c], Usual, 0)
      case InQuoted => ([PERCENT, HexDigit(c / 16), HexDigit(c % 16)], Usual, 0)
      case Second => ([HexDigit(c / 16), HexDigit(c % 16)], Usual, 0)
    else
      match state
      case Usual => if c == PERCENT then ([], InQuoted, 0) else ([c], Usual, 0)
      case InQuoted => if Hex(c) == 16 then ([c], Usual, 0) else ([], Second, Hex(c))
      case Second => (if Hex(c) == 16 then [] else [decoded * 16 + Hex(c)], Usual, 0)
  }

  lemma PercentNoHex()
    ensures Hex(PERCENT) == 16
  {}

  lemma WrittenIs(state: State, decoded: nat, c: byte, rest: seq<byte>)
    requires decoded < 16
    ensures var w := Written(state, decoded, c);
            Rest(state, decoded, Escape1(Refresh, c) + rest) == w.0 + Rest(w.1, w.2, rest)
  {
    hide Escapes, Hex;
    if Escapes(Refresh, c) {
      var h, l := HexDigit(c / 16), HexDigit(c % 16);
      var t := [PERCENT, h, l] + rest;
      assert Hex(PERCENT) == 16 by { PercentNoHex(); }
      OneBack(c, rest);
      assert t[1..] == [h, l] + rest && t[1..][1..] == [l] + rest && t[1..][1..][1..] == rest;
      assert Unescaped([l] + rest) == [l] + Unescaped(rest);
      assert Unescaped([h, l] + rest) == [h] + Unescaped([l] + rest);
    } else {
      assert ([c] + rest)[1..] == rest;
    }
  }

  lemma Shifted(out: seq<byte>, t: seq<byte>, owed: seq<byte>, c: byte, u: seq<byte>)
    requires |out| <= |owed| && (out == owed[..|out|] ==> t != owed[|out|..] + [c] + u)
    ensures out + t != owed + ([c] + u)
  {
    var a, b := out + t, owed + ([c] + u);
    assert a[..|out|] == out && a[|out|..] == t;
    assert b[..|out|] == owed[..|out|] && b[|out|..] == owed[|out|..] + [c] + u;
  }

  lemma Unlike(out: seq<byte>, t: seq<byte>, owed: seq<byte>, c: byte, u: seq<byte>)
    requires |owed| < |out| && out[|owed|] != c
    ensures out + t != owed + ([c] + u)
  {
    assert (out + t)[|owed|] == out[|owed|] && (owed + ([c] + u))[|owed|] == c;
  }

  /** What is owed is never made good: a character that is written in place of another one is a
      hexadecimal digit, and those are not escaped. */
  lemma {:induction false} Owed(state: State, decoded: nat, owed: seq<byte>, u: seq<byte>)
    requires decoded < 16 && owed != []
    ensures Rest(state, decoded, Escaped(Refresh, u)) != owed + u
    decreases |u|
  {
    hide Escapes, Hex, Rest;
    if u == [] {
      RestEnd(state, decoded);
    } else {
      var c, rest := u[0], Escaped(Refresh, u[1..]);
      var w := Written(state, decoded, c);
      assert u == [c] + u[1..];
      WrittenIs(state, decoded, c, rest);
      if |w.0| <= |owed| {
        Owed(w.1, w.2, owed[|w.0|..] + [c], u[1..]);
        assert owed[|w.0|..] + [c] + u[1..] == (owed[|w.0|..] + [c]) + u[1..];
        Shifted(w.0, Rest(w.1, w.2, rest), owed, c, u[1..]);
      } else {
        HexDigitRaw(c / 16);
        HexDigitRaw(c % 16);
        Unlike(w.0, Rest(w.1, w.2, rest), owed, c, u[1..]);
      }
    }
  }

  lemma {:induction false} PercentLost(s: seq<byte>)
    requires PERCENT in s
    ensures Unescaped(Escaped(Refresh, s)) != s
  {
    hide Escapes, Hex;
    var c, rest := s[0], Escaped(Refresh, s[1..]);
    assert s == [c] + s[1..];
    WrittenIs(Usual, 0, c, rest);
    EscapesPercent(Refresh);
    if c == PERCENT {
      Owed(InQuoted, 0, [PERCENT], s[1..]);
      assert [] + Quoted(rest) == Quoted(rest);
    } else {
      PercentLost(s[1..]);
      assert Unescaped(Escaped(Refresh, s)) == [c] + Unescaped(rest);
      assert ([c] + Unescaped(rest))[1..] == Unescaped(rest);
    }
  }

  /** Unescaping undoes escaping exactly if the table escapes the percent sign or the text has
      none. */
  lemma RoundTrip(use: Use, s: seq<byte>)
    ensures Unescaped(Escaped(use, s)) == s <==> use != Refresh || PERCENT !in s
  {
    hide Escapes, Unescaped;
    EscapesPercent(use);
    if use != Refresh || PERCENT !in s { EscapedBack(use, s); } else { PercentLost(s); }
  }
}
