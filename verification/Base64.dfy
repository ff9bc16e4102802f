/** nginx's base64 encoder and decoder, section 4 of RFC 4648. */
module Base64 {

  import opened Common

  const PAD: byte := 61

  /** The character of a group of six bits. */
  function Char(v: nat): (c: byte)
    requires v < 64
    ensures c != PAD
  {
    if v < 26 then 65 + v
    else if v < 52 then 97 + (v - 26)
    else if v < 62 then 48 + (v - 52)
    else if v == 62 then 43 else 47
  }

  /** And back; 77 for any other character. */
  function Value(c: byte): (v: nat)
    ensures v < 64 || v == 77
  {
    if 65 <= c <= 90 then c - 65
    else if 97 <= c <= 122 then c - 97 + 26
    else if 48 <= c <= 57 then c - 48 + 52
    else if c == 43 then 62 else if c == 47 then 63 else 77
  }

  lemma ValueOfChar(v: nat)
    requires v < 64
    ensures Value(Char(v)) == v
  {}

  // ---------- groups of 24 bits

  function Group(a: nat, b: nat, c: nat): nat { a * 65536 + b * 256 + c }

  /** Four characters for three bytes, as digits of one number. */
  function Quad(a: byte, b: byte, c: byte): (q: seq<byte>)
    ensures |q| == 4
  {
    var n := Group(a, b, c);
    [Char(n / 262144 % 64), Char(n / 4096 % 64), Char(n / 64 % 64), Char(n % 64)]
  }

  /** The text of a byte string: what is left over is filled up with zero bits, and with "=". */
  function Encoded(s: seq<byte>): (t: seq<byte>)
    decreases |s|
  {
    if |s| == 0 then []
    else if |s| == 1 then Quad(s[0], 0, 0)[..2] + [PAD, PAD]
    else if |s| == 2 then Quad(s[0], s[1], 0)[..3] + [PAD]
    else Quad(s[0], s[1], s[2]) + Encoded(s[3..])
  }

  lemma Digit1(a: nat, b: nat, c: nat)
    requires a < 256 && b < 256 && c < 256
    ensures Group(a, b, c) / 262144 % 64 == a / 4
  {
    DivMod(Group(a, b, c), 262144, a / 4, 65536 * (a % 4) + 256 * b + c);
  }

  lemma Digit2(a: nat, b: nat, c: nat)
    requires a < 256 && b < 256 && c < 256
    ensures Group(a, b, c) / 4096 % 64 == a % 4 * 16 + b / 16
  {
    var q := 16 * a + b / 16;
    DivMod(Group(a, b, c), 4096, q, 256 * (b % 16) + c);
    DivMod(q, 64, a / 4, 16 * (a % 4) + b / 16);
  }

  lemma Digit3(a: nat, b: nat, c: nat)
    requires a < 256 && b < 256 && c < 256
    ensures Group(a, b, c) / 64 % 64 == b % 16 * 4 + c / 64
  {
    var q := 1024 * a + 4 * b + c / 64;
    DivMod(Group(a, b, c), 64, q, c % 64);
    DivMod(q, 64, 16 * a + b / 16, 4 * (b % 16) + c / 64);
  }

  lemma Digit4(a: nat, b: nat, c: nat)
    requires a < 256 && b < 256 && c < 256
    ensures Group(a, b, c) % 64 == c % 64
  {
    DivMod(Group(a, b, c), 64, 1024 * a + 4 * b + c / 64, c % 64);
  }

  /** The shifts and masks of the encoder are the digits of the group. */
  lemma Sextets(a: byte, b: byte, c: byte)
    ensures var n := Group(a, b, c);
            && n / 262144 % 64 == a / 4 && n / 4096 % 64 == a % 4 * 16 + b / 16
            && n / 64 % 64 == b % 16 * 4 + c / 64 && n % 64 == c % 64
  {
    Digit1(a, b, c);
    Digit2(a, b, c);
    Digit3(a, b, c);
    Digit4(a, b, c);
  }

  /** Four characters by shifts and masks. */
  method EncodeGroup(a: byte, b: byte, c: byte) returns (q: seq<byte>)
    ensures q == Quad(a, b, c)
  {
    hide Group, Char;
    Sextets(a, b, c);
    q := [Char(a / 4), Char(a % 4 * 16 + b / 16), Char(b % 16 * 4 + c / 64), Char(c % 64)];
  }

  lemma EncodedStep(dst: seq<byte>, src: seq<byte>, s: nat)
    requires s + 3 <= |src|
    ensures dst + Encoded(src[s..]) == dst + Quad(src[s], src[s + 1], src[s + 2]) + Encoded(src[s + 3..])
  {}

  lemma EncodedEnd(s: seq<byte>)
    ensures |s| == 0 ==> Encoded(s) == []
    ensures |s| == 1 ==> Encoded(s) == Quad(s[0], 0, 0)[..2] + [PAD, PAD]
    ensures |s| == 2 ==> Encoded(s) == Quad(s[0], s[1], 0)[..3] + [PAD]
  {}

  method Encode(src: seq<byte>) returns (dst: seq<byte>)
    ensures dst == Encoded(src)
  {
    hide Group, Char, Quad, Encoded;
    dst := [];
    var s, len := 0, |src|;
    assert src[0..] == src && [] + Encoded(src) == Encoded(src);
    while len > 2
      invariant 0 <= s <= |src| && len == |src| - s && dst + Encoded(src[s..]) == Encoded(src)
    {
      EncodedStep(dst, src, s);
      var q := EncodeGroup(src[s], src[s + 1], src[s + 2]);
      dst := dst + q;
      s, len := s + 3, len - 3;
    }
    EncodedEnd(src[s..]);
    if len > 0 {
      if len == 1 {
        var q := EncodeGroup(src[s], 0, 0);
        dst := dst + (q[..2] + [PAD, PAD]);
      } else {
        var q := EncodeGroup(src[s], src[s + 1], 0);
        dst := dst + (q[..3] + [PAD]);
      }
    } else {
      assert dst + [] == dst;
    }
  }

  // ---------- decoding

  /** The characters before the first "=". */
  function Body(t: seq<byte>): (b: seq<byte>)
    ensures b <= t
  {
    if t == [] || t[0] == PAD then [] else [t[0]] + Body(t[1..])
  }

  ghost predicate Proper(t: seq<byte>) {
    forall i :: 0 <= i < |t| ==> Value(t[i]) < 64
  }

  /** The three bytes of four groups of six bits. */
  function Byte1(v: nat, w: nat): byte { (v * 4 + w / 16) % 256 }
  function Byte2(v: nat, w: nat): byte { (v % 16 * 16 + w / 4) % 256 }
  function Byte3(v: nat, w: nat): byte { (v % 4 * 64 + w) % 256 }

  /** The bytes of a text without padding. */
  function Bytes(t: seq<byte>): seq<byte>
    decreases |t|
  {
    if |t| < 2 then []
    else if |t| == 2 then [Byte1(Value(t[0]), Value(t[1]))]
    else if |t| == 3 then [Byte1(Value(t[0]), Value(t[1])), Byte2(Value(t[1]), Value(t[2]))]
    else
      [Byte1(Value(t[0]), Value(t[1])), Byte2(Value(t[1]), Value(t[2])), Byte3(Value(t[2]), Value(t[3]))]
      + Bytes(t[4..])
  }

  ghost function Decoded(t: seq<byte>): Option<seq<byte>> {
    var b := Body(t);
    if !Proper(b) || |b| % 4 == 1 then None else Some(Bytes(b))
  }

  lemma BytesStep(d: seq<byte>, t: seq<byte>, s: nat)
    requires s + 4 <= |t|
    ensures d + Bytes(t[s..]) ==
              d + [Byte1(Value(t[s]), Value(t[s + 1])), Byte2(Value(t[s + 1]), Value(t[s + 2])),
                   Byte3(Value(t[s + 2]), Value(t[s + 3]))]
              + Bytes(t[s + 4..])
  {}

  lemma BytesEnd(t: seq<byte>)
    ensures |t| < 2 ==> Bytes(t) == []
    ensures |t| == 2 ==> Bytes(t) == [Byte1(Value(t[0]), Value(t[1]))]
    ensures |t| == 3 ==> Bytes(t) == [Byte1(Value(t[0]), Value(t[1]))] + [Byte2(Value(t[1]), Value(t[2]))]
  {}

  method DecodeBody(t: seq<byte>) returns (d: seq<byte>)
    requires Proper(t) && |t| % 4 != 1
    ensures d == Bytes(t)
  {
    hide Value, Byte1, Byte2, Byte3, Bytes, Proper;
    d := [];
    var s, len := 0, |t|;
    assert t[0..] == t && [] + Bytes(t) == Bytes(t);
    while len > 3
      invariant 0 <= s <= |t| && len == |t| - s && d + Bytes(t[s..]) == Bytes(t)
    {
      BytesStep(d, t, s);
      d := d + [Byte1(Value(t[s]), Value(t[s + 1])), Byte2(Value(t[s + 1]), Value(t[s + 2])),
                Byte3(Value(t[s + 2]), Value(t[s + 3]))];
      s, len := s + 4, len - 4;
    }
    BytesEnd(t[s..]);
    if len > 1 { d := d + [Byte1(Value(t[s]), Value(t[s + 1]))]; }
    if len > 2 { d := d + [Byte2(Value(t[s + 1]), Value(t[s + 2]))]; }
  }

  /** Everything before `len` belongs to the text and has a value. */
  ghost predicate ReadTo(src: seq<byte>, len: nat) {
    len <= |src| && Proper(src[..len]) && Body(src) == src[..len] + Body(src[len..])
  }

  lemma ReadNone(src: seq<byte>)
    ensures ReadTo(src, 0)
  {
    assert src[0..] == src && src[..0] + Body(src) == Body(src);
  }

  lemma BodyStep(src: seq<byte>, len: nat)
    requires len < |src| && src[len] != PAD
    ensures src[..len] + Body(src[len..]) == src[..len + 1] + Body(src[len + 1..])
  {}

  lemma ReadMore(src: seq<byte>, len: nat)
    requires ReadTo(src, len) && len < |src| && src[len] != PAD
    ensures Value(src[len]) != 77 ==> ReadTo(src, len + 1)
    ensures Value(src[len]) == 77 ==> Decoded(src) == None
  {
    hide Body;
    BodyStep(src, len);
    if Value(src[len]) == 77 { assert Body(src)[len] == src[len]; }
  }

  lemma BodyNone(t: seq<byte>)
    requires t == [] || t[0] == PAD
    ensures Body(t) == []
  {}

  lemma ReadEnd(src: seq<byte>, len: nat)
    requires ReadTo(src, len) && (len < |src| ==> src[len] == PAD)
    ensures Proper(src[..len]) && Decoded(src) == if len % 4 == 1 then None else Some(Bytes(src[..len]))
  {
    hide Body, Bytes, Proper;
    BodyNone(src[len..]);
    assert src[..len] + [] == src[..len];
  }

  method Decode(src: seq<byte>) returns (dst: Option<seq<byte>>)
    ensures dst == Decoded(src)
  {
    hide Value, Bytes, ReadTo, Decoded, Proper;
    var len := 0;
    ReadNone(src);
    while len < |src| && src[len] != PAD
      invariant 0 <= len <= |src| && ReadTo(src, len)
    {
      ReadMore(src, len);
      if Value(src[len]) == 77 { return None; }
      len := len + 1;
    }
    ReadEnd(src, len);
    if len % 4 == 1 { return None; }
    var d := DecodeBody(src[..len]);
    return Some(d);
  }

  // ---------- the round trip

  /** The values of the four characters. */
  lemma QuadValues(a: byte, b: byte, c: byte)
    ensures var q := Quad(a, b, c);
            Value(q[0]) == a / 4 && Value(q[1]) == a % 4 * 16 + b / 16 && Value(q[2]) == b % 16 * 4 + c / 64
            && Value(q[3]) == c % 64
  {
    hide Char, Value, Group;
    Sextets(a, b, c);
    ValueOfChar(a / 4);
    ValueOfChar(a % 4 * 16 + b / 16);
    ValueOfChar(b % 16 * 4 + c / 64);
    ValueOfChar(c % 64);
  }

  lemma First(a: nat, b: nat)
    requires a < 256 && b < 256
    ensures Byte1(a / 4, a % 4 * 16 + b / 16) == a
  {}

  lemma Second(x: nat, b: nat, c: nat)
    requires x < 4 && b < 256 && c < 256
    ensures Byte2(x * 16 + b / 16, b % 16 * 4 + c / 64) == b
  {
    assert (b % 16 * 4 + c / 64) / 4 == b % 16;
    assert (x * 16 + b / 16) % 16 == b / 16;
  }

  lemma Third(b: nat, c: nat)
    requires b < 256 && c < 256
    ensures Byte3(b % 16 * 4 + c / 64, c % 64) == c
  {
    assert (b % 16 * 4 + c / 64) % 4 == c / 64;
  }

  /** Three bytes out of their four characters. */
  lemma QuadBack(a: byte, b: byte, c: byte)
    ensures var q := Quad(a, b, c);
            Proper(q) && Byte1(Value(q[0]), Value(q[1])) == a && Byte2(Value(q[1]), Value(q[2])) == b
            && Byte3(Value(q[2]), Value(q[3])) == c
  {
    hide Value, Quad, Byte1, Byte2, Byte3;
    QuadValues(a, b, c);
    First(a, b);
    Second(a % 4, b, c);
    Third(b, c);
  }

  lemma EncodedLong(s: seq<byte>)
    requires |s| > 2
    ensures Encoded(s) == Quad(s[0], s[1], s[2]) + Encoded(s[3..])
  {}

  lemma BytesLong(q: seq<byte>, b: seq<byte>)
    requires |q| == 4
    ensures Bytes(q + b) ==
              [Byte1(Value(q[0]), Value(q[1])), Byte2(Value(q[1]), Value(q[2])), Byte3(Value(q[2]), Value(q[3]))]
              + Bytes(b)
  {}

  lemma NoPad(a: byte, b: byte, c: byte)
    ensures forall i :: 0 <= i < 4 ==> Quad(a, b, c)[i] != PAD
  {}

  lemma {:induction false} BodyOf(q: seq<byte>, rest: seq<byte>)
    requires forall i :: 0 <= i < |q| ==> q[i] != PAD
    ensures Body(q + rest) == q + Body(rest)
  {
    if q == [] {
      assert q + rest == rest;
    } else {
      BodyOf(q[1..], rest);
      assert (q + rest)[1..] == q[1..] + rest;
      assert q == [q[0]] + q[1..];
    }
  }

  lemma BodyMore(s: seq<byte>)
    requires |s| > 2
    requires var b := Body(Encoded(s[3..])); Proper(b) && |b| % 4 != 1 && Bytes(b) == s[3..]
    ensures var b := Body(Encoded(s)); Proper(b) && |b| % 4 != 1 && Bytes(b) == s
  {
    hide Value, Quad, Body, Byte1, Byte2, Byte3, Encoded, Bytes;
    var q, rest := Quad(s[0], s[1], s[2]), Encoded(s[3..]);
    QuadBack(s[0], s[1], s[2]);
    NoPad(s[0], s[1], s[2]);
    BodyOf(q, rest);
    var b := Body(rest);
    EncodedLong(s);
    BytesLong(q, b);
    assert [s[0], s[1], s[2]] + s[3..] == s;
    assert |q + b| == |b| + 4;
  }

  /** The text of a byte string without its padding. */
  lemma {:induction false} EncodedBody(s: seq<byte>)
    ensures var b := Body(Encoded(s)); Proper(b) && |b| % 4 != 1 && Bytes(b) == s
    decreases |s|
  {
    hide Value, Quad, Encoded, Byte1, Byte2, Byte3;
    EncodedEnd(s);
    if |s| == 0 {
    } else if |s| == 1 {
      var q := Quad(s[0], 0, 0);
      QuadBack(s[0], 0, 0);
      NoPad(s[0], 0, 0);
      BodyOf(q[..2], [PAD, PAD]);
      assert q[..2] + [] == q[..2];
    } else if |s| == 2 {
      var q := Quad(s[0], s[1], 0);
      QuadBack(s[0], s[1], 0);
      NoPad(s[0], s[1], 0);
      BodyOf(q[..3], [PAD]);
      assert q[..3] + [] == q[..3];
    } else {
      EncodedBody(s[3..]);
      BodyMore(s);
    }
  }

  /** Decoding undoes encoding. */
  lemma RoundTrip(s: seq<byte>)
    ensures Decoded(Encoded(s)) == Some(s)
  {
    EncodedBody(s);
  }
}
