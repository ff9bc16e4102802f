/** nginx's printer and parser of IPv6 addresses: the text form of section 2.2 of RFC 4291,
    with the longest run of zero words as "::" and an IPv4 tail where the prefix has one.
 */
module Inet6 {

  import opened Common

  const INADDR_NONE: nat := 0xFFFF_FFFF

  // ---------- IPv4 text

  /** What is read of an IPv4 address: `n` octets in `addr` and the digits of the next one, all
      in words of the machine. */
  datatype Quad = Quad(addr: nat, octet: nat, n: nat)

  /** One character, or none if it does not belong there. */
  function QuadStep(q: Quad, c: char): Option<Quad> {
    if '0' <= c <= '9' then Some(q.(octet := (q.octet * 10 + (c - '0') as int) % 0x1_0000_0000_0000_0000))
    else if c == '.' && q.octet < 256 then Some(Quad((q.addr * 256 + q.octet) % 0x1_0000_0000, 0, q.n + 1))
    else None
  }

  function QuadEnd(q: Quad): nat {
    if q.n == 3 && q.octet < 256 then (q.addr * 256 + q.octet) % 0x1_0000_0000 else INADDR_NONE
  }

  ghost function QuadFrom(t: string, q: Quad): nat
    decreases |t|
  {
    if t == [] then QuadEnd(q)
    else match QuadStep(q, t[0])
         case None => INADDR_NONE
         case Some(r) => QuadFrom(t[1..], r)
  }

  /** The address in host order that `t` gives, or INADDR_NONE. */
  method InetAddr(t: string) returns (addr: nat)
    ensures addr == QuadFrom(t, Quad(0, 0, 0))
  {
    var q, i := Quad(0, 0, 0), 0;
    while i < |t|
      invariant 0 <= i <= |t| && QuadFrom(t[i..], q) == QuadFrom(t, Quad(0, 0, 0))
    {
      var r := QuadStep(q, t[i]);
      assert t[i..][1..] == t[i + 1..];
      if r.None? { return INADDR_NONE; }
      q := r.value;
      i := i + 1;
    }
    return QuadEnd(q);
  }

  // ---------- IPv6 text

  function WordBytes(w: nat): (b: seq<byte>)
    ensures |b| == 2
  {
    [w / 256 % 256, w % 256]
  }

  /** What is read of an IPv6 address: the bytes so far, where the "::" was (or -1), where the
      current group starts (or -1), its digits and value, and the words still missing. */
  datatype Scan = Scan(out: seq<byte>, zero: int, digit: int, nibbles: nat, word: nat, n: nat)

  /** `c | 0x20` */
  function Lower(c: nat): nat {
    if c / 32 % 2 == 0 then c + 32 else c
  }

  function Digit(c: char): Option<nat> {
    if '0' <= c <= '9' then Some((c - '0') as int)
    else
      var l := Lower(c as int);
      if 97 <= l <= 102 then Some(l - 97 + 10) else None
  }

  function Zeros(n: nat): (z: seq<byte>)
    ensures |z| == n && forall i :: 0 <= i < n ==> z[i] == 0
  {
    seq(n, _ => 0)
  }

  ghost predicate Going(s: Scan) {
    && 1 <= s.n <= 8 && |s.out| == 2 * (8 - s.n) && -1 <= s.zero <= |s.out| && s.digit >= -1
    && s.nibbles <= 4
  }

  /** The address at the end of the text. */
  function Finish(s: Scan): (r: Option<seq<byte>>)
    requires Going(s)
    ensures r.Some? ==> |r.value| == 16
  {
    var out := s.out + WordBytes(s.word);
    if s.nibbles == 0 && s.zero < 0 then None
    else if s.n - 1 > 0 then
      if s.zero >= 0 then Some(out[..s.zero] + Zeros(2 * (s.n - 1)) + out[s.zero..]) else None
    else if s.zero < 0 then Some(out) else None
  }

  /** The address that the text from `i` on gives after what is read. */
  ghost function Parse(t: string, i: nat, s: Scan): Option<seq<byte>>
    requires i <= |t| && Going(s) && s.digit <= i
    decreases |t| - i
  {
    if i == |t| then Finish(s)
    else if t[i] == ':' then
      if s.nibbles > 0 then
        if s.n == 1 then None
        else Parse(t, i + 1, Scan(s.out + WordBytes(s.word), s.zero, i + 1, 0, 0, s.n - 1))
      else if s.zero < 0 then Parse(t, i + 1, s.(zero := |s.out|, digit := i + 1))
      else None
    else if t[i] == '.' && s.nibbles > 0 then
      if s.n < 2 || s.digit < 0 then None
      else
        var a := QuadFrom(t[s.digit..], Quad(0, 0, 0));
        if a == INADDR_NONE then None
        else Finish(s.(out := s.out + WordBytes(a / 65536), word := a % 65536, n := s.n - 1))
    else if s.nibbles == 4 || Digit(t[i]).None? then None
    else Parse(t, i + 1, s.(nibbles := s.nibbles + 1, word := s.word * 16 + Digit(t[i]).value))
  }

  const START: Scan := Scan([], -1, -1, 0, 0, 8)

  ghost function Parsed(t: string): Option<seq<byte>> {
    if t == [] then None
    else if t[0] == ':' then Parse(t, 1, START)
    else Parse(t, 0, START)
  }

  // ---------- ngx_inet6_addr

  /** Moves the bytes from `zero` up to `a` up by `k`, the last first. */
  method MoveUp(addr: array<byte>, zero: nat, a: nat, k: nat)
    requires zero <= a && a + k <= addr.Length
    modifies addr
    ensures forall j :: 0 <= j < zero ==> addr[j] == old(addr[j])
    ensures forall j :: zero + k <= j < a + k ==> addr[j] == old(addr[j - k])
  {
    var s, d := a - 1, a - 1 + k;
    while s >= zero
      invariant zero - 1 <= s < a && d == s + k
      invariant forall j :: 0 <= j <= s ==> addr[j] == old(addr[j])
      invariant forall j :: d < j < a + k ==> addr[j] == old(addr[j - k])
    {
      addr[d] := addr[s];
      s, d := s - 1, d - 1;
    }
  }

  lemma Gap(before: seq<byte>, after: seq<byte>, zero: nat, a: nat, k: nat)
    requires zero <= a && a + k <= |before| == |after|
    requires forall j :: 0 <= j < zero ==> after[j] == before[j]
    requires forall j :: zero <= j < zero + k ==> after[j] == 0
    requires forall j :: zero + k <= j < a + k ==> after[j] == before[j - k]
    ensures after[..a + k] == before[..zero] + Zeros(k) + before[zero..a]
  {}

  /** Opens a gap of `k` zero bytes at `zero` in the first `a` bytes, in place. */
  method Spread(addr: array<byte>, zero: nat, a: nat, k: nat)
    requires zero <= a && a + k <= addr.Length
    modifies addr
    ensures addr[..a + k] == old(addr[..zero]) + Zeros(k) + old(addr[zero..a])
  {
    MoveUp(addr, zero, a, k);
    var z := zero;
    while z < zero + k
      invariant zero <= z <= zero + k
      invariant forall j :: 0 <= j < zero ==> addr[j] == old(addr[j])
      invariant forall j :: zero <= j < z ==> addr[j] == 0
      invariant forall j :: zero + k <= j < a + k ==> addr[j] == old(addr[j - k])
    {
      addr[z] := 0;
      z := z + 1;
    }
    Gap(old(addr[..]), addr[..], zero, a, k);
  }

  /** Writes the two bytes of a word. */
  method PutWord(addr: array<byte>, a: nat, w: nat)
    requires a + 2 <= addr.Length
    modifies addr
    ensures addr[..a + 2] == old(addr[..a]) + WordBytes(w)
  {
    addr[a] := w / 256 % 256;
    addr[a + 1] := w % 256;
  }

  /** The end of the text: the last word, and the gap for "::". */
  method End(addr: array<byte>, a: nat, zero: int, nibbles: nat, word: nat, n: nat, ghost digit: int) returns (ok: bool)
    requires addr.Length == 16 && Going(Scan(addr[..if a <= 16 then a else 16], zero, digit, nibbles, word, n))
    requires a <= 16
    modifies addr
    ensures var r := Finish(Scan(old(addr[..a]), zero, digit, nibbles, word, n));
            (ok <==> r.Some?) && (ok ==> addr[..] == r.value)
  {
    if nibbles == 0 && zero < 0 { return false; }
    PutWord(addr, a, word);
    if n - 1 > 0 {
      if zero < 0 { return false; }
      ghost var out := addr[..a + 2];
      Spread(addr, zero, a + 2, 2 * (n - 1));
      assert addr[..16] == addr[..];
      return true;
    }
    assert addr[..16] == addr[..];
    return zero < 0;
  }

  /** Reads an address; what it leaves in `addr` after an error has no meaning. */
  method Inet6Addr(t: string, addr: array<byte>) returns (ok: bool)
    requires addr.Length == 16
    modifies addr
    ensures ok <==> Parsed(t).Some?
    ensures ok ==> addr[..] == Parsed(t).value
  {
    hide Finish, WordBytes, Digit, QuadFrom;
    if t == [] { return false; }
    var i, a, zero, digit, nibbles, word, n := 0, 0, -1, -1, 0, 0, 8;
    if t[0] == ':' { i := 1; }
    while i < |t|
      invariant 0 <= i <= |t| && 0 <= a <= 16 && n >= 1 && nibbles >= 0 && word >= 0
      invariant Going(Scan(addr[..a], zero, digit, nibbles, word, n)) && digit <= i
      invariant Parse(t, i, Scan(addr[..a], zero, digit, nibbles, word, n)) == Parsed(t)
    {
      var c := t[i];
      if c == ':' {
        if nibbles > 0 {
          if n == 1 { return false; }
          PutWord(addr, a, word);
          a, digit, nibbles, word, n := a + 2, i + 1, 0, 0, n - 1;
        } else {
          if zero >= 0 { return false; }
          zero, digit := a, i + 1;
        }
      } else if c == '.' && nibbles > 0 {
        if n < 2 || digit < 0 { return false; }
        var quad := InetAddr(t[digit..]);
        if quad == INADDR_NONE { return false; }
        PutWord(addr, a, quad / 65536);
        ok := End(addr, a + 2, zero, nibbles, quad % 65536, n - 1, digit);
        return;
      } else {
        var d := Digit(c);
        if nibbles == 4 || d.None? { return false; }
        nibbles, word := nibbles + 1, word * 16 + d.value;
      }
      i := i + 1;
    }
    ok := End(addr, a, zero, nibbles, word, n, digit);
  }

  // ---------- the words of an address and their longest run of zeros

  function WordAt(p: seq<byte>, k: nat): nat
    requires |p| == 16 && k < 8
  {
    var high: nat, low: nat := p[2 * k], p[2 * k + 1];
    high * 256 + low
  }

  ghost predicate ZeroRun(p: seq<byte>, z: nat, len: nat)
    requires |p| == 16
  {
    z + len <= 8 && forall k :: z <= k < z + len ==> WordAt(p, k) == 0
  }

  /** Among the runs of two or more zero words before `hi`, the one of `len` words at `z` is the
      first of the longest; `z` is 8 if there is none. */
  ghost predicate Longest(p: seq<byte>, hi: nat, z: nat, len: nat)
    requires |p| == 16
  {
    && (z == 8 ==> len == 1)
    && (z != 8 ==> len >= 2 && z + len <= hi && ZeroRun(p, z, len))
    && (forall s: nat, l: nat :: l >= 2 && s + l <= hi && ZeroRun(p, s, l) ==>
          z != 8 && (l < len || (l == len && z <= s)))
  }

  lemma WordZero(p: seq<byte>, k: nat)
    requires |p| == 16 && k < 8
    ensures WordAt(p, k) == 0 <==> p[2 * k] == 0 && p[2 * k + 1] == 0
  {}

  lemma LongestOne(p: seq<byte>, z: nat, len: nat)
    requires |p| == 16 && Longest(p, 8, z, len)
    ensures len >= 1
  {}

  lemma LongestMore(p: seq<byte>, i: nat, n: nat, z: nat, len: nat)
    requires |p| == 16 && n <= i <= 8 && Longest(p, i - n, z, len) && ZeroRun(p, i - n, n)
    requires i - n > 0 ==> WordAt(p, i - n - 1) != 0
    ensures Longest(p, i, if len < n then i - n else z, if len < n then n else len)
  {}

  lemma LongestPast(p: seq<byte>, i: nat, z: nat, len: nat)
    requires |p| == 16 && i < 8 && Longest(p, i, z, len) && WordAt(p, i) != 0
    ensures Longest(p, i + 1, z, len)
  {}

  lemma LongestNone(p: seq<byte>)
    requires |p| == 16
    ensures Longest(p, 0, 8, 1) && forall i: nat :: i <= 8 ==> ZeroRun(p, i, 0)
  {}

  lemma RunMore(p: seq<byte>, z: nat, n: nat)
    requires |p| == 16 && ZeroRun(p, z, n) && z + n < 8 && WordAt(p, z + n) == 0
    ensures ZeroRun(p, z, n + 1)
  {}

  method FindZeros(p: seq<byte>) returns (zero: nat, max: nat)
    requires |p| == 16
    ensures Longest(p, 8, zero, max)
  {
    hide Longest, ZeroRun, WordAt;
    LongestNone(p);
    var last, n, i := 8, 0, 0;
    zero, max := 8, 1;
    while i < 16
      invariant 0 <= i <= 16 && i % 2 == 0 && 0 <= n <= i / 2
      invariant Longest(p, i / 2 - n, zero, max) && ZeroRun(p, i / 2 - n, n)
      invariant i / 2 - n > 0 ==> WordAt(p, i / 2 - n - 1) != 0
      invariant n > 0 ==> last == i / 2 - n
    {
      WordZero(p, i / 2);
      if p[i] != 0 || p[i + 1] != 0 {
        LongestMore(p, i / 2, n, zero, max);
        if max < n {
          zero, max := last, n;
        }
        LongestPast(p, i / 2, zero, max);
        n := 0;
      } else {
        RunMore(p, i / 2 - n, n);
        if n == 0 { last := i / 2; }
        n := n + 1;
      }
      i := i + 2;
    }
    LongestMore(p, 8, n, zero, max);
    if max < n {
      zero, max := last, n;
    }
  }

  // ---------- numbers in text

  function HexDigit(d: nat): (c: char)
    requires d < 16
    ensures Digit(c) == Some(d) && c != ':' && c != '.'
  {
    if d < 10 then '0' + d as char else 'a' + (d - 10) as char
  }

  /** A number in hexadecimal, without leading zeros. */
  function Hex(w: nat): (h: string)
    ensures |h| >= 1
  {
    if w < 16 then [HexDigit(w)] else Hex(w / 16) + [HexDigit(w % 16)]
  }

  function Pow16(n: nat): nat {
    if n == 0 then 1 else 16 * Pow16(n - 1)
  }

  lemma {:induction false} HexUp(w: nat, n: nat)
    requires n > 0 && w < Pow16(n)
    ensures |Hex(w)| <= n
  {
    if w >= 16 { HexUp(w / 16, n - 1); }
  }

  lemma HexLength(w: nat)
    requires w < 65536
    ensures |Hex(w)| <= 4
  {
    HexUp(w, 4);
  }

  /** A byte in decimal. */
  function Dec(b: nat): (d: string)
    ensures |d| >= 1
  {
    if b < 10 then ['0' + b as char] else Dec(b / 10) + ['0' + (b % 10) as char]
  }

  // ---------- ngx_inet6_ntop

  /** Whether the last four bytes are shown as an IPv4 address. */
  predicate Dotted(p: seq<byte>, zero: nat, max: nat)
    requires |p| == 16
  {
    zero == 0 && ((max == 5 && p[10] == 0xff && p[11] == 0xff) || max == 6 || (max == 7 && p[14] != 0 && p[15] != 1))
  }

  /** The words from `k` up to `lim`, with ":" for the run of zeros. */
  function Shown(p: seq<byte>, zero: nat, max: nat, k: nat, lim: nat): string
    requires |p| == 16 && lim <= 8 && max >= 1
    decreases 8 - k
  {
    if k >= lim then ""
    else if k == zero then ":" + Shown(p, zero, max, k + max, lim)
    else Hex(WordAt(p, k)) + (if k < 7 then ":" else "") + Shown(p, zero, max, k + 1, lim)
  }

  function Quads(p: seq<byte>): string
    requires |p| == 16
  {
    Dec(p[12]) + "." + Dec(p[13]) + "." + Dec(p[14]) + "." + Dec(p[15])
  }

  function Printed(p: seq<byte>, zero: nat, max: nat): string
    requires |p| == 16 && max >= 1
  {
    (if zero == 0 then ":" else "")
    + (if Dotted(p, zero, max) then Shown(p, zero, max, 0, 6) + Quads(p) else Shown(p, zero, max, 0, 8))
  }

  lemma PrintedIs(p: seq<byte>, zero: nat, max: nat)
    requires |p| == 16 && max >= 1
    ensures var lead := if zero == 0 then ":" else "";
            && (Dotted(p, zero, max) ==> lead + Shown(p, zero, max, 0, 6) + Quads(p) == Printed(p, zero, max))
            && (!Dotted(p, zero, max) ==> lead + Shown(p, zero, max, 0, 8) == Printed(p, zero, max))
  {
    hide Shown, Quads, Dotted;
  }

  lemma ShownNext(p: seq<byte>, zero: nat, max: nat, k: nat, lim: nat, text: string)
    requires |p| == 16 && lim <= 8 && max >= 1 && k < lim
    ensures k == zero ==> text + Shown(p, zero, max, k, lim) == (text + ":") + Shown(p, zero, max, k + max, lim)
    ensures k != zero && k < 7 ==>
              text + Shown(p, zero, max, k, lim) == (text + Hex(WordAt(p, k)) + ":") + Shown(p, zero, max, k + 1, lim)
    ensures k != zero && k == 7 ==>
              text + Shown(p, zero, max, k, lim) == (text + Hex(WordAt(p, k))) + Shown(p, zero, max, k + 1, lim)
  {}

  lemma ShownEnd(p: seq<byte>, zero: nat, max: nat, k: nat, lim: nat)
    requires |p| == 16 && lim <= 8 && max >= 1 && k >= lim
    ensures Shown(p, zero, max, k, lim) == ""
  {}

  /** Appends the words before byte `n` to `text`. */
  method PrintWords(p: seq<byte>, z: nat, m: nat, n: nat, lead: string) returns (text: string)
    requires |p| == 16 && m >= 1 && (n == 12 || n == 16)
    ensures text == lead + Shown(p, z, m, 0, n / 2)
  {
    hide Hex, WordAt, Shown;
    text := lead;
    var i: int := 0;
    while i < n
      invariant i % 2 == 0 && 0 <= i
      invariant text + Shown(p, z, m, i / 2, n / 2) == lead + Shown(p, z, m, 0, n / 2)
      decreases 16 - i
    {
      ShownNext(p, z, m, i / 2, n / 2, text);
      if i / 2 == z {
        text := text + ":";
        i := i + (m - 1) * 2;
      } else {
        text := text + Hex(WordAt(p, i / 2));
        if i < 14 { text := text + ":"; }
      }
      i := i + 2;
    }
    ShownEnd(p, z, m, i / 2, n / 2);
  }

  /** Prints the address with its first longest run of zero words shortened. */
  method Ntop(p: seq<byte>) returns (text: string)
    requires |p| == 16
    ensures exists zero: nat, max: nat :: Longest(p, 8, zero, max) && max >= 1 && text == Printed(p, zero, max)
  {
    hide Longest, Shown, Quads, Printed;
    var z, m := FindZeros(p);
    LongestOne(p, z, m);
    PrintedIs(p, z, m);
    var n := 16;
    text := "";
    if z == 0 {
      if (m == 5 && p[10] == 0xff && p[11] == 0xff) || m == 6 || (m == 7 && p[14] != 0 && p[15] != 1) {
        n := 12;
      }
      text := ":";
    }
    text := PrintWords(p, z, m, n, text);
    if n == 12 {
      text := text + Quads(p);
    }
  }
}
