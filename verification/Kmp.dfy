/** Substring search after Knuth, Morris and Pratt: the table of longest borders of the prefixes
    of the pattern, and the scan that never goes back in the text.
 */
module Kmp {

  /** The first `b` characters of `s` are also the last ones of its first `j`, and are fewer. */
  ghost predicate Border(s: string, j: nat, b: nat) {
    b < j <= |s| && s[..b] == s[j - b..j]
  }

  ghost predicate LongestBorder(s: string, j: nat, b: nat) {
    Border(s, j, b) && forall c: nat :: Border(s, j, c) ==> c <= b
  }

  /** The table holds -1 for the empty prefix and the longest border of each prefix up to `j`. */
  ghost predicate Table(s: string, next: seq<int>, j: nat) {
    && |next| == |s| && 1 <= j < |s| && next[0] == -1
    && forall k: nat :: 1 <= k <= j ==> next[k] >= 0 && LongestBorder(s, k, next[k])
  }

  // ---------- borders

  /** A border of a border is a border. */
  lemma BorderOfBorder(s: string, j: nat, b: nat, c: nat)
    requires Border(s, j, b) && Border(s, b, c)
    ensures Border(s, j, c)
  {}

  /** The shorter of two borders is a border of the longer one. */
  lemma BorderWithin(s: string, j: nat, b: nat, c: nat)
    requires Border(s, j, b) && Border(s, j, c) && c < b
    ensures Border(s, b, c)
  {}

  /** A border of a longer prefix, without its last character. */
  lemma BorderLess(s: string, j: nat, b: nat)
    requires b >= 1 && j < |s| && Border(s, j + 1, b)
    ensures Border(s, j, b - 1) && s[b - 1] == s[j]
  {
    assert s[..b - 1] == s[..b][..b - 1];
    assert s[j - (b - 1)..j] == s[j + 1 - b..j + 1][..b - 1];
    assert s[..b][b - 1] == s[j + 1 - b..j + 1][b - 1];
  }

  lemma BorderMore(s: string, j: nat, b: nat)
    requires j < |s| && Border(s, j, b) && s[b] == s[j]
    ensures Border(s, j + 1, b + 1)
  {}

  /** Every border of the next prefix extends one of this prefix that is at most `i` long. */
  ghost predicate AtMost(s: string, j: nat, i: nat) {
    var k := j + 1;
    forall b: nat :: Border(s, k, b) && b >= 1 ==> b - 1 <= i
  }

  /** The longest border of a prefix bounds those of the next one. */
  lemma NextAtMost(s: string, j: nat, i: nat)
    requires j < |s| && LongestBorder(s, j, i)
    ensures AtMost(s, j, i)
  {
    var k := j + 1;
    forall b: nat | Border(s, k, b) && b >= 1 ensures b - 1 <= i {
      BorderLess(s, j, b);
    }
  }

  lemma Matched(s: string, j: nat, i: nat)
    requires j + 1 < |s| && Border(s, j, i) && AtMost(s, j, i) && s[i] == s[j]
    ensures LongestBorder(s, j + 1, i + 1) && AtMost(s, j + 1, i + 1)
  {
    BorderMore(s, j, i);
    NextAtMost(s, j + 1, i + 1);
  }

  /** After a mismatch the longest border of the border is next. */
  lemma Mismatched(s: string, j: nat, i: nat, n: nat)
    requires j + 1 < |s| && Border(s, j, i) && AtMost(s, j, i) && s[i] != s[j] && i >= 1 && LongestBorder(s, i, n)
    ensures Border(s, j, n) && AtMost(s, j, n)
  {
    BorderOfBorder(s, j, i, n);
    var k := j + 1;
    forall b: nat | Border(s, k, b) && b >= 1 ensures b - 1 <= n {
      BorderLess(s, j, b);
      if b - 1 < i { BorderWithin(s, j, i, b - 1); }
    }
  }

  lemma MismatchedNone(s: string, j: nat)
    requires j + 1 < |s| && AtMost(s, j, 0) && s[0] != s[j]
    ensures LongestBorder(s, j + 1, 0) && AtMost(s, j + 1, 0)
  {
    var k := j + 1;
    forall b: nat | Border(s, k, b) ensures b == 0 {
      if b >= 1 { BorderLess(s, j, b); }
    }
    assert s[..0] == s[j + 1..j + 1];
    NextAtMost(s, j + 1, 0);
  }

  // ---------- __gen_next__

  lemma LongestIs(s: string, j: nat, b: nat)
    requires LongestBorder(s, j, b)
    ensures Border(s, j, b) && b < j
  {}

  lemma FirstBorder(s: string)
    requires |s| >= 2
    ensures LongestBorder(s, 1, 0) && Border(s, 1, 0) && AtMost(s, 1, 0)
  {}

  method GenNext(s: string, next: array<int>)
    requires |s| >= 2 && next.Length == |s|
    modifies next
    ensures Table(s, next[..], |s| - 1)
  {
    hide LongestBorder, Border, AtMost;
    var n, i, j := |s|, 0, 1;
    next[i] := -1;
    next[j] := 0;
    FirstBorder(s);
    while j < n - 1
      invariant 1 <= j <= n - 1 && 0 <= i < j && Table(s, next[..], j) && Border(s, j, i)
      invariant j < n - 1 ==> AtMost(s, j, i)
      decreases n - j, i
    {
      if s[i] == s[j] {
        Matched(s, j, i);
        BorderMore(s, j, i);
        next[j + 1] := i + 1;
        i := i + 1;
        j := j + 1;
      } else {
        ghost var was := i;
        i := next[i];
        if i == -1 {
          MismatchedNone(s, j);
          i := 0;
          j := j + 1;
          next[j] := 0;
          LongestIs(s, j, 0);
        } else {
          LongestIs(s, was, i);
          Mismatched(s, j, was, i);
        }
      }
    }
  }

  // ---------- kmp

  ghost predicate Occurs(text: string, s: string, at: nat) {
    at + |s| <= |text| && text[at..at + |s|] == s
  }

  /** The first `j` characters of the pattern end at `i`, and it does not occur further to the
      front. */
  ghost predicate Scanned(text: string, s: string, i: nat, j: int) {
    && -1 <= j <= |s| && j <= i <= |text|
    && (j >= 0 ==> text[i - j..i] == s[..j])
    && forall at: nat :: at < i - j ==> !Occurs(text, s, at)
  }

  lemma ScanMatch(text: string, s: string, i: nat, j: int)
    requires Scanned(text, s, i, j) && i < |text| && j < |s| && (j == -1 || text[i] == s[j])
    ensures Scanned(text, s, i + 1, j + 1)
  {}

  /** An occurrence that overlaps the part that matched starts with a border of it. */
  lemma Shifted(text: string, s: string, i: nat, j: nat, at: nat)
    requires i < |text| && j <= i && j < |s| && text[i - j..i] == s[..j] && i - j <= at <= i && Occurs(text, s, at)
    ensures s[i - at] == text[i] && (at > i - j ==> Border(s, j, i - at))
  {}

  lemma NotHere(text: string, s: string, i: nat, j: nat, b: int, at: nat)
    requires Scanned(text, s, i, j) && i < |text| && j < |s| && text[i] != s[j]
    requires if j == 0 then b == -1 else b >= 0 && LongestBorder(s, j, b)
    requires i - j <= at < i - b
    ensures !Occurs(text, s, at)
  {
    if Occurs(text, s, at) { Shifted(text, s, i, j, at); }
  }

  /** Where the text goes on differently, the pattern can only start where a border of the part
      that matched ends. */
  lemma ScanMismatch(text: string, s: string, i: nat, j: nat, b: int)
    requires Scanned(text, s, i, j) && i < |text| && j < |s| && text[i] != s[j]
    requires if j == 0 then b == -1 else b >= 0 && LongestBorder(s, j, b)
    ensures Scanned(text, s, i, b)
  {
    forall at: nat | at < i - b ensures !Occurs(text, s, at) {
      if at >= i - j { NotHere(text, s, i, j, b, at); }
    }
    if b >= 0 {
      assert text[i - b..i] == text[i - j..i][j - b..];
      assert s[j - b..j] == s[..j][j - b..];
    }
  }

  lemma ScanStart(text: string, s: string)
    ensures Scanned(text, s, 0, 0)
  {}

  lemma ScanEnd(text: string, s: string, i: nat, j: int)
    requires Scanned(text, s, i, j) && (i == |text| || j == |s|)
    ensures j == |s| ==> i >= |s| && Occurs(text, s, i - |s|) && forall k: nat :: k < i - |s| ==> !Occurs(text, s, k)
    ensures j < |s| ==> forall k: nat :: !Occurs(text, s, k)
  {}

  /** The place where the pattern first occurs in the text, or -1. */
  method Search(text: string, pattern: string) returns (at: int)
    requires |pattern| >= 2
    ensures at >= 0 ==> Occurs(text, pattern, at) && forall k: nat :: k < at ==> !Occurs(text, pattern, k)
    ensures at < 0 ==> at == -1 && forall k: nat :: !Occurs(text, pattern, k)
  {
    var next := new int[|pattern|];
    GenNext(pattern, next);
    hide Scanned, LongestBorder;
    var i, j := 0, 0;
    ScanStart(text, pattern);
    while i < |text| && j < |pattern|
      invariant 0 <= i <= |text| && -1 <= j <= |pattern| && Scanned(text, pattern, i, j)
      invariant Table(pattern, next[..], |pattern| - 1)
      decreases |text| - i, j
    {
      if j == -1 || text[i] == pattern[j] {
        ScanMatch(text, pattern, i, j);
        i := i + 1;
        j := j + 1;
      } else {
        ScanMismatch(text, pattern, i, j, next[j]);
        if j > 0 { LongestIs(pattern, j, next[j]); }
        j := next[j];
      }
    }
    ScanEnd(text, pattern, i, j);
    if j >= |pattern| {
      at := i - |pattern|;
    } else {
      at := -1;
    }
  }
}
