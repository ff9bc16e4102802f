/** nginx's hash of DNS names with a leading wildcard. The patterns "*.S" and ".S" are
    stored by their labels in reverse order, as "..S." and "..S", in a tree of hashes with
    one hash for each level of labels; a name is looked up from its last label.
 */
module HashWildcard {

  import opened Common

  /** A data pointer that is not NULL and whose two low bits are clear. */
  type Ptr = n: nat | n > 0 && n % 4 == 0 witness 4

  /** ngx_hash_key_t */
  datatype Name = Name(key: string, value: Ptr)

  /** ngx_hash_wildcard_t */
  datatype Wildcard = Wildcard(hash: seq<Slot>, value: Option<Ptr>)

  datatype Slot = Slot(name: string, entry: Entry)

  /** A hash value by its two low bits: 00 and 01 are data, 10 and 11 a further hash.
      With the lowest bit set it stands for "*.example.com" only. */
  datatype Entry = Data(value: Ptr, only: bool) | Table(sub: Wildcard, only: bool)

  /** ngx_hash_find: the first element with that name */
  function Lookup(hash: seq<Slot>, name: string): Option<Entry> {
    if hash == [] then None
    else if hash[0].name == name then Some(hash[0].entry)
    else Lookup(hash[1..], name)
  }

  // ---------- labels

  predicate NoDot(s: string) { forall i :: 0 <= i < |s| ==> s[i] != '.' }

  /** Where the first dot stands, or the length if there is none. */
  function FirstDot(s: string): (n: nat)
    ensures n <= |s| && (n < |s| ==> s[n] == '.')
    ensures forall i :: 0 <= i < n ==> s[i] != '.'
  {
    if s == [] then 0 else if s[0] == '.' then 0 else 1 + FirstDot(s[1..])
  }

  /** Where the last label starts. */
  function LastLabel(s: string): (n: nat)
    ensures n <= |s| && (n > 0 ==> s[n - 1] == '.')
    ensures forall i :: n <= i < |s| ==> s[i] != '.'
  {
    if s == [] then 0 else if s[|s| - 1] == '.' then |s| else LastLabel(s[..|s| - 1])
  }

  /** The labels of a name in reverse order. */
  function Reverse(s: string): string {
    var n := LastLabel(s);
    if n == 0 then s else s[n..] + "." + Reverse(s[..n - 1])
  }

  // ---------- lookup

  /** ngx_hash_find_wc_head */
  function FindHead(w: Wildcard, name: string): Option<Ptr>
    decreases |name|
  {
    var n := LastLabel(name);
    match Lookup(w.hash, name[n..])
    case None => w.value
    case Some(Table(sub, only)) =>
      if n == 0 then (if only then None else sub.value)
      else
        var value := FindHead(sub, name[..n - 1]);
        if value.Some? then value else sub.value
    case Some(Data(value, only)) => if only && n == 0 then None else Some(value)
  }

  /** The same lookup on a name whose labels are already reversed. */
  function FindReversed(w: Wildcard, r: string): Option<Ptr>
    decreases |r|
  {
    var n := FirstDot(r);
    match Lookup(w.hash, r[..n])
    case None => w.value
    case Some(Table(sub, only)) =>
      if n == |r| then (if only then None else sub.value)
      else
        var value := FindReversed(sub, r[n + 1..]);
        if value.Some? then value else sub.value
    case Some(Data(value, only)) => if only && n == |r| then None else Some(value)
  }

  // ---------- what a lookup means

  /** A key that ends in a dot stands for "*.S", another for ".S". */
  predicate Covers(key: string, r: string) {
    if key != "" && key[|key| - 1] == '.' then key <= r else r == key || key + "." <= r
  }

  /** The linear scan: the longest key that covers the name. */
  function Scan(names: seq<Name>, r: string): (o: Option<Name>)
    ensures o.Some? ==> o.value in names && Covers(o.value.key, r)
    ensures forall x :: x in names && Covers(x.key, r) ==> o.Some? && |x.key| <= |o.value.key|
  {
    if names == [] then None
    else
      var rest, x := Scan(names[..|names| - 1], r), names[|names| - 1];
      assert names == names[..|names| - 1] + [x];
      if Covers(x.key, r) && (rest.Some? ==> |rest.value.key| < |x.key|) then Some(x) else rest
  }

  // ---------- order

  function Rank(c: char): int { if c == '.' then 32 else c as int }

  /** ngx_dns_strcmp on lower-case names: a dot is the lowest character. */
  predicate LessAt(s: string, t: string, k: nat) {
    && k <= |s| && k < |t| && (forall i :: 0 <= i < k ==> s[i] == t[i])
    && (k < |s| ==> s[k] != t[k] && Rank(s[k]) < Rank(t[k]))
  }

  ghost predicate DnsLess(s: string, t: string) { exists k: nat :: LessAt(s, t, k) }

  predicate GoodChars(s: string) { forall i :: 0 <= i < |s| ==> s[i] == '.' || s[i] as int > 32 }

  /** Sorted as by ngx_dns_strcmp, of good characters, and without conflicts: no two names
      for the same labels. */
  ghost predicate Good(names: seq<Name>) {
    && (forall i :: 0 <= i < |names| ==> names[i].key != "" && GoodChars(names[i].key))
    && (forall i, j :: 0 <= i < j < |names| ==> DnsLess(names[i].key, names[j].key))
    && (forall i, j :: 0 <= i < |names| && 0 <= j < |names| ==> names[j].key != names[i].key + ".")
  }

  /** Names whose first label is `a`. */
  predicate InGroup(a: string, s: string) { s == a || a + "." <= s }

  lemma LessAsym(s: string, t: string)
    requires DnsLess(s, t)
    ensures !DnsLess(t, s) && s != t
  {
  }

  lemma GroupPrefix(a: string, s: string)
    requires InGroup(a, s)
    ensures |a| <= |s| && forall i :: 0 <= i < |a| ==> s[i] == a[i]
    ensures |s| > |a| ==> s[|a|] == '.'
  {
    if s != a {
      assert forall i :: 0 <= i < |a + "."| ==> s[i] == (a + ".")[i];
    }
  }

  /** The names of one first label stand next to each other. */
  lemma GroupsContiguous(a: string, s: string, t: string, u: string)
    requires InGroup(a, s) && InGroup(a, u) && DnsLess(s, t) && DnsLess(t, u) && GoodChars(t)
    ensures InGroup(a, t)
  {
    GroupPrefix(a, s);
    GroupPrefix(a, u);
    var k: nat :| LessAt(s, t, k);
    var m: nat :| LessAt(t, u, m);
    assert |a| <= k && |t| > |a| && t[|a|] == '.';
    assert t[..|a| + 1] == a + ".";
  }

  // ---------- one group of names

  /** The key behind its first label. */
  function Rest(a: string, key: string): string
    requires a + "." <= key
  {
    key[|a| + 1..]
  }

  lemma RestKey(a: string, key: string)
    requires a + "." <= key
    ensures key == a + "." + Rest(a, key)
  {
  }

  lemma LessRest(a: string, s: string, t: string)
    requires a + "." <= s && a + "." <= t && DnsLess(s, t)
    ensures DnsLess(Rest(a, s), Rest(a, t))
  {
    var k: nat :| LessAt(s, t, k);
    assert forall i :: 0 <= i <= |a| ==> s[i] == (a + ".")[i] == t[i];
    assert k > |a|;
    assert LessAt(Rest(a, s), Rest(a, t), k - |a| - 1);
  }

  lemma PrefixRest(p: string, t: string, u: string)
    ensures p + t <= p + u <==> t <= u
    ensures p + t == p + u <==> t == u
  {
    if p + t <= p + u {
      assert t == (p + u)[|p|..|p + t|] == u[..|t|];
    }
    if p + t == p + u {
      assert t == (p + t)[|p|..] == (p + u)[|p|..] == u;
    }
  }

  lemma CoversRest(a: string, key: string, r: string)
    requires a + "." <= key && Rest(a, key) != "" && a + "." <= r
    ensures Covers(key, r) <==> Covers(Rest(a, key), Rest(a, r))
  {
    var t, u := Rest(a, key), Rest(a, r);
    RestKey(a, key);
    RestKey(a, r);
    assert t[|t| - 1] == key[|key| - 1];
    PrefixRest(a + ".", t, u);
    PrefixRest(a + ".", t + ".", u);
    assert key + "." == a + "." + (t + ".");
  }

  /** The names of the group behind the first label, without the one that ends there. */
  function Rests(a: string, group: seq<Name>): seq<Name>
    requires forall j :: 0 <= j < |group| ==> a + "." <= group[j].key
  {
    seq(|group|, j requires 0 <= j < |group| => Name(Rest(a, group[j].key), group[j].value))
  }

  lemma RestsGood(a: string, group: seq<Name>)
    requires Good(group)
    requires forall j :: 0 <= j < |group| ==> a + "." <= group[j].key && Rest(a, group[j].key) != ""
    ensures Good(Rests(a, group))
  {
    var rs := Rests(a, group);
    forall i, j | 0 <= i < j < |rs| ensures DnsLess(rs[i].key, rs[j].key) {
      LessRest(a, group[i].key, group[j].key);
    }
    forall i, j | 0 <= i < |rs| && 0 <= j < |rs| ensures rs[j].key != rs[i].key + "." {
      RestKey(a, group[i].key);
      RestKey(a, group[j].key);
      assert a + "." + (rs[i].key + ".") == group[i].key + ".";
    }
  }

  // ---------- the scan

  /** A key that covers a name is a prefix of it. */
  lemma CoverPrefix(key: string, r: string)
    requires Covers(key, r)
    ensures key <= r
  {
    if key + "." <= r { assert key == r[..|key + "."|][..|key|]; }
  }

  lemma SameKey(names: seq<Name>, x: Name, y: Name)
    requires Good(names) && x in names && y in names && x.key == y.key
    ensures x == y
  {
    var i :| 0 <= i < |names| && names[i] == x;
    var j :| 0 <= j < |names| && names[j] == y;
    if i < j { LessAsym(names[i].key, names[j].key); }
    if j < i { LessAsym(names[j].key, names[i].key); }
  }

  lemma ScanIs(names: seq<Name>, r: string, x: Name)
    requires Good(names) && x in names && Covers(x.key, r)
    requires forall y :: y in names && Covers(y.key, r) ==> |y.key| <= |x.key|
    ensures Scan(names, r) == Some(x)
  {
    var o := Scan(names, r);
    CoverPrefix(x.key, r);
    CoverPrefix(o.value.key, r);
    assert x.key == r[..|x.key|] == o.value.key;
    SameKey(names, x, o.value);
  }

  lemma {:induction false} ScanCat(p: seq<Name>, g: seq<Name>, r: string)
    ensures (forall x :: x in p ==> !Covers(x.key, r)) ==> Scan(p + g, r) == Scan(g, r)
    ensures (forall x :: x in g ==> !Covers(x.key, r)) ==> Scan(p + g, r) == Scan(p, r)
    decreases |g|
  {
    if g == [] {
      assert p + g == p;
    } else {
      var g', x := g[..|g| - 1], g[|g| - 1];
      ScanCat(p, g', r);
      assert (p + g)[..|p + g| - 1] == p + g';
      assert forall y :: y in g' ==> y in g;
      assert x in g;
    }
  }

  /** A key covers only names with the same first label. */
  lemma CoverGroup(a: string, key: string, r: string)
    requires InGroup(a, r) && key != "" && Covers(key, r) && NoDot(a)
    ensures InGroup(a, key)
  {
    GroupPrefix(a, r);
    CoverPrefix(key, r);
    assert forall i :: 0 <= i < |key| ==> key[i] == r[i];
    assert forall i :: 0 <= i < |a| ==> r[i] != '.';
    if key[|key| - 1] == '.' {
      assert key[..|a| + 1] == a + ".";
    } else if key + "." <= r {
      assert r[|key|] == (key + ".")[|key|];
      if |key| == |a| { assert key == a; } else { assert key[..|a| + 1] == a + "."; }
    }
  }

  lemma OneGroup(a: string, b: string, key: string)
    requires InGroup(a, key) && InGroup(b, key)
    requires NoDot(a) && NoDot(b)
    ensures a == b
  {
    GroupPrefix(a, key);
    GroupPrefix(b, key);
    assert |a| == |b|;
  }

  lemma FirstLabel(r: string)
    ensures var a := r[..FirstDot(r)]; InGroup(a, r) && NoDot(a)
  {
    var n := FirstDot(r);
    if n < |r| { assert r[..n + 1] == r[..n] + "."; } else { assert r[..n] == r; }
  }

  // ---------- what a hash answers

  /** The hash built for `names`, with the wildcard value `val` at its level, answers for the
      name `r` as the scan does; where nothing matches it may fall back on `val`. */
  ghost predicate Answers(hash: seq<Slot>, names: seq<Name>, r: string, val: Option<Ptr>) {
    var found := FindReversed(Wildcard(hash, val), r);
    match Scan(names, r)
    case Some(x) => found == Some(x.value)
    case None => found.None? || found == val
  }

  /** What FindReversed does once it has found the entry of the first label. */
  function Through(e: Entry, r: string): Option<Ptr> {
    var n := FirstDot(r);
    match e
    case Table(sub, only) =>
      if n == |r| then (if only then None else sub.value)
      else
        var value := FindReversed(sub, r[n + 1..]);
        if value.Some? then value else sub.value
    case Data(value, only) => if only && n == |r| then None else Some(value)
  }

  /** The group's first name ends with its first label. */
  predicate Own(a: string, key: string) { key == a || key == a + "." }

  ghost predicate GroupOf(a: string, g: seq<Name>) {
    && Good(g) && g != [] && NoDot(a) && InGroup(a, g[0].key)
    && (forall j :: 0 < j < |g| ==> a + "." <= g[j].key && Rest(a, g[j].key) != "")
  }

  ghost function Deeper(a: string, g: seq<Name>): seq<Name>
    requires GroupOf(a, g)
  {
    if Own(a, g[0].key) then Rests(a, g[1..]) else Rests(a, g)
  }

  /** The entry for a group, given the hash for its deeper names. */
  ghost function GroupEntry(a: string, g: seq<Name>, sub: seq<Slot>): Entry
    requires GroupOf(a, g)
  {
    var key, value := g[0].key, g[0].value;
    if Deeper(a, g) != []
    then Table(Wildcard(sub, if Own(a, key) then Some(value) else None), key != a)
    else Data(value, key != a)
  }

  lemma RestsMember(a: string, group: seq<Name>, j: nat)
    requires (forall i :: 0 <= i < |group| ==> a + "." <= group[i].key) && j < |group|
    ensures Name(Rest(a, group[j].key), group[j].value) in Rests(a, group)
  {
    assert Rests(a, group)[j] == Name(Rest(a, group[j].key), group[j].value);
  }

  lemma DeeperMember(a: string, g: seq<Name>, x: Name)
    requires GroupOf(a, g) && x in g && !Own(a, x.key)
    ensures a + "." <= x.key && Name(Rest(a, x.key), x.value) in Deeper(a, g) && Rest(a, x.key) != ""
  {
    hide Good, NoDot, Rests;
    var j :| 0 <= j < |g| && g[j] == x;
    if Own(a, g[0].key) {
      assert g[1..][j - 1] == x;
      RestsMember(a, g[1..], j - 1);
    } else {
      RestsMember(a, g, j);
      if j == 0 { RestKey(a, x.key); }
    }
  }

  lemma MemberDeeper(a: string, g: seq<Name>, t: Name) returns (x: Name)
    requires GroupOf(a, g) && t in Deeper(a, g)
    ensures x in g && a + "." <= x.key && t == Name(Rest(a, x.key), x.value) && t.key != "" && !Own(a, x.key)
  {
    var j :| 0 <= j < |Deeper(a, g)| && Deeper(a, g)[j] == t;
    x := if Own(a, g[0].key) then g[j + 1] else g[j];
    if x.key == g[0].key { RestKey(a, x.key); }
  }

  lemma ThroughLabel(a: string, r: string)
    requires NoDot(a) && InGroup(a, r)
    ensures r[..FirstDot(r)] == a && (FirstDot(r) == |r| <==> r == a)
    ensures r != a ==> a + "." <= r && r[FirstDot(r) + 1..] == Rest(a, r)
  {
    FirstLabel(r);
    OneGroup(a, r[..FirstDot(r)], r);
  }

  /** A lookup that ends with the group's label is answered by its first name alone. */
  lemma GroupEnd(a: string, g: seq<Name>, sub: seq<Slot>)
    requires GroupOf(a, g)
    ensures Scan(g, a) == if g[0].key == a then Some(g[0]) else None
    ensures Through(GroupEntry(a, g, sub), a) == if g[0].key == a then Some(g[0].value) else None
  {
    ThroughLabel(a, a);
    forall x | x in g && Covers(x.key, a) ensures x.key == a && x == g[0] {
      CoverPrefix(x.key, a);
      var j :| 0 <= j < |g| && g[j] == x;
      GroupPrefix(a, x.key);
    }
    if g[0].key == a { ScanIs(g, a, g[0]); }
  }

  lemma OwnFirst(a: string, g: seq<Name>)
    requires GroupOf(a, g)
    ensures forall x :: x in g && Own(a, x.key) ==> x == g[0]
  {
    forall x | x in g && Own(a, x.key) ensures x == g[0] {
      var j :| 0 <= j < |g| && g[j] == x;
      if j > 0 { RestKey(a, x.key); }
    }
  }

  /** A longer lookup goes to the deeper names, and falls back on the first one. */
  lemma GroupBelow(a: string, g: seq<Name>, r: string)
    requires GroupOf(a, g) && a + "." <= r && Good(Deeper(a, g))
    ensures var u := Rest(a, r); match Scan(Deeper(a, g), u)
      case Some(t) => Scan(g, r).Some? && Scan(g, r).value.value == t.value
      case None => Scan(g, r) == if Own(a, g[0].key) then Some(g[0]) else None
  {
    hide Covers; hide Good; hide Scan; hide Deeper; hide InGroup;
    var u, ts := Rest(a, r), Deeper(a, g);
    forall x | x in g && !Own(a, x.key) && Covers(x.key, r)
      ensures Scan(ts, u).Some? && |x.key| <= |a| + 1 + |Scan(ts, u).value.key|
    {
      DeeperMember(a, g, x);
      CoversRest(a, x.key, r);
      RestKey(a, x.key);
    }
    match Scan(ts, u)
    case Some(t) =>
      var x := MemberDeeper(a, g, t);
      RestKey(a, x.key);
      CoversRest(a, x.key, r);
      ScanIs(g, r, x);
    case None =>
      if Own(a, g[0].key) {
        OwnFirst(a, g);
        ScanIs(g, r, g[0]);
      } else {
        OwnFirst(a, g);
      }
  }

  lemma ThroughBelow(a: string, g: seq<Name>, sub: seq<Slot>, r: string, val: Option<Ptr>)
    requires GroupOf(a, g) && NoDot(a) && a + "." <= r && r != a
    requires val == if Own(a, g[0].key) then Some(g[0].value) else None
    ensures Through(GroupEntry(a, g, sub), r) ==
      if Deeper(a, g) == [] then Some(g[0].value)
      else
        var found := FindReversed(Wildcard(sub, val), Rest(a, r));
        if found.Some? then found else val
  {
    ThroughLabel(a, r);
  }

  lemma GroupAnswers(a: string, g: seq<Name>, sub: seq<Slot>, r: string)
    requires GroupOf(a, g) && InGroup(a, r) && Good(Deeper(a, g))
    requires forall u, val :: Answers(sub, Deeper(a, g), u, val)
    ensures Through(GroupEntry(a, g, sub), r) ==
      match Scan(g, r) case Some(x) => Some(x.value) case None => None
  {
    ThroughLabel(a, r);
    if r == a {
      GroupEnd(a, g, sub);
    } else {
      GroupBelow(a, g, r);
      var u, val := Rest(a, r), if Own(a, g[0].key) then Some(g[0].value) else None;
      assert Answers(sub, Deeper(a, g), u, val);
      assert Deeper(a, g) == [] ==> Own(a, g[0].key);
      hide Covers; hide Good; hide Scan; hide Deeper; hide InGroup; hide FindReversed; hide Own;
      ThroughBelow(a, g, sub, r, val);
    }
  }

  // ---------- building

  ghost predicate Represents(hash: seq<Slot>, names: seq<Name>) {
    forall r, val :: Answers(hash, names, r, val)
  }

  /** The slots are named by first labels, none of which any later name has. */
  ghost predicate Apart(hash: seq<Slot>, before: seq<Name>, after: seq<Name>) {
    && (forall k :: 0 <= k < |hash| ==> NoDot(hash[k].name))
    && (forall k, j :: 0 <= k < |hash| && 0 <= j < |after| ==> !InGroup(hash[k].name, after[j].key))
    && (forall j :: 0 <= j < |before| ==> exists k :: 0 <= k < |hash| && InGroup(hash[k].name, before[j].key))
  }

  lemma {:induction false} LookupSnoc(hash: seq<Slot>, x: Slot, name: string)
    ensures Lookup(hash + [x], name) ==
      if Lookup(hash, name).Some? then Lookup(hash, name) else if x.name == name then Some(x.entry) else None
    ensures Lookup(hash, name).Some? <==> exists k :: 0 <= k < |hash| && hash[k].name == name
  {
    if hash != [] {
      LookupSnoc(hash[1..], x, name);
      assert (hash + [x])[1..] == hash[1..] + [x];
      if k :| 0 <= k < |hash[1..]| && hash[1..][k].name == name { assert hash[k + 1].name == name; }
      if k :| 0 < k < |hash| && hash[k].name == name { assert hash[1..][k - 1].name == name; }
    }
  }

  lemma NotCovered(a: string, names: seq<Name>, r: string)
    requires NoDot(a) && InGroup(a, r)
    requires forall j :: 0 <= j < |names| ==> names[j].key != "" && !InGroup(a, names[j].key)
    ensures forall x :: x in names ==> !Covers(x.key, r)
  {
    forall x | x in names ensures !Covers(x.key, r) {
      if Covers(x.key, r) { CoverGroup(a, x.key, r); }
    }
  }

  lemma Unfold(hash: seq<Slot>, r: string, val: Option<Ptr>)
    ensures FindReversed(Wildcard(hash, val), r) ==
      match Lookup(hash, r[..FirstDot(r)]) case None => val case Some(e) => Through(e, r)
  {
  }

  /** One more group: lookups with its label go through its entry, all others are as before. */
  lemma Extend(hash: seq<Slot>, before: seq<Name>, a: string, g: seq<Name>, sub: seq<Slot>, r: string, val: Option<Ptr>)
    requires Apart(hash, before, g) && GroupOf(a, g) && Good(Deeper(a, g))
    requires forall j :: 0 <= j < |before| ==> before[j].key != "" && !InGroup(a, before[j].key)
    requires Answers(hash, before, r, val) && forall u, v :: Answers(sub, Deeper(a, g), u, v)
    ensures Answers(hash + [Slot(a, GroupEntry(a, g, sub))], before + g, r, val)
  {
    var b, x := r[..FirstDot(r)], Slot(a, GroupEntry(a, g, sub));
    FirstLabel(r);
    LookupSnoc(hash, x, b);
    Unfold(hash, r, val);
    Unfold(hash + [x], r, val);
    ScanCat(before, g, r);
    if a == b {
      NotCovered(a, before, r);
      assert forall k :: 0 <= k < |hash| ==> hash[k].name != a;
      hide Scan; hide FindReversed; hide Through; hide Deeper; hide Good; hide GroupEntry;
      GroupAnswers(a, g, sub, r);
    } else {
      forall j | 0 <= j < |g| ensures g[j].key != "" && !InGroup(b, g[j].key) {
        assert InGroup(a, g[j].key);
        if InGroup(b, g[j].key) { OneGroup(a, b, g[j].key); }
      }
      NotCovered(b, g, r);
    }
  }

  /** The test by which ngx_hash_wildcard_init takes a name into the group of `key`, whose first
      `len` characters are its first label and the dot behind it, if any. */
  predicate Joins(key: string, other: string, len: nat, dot: bool)
    requires len <= |key|
  {
    && key[..len] <= other
    && !(!dot && |other| > len && other[len] != '.')
  }

  lemma NotPrefix(s: string, t: string)
    requires DnsLess(s, t)
    ensures !(t <= s)
  {
  }

  lemma JoinsGroup(names: seq<Name>, n: nat, i: nat, a: string)
    requires Good(names) && n < i < |names| && NoDot(a) && InGroup(a, names[n].key)
    ensures var dot := names[n].key != a; var len := if dot then |a| + 1 else |a|;
      && len <= |names[n].key|
      && (Joins(names[n].key, names[i].key, len, dot) <==> InGroup(a, names[i].key))
      && (InGroup(a, names[i].key) ==> a + "." <= names[i].key && Rest(a, names[i].key) != "")
  {
    var key, other := names[n].key, names[i].key;
    GroupPrefix(a, key);
    NotPrefix(key, other);
    assert a == key[..|a|];
    if key != a {
      assert key[..|a| + 1] == a + ".";
      if a + "." <= other { RestKey(a, other); }
    } else {
      if Joins(key, other, |a|, false) {
        assert |other| > |a|;
        assert other[..|a| + 1] == a + ".";
      }
      if a + "." <= other { RestKey(a, other); }
    }
  }

  lemma GoodSlice(names: seq<Name>, n: nat, i: nat)
    requires Good(names) && n <= i <= |names|
    ensures Good(names[n..i])
  {
    var g := names[n..i];
    assert forall k :: 0 <= k < |g| ==> g[k] == names[n + k];
  }

  lemma GroupStart(names: seq<Name>, n: nat, a: string)
    requires Good(names) && n < |names| && NoDot(a) && InGroup(a, names[n].key)
    ensures GroupOf(a, names[n..n + 1])
    ensures Deeper(a, names[n..n + 1]) ==
      if Own(a, names[n].key) then [] else [Name(names[n].key[|a| + 1..], names[n].value)]
  {
    GoodSlice(names, n, n + 1);
    assert names[n..n + 1] == [names[n]];
  }

  lemma RestsSnoc(a: string, g: seq<Name>, x: Name)
    requires forall j :: 0 <= j < |g| ==> a + "." <= g[j].key
    requires a + "." <= x.key
    ensures Rests(a, g + [x]) == Rests(a, g) + [Name(Rest(a, x.key), x.value)]
  {
  }

  lemma GroupGrow(names: seq<Name>, n: nat, i: nat, a: string)
    requires Good(names) && n < i < |names| && GroupOf(a, names[n..i]) && InGroup(a, names[i].key)
    ensures GroupOf(a, names[n..i + 1]) && a + "." <= names[i].key
    ensures Deeper(a, names[n..i + 1]) == Deeper(a, names[n..i]) + [Name(Rest(a, names[i].key), names[i].value)]
  {
    hide Good; hide InGroup;
    var g, x := names[n..i], names[i];
    assert g[0] == names[n] && names[n..i + 1] == g + [x];
    JoinsGroup(names, n, i, a);
    GoodSlice(names, n, i + 1);
    assert forall j :: 0 < j < |g + [x]| ==> (g + [x])[j] == if j < |g| then g[j] else x;
    assert (g + [x])[1..] == g[1..] + [x];
    if Own(a, g[0].key) { RestsSnoc(a, g[1..], x); } else { RestsSnoc(a, g, x); }
  }

  /** Behind the group, no name has its first label. */
  lemma GroupOver(names: seq<Name>, n: nat, i: nat, a: string, j: nat)
    requires Good(names) && n < i <= j < |names| && NoDot(a) && InGroup(a, names[n].key)
    requires !InGroup(a, names[i].key)
    ensures !InGroup(a, names[j].key)
  {
    if j > i && InGroup(a, names[j].key) {
      GroupsContiguous(a, names[n].key, names[i].key, names[j].key);
    }
  }

  /** The deeper names are a smaller case of the same problem. */
  lemma DeeperGood(a: string, g: seq<Name>, bound: nat)
    requires GroupOf(a, g) && forall j :: 0 <= j < |g| ==> |g[j].key| <= bound
    ensures Good(Deeper(a, g))
    ensures forall t :: t in Deeper(a, g) ==> |t.key| < bound
    ensures Deeper(a, g) != [] ==> bound > 0
  {
    if Own(a, g[0].key) {
      GoodSlice(g, 1, |g|);
      assert g[1..] == g[1..|g|];
      RestsGood(a, g[1..]);
    } else {
      RestKey(a, g[0].key);
      RestsGood(a, g);
    }
  }

  lemma ApartSplit(hash: seq<Slot>, names: seq<Name>, n: nat, i: nat, a: string, e: Entry)
    requires n < i <= |names| && Apart(hash, names[..n], names[n..]) && NoDot(a)
    requires forall j :: n <= j < i ==> InGroup(a, names[j].key)
    requires forall j :: i <= j < |names| ==> !InGroup(a, names[j].key)
    ensures Apart(hash, names[..n], names[n..i])
    ensures forall j :: 0 <= j < n ==> !InGroup(a, names[j].key)
    ensures Apart(hash + [Slot(a, e)], names[..i], names[i..])
  {
    var before, after, hash' := names[..n], names[n..], hash + [Slot(a, e)];
    assert after[0] == names[n];
    assert forall k :: 0 <= k < |hash| ==> hash[k].name != a;
    assert forall j :: 0 <= j < |names[n..i]| ==> names[n..i][j] == after[j];
    assert forall j :: 0 <= j < |names[i..]| ==> names[i..][j] == after[j + i - n];
    forall j | 0 <= j < n ensures !InGroup(a, names[j].key) {
      assert before[j] == names[j];
      var k :| 0 <= k < |hash| && InGroup(hash[k].name, before[j].key);
      if InGroup(a, names[j].key) {
        OneGroup(a, hash[k].name, names[j].key);
      }
    }
    forall j | 0 <= j < i ensures exists k :: 0 <= k < |hash'| && InGroup(hash'[k].name, names[..i][j].key) {
      if j < n {
        var k :| 0 <= k < |hash| && InGroup(hash[k].name, before[j].key);
        assert hash'[k] == hash[k];
      } else {
        assert InGroup(hash'[|hash|].name, names[..i][j].key);
      }
    }
  }

  lemma RoundApart(hash: seq<Slot>, names: seq<Name>, n: nat, i: nat, a: string, e: Entry)
    requires Good(names) && n < i <= |names| && GroupOf(a, names[n..i])
    requires i < |names| ==> !InGroup(a, names[i].key)
    requires Apart(hash, names[..n], names[n..])
    ensures Apart(hash, names[..n], names[n..i]) && Apart(hash + [Slot(a, e)], names[..i], names[i..])
    ensures forall j :: 0 <= j < |names[..n]| ==> names[..n][j].key != "" && !InGroup(a, names[..n][j].key)
  {
    var g := names[n..i];
    assert g[0] == names[n] && forall j :: n <= j < i ==> names[j] == g[j - n];
    assert forall j :: 0 <= j < n ==> names[..n][j] == names[j] && names[j].key != "";
    hide Good; hide Apart;
    forall j | i <= j < |names| ensures !InGroup(a, names[j].key) { GroupOver(names, n, i, a, j); }
    ApartSplit(hash, names, n, i, a, e);
  }

  /** Without deeper names the entry holds no hash, so an empty one will do. */
  lemma SubOf(a: string, g: seq<Name>, sub: seq<Slot>) returns (sub': seq<Slot>)
    requires GroupOf(a, g) && (Deeper(a, g) != [] ==> Represents(sub, Deeper(a, g)))
    ensures GroupEntry(a, g, sub') == GroupEntry(a, g, sub)
    ensures forall u, v :: Answers(sub', Deeper(a, g), u, v)
  {
    sub' := sub;
    if Deeper(a, g) == [] {
      sub' := [];
      forall u, v ensures Answers([], [], u, v) { Unfold([], u, v); }
    }
  }

  function MaxKey(g: seq<Name>): (m: nat)
    ensures forall j :: 0 <= j < |g| ==> |g[j].key| <= m
  {
    if g == [] then 0
    else
      var m := MaxKey(g[..|g| - 1]);
      if m < |g[|g| - 1].key| then |g[|g| - 1].key| else m
  }

  /** One round of Build: the group `names[n..i]` gets its slot. */
  lemma RoundDone(hash: seq<Slot>, names: seq<Name>, n: nat, i: nat, a: string, sub: seq<Slot>)
    requires Good(names) && n < i <= |names| && GroupOf(a, names[n..i])
    requires i < |names| ==> !InGroup(a, names[i].key)
    requires Represents(hash, names[..n]) && Apart(hash, names[..n], names[n..])
    requires Deeper(a, names[n..i]) != [] ==> Represents(sub, Deeper(a, names[n..i]))
    ensures var hash' := hash + [Slot(a, GroupEntry(a, names[n..i], sub))];
      Represents(hash', names[..i]) && Apart(hash', names[..i], names[i..])
  {
    hide Good; hide Apart; hide Answers; hide GroupOf; hide Deeper; hide GroupEntry; hide InGroup;
    var g, before := names[n..i], names[..n];
    var e := GroupEntry(a, g, sub);
    RoundApart(hash, names, n, i, a, e);
    DeeperGood(a, g, MaxKey(g));
    assert names[..i] == before + g;
    var sub' := SubOf(a, g, sub);
    forall r, val ensures Answers(hash + [Slot(a, e)], names[..i], r, val) {
      assert Answers(hash, before, r, val);
      Extend(hash, before, a, g, sub', r, val);
    }
  }

  lemma NoneYet(names: seq<Name>)
    ensures Represents([], names[..0]) && Apart([], names[..0], names[0..])
  {
    forall r, val ensures Answers([], names[..0], r, val) { Unfold([], r, val); }
  }

  lemma OwnLen(a: string, key: string, len: nat, dot: bool)
    requires InGroup(a, key) && dot == (key != a) && len == if dot then |a| + 1 else |a|
    ensures len <= |key| && (|key| == len <==> Own(a, key))
  {
    GroupPrefix(a, key);
  }

  lemma EntryIs(a: string, g: seq<Name>, sub: seq<Slot>)
    requires GroupOf(a, g)
    ensures GroupEntry(a, g, sub) ==
      if Deeper(a, g) != []
      then Table(Wildcard(sub, if Own(a, g[0].key) then Some(g[0].value) else None), g[0].key != a)
      else Data(g[0].value, g[0].key != a)
  {
  }

  // ---------- the trie of the names

  /** How many names from the first on have the label `a`. */
  ghost function GroupLen(names: seq<Name>, a: string): (i: nat)
    ensures i <= |names| && forall j :: 0 <= j < i ==> InGroup(a, names[j].key)
    ensures i < |names| ==> !InGroup(a, names[i].key)
  {
    if names == [] || !InGroup(a, names[0].key) then 0
    else
      assert forall j :: 0 < j < |names| ==> names[j] == names[1..][j - 1];
      1 + GroupLen(names[1..], a)
  }

  function LabelOf(key: string): string { key[..FirstDot(key)] }

  lemma {:induction false} MaxKeyAtMost(g: seq<Name>, m: nat)
    requires forall j :: 0 <= j < |g| ==> |g[j].key| <= m
    ensures MaxKey(g) <= m
  {
    if g != [] { MaxKeyAtMost(g[..|g| - 1], m); }
  }

  lemma FirstIsGroup(names: seq<Name>)
    requires Good(names) && names != []
    ensures var a := LabelOf(names[0].key); var i := GroupLen(names, a); i > 0 && GroupOf(a, names[..i])
  {
    hide Good, NoDot, GroupLen, InGroup, Joins;
    var a := LabelOf(names[0].key);
    var i := GroupLen(names, a);
    FirstLabel(names[0].key);
    GoodSlice(names, 0, i);
    assert names[0..i] == names[..i];
    forall j | 0 < j < i ensures a + "." <= names[j].key && Rest(a, names[j].key) != "" { JoinsGroup(names, 0, j, a); }
  }

  lemma DeeperShort(a: string, g: seq<Name>, m: nat)
    requires GroupOf(a, g) && forall j :: 0 <= j < |g| ==> |g[j].key| <= m
    ensures Good(Deeper(a, g)) && (m > 0 ==> MaxKey(Deeper(a, g)) < m)
  {
    hide Good, GroupOf, Deeper, MaxKey;
    DeeperGood(a, g, m);
    var ts := Deeper(a, g);
    if m > 0 {
      forall j | 0 <= j < |ts| ensures |ts[j].key| <= m - 1 { assert ts[j] in ts; }
      MaxKeyAtMost(ts, m - 1);
    }
  }

  lemma MaxKeySome(names: seq<Name>)
    requires Good(names) && names != []
    ensures MaxKey(names) > 0
  {
    assert |names[0].key| > 0;
  }

  /** The first group of names, its deeper names and the others. */
  lemma FirstGroup(names: seq<Name>)
    requires Good(names) && names != []
    ensures var a := LabelOf(names[0].key); var i := GroupLen(names, a);
      && i > 0 && GroupOf(a, names[..i]) && Good(names[i..]) && MaxKey(names[i..]) <= MaxKey(names)
      && Good(Deeper(a, names[..i])) && MaxKey(Deeper(a, names[..i])) < MaxKey(names)
  {
    hide Good, GroupOf, Deeper, MaxKey, GroupLen, LabelOf;
    var a := LabelOf(names[0].key);
    var i := GroupLen(names, a);
    FirstIsGroup(names);
    MaxKeySome(names);
    GoodSlice(names, i, |names|);
    assert names[i..|names|] == names[i..];
    MaxKeyAtMost(names[i..], MaxKey(names));
    DeeperShort(a, names[..i], MaxKey(names));
  }

  /** One slot for each first label, and below it the trie of what is behind that label. */
  ghost function TrieOf(names: seq<Name>): seq<Slot>
    requires Good(names)
    decreases MaxKey(names), |names|
  {
    if names == [] then []
    else
      FirstGroup(names);
      var a := LabelOf(names[0].key);
      var g, after := names[..GroupLen(names, a)], names[GroupLen(names, a)..];
      [Slot(a, GroupEntry(a, g, TrieOf(Deeper(a, g))))] + TrieOf(after)
  }

  lemma {:induction false} GroupLenIs(names: seq<Name>, a: string, i: nat)
    requires i <= |names| && (forall j :: 0 <= j < i ==> InGroup(a, names[j].key))
    requires i < |names| ==> !InGroup(a, names[i].key)
    ensures GroupLen(names, a) == i
  {}

  lemma SameGroup(names: seq<Name>, i: nat, a: string)
    requires 0 < i <= |names| && GroupOf(a, names[..i]) && (i < |names| ==> !InGroup(a, names[i].key))
    ensures LabelOf(names[0].key) == a && GroupLen(names, a) == i
  {
    hide Good;
    var g := names[..i];
    assert g[0] == names[0];
    FirstLabel(names[0].key);
    OneGroup(a, LabelOf(names[0].key), names[0].key);
    forall j | 0 <= j < i ensures InGroup(a, names[j].key) { assert names[j] == g[j]; }
    GroupLenIs(names, a, i);
  }

  lemma TrieStep(names: seq<Name>)
    requires Good(names) && names != []
    ensures var a := LabelOf(names[0].key); var i := GroupLen(names, a);
      && GroupOf(a, names[..i]) && Good(Deeper(a, names[..i])) && Good(names[i..])
      && MaxKey(Deeper(a, names[..i])) < MaxKey(names)
      && TrieOf(names) == [Slot(a, GroupEntry(a, names[..i], TrieOf(Deeper(a, names[..i]))))] + TrieOf(names[i..])
  {
    hide Deeper, GroupEntry, Good, MaxKey, GroupLen, LabelOf, GroupOf;
    FirstGroup(names);
  }

  /** The slot of the group `names[n..i]`. */
  lemma TrieNext(names: seq<Name>, n: nat, i: nat, a: string)
    requires Good(names) && n < i <= |names| && GroupOf(a, names[n..i])
    requires i < |names| ==> !InGroup(a, names[i].key)
    ensures Good(names[n..]) && Good(names[i..]) && Good(Deeper(a, names[n..i]))
    ensures MaxKey(Deeper(a, names[n..i])) < MaxKey(names)
    ensures TrieOf(names[n..]) ==
      [Slot(a, GroupEntry(a, names[n..i], TrieOf(Deeper(a, names[n..i]))))] + TrieOf(names[i..])
  {
    hide Deeper, GroupEntry, Good, TrieOf, MaxKey, GroupLen, LabelOf, GroupOf, InGroup;
    var tail, g := names[n..], names[n..i];
    GoodSlice(names, n, |names|);
    GoodSlice(names, i, |names|);
    assert names[n..|names|] == tail && names[i..|names|] == names[i..] && names[i..] == tail[i - n..];
    assert g == tail[..i - n];
    SameGroup(tail, i - n, a);
    TrieStep(tail);
    MaxKeyAtMost(tail, MaxKey(names));
  }

  /** No two slots have the same label. */
  ghost predicate Labels(hash: seq<Slot>) {
    forall j, k :: 0 <= j < k < |hash| ==> hash[j].name != hash[k].name
  }

  lemma LabelsMore(hash: seq<Slot>, names: seq<Name>, n: nat, a: string, e: Entry)
    requires Labels(hash) && n < |names| && Apart(hash, names[..n], names[n..]) && InGroup(a, names[n].key)
    ensures Labels(hash + [Slot(a, e)])
  {
    assert names[n..][0] == names[n];
  }

  lemma TrieNone()
    ensures Good([]) && TrieOf([]) == []
  {}

  lemma LabelIn(key: string)
    ensures InGroup(LabelOf(key), key)
  {
    FirstLabel(key);
  }

  lemma GroupAt(names: seq<Name>, n: nat) returns (i: nat, a: string)
    requires Good(names) && n < |names|
    ensures n < i <= |names| && GroupOf(a, names[n..i]) && InGroup(a, names[n].key)
    ensures i < |names| ==> !InGroup(a, names[i].key)
  {
    hide Good, GroupOf, MaxKey, Deeper, InGroup, LabelOf;
    var tail := names[n..];
    GoodSlice(names, n, |names|);
    assert names[n..|names|] == tail && tail[0] == names[n];
    FirstGroup(tail);
    a := LabelOf(tail[0].key);
    LabelIn(names[n].key);
    i := n + GroupLen(tail, a);
    assert tail[..i - n] == names[n..i];
  }

  /** The trie answers every lookup as the scan of all names does. */
  lemma {:induction false} TrieFrom(hash: seq<Slot>, names: seq<Name>, n: nat)
    requires Good(names) && n <= |names| && Labels(hash)
    requires Represents(hash, names[..n]) && Apart(hash, names[..n], names[n..])
    ensures Good(names[n..]) && Represents(hash + TrieOf(names[n..]), names) && Labels(hash + TrieOf(names[n..]))
    decreases MaxKey(names), |names| - n
  {
    hide Good, Represents, Apart, InGroup, GroupOf, Deeper, GroupEntry, TrieOf, Labels, MaxKey;
    if n == |names| {
      TrieNone();
      assert names[n..] == [] && names[..n] == names;
      assert hash + [] == hash;
    } else {
      var i, a := GroupAt(names, n);
      TrieNext(names, n, i, a);
      var g := names[n..i];
      var ts := Deeper(a, g);
      TrieRepresents(ts);
      var e := GroupEntry(a, g, TrieOf(ts));
      RoundDone(hash, names, n, i, a, TrieOf(ts));
      LabelsMore(hash, names, n, a, e);
      TrieFrom(hash + [Slot(a, e)], names, i);
      assert hash + [Slot(a, e)] + TrieOf(names[i..]) == hash + TrieOf(names[n..]);
    }
  }

  lemma {:induction false} TrieRepresents(names: seq<Name>)
    requires Good(names)
    ensures Represents(TrieOf(names), names) && Labels(TrieOf(names))
    decreases MaxKey(names), |names| + 1
  {
    NoneYet(names);
    assert names[0..] == names;
    TrieFrom([], names, 0);
    assert [] + TrieOf(names) == TrieOf(names);
  }

  // ---------- reversing the labels

  lemma {:induction false} LastOfJoin(x: string, y: string)
    ensures LastLabel(x + "." + y) == |x| + 1 + LastLabel(y)
    decreases |y|
  {
    var s := x + "." + y;
    if y != "" {
      assert s[|s| - 1] == y[|y| - 1];
      assert s[..|s| - 1] == x + "." + y[..|y| - 1];
      if y[|y| - 1] != '.' { LastOfJoin(x, y[..|y| - 1]); }
    }
  }

  lemma ReverseStep(s: string, x: string, y: string)
    requires s == x + "." + y && NoDot(y)
    ensures Reverse(s) == y + "." + Reverse(x)
  {
    hide LastLabel;
    LastOfJoin(x, y);
    var n := |x| + 1;
    assert LastLabel(y) == 0 && LastLabel(s) == n;
    assert s[n..] == y && s[..n - 1] == x;
  }

  lemma Assoc(a: string, b: string, c: string)
    ensures a + "." + (b + "." + c) == a + "." + b + "." + c
  {
  }

  lemma ReverseLabel(y: string)
    requires NoDot(y)
    ensures Reverse(y) == y && FirstDot(y) == |y|
  {
    hide LastLabel; hide FirstDot;
  }

  lemma {:induction false} ReverseJoin(x: string, y: string)
    ensures Reverse(x + "." + y) == Reverse(y) + "." + Reverse(x)
    decreases |y|
  {
    var n := LastLabel(y);
    if n > 0 {
      var y', z := y[..n - 1], y[n..];
      assert y == y' + "." + z;
      hide Reverse;
      ReverseStep(y, y', z);
      ReverseJoin(x, y');
      Assoc(x, y', z);
      ReverseStep(x + "." + y, x + "." + y', z);
      Assoc(z, Reverse(y'), Reverse(x));
    } else {
      assert NoDot(y);
      ReverseLabel(y);
      ReverseStep(x + "." + y, x, y);
    }
  }

  lemma {:induction false} ReverseTwice(s: string)
    ensures Reverse(Reverse(s)) == s && |Reverse(s)| == |s|
    decreases |s|
  {
    var n := LastLabel(s);
    if n > 0 {
      var x, y := s[..n - 1], s[n..];
      hide Reverse; hide LastLabel;
      assert s == x + "." + y;
      ReverseTwice(x);
      ReverseStep(s, x, y);
      ReverseLabel(y);
      ReverseJoin(y, Reverse(x));
    }
  }

  lemma FirstOfJoin(x: string, y: string)
    requires NoDot(x)
    ensures FirstDot(x + "." + y) == |x|
  {
    var s := x + "." + y;
    assert s[|x|] == '.' && forall i :: 0 <= i < |x| ==> s[i] == x[i];
  }

  /** Looking a name up from its last label is looking the reversed name up from its first. */
  lemma {:induction false} FindHeadReversed(w: Wildcard, name: string)
    ensures FindHead(w, name) == FindReversed(w, Reverse(name))
    decreases |name|
  {
    var n := LastLabel(name);
    if n == 0 {
      assert name[0..] == name;
      ReverseLabel(name);
      assert name[..|name|] == name;
    } else {
      var x, y := name[n..], Reverse(name[..n - 1]);
      FirstOfJoin(x, y);
      assert Reverse(name) == x + "." + y;
      assert (x + "." + y)[..|x|] == x && (x + "." + y)[|x| + 1..] == y;
      match Lookup(w.hash, x)
      case Some(Table(sub, _)) => FindHeadReversed(sub, name[..n - 1]);
      case _ =>
    }
  }

  predicate EndsWith(s: string, t: string) {
    |t| <= |s| && s[|s| - |t|..] == t
  }

  /** The patterns "*.S" and ".S" as a user means them. */
  predicate Matches(pattern: string, name: string)
    requires |pattern| > 1
  {
    if pattern[0] == '.' then name == pattern[1..] || EndsWith(name, pattern) else EndsWith(name, pattern[1..])
  }

  /** The key under which ngx_hash_add_key stores a pattern. */
  function KeyOf(pattern: string): string
    requires |pattern| > 1
  {
    Reverse(pattern[1..])
  }

  lemma SuffixIsPrefix(s: string, name: string)
    ensures EndsWith(name, "." + s) <==> Reverse(s) + "." <= Reverse(name)
  {
    hide Reverse;
    if EndsWith(name, "." + s) {
      var x := name[..|name| - |s| - 1];
      assert name == x + "." + s;
      ReverseJoin(x, s);
      assert Reverse(name)[..|Reverse(s)| + 1] == Reverse(s) + ".";
    }
    if Reverse(s) + "." <= Reverse(name) {
      var z := Reverse(name)[|Reverse(s)| + 1..];
      assert Reverse(name) == Reverse(s) + "." + z;
      ReverseJoin(Reverse(s), z);
      ReverseTwice(name);
      ReverseTwice(s);
      assert name == Reverse(z) + "." + s;
      assert name[|name| - |"." + s|..] == "." + s;
    }
  }

  lemma {:induction false} LastOfReverse(s: string)
    requires s != "" && s[0] != '.'
    ensures Reverse(s) != "" && Reverse(s)[|Reverse(s)| - 1] != '.'
    decreases |s|
  {
    var n := LastLabel(s);
    if n > 0 {
      LastOfReverse(s[..n - 1]);
    }
  }

  /** ".S" matches S and what ends in ".S". */
  lemma PlainMatches(s: string, name: string)
    requires s != "" && s[0] != '.'
    ensures Covers(Reverse(s), Reverse(name)) <==> Matches("." + s, name)
  {
    hide Reverse;
    assert ("." + s)[1..] == s;
    SuffixIsPrefix(s, name);
    ReverseTwice(s);
    ReverseTwice(name);
    LastOfReverse(s);
  }

  /** "*.S" matches what ends in ".S". */
  lemma StarMatches(s: string, name: string)
    requires s != ""
    ensures Covers(Reverse(s) + ".", Reverse(name)) <==> Matches("*." + s, name)
  {
    hide Reverse;
    assert ("*." + s)[1..] == "." + s;
    SuffixIsPrefix(s, name);
  }

  /** A stored key covers a reversed name just when the pattern matches the name: "*.S" does
      not match S itself, ".S" does. */
  lemma KeyCoversMatches(pattern: string, name: string)
    requires |pattern| > 1
    requires (pattern[0] == '.' && pattern[1] != '.') || (|pattern| > 2 && pattern[0] == '*' && pattern[1] == '.')
    ensures Covers(KeyOf(pattern), Reverse(name)) <==> Matches(pattern, name)
  {
    hide Reverse, Covers, Matches;
    if pattern[0] == '.' {
      var s := pattern[1..];
      assert pattern == "." + s;
      PlainMatches(s, name);
    } else {
      var s := pattern[2..];
      assert pattern == "*." + s && pattern[1..] == "" + "." + s;
      ReverseJoin("", s);
      ReverseLabel("");
      assert KeyOf(pattern) == Reverse(s) + ".";
      StarMatches(s, name);
    }
  }

  /** The theorem: a lookup in the hashes built for `names` gives the value of the longest
      name that covers, as a linear scan over all of them would. */
  lemma LookupIsScan(hash: seq<Slot>, names: seq<Name>, name: string)
    requires Represents(hash, names)
    ensures FindHead(Wildcard(hash, None), name) ==
      match Scan(names, Reverse(name)) case Some(x) => Some(x.value) case None => None
  {
    FindHeadReversed(Wildcard(hash, None), name);
    assert Answers(hash, names, Reverse(name), None);
  }

  /** Behind `i` stands a label of `len` characters; what is behind that, `y`, is reversed in `p`. */
  ghost predicate Reversing(key: string, i: nat, len: nat, p: string, y: Option<string>) {
    && i + 1 + len <= |key| && NoDot(key[i + 1..i + 1 + len])
    && (y.None? ==> i + 1 + len == |key| && p == "")
    && (y.Some? ==> key[i + 1..] == key[i + 1..i + 1 + len] + "." + y.value && p == Reverse(y.value) + ".")
  }

  lemma SuffixReversed(key: string, i: nat, len: nat, p: string, y: Option<string>)
    requires Reversing(key, i, len, p, y)
    ensures Reverse(key[i + 1..]) == p + key[i + 1..i + 1 + len]
  {
    var x := key[i + 1..i + 1 + len];
    ReverseLabel(x);
    if y.Some? {
      ReverseJoin(x, y.value);
    } else {
      assert key[i + 1..] == x;
    }
  }

  /** The loop of ngx_hash_add_key that turns "*.example.com" into "com.example." and
      ".example.com" into "com.example". */
  method ReverseLabels(key: string) returns (p: string)
    requires |key| > 1
    ensures p == KeyOf(key) && |p| == |key| - 1
  {
    hide Reverse;
    p := "";
    var len, i := 0, |key| - 1;
    ghost var y: Option<string> := None;
    while i != 0
      invariant 0 <= i < |key| && Reversing(key, i, len, p, y)
    {
      if key[i] == '.' {
        SuffixReversed(key, i, len, p, y);
        p := p + key[i + 1..i + 1 + len];
        p := p + ".";
        len := 0;
        y := Some(key[i + 1..]);
        assert key[i..] == key[i..i] + "." + key[i + 1..];
      } else {
        assert key[i..i + 1 + len] == [key[i]] + key[i + 1..i + 1 + len];
        assert y.Some? ==> key[i..] == [key[i]] + key[i + 1..] == [key[i]] + key[i + 1..i + 1 + len] + "." + y.value;
        len := len + 1;
      }
      i := i - 1;
    }
    SuffixReversed(key, 0, len, p, y);
    if len > 0 {
      p := p + key[1..1 + len];
    } else {
      assert p + key[1..1] == p;
    }
    ReverseTwice(key[1..]);
  }

  // ---------- patterns

  /** Every pattern with the wildcard in front that ngx_hash_add_key takes is of this form. */
  predicate IsPattern(text: string) {
    && ((|text| > 1 && text[0] == '.') || (|text| > 2 && text[0] == '*' && text[1] == '.'))
    && forall i :: 0 <= i < |text| - 1 ==> !(text[i] == '.' && text[i + 1] == '.')
  }

  lemma {:induction false} ReverseChars(s: string)
    requires GoodChars(s)
    ensures GoodChars(Reverse(s))
    decreases |s|
  {
    var n := LastLabel(s);
    if n > 0 { ReverseChars(s[..n - 1]); }
  }

  /** The key of "*.S" is that of S and a dot, and the key of ".S" does not end in a dot. */
  lemma KeyEnds(text: string)
    requires IsPattern(text)
    ensures KeyOf(text) != "" && |KeyOf(text)| == |text| - 1
    ensures text[0] == '.' ==> KeyOf(text)[|KeyOf(text)| - 1] != '.'
    ensures text[0] != '.' ==>
              var t := text[2..]; KeyOf(text) == Reverse(t) + "." && t != "" && Reverse(t)[|Reverse(t)| - 1] != '.'
  {
    hide Reverse;
    ReverseTwice(text[1..]);
    if text[0] == '.' {
      LastOfReverse(text[1..]);
    } else {
      var t := text[2..];
      assert text[1..] == "" + "." + t;
      ReverseJoin("", t);
      assert Reverse("") == "" by { ReverseLabel(""); }
      LastOfReverse(t);
    }
  }

  /** Two keys differ by a dot only for ".S" and "*.S". */
  lemma KeysApart(a: string, b: string)
    requires IsPattern(a) && IsPattern(b) && KeyOf(b) == KeyOf(a) + "."
    ensures b == "*" + a
  {
    hide Reverse;
    KeyEnds(a);
    KeyEnds(b);
    assert b[0] != '.';
    var t := b[2..];
    assert (Reverse(t) + ".")[..|Reverse(t)|] == (KeyOf(a) + ".")[..|KeyOf(a)|];
    assert Reverse(t) == KeyOf(a);
    assert a[0] == '.';
    ReverseTwice(t);
    ReverseTwice(a[1..]);
    assert a == "." + t && b == "*." + t;
  }
}
