/** The tree of hashes for names with a wildcard, in memory: every level is a packed table, and
    what is stored under a label is a pointer whose two low bits say what it points to.
 */
module HashTrie {

  import opened Common
  import opened HashTable
  import opened HashWildcard
  import HashBuild

  const WORD64: nat := 0x1_0000_0000_0000_0000

  /** ngx_hash_wildcard_t: a table, and the value of the labels so far or null. */
  datatype Level = Level(hash: HashBuild.Hash, value: nat)

  /** The size of a bucket, the bound on their number, and the size of a cache line. */
  datatype Config = Config(bucket: nat, max: nat, line: nat)

  // ---------- ngx_hash_key

  /** The hash of a label. */
  function KeyHash(s: string): nat {
    if s == [] then 0 else (KeyHash(s[..|s| - 1]) * 31 + s[|s| - 1] as int) % WORD64
  }

  method HashKey(s: string) returns (key: nat)
    ensures key == KeyHash(s)
  {
    key := 0;
    var i := 0;
    while i < |s|
      invariant 0 <= i <= |s| && key == KeyHash(s[..i])
    {
      assert s[..i + 1][..i] == s[..i];
      key := (key * 31 + s[i] as int) % WORD64;
      i := i + 1;
    }
    assert s[..|s|] == s;
  }

  // ---------- what memory holds

  ghost predicate LowerCase(s: string) { Lowered(s) == s }

  function Address(value: Option<Ptr>): nat {
    if value.Some? then value.value else 0
  }

  /** The keys of a level: its labels in lower case, no two the same, with values that are not null. */
  ghost predicate Stores(keys: seq<Key>, slots: seq<Slot>) {
    && |keys| == |slots| && Labels(slots)
    && forall j :: 0 <= j < |keys| ==> && keys[j].present && keys[j].name == slots[j].name && LowerCase(keys[j].name)
                                       && keys[j].hash == KeyHash(keys[j].name) && keys[j].value != 0
  }

  /** What the pointer `v` stands for: with 2 in its low bits a level in memory, otherwise data, and
      with 1 what is for "*.example.com" only. */
  ghost predicate Encodes(heap: seq<Level>, v: nat, e: Entry)
    decreases e
  {
    match e
    case Data(value, only) => v == value + if only then 1 else 0
    case Table(sub, only) =>
      var k := v / 4 - 1;
      && v % 4 == (if only then 3 else 2) && 0 <= k < |heap|
      && heap[k].value == Address(sub.value) && Holds(heap, heap[k].hash, sub.hash)
  }

  /** The table holds the slots. */
  ghost predicate Holds(heap: seq<Level>, h: HashBuild.Hash, slots: seq<Slot>)
    decreases slots
  {
    && h.Hash?
    && exists keys: seq<Key> :: && Stores(keys, slots) && Built(keys, h.mem, h.buckets)
                      && forall j :: 0 <= j < |slots| ==> Encodes(heap, keys[j].value, slots[j].entry)
  }

  /** More levels in memory change nothing. */
  lemma {:induction false} EncodesMore(heap: seq<Level>, more: seq<Level>, v: nat, e: Entry)
    requires Encodes(heap, v, e) && heap <= more
    ensures Encodes(more, v, e)
    decreases e
  {
    if e.Table? { HoldsMore(heap, more, heap[v / 4 - 1].hash, e.sub.hash); }
  }

  lemma {:induction false} HoldsMore(heap: seq<Level>, more: seq<Level>, h: HashBuild.Hash, slots: seq<Slot>)
    requires Holds(heap, h, slots) && heap <= more
    ensures Holds(more, h, slots)
    decreases slots
  {
    hide Built;
    var keys: seq<Key> :| && Stores(keys, slots) && Built(keys, h.mem, h.buckets)
                && forall j :: 0 <= j < |slots| ==> Encodes(heap, keys[j].value, slots[j].entry);
    forall j | 0 <= j < |slots| ensures Encodes(more, keys[j].value, slots[j].entry) {
      EncodesMore(heap, more, keys[j].value, slots[j].entry);
    }
  }

  // ---------- ngx_hash_find_wc_head

  lemma {:induction false} LookupAt(slots: seq<Slot>, name: string, j: nat)
    requires Labels(slots) && j < |slots| && slots[j].name == name
    ensures Lookup(slots, name) == Some(slots[j].entry)
  {
    if j > 0 { LookupAt(slots[1..], name, j - 1); }
  }

  lemma {:induction false} LookupNone(slots: seq<Slot>, name: string)
    requires forall j :: 0 <= j < |slots| ==> slots[j].name != name
    ensures Lookup(slots, name) == None
  {
    if slots != [] { LookupNone(slots[1..], name); }
  }

  lemma KeysDiffer(keys: seq<Key>, slots: seq<Slot>)
    requires Stores(keys, slots)
    ensures HashBuild.Different(keys)
  {}

  /** One level: the pointer stored under a label, or null. */
  method FindLabel(ghost heap: seq<Level>, h: HashBuild.Hash, a: string, ghost slots: seq<Slot>) returns (v: nat)
    requires Holds(heap, h, slots)
    ensures Lookup(slots, a).None? ==> v == 0
    ensures Lookup(slots, a).Some? ==> v != 0 && Encodes(heap, v, Lookup(slots, a).value)
  {
    hide Built, KeyHash, HashBuild.Different, Encodes, Lookup;
    ghost var keys: seq<Key> :| && Stores(keys, slots) && Built(keys, h.mem, h.buckets)
                      && forall j :: 0 <= j < |slots| ==> Encodes(heap, keys[j].value, slots[j].entry);
    KeysDiffer(keys, slots);
    var key := HashKey(a);
    v := HashBuild.Find(keys, h, key, a);
    if j :| 0 <= j < |slots| && slots[j].name == a {
      LookupAt(slots, a, j);
      assert HashBuild.Stored(keys, a, j);
    } else {
      LookupNone(slots, a);
      assert forall k: nat :: !HashBuild.Stored(keys, a, k);
    }
  }

  /** The loop that looks for the last dot. */
  method ScanLast(name: string) returns (n: nat)
    ensures n == LastLabel(name)
  {
    n := |name|;
    while n > 0
      invariant n <= |name| && forall i :: n <= i < |name| ==> name[i] != '.'
    {
      if name[n - 1] == '.' { break; }
      n := n - 1;
    }
  }

  /** What the low bits of a pointer say. */
  lemma LowBits(heap: seq<Level>, v: nat, e: Entry)
    requires Encodes(heap, v, e)
    ensures e.Table? <==> v / 2 % 2 == 1
    ensures e.only <==> v % 2 == 1
    ensures e.Data? ==> v - v % 4 == e.value
    ensures e.Table? ==> && 0 <= v / 4 - 1 < |heap| && heap[v / 4 - 1].value == Address(e.sub.value)
                         && Holds(heap, heap[v / 4 - 1].hash, e.sub.hash)
  {
    hide Holds;
  }

  /** The search from the last label on, through the levels in memory. */
  method FindIn(heap: seq<Level>, w: Level, name: string, ghost slots: seq<Slot>, ghost val: Option<Ptr>)
    returns (value: nat)
    requires Holds(heap, w.hash, slots) && w.value == Address(val)
    ensures value == Address(FindHead(Wildcard(slots, val), name))
    decreases |name|
  {
    hide Holds, Encodes, Lookup;
    var n := ScanLast(name);
    var v := FindLabel(heap, w.hash, name[n..], slots);
    if v != 0 {
      ghost var e := Lookup(slots, name[n..]).value;
      LowBits(heap, v, e);
      if v / 2 % 2 == 1 {
        if n == 0 {
          if v % 2 == 1 { return 0; }
          return heap[v / 4 - 1].value;
        }
        value := FindIn(heap, heap[v / 4 - 1], name[..n - 1], e.sub.hash, e.sub.value);
        if value != 0 { return; }
        return heap[v / 4 - 1].value;
      }
      if v % 2 == 1 {
        if n == 0 { return 0; }
        return v - v % 4;
      }
      return v;
    }
    return w.value;
  }

  // ---------- when a level can be built

  /** The labels of a level with their hashes. */
  ghost function LabelKeys(slots: seq<Slot>): (keys: seq<Key>)
    ensures |keys| == |slots|
  {
    seq(|slots|, j requires 0 <= j < |slots| => Key(true, slots[j].name, KeyHash(slots[j].name), 4))
  }

  /** The labels of the level are short enough, and they fit into some number of buckets. */
  ghost predicate LevelFits(slots: seq<Slot>, c: Config)
    requires c.bucket >= 24
  {
    var keys, limit := LabelKeys(slots), c.bucket - PTR_SIZE;
    && HashBuild.Short(keys, limit)
    && exists s :: HashBuild.StartSize(|keys|, limit, c.max) <= s < c.max && HashBuild.Fits(keys, s, limit)
  }

  /** So do those of all levels below. */
  ghost predicate Buildable(slots: seq<Slot>, c: Config)
    requires c.bucket >= 24
    decreases slots
  {
    LevelFits(slots, c) && forall j :: 0 <= j < |slots| ==> Below(slots[j].entry, c)
  }

  ghost predicate Below(e: Entry, c: Config)
    requires c.bucket >= 24
    decreases e
  {
    e.Table? ==> Buildable(e.sub.hash, c)
  }

  ghost predicate Alike(a: seq<Key>, b: seq<Key>) {
    && |a| == |b|
    && forall j :: 0 <= j < |a| ==>
         a[j].present == b[j].present && a[j].name == b[j].name && a[j].hash == b[j].hash
  }

  lemma {:induction false} FillAlike(a: seq<Key>, b: seq<Key>, size: nat, n: nat, i: nat)
    requires Alike(a, b) && size > 0 && n <= |a|
    ensures HashBuild.Fill(a, size, n, i) == HashBuild.Fill(b, size, n, i)
  {
    hide EltSize;
    if n > 0 { FillAlike(a, b, size, n - 1, i); }
  }

  /** Whether keys fit does not depend on their values. */
  lemma FitsAlike(a: seq<Key>, b: seq<Key>, size: nat, limit: nat)
    requires Alike(a, b) && size > 0
    ensures HashBuild.Fits(a, size, limit) <==> HashBuild.Fits(b, size, limit)
  {
    hide HashBuild.Fill;
    forall i: nat | i < size ensures HashBuild.Fill(a, size, |a|, i) == HashBuild.Fill(b, size, |b|, i) {
      FillAlike(a, b, size, |a|, i);
    }
  }

  lemma LevelFitsIs(keys: seq<Key>, slots: seq<Slot>, c: Config)
    requires c.bucket >= 24 && Alike(keys, LabelKeys(slots))
    ensures var limit := c.bucket - PTR_SIZE;
            LevelFits(slots, c) <==>
              && HashBuild.Short(keys, limit)
              && exists s :: HashBuild.StartSize(|keys|, limit, c.max) <= s < c.max && HashBuild.Fits(keys, s, limit)
  {
    hide HashBuild.Fits, HashBuild.StartSize, EltSize, LabelKeys;
    var limit := c.bucket - PTR_SIZE;
    forall s: nat | s > 0 ensures HashBuild.Fits(keys, s, limit) <==> HashBuild.Fits(LabelKeys(slots), s, limit) {
      FitsAlike(keys, LabelKeys(slots), s, limit);
    }
  }

  // ---------- ngx_hash_wildcard_init

  /** No 16-bit sum of a bucket wraps around with names of `n` characters or fewer. */
  ghost predicate Ready(c: Config, n: nat) {
    && 24 <= c.bucket && HashBuild.LineOk(c.line) && c.bucket + c.line <= SHORT
    && forall len: nat :: len <= n && EltSize(len) <= c.bucket - PTR_SIZE ==> c.bucket - PTR_SIZE + EltSize(len) < SHORT
  }

  ghost predicate AllLower(names: seq<Name>) {
    forall i :: 0 <= i < |names| ==> LowerCase(names[i].key)
  }

  /** The key of a slot: its pointer stands for the entry, whose levels can be built. */
  ghost predicate Entered(heap: seq<Level>, k: Key, s: Slot, c: Config, m: nat)
    requires c.bucket >= 24
  {
    && k.present && k.name == s.name && LowerCase(k.name) && k.hash == KeyHash(k.name) && k.value != 0
    && |k.name| <= m && Encodes(heap, k.value, s.entry) && Below(s.entry, c)
  }

  ghost predicate Filling(heap: seq<Level>, keys: seq<Key>, slots: seq<Slot>, c: Config, m: nat)
    requires c.bucket >= 24
  {
    |keys| == |slots| && forall j :: 0 <= j < |keys| ==> Entered(heap, keys[j], slots[j], c, m)
  }

  lemma FillingMore(heap: seq<Level>, more: seq<Level>, keys: seq<Key>, slots: seq<Slot>, c: Config, m: nat)
    requires c.bucket >= 24 && Filling(heap, keys, slots, c, m) && heap <= more
    ensures Filling(more, keys, slots, c, m)
  {
    hide Encodes, Below, LowerCase, KeyHash;
    forall j | 0 <= j < |keys| ensures Entered(more, keys[j], slots[j], c, m) {
      assert Entered(heap, keys[j], slots[j], c, m);
      EncodesMore(heap, more, keys[j].value, slots[j].entry);
    }
  }

  lemma FillingNone(heap: seq<Level>, c: Config, m: nat)
    requires c.bucket >= 24
    ensures Filling(heap, [], [], c, m)
  {}

  lemma ReadyLess(c: Config, m: nat, n: nat)
    requires Ready(c, m) && n <= m
    ensures Ready(c, n)
  {}

  lemma FillingNext(heap: seq<Level>, keys: seq<Key>, slots: seq<Slot>, c: Config, m: nat, k: Key, s: Slot)
    requires c.bucket >= 24 && Filling(heap, keys, slots, c, m) && Entered(heap, k, s, c, m)
    ensures Filling(heap, keys + [k], slots + [s], c, m)
  {
    hide Entered;
  }

  /** What `Init` needs and what its answer means. */
  lemma LevelReady(heap: seq<Level>, keys: seq<Key>, slots: seq<Slot>, c: Config, m: nat)
    requires Ready(c, m) && Filling(heap, keys, slots, c, m) && Labels(slots)
    ensures HashBuild.NoWrap(keys, c.bucket - PTR_SIZE, c.line) && Stores(keys, slots) && Alike(keys, LabelKeys(slots))
    ensures forall n :: 0 <= n < |keys| ==> keys[n].value != 0
    ensures forall j :: 0 <= j < |slots| ==> Encodes(heap, keys[j].value, slots[j].entry) && Below(slots[j].entry, c)
  {
    hide EltSize, LowerCase, KeyHash, Encodes, Below, Labels, HashBuild.LineOk;
    forall j | 0 <= j < |keys|
      ensures Entered(heap, keys[j], slots[j], c, m)
    {}
  }

  /** The loop that looks for the first dot. */
  method ScanFirst(key: string) returns (len: nat, dot: bool)
    ensures len <= |key| && dot == (len < |key|) && NoDot(key[..len]) && InGroup(key[..len], key)
    ensures dot == (key != key[..len])
  {
    len := 0;
    while len < |key| && key[len] != '.'
      invariant len <= |key| && forall k :: 0 <= k < len ==> key[k] != '.'
    {
      len := len + 1;
    }
    dot := len < |key|;
    if dot { assert key[..len + 1] == key[..len] + "."; } else { assert key[..len] == key; }
  }

  /** The names of the group that starts at `n`, and what is behind their first label. `len` counts
      the label and the dot behind it, if any. */
  method Collect(names: seq<Name>, n: nat, len: nat, dot: bool, ghost a: string) returns (next: seq<Name>, i: nat)
    requires Good(names) && n < |names| && NoDot(a) && InGroup(a, names[n].key) && dot == (names[n].key != a)
    requires len == if dot then |a| + 1 else |a|
    ensures n < i <= |names| && GroupOf(a, names[n..i]) && next == Deeper(a, names[n..i])
    ensures i < |names| ==> !InGroup(a, names[i].key)
  {
    hide Good, InGroup, GroupOf, Deeper, Own, Joins, NoDot;
    var key := names[n].key;
    var dotLen := if dot then len else len + 1;
    OwnLen(a, key, len, dot);
    next := [];
    if |key| != len { next := [Name(key[len..], names[n].value)]; }
    GroupStart(names, n, a);
    i := n + 1;
    while i < |names| && Joins(key, names[i].key, len, dot)
      invariant n < i <= |names| && GroupOf(a, names[n..i]) && next == Deeper(a, names[n..i])
    {
      JoinsGroup(names, n, i, a);
      GroupGrow(names, n, i, a);
      next := next + [Name(names[i].key[dotLen..], names[i].value)];
      i := i + 1;
    }
    if i < |names| { JoinsGroup(names, n, i, a); }
  }

  lemma LowerPart(s: string, i: nat, j: nat)
    requires LowerCase(s) && i <= j <= |s|
    ensures LowerCase(s[i..j])
  {
    forall k | 0 <= k < j - i ensures Low(s[i..j][k]) == s[i..j][k] {
      assert Lowered(s)[i + k] == s[i + k];
    }
  }

  lemma DeeperLower(names: seq<Name>, n: nat, i: nat, a: string)
    requires AllLower(names) && n < i <= |names| && GroupOf(a, names[n..i])
    ensures AllLower(Deeper(a, names[n..i]))
  {
    hide LowerCase, Good;
    var g := names[n..i];
    var ts := Deeper(a, g);
    forall j | 0 <= j < |ts| ensures LowerCase(ts[j].key) {
      assert ts[j] in ts;
      var x := MemberDeeper(a, g, ts[j]);
      var k :| 0 <= k < |g| && g[k] == x;
      assert x == names[n + k];
      LowerPart(x.key, |a| + 1, |x.key|);
      assert x.key[|a| + 1..|x.key|] == Rest(a, x.key);
    }
  }

  /** What is stored under the label of a group without deeper names. */
  lemma DataEntered(heap: seq<Level>, g: seq<Name>, a: string, sub: seq<Slot>, dot: bool, c: Config)
    requires c.bucket >= 24 && GroupOf(a, g) && Deeper(a, g) == [] && dot == (g[0].key != a)
    ensures var v, e := g[0].value + (if dot then 1 else 0), GroupEntry(a, g, sub);
            v != 0 && Encodes(heap, v, e) && Below(e, c)
  {
    hide Good;
  }

  /** What is stored under the label of a group with deeper names: where their level is. */
  lemma LevelEntered(heap: seq<Level>, h: HashBuild.Hash, g: seq<Name>, a: string, sub: seq<Slot>, dot: bool, len: nat,
                     c: Config)
    requires c.bucket >= 24 && GroupOf(a, g) && Deeper(a, g) != [] && dot == (g[0].key != a)
    requires len == (if dot then |a| + 1 else |a|) && Holds(heap, h, sub) && Buildable(sub, c)
    ensures var more := heap + [Level(h, if |g[0].key| == len then g[0].value else 0)];
            var v, e := 4 * |more| + (if dot then 3 else 2), GroupEntry(a, g, sub);
            Encodes(more, v, e) && Below(e, c)
  {
    hide Good, Holds, Buildable, Deeper, InGroup;
    var more := heap + [Level(h, if |g[0].key| == len then g[0].value else 0)];
    OwnLen(a, g[0].key, len, dot);
    HoldsMore(heap, more, h, sub);
    EntryIs(a, g, sub);
    assert (4 * |more| + (if dot then 3 else 2)) / 4 == |more|;
  }

  /** The slots so far are those of the first `n` names. */
  ghost predicate Begun(names: seq<Name>, n: nat, slots: seq<Slot>)
    requires Good(names)
  {
    n <= |names| && Good(names[n..]) && TrieOf(names) == slots + TrieOf(names[n..])
  }

  lemma BegunNone(names: seq<Name>)
    requires Good(names)
    ensures Begun(names, 0, [])
  {
    hide Good, TrieOf;
    assert names[0..] == names && [] + TrieOf(names) == TrieOf(names);
  }

  lemma BegunNext(names: seq<Name>, n: nat, i: nat, a: string, slots: seq<Slot>)
    requires Good(names) && Begun(names, n, slots) && n < i <= |names| && GroupOf(a, names[n..i])
    requires i < |names| ==> !InGroup(a, names[i].key)
    ensures Good(Deeper(a, names[n..i])) && MaxKey(Deeper(a, names[n..i])) < MaxKey(names)
    ensures var s := Slot(a, GroupEntry(a, names[n..i], TrieOf(Deeper(a, names[n..i]))));
            Begun(names, i, slots + [s]) && s in TrieOf(names)
  {
    hide Good, TrieOf, MaxKey, Deeper, GroupEntry, GroupOf, InGroup;
    TrieNext(names, n, i, a);
    var s := Slot(a, GroupEntry(a, names[n..i], TrieOf(Deeper(a, names[n..i]))));
    assert slots + ([s] + TrieOf(names[i..])) == slots + [s] + TrieOf(names[i..]);
    assert TrieOf(names)[|slots|] == s;
  }

  lemma BegunAll(names: seq<Name>, slots: seq<Slot>)
    requires Good(names) && Begun(names, |names|, slots)
    ensures TrieOf(names) == slots
  {
    hide Good, TrieOf;
    TrieNone();
    assert names[|names|..] == [] && slots + [] == slots;
  }

  lemma NotBelow(slots: seq<Slot>, s: Slot, c: Config)
    requires c.bucket >= 24 && s in slots && !Below(s.entry, c)
    ensures !Buildable(slots, c)
  {}

  lemma SubNotBelow(g: seq<Name>, a: string, sub: seq<Slot>, c: Config)
    requires c.bucket >= 24 && GroupOf(a, g) && Deeper(a, g) != [] && !Buildable(sub, c)
    ensures !Below(GroupEntry(a, g, sub), c)
  {
    hide Good, Buildable, Deeper;
  }

  lemma LabelFits(names: seq<Name>, n: nat, len: nat)
    requires n < |names| && AllLower(names) && len <= |names[n].key|
    ensures |names[n].key[..len]| <= MaxKey(names) && LowerCase(names[n].key[..len])
  {
    LowerPart(names[n].key, 0, len);
    assert names[n].key[0..len] == names[n].key[..len];
  }

  lemma HoldsIs(heap: seq<Level>, h: HashBuild.Hash, keys: seq<Key>, slots: seq<Slot>)
    requires h.Hash? && Stores(keys, slots) && Built(keys, h.mem, h.buckets)
    requires forall j :: 0 <= j < |slots| ==> Encodes(heap, keys[j].value, slots[j].entry)
    ensures Holds(heap, h, slots)
  {
    hide Stores, Built, Encodes;
  }

  /** The table of one level. */
  method BuildLevel(ghost heap: seq<Level>, keys: seq<Key>, c: Config, ghost slots: seq<Slot>, ghost m: nat)
    returns (h: HashBuild.Hash)
    requires Ready(c, m) && Filling(heap, keys, slots, c, m) && Labels(slots)
    ensures h.NoHash? <==> !Buildable(slots, c)
    ensures h.Hash? ==> Holds(heap, h, slots)
  {
    hide Filling, Stores, Encodes, Below, Labels, Alike, Holds, Built, LevelFits;
    hide HashBuild.NoWrap, HashBuild.Fits, HashBuild.Short, HashBuild.StartSize;
    LevelReady(heap, keys, slots, c, m);
    LevelFitsIs(keys, slots, c);
    h := HashBuild.Init(keys, c.bucket, c.max, c.line);
    if h.Hash? { HoldsIs(heap, h, keys, slots); }
  }

  /** Builds the levels for sorted names: one table of their first labels, after those of what is
      behind the labels. It fails exactly if the labels of some level are too long or fit into no
      number of buckets. */
  method Build(before: seq<Level>, names: seq<Name>, c: Config) returns (heap: seq<Level>, h: HashBuild.Hash)
    requires Good(names) && AllLower(names) && Ready(c, MaxKey(names))
    ensures before <= heap
    ensures h.NoHash? <==> !Buildable(TrieOf(names), c)
    ensures h.Hash? ==> Holds(heap, h, TrieOf(names))
    decreases MaxKey(names)
  {
    hide Good, AllLower, MaxKey, TrieOf, Begun, Filling, Labels, Holds, Buildable, Below, Encodes, LowerCase, KeyHash;
    hide GroupOf, Deeper, GroupEntry, InGroup, NoDot;
    heap := before;
    var keys: seq<Key> := [];
    ghost var slots: seq<Slot>, m := [], MaxKey(names);
    BegunNone(names);
    FillingNone(heap, c, m);
    var n := 0;
    while n < |names|
      invariant n <= |names| && before <= heap && Begun(names, n, slots) && Filling(heap, keys, slots, c, m)
    {
      var key, value: nat := names[n].key, names[n].value;
      var len, dot := ScanFirst(key);
      var a := key[..len];
      LabelFits(names, n, len);
      if dot { len := len + 1; }
      var next, i := Collect(names, n, len, dot, a);
      BegunNext(names, n, i, a, slots);
      ghost var g := names[n..i];
      ghost var sub := TrieOf(Deeper(a, g));
      var v := value + (if dot then 1 else 0);
      if |next| > 0 {
        DeeperLower(names, n, i, a);
        ReadyLess(c, m, MaxKey(next));
        ghost var was := heap;
        var below;
        heap, below := Build(heap, next, c);
        if below.NoHash? {
          SubNotBelow(g, a, sub, c);
          NotBelow(TrieOf(names), Slot(a, GroupEntry(a, g, sub)), c);
          return heap, HashBuild.NoHash;
        }
        LevelEntered(heap, below, g, a, sub, dot, len, c);
        heap := heap + [Level(below, if |key| == len then value else 0)];
        v := 4 * |heap| + (if dot then 3 else 2);
        FillingMore(was, heap, keys, slots, c, m);
      } else {
        DataEntered(heap, g, a, sub, dot, c);
      }
      var hash := HashKey(a);
      ghost var s := Slot(a, GroupEntry(a, g, sub));
      FillingNext(heap, keys, slots, c, m, Key(true, a, hash, v), s);
      keys, slots := keys + [Key(true, a, hash, v)], slots + [s];
      n := i;
    }
    BegunAll(names, slots);
    TrieRepresents(names);
    h := BuildLevel(heap, keys, c, slots, m);
  }

  /** Builds the levels and looks a name up in them: the value of the longest name that covers. */
  method Find(names: seq<Name>, name: string, c: Config) returns (ok: bool, value: nat)
    requires Good(names) && AllLower(names) && Ready(c, MaxKey(names))
    ensures ok <==> Buildable(TrieOf(names), c)
    ensures ok ==> value == match Scan(names, Reverse(name)) case Some(x) => x.value case None => 0
  {
    hide Good, AllLower, TrieOf, Buildable, Holds, Scan, Reverse, Represents, Labels;
    var heap, h := Build([], names, c);
    if h.NoHash? { return false, 0; }
    TrieRepresents(names);
    LookupIsScan(TrieOf(names), names, name);
    value := FindIn(heap, Level(h, 0), name, TrieOf(names), None);
    return true, value;
  }

  // ---------- patterns

  /** A wildcard pattern and its value. */
  datatype Pattern = Pattern(text: string, value: Ptr)

  /** Patterns in the order of their keys, of good characters, and never both ".S" and "*.S"; they
      are taken in lower case. */
  ghost predicate GoodPatterns(ps: seq<Pattern>) {
    && (forall i :: 0 <= i < |ps| ==> IsPattern(ps[i].text) && GoodChars(ps[i].text[1..]))
    && (forall i, j :: 0 <= i < j < |ps| ==> DnsLess(KeyOf(Lowered(ps[i].text)), KeyOf(Lowered(ps[j].text))))
    && (forall i, j :: 0 <= i < |ps| && 0 <= j < |ps| ==> Lowered(ps[j].text) != "*" + Lowered(ps[i].text))
  }

  /** The pattern in lower case is of the same form. */
  lemma LowerPattern(text: string)
    requires IsPattern(text) && GoodChars(text[1..])
    ensures IsPattern(Lowered(text)) && GoodChars(Lowered(text)[1..]) && LowerCase(Lowered(text))
  {
    var low := Lowered(text);
    assert forall i :: 0 <= i < |text| ==> (low[i] == '.' <==> text[i] == '.') && (low[i] == '*' <==> text[i] == '*');
    forall i | 0 <= i < |text| - 1 ensures low[1..][i] == '.' || low[1..][i] as int > 32 {
      assert low[1..][i] == Low(text[1..][i]);
    }
  }

  lemma LowerJoin(a: string, b: string)
    requires LowerCase(a) && LowerCase(b)
    ensures LowerCase(a + "." + b)
  {
    var s := a + "." + b;
    forall i | 0 <= i < |s| ensures Low(s[i]) == s[i] {
      if i < |a| { assert Lowered(a)[i] == a[i]; } else if i > |a| { assert Lowered(b)[i - |a| - 1] == b[i - |a| - 1]; }
    }
  }

  lemma {:induction false} ReverseLower(s: string)
    requires LowerCase(s)
    ensures LowerCase(Reverse(s))
    decreases |s|
  {
    hide LowerCase;
    var n := LastLabel(s);
    if n > 0 {
      LowerPart(s, 0, n - 1);
      LowerPart(s, n, |s|);
      assert s[0..n - 1] == s[..n - 1] && s[n..|s|] == s[n..];
      ReverseLower(s[..n - 1]);
      LowerJoin(s[n..], Reverse(s[..n - 1]));
    }
  }

  /** The names that are stored for the patterns. */
  ghost function NamesOf(ps: seq<Pattern>): (names: seq<Name>)
    requires forall i :: 0 <= i < |ps| ==> |ps[i].text| > 1
    ensures |names| == |ps|
  {
    seq(|ps|, i requires 0 <= i < |ps| => Name(KeyOf(Lowered(ps[i].text)), ps[i].value))
  }

  lemma NamesGood(ps: seq<Pattern>)
    requires GoodPatterns(ps)
    ensures Good(NamesOf(ps)) && AllLower(NamesOf(ps))
    ensures forall i :: 0 <= i < |ps| ==> |NamesOf(ps)[i].key| == |ps[i].text| - 1
  {
    hide DnsLess, LowerCase, Reverse;
    var names := NamesOf(ps);
    forall i | 0 <= i < |ps|
      ensures names[i].key != "" && GoodChars(names[i].key) && LowerCase(names[i].key)
      ensures |names[i].key| == |ps[i].text| - 1
    {
      var low := Lowered(ps[i].text);
      LowerPattern(ps[i].text);
      KeyEnds(low);
      ReverseChars(low[1..]);
      LowerPart(low, 1, |low|);
      assert low[1..|low|] == low[1..];
      ReverseLower(low[1..]);
    }
    forall i, j | 0 <= i < |ps| && 0 <= j < |ps| ensures names[j].key != names[i].key + "." {
      LowerPattern(ps[i].text);
      LowerPattern(ps[j].text);
      if names[j].key == names[i].key + "." { KeysApart(Lowered(ps[i].text), Lowered(ps[j].text)); }
    }
  }

  /** The pattern `i` in lower case matches the name, and none that matches is longer. */
  ghost predicate Best(ps: seq<Pattern>, name: string, i: nat) {
    && i < |ps| && |ps[i].text| > 1 && Matches(Lowered(ps[i].text), name)
    && forall j :: 0 <= j < |ps| && |ps[j].text| > 1 && Matches(Lowered(ps[j].text), name) ==>
         |ps[j].text| <= |ps[i].text|
  }

  lemma ScanIsBest(ps: seq<Pattern>, name: string)
    requires GoodPatterns(ps)
    ensures match Scan(NamesOf(ps), Reverse(name))
            case Some(x) => exists i :: 0 <= i < |ps| && ps[i].value == x.value && Best(ps, name, i)
            case None => forall i :: 0 <= i < |ps| ==> !Matches(Lowered(ps[i].text), name)
  {
    hide Scan, Covers, Matches, Reverse, DnsLess, Lowered, KeyOf;
    var names := NamesOf(ps);
    NamesGood(ps);
    forall i | 0 <= i < |ps|
      ensures Covers(names[i].key, Reverse(name)) <==> Matches(Lowered(ps[i].text), name)
    {
      LowerPattern(ps[i].text);
      KeyCoversMatches(Lowered(ps[i].text), name);
    }
    match Scan(names, Reverse(name))
    case Some(x) =>
      var i :| 0 <= i < |names| && names[i] == x;
      forall j | 0 <= j < |ps| && Matches(Lowered(ps[j].text), name) ensures |ps[j].text| <= |ps[i].text| {
        assert names[j] in names && Covers(names[j].key, Reverse(name));
      }
      assert Best(ps, name, i);
    case None =>
      forall i | 0 <= i < |ps| ensures !Matches(Lowered(ps[i].text), name) {
        assert names[i] in names;
      }
  }

  /** ngx_strlow */
  method LowerText(s: string) returns (t: string)
    ensures t == Lowered(s)
  {
    t := "";
    var i := 0;
    while i < |s|
      invariant 0 <= i <= |s| && |t| == i && forall j :: 0 <= j < i ==> t[j] == Low(s[j])
    {
      t := t + [Low(s[i])];
      i := i + 1;
    }
  }

  /** Patterns are stored and a name is looked up. It fails exactly if some level cannot be built;
      otherwise the value is that of the longest pattern that matches the name, and there is none
      exactly if none matches. */
  method FindPattern(ps: seq<Pattern>, name: string, c: Config) returns (ok: bool, value: nat)
    requires GoodPatterns(ps) && Ready(c, MaxKey(NamesOf(ps)))
    ensures Good(NamesOf(ps)) && (ok <==> Buildable(TrieOf(NamesOf(ps)), c))
    ensures ok ==> (value == 0 <==> forall i :: 0 <= i < |ps| ==> !Matches(Lowered(ps[i].text), name))
    ensures ok && value != 0 ==> exists i :: 0 <= i < |ps| && ps[i].value == value && Best(ps, name, i)
  {
    hide Scan, Reverse, KeyOf, DnsLess, Matches, Lowered, Good, AllLower, TrieOf, Buildable, Ready, MaxKey;
    NamesGood(ps);
    var names: seq<Name> := [];
    var i := 0;
    while i < |ps|
      invariant 0 <= i <= |ps| && names == NamesOf(ps)[..i]
    {
      var low := LowerText(ps[i].text);
      var key := ReverseLabels(low);
      names := names + [Name(key, ps[i].value)];
      i := i + 1;
    }
    assert names == NamesOf(ps);
    ScanIsBest(ps, name);
    ok, value := Find(names, name, c);
  }
}
