/** nginx's static hash table: elements packed one after another into buckets of bytes, each
    bucket closed by a null pointer, and the search that steps from element to element.
 */
module HashTable {

  import opened Common

  const PTR_SIZE: nat := 8
  const SHORT: nat := 65536

  /** A name to store, unless its data is missing, with its hash and a pointer that is not null. */
  datatype Key = Key(present: bool, name: string, hash: nat, value: nat)

  datatype Item = Item(name: string, value: nat)

  /** A byte of the memory of the elements, by what was written there: the first byte of a pointer
      or of a length, another byte of one of them, or a character. */
  datatype Cell = Blank | Ptr(value: nat) | Len(len: nat) | Tail | Ch(c: char)

  function Align(x: nat, a: nat): (y: nat)
    requires a > 0
  {
    (x + (a - 1)) / a * a
  }

  lemma AlignUp(x: nat, a: nat)
    requires a > 0
    ensures x <= Align(x, a) < x + a && Align(x, a) % a == 0
  {
    var q := (x + (a - 1)) / a;
    assert q * a <= x + (a - 1) < q * a + a;
    MulMod(q, a);
  }

  /** The bytes of an element: pointer, length and name, padded to the next pointer. */
  function EltSize(len: nat): (s: nat)
    ensures s >= PTR_SIZE + 2 + len
  {
    PTR_SIZE + Align(len + 2, PTR_SIZE)
  }

  ghost predicate OnPointer(o: int) { o % 8 == 0 }

  lemma EltAligned(o: nat, len: nat)
    requires OnPointer(o)
    ensures OnPointer(o + EltSize(len)) && EltSize(len) >= 16
  {}

  function Low(c: char): char {
    if 'A' <= c <= 'Z' then (c as int + 32) as char else c
  }

  function Lowered(s: string): (l: string)
    ensures |l| == |s|
  {
    seq(|s|, i requires 0 <= i < |s| => Low(s[i]))
  }

  // ---------- what a bucket is to hold

  ghost predicate Goes(k: Key, size: nat, i: nat)
    requires size > 0
  {
    k.present && k.hash % size == i
  }

  /** The first `n` names that belong to bucket `i`, in order. */
  ghost function Items(names: seq<Key>, size: nat, n: nat, i: nat): seq<Item>
    requires size > 0 && n <= |names|
  {
    if n == 0 then []
    else if Goes(names[n - 1], size, i) then
      Items(names, size, n - 1, i) + [Item(Lowered(names[n - 1].name), names[n - 1].value)]
    else Items(names, size, n - 1, i)
  }

  /** The bytes of the first `k` items. */
  ghost function Bytes(items: seq<Item>, k: nat): nat
    requires k <= |items|
  {
    if k == 0 then 0 else Bytes(items, k - 1) + EltSize(|items[k - 1].name|)
  }

  lemma {:induction false} BytesMore(items: seq<Item>, it: Item, k: nat)
    requires k <= |items|
    ensures Bytes(items + [it], k) == Bytes(items, k)
  {
    if k > 0 { BytesMore(items, it, k - 1); }
  }

  lemma BytesNext(items: seq<Item>, k: nat)
    requires k < |items|
    ensures Bytes(items, k + 1) == Bytes(items, k) + EltSize(|items[k].name|)
  {}

  lemma {:induction false} BytesAligned(at: nat, items: seq<Item>, k: nat)
    requires k <= |items| && OnPointer(at)
    ensures OnPointer(at + Bytes(items, k))
  {
    hide OnPointer, EltSize;
    if k > 0 {
      BytesAligned(at, items, k - 1);
      EltAligned(at + Bytes(items, k - 1), |items[k - 1].name|);
    }
  }

  lemma {:induction false} BytesUp(items: seq<Item>, k: nat, n: nat)
    requires k <= n <= |items|
    ensures Bytes(items, k) <= Bytes(items, n)
    ensures k < n ==> Bytes(items, k) + EltSize(|items[k].name|) <= Bytes(items, n)
  {
    if k < n { BytesUp(items, k, n - 1); }
  }

  // ---------- memory

  ghost predicate PtrAt(m: seq<Cell>, o: nat, v: nat) {
    o + PTR_SIZE <= |m| && m[o] == Ptr(v) && forall j :: o < j < o + PTR_SIZE ==> m[j] == Tail
  }

  ghost predicate EltAt(m: seq<Cell>, o: nat, it: Item) {
    && PtrAt(m, o, it.value) && o + EltSize(|it.name|) <= |m|
    && m[o + 8] == Len(|it.name|) && m[o + 9] == Tail
    && forall j :: 0 <= j < |it.name| ==> m[o + 10 + j] == Ch(it.name[j])
  }

  /** The elements stand one after another from `o` on. */
  ghost predicate Packed(m: seq<Cell>, o: nat, items: seq<Item>) {
    forall k: nat :: k < |items| ==> EltAt(m, o + Bytes(items, k), items[k])
  }

  lemma EltFrame(m: seq<Cell>, w: seq<Cell>, o: nat, it: Item)
    requires EltAt(m, o, it) && |w| == |m| && forall j :: o <= j < o + EltSize(|it.name|) && j < |m| ==> w[j] == m[j]
    ensures EltAt(w, o, it)
  {}

  lemma {:induction false} PackedFrame(m: seq<Cell>, w: seq<Cell>, o: nat, items: seq<Item>)
    requires Packed(m, o, items) && |w| == |m|
    requires forall j :: o <= j < o + Bytes(items, |items|) && j < |m| ==> w[j] == m[j]
    ensures Packed(w, o, items)
  {
    hide Bytes, EltAt;
    forall k: nat | k < |items| ensures EltAt(w, o + Bytes(items, k), items[k]) {
      BytesUp(items, k, |items|);
      EltFrame(m, w, o + Bytes(items, k), items[k]);
    }
  }

  lemma {:induction false} PackedMore(m: seq<Cell>, o: nat, items: seq<Item>, it: Item)
    requires Packed(m, o, items) && EltAt(m, o + Bytes(items, |items|), it)
    ensures Packed(m, o, items + [it])
  {
    hide EltAt, Bytes;
    var l := items + [it];
    forall k: nat | k < |l| ensures EltAt(m, o + Bytes(l, k), l[k]) {
      BytesMore(items, it, k);
    }
  }

  // ---------- ngx_hash_find

  ghost predicate BucketOk(m: seq<Cell>, at: int, items: seq<Item>) {
    if at < 0 then items == []
    else OnPointer(at) && Packed(m, at, items) && PtrAt(m, at + Bytes(items, |items|), 0)
         && forall k :: 0 <= k < |items| ==> items[k].value != 0
  }

  /** A table: where each bucket starts in memory, or -1. */
  ghost predicate Built(names: seq<Key>, m: seq<Cell>, buckets: seq<int>) {
    && |buckets| > 0
    && forall i: nat :: i < |buckets| ==> BucketOk(m, buckets[i], Items(names, |buckets|, |names|, i))
  }

  /** The value of the first item of a name from the `k`-th on, or 0. */
  ghost function First(items: seq<Item>, k: nat, name: string): nat
    requires k <= |items|
    decreases |items| - k
  {
    if k == |items| then 0 else if items[k].name == name then items[k].value else First(items, k + 1, name)
  }

  /** Whether the name of the element at `o` is `name`. */
  method SameName(m: seq<Cell>, o: nat, name: string, ghost it: Item) returns (same: bool)
    requires EltAt(m, o, it)
    ensures same <==> it.name == name
  {
    var len := m[o + 8].len;
    if len != |name| { return false; }
    var i := 0;
    while i < len
      invariant 0 <= i <= len && forall j :: 0 <= j < i ==> it.name[j] == name[j]
    {
      if m[o + 10 + i] != Ch(name[i]) { return false; }
      i := i + 1;
    }
    return true;
  }

  /** The step from the end of a name lands on the next element. */
  lemma NextElt(o: nat, len: nat)
    requires o % 8 == 0
    ensures Align(o + 10 + len, PTR_SIZE) == o + EltSize(len)
  {}

  /** The place after the name of an element, padded to the next pointer. */
  method Advance(m: seq<Cell>, o: nat, ghost it: Item) returns (next: nat)
    requires EltAt(m, o, it) && OnPointer(o)
    ensures next == o + EltSize(|it.name|)
  {
    NextElt(o, m[o + 8].len);
    next := Align(o + 10 + m[o + 8].len, PTR_SIZE);
  }

  lemma NoBucket(m: seq<Cell>, at: int, items: seq<Item>, name: string)
    requires at < 0 && BucketOk(m, at, items)
    ensures First(items, 0, name) == 0
  {}

  lemma NoBytes(items: seq<Item>)
    ensures Bytes(items, 0) == 0
  {}

  /** What stands at the `k`-th place of a bucket. */
  lemma BucketStep(m: seq<Cell>, at: int, items: seq<Item>, k: nat)
    requires at >= 0 && BucketOk(m, at, items) && k <= |items|
    ensures var o := at + Bytes(items, k);
            && OnPointer(o) && o + PTR_SIZE <= |m| && m[o].Ptr? && (m[o] == Ptr(0) <==> k == |items|)
            && (k < |items| ==> && EltAt(m, o, items[k]) && m[o].value == items[k].value
                                && Bytes(items, k + 1) == Bytes(items, k) + EltSize(|items[k].name|))
  {
    hide OnPointer, EltSize, Bytes;
    BytesAligned(at, items, k);
    if k < |items| {
      BytesNext(items, k);
      assert EltAt(m, at + Bytes(items, k), items[k]);
    }
  }

  method FindIn(m: seq<Cell>, at: int, name: string, ghost items: seq<Item>) returns (value: nat)
    requires BucketOk(m, at, items)
    ensures value == First(items, 0, name)
  {
    hide BucketOk, Bytes, EltAt, EltSize, OnPointer;
    if at < 0 {
      NoBucket(m, at, items, name);
      return 0;
    }
    var o: nat := at;
    ghost var k: nat := 0;
    NoBytes(items);
    BucketStep(m, at, items, 0);
    while m[o] != Ptr(0)
      invariant k <= |items| && o == at + Bytes(items, k) && First(items, k, name) == First(items, 0, name)
      invariant o < |m| && m[o].Ptr? && (m[o] == Ptr(0) <==> k == |items|)
      decreases |items| - k
    {
      BucketStep(m, at, items, k);
      var same := SameName(m, o, name, items[k]);
      if same { return m[o].value; }
      o := Advance(m, o, items[k]);
      k := k + 1;
      BucketStep(m, at, items, k);
    }
    return 0;
  }
}
