/** Building nginx's static hash table: the number of buckets, their places in memory, and the
    elements.
 */
module HashBuild {

  import opened Common
  import opened HashTable

  // ---------- how full a bucket gets

  /** The bytes that the first `n` names put into bucket `i`. */
  ghost function Fill(names: seq<Key>, size: nat, n: nat, i: nat): nat
    requires size > 0 && n <= |names|
  {
    if n == 0 then 0
    else Fill(names, size, n - 1, i) + if Goes(names[n - 1], size, i) then EltSize(|names[n - 1].name|) else 0
  }

  lemma {:induction false} FillIsBytes(names: seq<Key>, size: nat, n: nat, i: nat)
    requires size > 0 && n <= |names|
    ensures var items := Items(names, size, n, i);
            Bytes(items, |items|) == Fill(names, size, n, i) && (items == [] <==> Fill(names, size, n, i) == 0)
  {
    hide EltSize, Goes;
    if n > 0 {
      FillIsBytes(names, size, n - 1, i);
      if Goes(names[n - 1], size, i) {
        var items, it := Items(names, size, n - 1, i), Item(Lowered(names[n - 1].name), names[n - 1].value);
        BytesMore(items, it, |items|);
        BytesNext(items + [it], |items|);
      }
    }
  }

  lemma {:induction false} FillUp(names: seq<Key>, size: nat, n: nat, m: nat, i: nat)
    requires size > 0 && n <= m <= |names|
    ensures Fill(names, size, n, i) <= Fill(names, size, m, i)
    decreases m
  {
    if n < m { FillUp(names, size, n, m - 1, i); }
  }

  /** All names fit into `size` buckets of `limit` bytes. */
  ghost predicate Fits(names: seq<Key>, size: nat, limit: nat)
    requires size > 0
  {
    forall i: nat :: i < size ==> Fill(names, size, |names|, i) <= limit
  }

  /** No name is too long for a bucket of `limit` bytes beside the closing pointer. */
  ghost predicate Short(names: seq<Key>, limit: nat) {
    forall n :: 0 <= n < |names| ==> EltSize(|names[n].name|) <= limit
  }

  /** A cache line is a multiple of a pointer. */
  ghost predicate LineOk(line: nat) {
    line > 0 && line % 8 == 0
  }

  /** The 16-bit sums of a bucket do not wrap around: a full bucket and one more element, and a full
      bucket with its closing pointer up to a whole cache line. */
  ghost predicate NoWrap(names: seq<Key>, limit: nat, line: nat) {
    && LineOk(line) && PTR_SIZE + limit + line <= SHORT
    && (forall n :: 0 <= n < |names| && EltSize(|names[n].name|) <= limit ==> limit + EltSize(|names[n].name|) < SHORT)
  }

  // ---------- the number of buckets

  method Clear(test: array<nat>, size: nat, v: nat)
    requires size <= test.Length
    modifies test
    ensures forall i :: 0 <= i < size ==> test[i] == v
  {
    var i := 0;
    while i < size
      invariant 0 <= i <= size && forall j :: 0 <= j < i ==> test[j] == v
    {
      test[i] := v;
      i := i + 1;
    }
  }

  lemma FillNone(names: seq<Key>, size: nat, i: nat)
    requires size > 0
    ensures Fill(names, size, 0, i) == 0
  {}

  lemma FillNext(names: seq<Key>, size: nat, n: nat, i: nat)
    requires size > 0 && n < |names|
    ensures Fill(names, size, n + 1, i) ==
              Fill(names, size, n, i) + (if Goes(names[n], size, i) then EltSize(|names[n].name|) else 0)
  {}

  lemma GoesTo(k: Key, size: nat)
    requires size > 0 && k.present
    ensures k.hash % size < size && forall i :: Goes(k, size, i) <==> i == k.hash % size
  {}

  lemma GoesNone(k: Key, size: nat)
    requires size > 0 && !k.present
    ensures forall i :: !Goes(k, size, i)
  {}

  /** The 16-bit counter of bucket `i` after `n` names. */
  ghost function Sum16(names: seq<Key>, size: nat, n: nat, i: nat): nat
    requires size > 0 && n <= |names|
  {
    if n == 0 then 0
    else if Goes(names[n - 1], size, i) then (Sum16(names, size, n - 1, i) + EltSize(|names[n - 1].name|)) % SHORT
    else Sum16(names, size, n - 1, i)
  }

  /** No counter is ever above the limit, of which the last 16 bits are compared. */
  ghost predicate Passes(names: seq<Key>, size: nat, limit: nat)
    requires size > 0
  {
    forall n: nat, i: nat :: n <= |names| && i < size ==> Sum16(names, size, n, i) <= limit % SHORT
  }

  /** The counters after `n` names, none of which was above the limit so far. */
  ghost predicate Tested(t: seq<nat>, names: seq<Key>, size: nat, limit: nat, n: nat) {
    && 0 < size <= |t| && n <= |names|
    && (forall i: nat :: i < size ==> t[i] == Sum16(names, size, n, i))
    && (forall k: nat, i: nat :: k <= n && i < size ==> Sum16(names, size, k, i) <= limit % SHORT)
  }

  lemma TestedNone(t: seq<nat>, names: seq<Key>, size: nat, limit: nat)
    requires 0 < size <= |t| && forall i :: 0 <= i < size ==> t[i] == 0
    ensures Tested(t, names, size, limit, 0)
  {}

  lemma SumsNext(names: seq<Key>, size: nat, n: nat)
    requires size > 0 && n < |names|
    ensures forall i: nat :: Sum16(names, size, n + 1, i) ==
                               if Goes(names[n], size, i)
                               then (Sum16(names, size, n, i) + EltSize(|names[n].name|)) % SHORT
                               else Sum16(names, size, n, i)
  {
    hide EltSize, Goes;
  }

  lemma TestedNext(t: seq<nat>, names: seq<Key>, size: nat, limit: nat, n: nat)
    requires Tested(t, names, size, limit, n) && n < |names|
    ensures var key := names[n].hash % size;
            var sum := (t[key] + EltSize(|names[n].name|)) % SHORT;
            && (!names[n].present ==> Tested(t, names, size, limit, n + 1))
            && (names[n].present && sum <= limit % SHORT ==> Tested(t[key := sum], names, size, limit, n + 1))
            && (names[n].present && sum > limit % SHORT ==> !Passes(names, size, limit))
  {
    hide EltSize, Goes;
    var key := names[n].hash % size;
    if names[n].present { GoesTo(names[n], size); } else { GoesNone(names[n], size); }
    SumsNext(names, size, n);
  }

  lemma TestedAll(t: seq<nat>, names: seq<Key>, size: nat, limit: nat)
    requires Tested(t, names, size, limit, |names|)
    ensures Passes(names, size, limit)
  {}

  /** Counts the bytes of every bucket and stops at the first that overflows. The sums are 16-bit
      numbers. */
  method Try(names: seq<Key>, size: nat, limit: nat, test: array<nat>) returns (ok: bool)
    requires 0 < size <= test.Length
    modifies test
    ensures ok <==> Passes(names, size, limit)
  {
    hide Tested, EltSize;
    Clear(test, size, 0);
    TestedNone(test[..], names, size, limit);
    var n := 0;
    while n < |names|
      invariant 0 <= n <= |names| && Tested(test[..], names, size, limit, n)
    {
      ghost var t := test[..];
      TestedNext(t, names, size, limit, n);
      if names[n].present {
        var key := names[n].hash % size;
        test[key] := (test[key] + EltSize(|names[n].name|)) % SHORT;
        if test[key] > limit % SHORT { return false; }
        assert test[..] == t[key := test[key]];
      }
      n := n + 1;
    }
    TestedAll(test[..], names, size, limit);
    return true;
  }

  /** A bucket that does not overflow is counted right. */
  lemma {:induction false} SumOfFull(names: seq<Key>, size: nat, n: nat, i: nat)
    requires size > 0 && n <= |names| && Fill(names, size, n, i) < SHORT
    ensures Sum16(names, size, n, i) == Fill(names, size, n, i)
  {
    hide EltSize, Goes;
    if n > 0 { SumOfFull(names, size, n - 1, i); }
  }

  /** A bucket whose counter is never above the limit is counted right, unless an element takes it
      past 16 bits at once. */
  lemma {:induction false} SumOfPassed(names: seq<Key>, size: nat, limit: nat, n: nat, i: nat)
    requires size > 0 && i < size && n <= |names| && Passes(names, size, limit)
    requires forall k :: 0 <= k < |names| ==> limit + EltSize(|names[k].name|) < SHORT
    ensures Sum16(names, size, n, i) == Fill(names, size, n, i)
  {
    hide EltSize, Goes;
    if n > 0 {
      SumOfPassed(names, size, limit, n - 1, i);
      assert Sum16(names, size, n - 1, i) <= limit % SHORT;
    }
  }

  lemma SumNone(names: seq<Key>, size: nat, i: nat)
    requires size > 0
    ensures Sum16(names, size, 0, i) == 0
  {}

  /** The test tells whether the names fit if a full bucket and one more element do not wrap
      around. */
  lemma PassesFits(names: seq<Key>, size: nat, limit: nat)
    requires size > 0 && forall k :: 0 <= k < |names| ==> limit + EltSize(|names[k].name|) < SHORT
    ensures Passes(names, size, limit) <==> Fits(names, size, limit)
  {
    hide EltSize, Goes, Fill, Sum16;
    if Passes(names, size, limit) {
      forall i: nat | i < size ensures Fill(names, size, |names|, i) <= limit {
        SumOfPassed(names, size, limit, |names|, i);
      }
    }
    if Fits(names, size, limit) {
      forall n: nat, i: nat | n <= |names| && i < size ensures Sum16(names, size, n, i) <= limit % SHORT {
        FillUp(names, size, n, |names|, i);
        if |names| > 0 {
          assert limit + EltSize(|names[0].name|) < SHORT;
          SumOfFull(names, size, n, i);
        } else {
          SumNone(names, size, i);
        }
      }
    }
  }

  /** The same name `n` times. */
  ghost function Same(len: nat, n: nat): seq<Key> {
    seq(n, _ => Key(true, seq(len, _ => 'a'), 0, 1))
  }

  lemma {:induction false} SameFill(len: nat, n: nat, k: nat)
    requires k <= n
    ensures Fill(Same(len, n), 1, k, 0) == k * EltSize(len)
    decreases k
  {
    hide EltSize;
    if k > 0 { SameFill(len, n, k - 1); }
  }

  lemma {:induction false} SameSum(len: nat, n: nat, k: nat)
    requires k <= n && EltSize(len) == SHORT
    ensures Sum16(Same(len, n), 1, k, 0) == 0
    decreases k
  {
    hide EltSize;
    if k > 0 { SameSum(len, n, k - 1); }
  }

  /** Two elements of 32768 bytes: together they are counted as none. */
  lemma HalfWrong(limit: nat)
    requires SHORT / 2 <= limit < SHORT
    ensures Short(Same(32758, 2), limit) && Passes(Same(32758, 2), 1, limit) && !Fits(Same(32758, 2), 1, limit)
  {
    var names := Same(32758, 2);
    assert EltSize(32758) == 32768;
    hide EltSize;
    SameFill(32758, 2, 2);
    assert Sum16(names, 1, 1, 0) == 32768;
    assert Sum16(names, 1, 2, 0) == 0;
  }

  /** Elements of 65536 bytes are not counted at all. */
  lemma ManyWrong(limit: nat)
    requires SHORT <= limit
    ensures Short(Same(65526, limit), limit) && Passes(Same(65526, limit), 1, limit)
    ensures !Fits(Same(65526, limit), 1, limit)
  {
    var names := Same(65526, limit);
    assert EltSize(65526) == SHORT;
    hide EltSize;
    SameFill(65526, limit, limit);
    assert Fill(names, 1, |names|, 0) > limit;
    forall n: nat, i: nat | n <= |names| && i < 1 ensures Sum16(names, 1, n, i) <= limit % SHORT {
      SameSum(65526, limit, n);
    }
  }

  /** The test of a size is right for all names that are short enough exactly if a bucket is less
      than 32768 bytes. */
  lemma TestExact(limit: nat)
    ensures limit < SHORT / 2 <==> forall names: seq<Key>, size: nat :: size > 0 && Short(names, limit) ==>
                                     (Passes(names, size, limit) <==> Fits(names, size, limit))
  {
    hide Passes, Fits, EltSize;
    if limit < SHORT / 2 {
      forall names: seq<Key>, size: nat | size > 0 && Short(names, limit)
        ensures Passes(names, size, limit) <==> Fits(names, size, limit)
      {
        PassesFits(names, size, limit);
      }
    } else if limit < SHORT {
      HalfWrong(limit);
    } else {
      ManyWrong(limit);
    }
  }

  /** The first number of buckets from `start` on that the names fit into, or 0. */
  method ChooseSize(names: seq<Key>, start: nat, max: nat, limit: nat, ghost line: nat, test: array<nat>)
    returns (size: nat)
    requires 0 < start && max <= test.Length && Short(names, limit) && NoWrap(names, limit, line)
    modifies test
    ensures size != 0 ==> start <= size < max && Fits(names, size, limit)
    ensures size != 0 ==> forall s :: start <= s < size ==> !Fits(names, s, limit)
    ensures size == 0 ==> forall s :: start <= s < max ==> !Fits(names, s, limit)
  {
    hide Fits, Passes, EltSize, LineOk;
    size := start;
    while size < max
      invariant start <= size && forall s :: start <= s < size ==> !Fits(names, s, limit)
    {
      var ok := Try(names, size, limit, test);
      PassesFits(names, size, limit);
      if ok { return size; }
      size := size + 1;
    }
    return 0;
  }

  // ---------- the places of the buckets

  /** The bytes of bucket `i`: none if it stays empty, and otherwise the elements and the closing
      pointer, up to a whole cache line. */
  ghost function Cap(names: seq<Key>, size: nat, line: nat, i: nat): nat
    requires size > 0 && line > 0
  {
    var f := Fill(names, size, |names|, i);
    if f == 0 then 0 else Align(PTR_SIZE + f, line)
  }

  ghost function Base(names: seq<Key>, size: nat, line: nat, i: nat): nat
    requires size > 0 && line > 0
  {
    if i == 0 then 0 else Base(names, size, line, i - 1) + Cap(names, size, line, i - 1)
  }

  lemma {:induction false} BaseUp(names: seq<Key>, size: nat, line: nat, i: nat, j: nat)
    requires size > 0 && line > 0 && i < j
    ensures Base(names, size, line, i) + Cap(names, size, line, i) <= Base(names, size, line, j)
    decreases j
  {
    hide Cap;
    if i < j - 1 { BaseUp(names, size, line, i, j - 1); }
  }

  lemma MultipleSum(b: nat, c: nat, line: nat)
    requires line > 0 && b % line == 0 && c % line == 0
    ensures (b + c) % line == 0
  {
    assert b + c == (b / line + c / line) * line;
    MulMod(b / line + c / line, line);
  }

  lemma MultipleOf(b: nat, line: nat)
    requires LineOk(line) && b % line == 0
    ensures OnPointer(b)
  {
    var q, e := b / line, line / 8;
    assert b == q * line && line == e * 8;
    assert b == (q * e) * 8;
  }

  lemma {:induction false} BaseAligned(names: seq<Key>, size: nat, line: nat, i: nat)
    requires size > 0 && LineOk(line)
    ensures OnPointer(Base(names, size, line, i)) && Base(names, size, line, i) % line == 0
  {
    if i > 0 {
      BaseAligned(names, size, line, i - 1);
      var b, c := Base(names, size, line, i - 1), Cap(names, size, line, i - 1);
      if c > 0 { AlignUp(PTR_SIZE + Fill(names, size, |names|, i - 1), line); }
      MultipleSum(b, c, line);
      MultipleOf(b + c, line);
    } else {
      MultipleOf(0, line);
    }
  }

  /** Room for the elements and the closing pointer. */
  lemma CapRoom(names: seq<Key>, size: nat, line: nat, i: nat)
    requires size > 0 && line > 0
    ensures var f := Fill(names, size, |names|, i);
            f > 0 ==> f + PTR_SIZE <= Cap(names, size, line, i) < f + PTR_SIZE + line
    ensures Fill(names, size, |names|, i) == 0 ==> Cap(names, size, line, i) == 0
  {
    hide Align;
    AlignUp(PTR_SIZE + Fill(names, size, |names|, i), line);
  }

  ghost predicate Placed(names: seq<Key>, size: nat, line: nat, buckets: seq<int>)
    requires size > 0 && line > 0
  {
    |buckets| == size
    && forall i: nat :: i < size ==>
         buckets[i] == if Fill(names, size, |names|, i) == 0 then -1 else Base(names, size, line, i)
  }

  /** Counts the bytes of every bucket with its closing pointer. */
  method Count(names: seq<Key>, size: nat, limit: nat, test: array<nat>)
    requires 0 < size <= test.Length && Fits(names, size, limit) && PTR_SIZE + limit < SHORT
    modifies test
    ensures forall i: nat :: i < size ==> test[i] == PTR_SIZE + Fill(names, size, |names|, i)
  {
    hide Fill, EltSize, Goes;
    Clear(test, size, PTR_SIZE);
    var n := 0;
    forall i: nat | i < size ensures Fill(names, size, 0, i) == 0 { FillNone(names, size, i); }
    while n < |names|
      invariant 0 <= n <= |names|
      invariant forall i: nat :: i < size ==> test[i] == PTR_SIZE + Fill(names, size, n, i)
    {
      forall i: nat | i < size
        ensures Fill(names, size, n + 1, i) ==
                  Fill(names, size, n, i) + (if Goes(names[n], size, i) then EltSize(|names[n].name|) else 0)
      {
        FillNext(names, size, n, i);
      }
      if names[n].present {
        var key := names[n].hash % size;
        GoesTo(names[n], size);
        FillUp(names, size, n + 1, |names|, key);
        test[key] := (test[key] + EltSize(|names[n].name|)) % SHORT;
      } else {
        GoesNone(names[n], size);
      }
      n := n + 1;
    }
  }

  lemma BaseNone(names: seq<Key>, size: nat, line: nat)
    requires size > 0 && line > 0
    ensures Base(names, size, line, 0) == 0
  {}

  lemma BaseNext(names: seq<Key>, size: nat, line: nat, i: nat)
    requires size > 0 && line > 0
    ensures Base(names, size, line, i + 1) == Base(names, size, line, i) + Cap(names, size, line, i)
    ensures Cap(names, size, line, i) ==
              var f := Fill(names, size, |names|, i); if f == 0 then 0 else Align(PTR_SIZE + f, line)
  {}

  /** Gives every bucket that is not empty its place after the one before it. */
  method PlaceBuckets(names: seq<Key>, size: nat, limit: nat, line: nat, test: array<nat>)
    returns (buckets: array<int>, len: nat)
    requires 0 < size <= test.Length && Fits(names, size, limit) && NoWrap(names, limit, line)
    modifies test
    ensures fresh(buckets) && buckets.Length == size && Placed(names, size, line, buckets[..])
    ensures len == Base(names, size, line, size)
  {
    hide Fill, Align, Base, Cap;
    Count(names, size, limit, test);
    buckets := new int[size](_ => -1);
    len := 0;
    var i := 0;
    BaseNone(names, size, line);
    while i < size
      invariant 0 <= i <= size && len == Base(names, size, line, i)
      invariant forall j: nat :: i <= j < size ==>
                  test[j] == PTR_SIZE + Fill(names, size, |names|, j) && buckets[j] == -1
      invariant forall j: nat :: j < i ==>
                  buckets[j] == if Fill(names, size, |names|, j) == 0 then -1 else Base(names, size, line, j)
    {
      BaseNext(names, size, line, i);
      CapRoom(names, size, line, i);
      if test[i] != PTR_SIZE {
        test[i] := Align(test[i], line) % SHORT;
        buckets[i] := len;
        len := len + test[i];
      }
      i := i + 1;
    }
  }

  // ---------- the elements

  method WritePtr(mem: array<Cell>, o: nat, v: nat)
    requires o + PTR_SIZE <= mem.Length
    modifies mem
    ensures PtrAt(mem[..], o, v)
    ensures forall j :: 0 <= j < mem.Length && !(o <= j < o + PTR_SIZE) ==> mem[j] == old(mem[j])
  {
    mem[o] := Ptr(v);
    var i := 1;
    while i < PTR_SIZE
      invariant 1 <= i <= PTR_SIZE && mem[o] == Ptr(v)
      invariant forall j :: o < j < o + i ==> mem[j] == Tail
      invariant forall j :: 0 <= j < mem.Length && !(o <= j < o + PTR_SIZE) ==> mem[j] == old(mem[j])
    {
      mem[o + i] := Tail;
      i := i + 1;
    }
  }

  /** Writes an element: the pointer, the length and the name in lower case. */
  method WriteElt(mem: array<Cell>, o: nat, name: string, value: nat)
    requires o + EltSize(|name|) <= mem.Length && |name| < SHORT
    modifies mem
    ensures EltAt(mem[..], o, Item(Lowered(name), value))
    ensures forall j :: 0 <= j < mem.Length && !(o <= j < o + EltSize(|name|)) ==> mem[j] == old(mem[j])
  {
    hide EltSize;
    WritePtr(mem, o, value);
    mem[o + 8] := Len(|name| % SHORT);
    mem[o + 9] := Tail;
    var i := 0;
    while i < |name|
      invariant 0 <= i <= |name| && PtrAt(mem[..], o, value) && mem[o + 8] == Len(|name|) && mem[o + 9] == Tail
      invariant forall j :: 0 <= j < i ==> mem[o + 10 + j] == Ch(Low(name[j]))
      invariant forall j :: 0 <= j < mem.Length && !(o <= j < o + EltSize(|name|)) ==> mem[j] == old(mem[j])
    {
      mem[o + 10 + i] := Ch(Low(name[i]));
      i := i + 1;
    }
  }

  /** Every bucket holds its elements of the first `n` names. */
  ghost predicate Filled(names: seq<Key>, buckets: seq<int>, m: seq<Cell>, n: nat)
    requires |buckets| > 0 && n <= |names|
  {
    forall i: nat :: i < |buckets| && buckets[i] >= 0 ==> Packed(m, buckets[i], Items(names, |buckets|, n, i))
  }

  /** What is written into a bucket stays in it. */
  lemma Reach(names: seq<Key>, size: nat, line: nat, n: nat, i: nat)
    requires size > 0 && line > 0 && n <= |names|
    ensures Fill(names, size, n, i) <= Fill(names, size, |names|, i) <= Cap(names, size, line, i)
  {
    FillUp(names, size, n, |names|, i);
    CapRoom(names, size, line, i);
  }

  lemma FilledBucket(names: seq<Key>, size: nat, line: nat, m: seq<Cell>, w: seq<Cell>, n: nat, key: nat, i: nat)
    requires size > 0 && line > 0 && n < |names| && Goes(names[n], size, key) && key < size && i < size
    requires Fill(names, size, |names|, i) > 0 && Packed(m, Base(names, size, line, i), Items(names, size, n, i))
    requires |w| == |m|
    requires var o := Base(names, size, line, key) + Fill(names, size, n, key);
             && EltAt(w, o, Item(Lowered(names[n].name), names[n].value))
             && forall j :: 0 <= j < |m| && !(o <= j < o + EltSize(|names[n].name|)) ==> w[j] == m[j]
    ensures Packed(w, Base(names, size, line, i), Items(names, size, n + 1, i))
  {
    hide EltAt, Packed, Fill, Base, EltSize, Bytes, Cap;
    var items := Items(names, size, n, i);
    FillIsBytes(names, size, n, i);
    Reach(names, size, line, n, i);
    Reach(names, size, line, n, key);
    FillNext(names, size, n, key);
    FillUp(names, size, n + 1, |names|, key);
    if i < key { BaseUp(names, size, line, i, key); }
    if key < i { BaseUp(names, size, line, key, i); }
    PackedFrame(m, w, Base(names, size, line, i), items);
    if i == key { PackedMore(w, Base(names, size, line, i), items, Item(Lowered(names[n].name), names[n].value)); }
  }

  /** Another element in its bucket leaves the other buckets alone. */
  lemma FilledNext(names: seq<Key>, size: nat, line: nat, buckets: seq<int>, m: seq<Cell>, w: seq<Cell>, n: nat,
                   key: nat)
    requires size > 0 && line > 0 && Placed(names, size, line, buckets) && n < |names| && Goes(names[n], size, key)
    requires key < size
    requires Filled(names, buckets, m, n) && |w| == |m|
    requires var o := Base(names, size, line, key) + Fill(names, size, n, key);
             && EltAt(w, o, Item(Lowered(names[n].name), names[n].value))
             && forall j :: 0 <= j < |m| && !(o <= j < o + EltSize(|names[n].name|)) ==> w[j] == m[j]
    ensures Filled(names, buckets, w, n + 1)
  {
    hide EltAt, Packed, Fill, Base, EltSize, Bytes;
    forall i: nat | i < size && buckets[i] >= 0 ensures Packed(w, buckets[i], Items(names, size, n + 1, i)) {
      FilledBucket(names, size, line, m, w, n, key, i);
    }
  }

  /** The place of the next element is in the memory of its bucket. */
  lemma InBucket(names: seq<Key>, size: nat, line: nat, limit: nat, n: nat, key: nat)
    requires size > 0 && line > 0 && n < |names| && key < size && Goes(names[n], size, key) && Fits(names, size, limit)
    requires limit < SHORT
    ensures Fill(names, size, |names|, key) > 0
    ensures Base(names, size, line, key) + Fill(names, size, n, key) + EltSize(|names[n].name|)
            <= Base(names, size, line, size)
    ensures Fill(names, size, n, key) + EltSize(|names[n].name|) <= limit && |names[n].name| < SHORT
  {
    FillNext(names, size, n, key);
    FillUp(names, size, n + 1, |names|, key);
    CapRoom(names, size, line, key);
    BaseUp(names, size, line, key, size);
  }

  lemma FilledSame(names: seq<Key>, buckets: seq<int>, m: seq<Cell>, n: nat)
    requires |buckets| > 0 && n < |names| && Filled(names, buckets, m, n) && !names[n].present
    ensures Filled(names, buckets, m, n + 1)
  {}

  lemma PlacedAt(names: seq<Key>, size: nat, line: nat, buckets: seq<int>, key: nat)
    requires size > 0 && line > 0 && Placed(names, size, line, buckets) && key < size
    requires Fill(names, size, |names|, key) > 0
    ensures key < |buckets| && buckets[key] == Base(names, size, line, key)
  {}

  /** The counters of the first buckets hold what the first `n` keys need. */
  ghost predicate Counts(t: seq<nat>, names: seq<Key>, size: nat, n: nat) {
    0 < size <= |t| && n <= |names| && forall i: nat :: i < size ==> t[i] == Fill(names, size, n, i)
  }

  lemma CountsNone(t: seq<nat>, names: seq<Key>, size: nat)
    requires 0 < size <= |t| && forall i :: 0 <= i < size ==> t[i] == 0
    ensures Counts(t, names, size, 0)
  {}

  lemma CountsNext(t: seq<nat>, names: seq<Key>, size: nat, n: nat)
    requires Counts(t, names, size, n) && n < |names|
    ensures var key := names[n].hash % size;
            && t[key] == Fill(names, size, n, key)
            && Counts(if names[n].present then t[key := t[key] + EltSize(|names[n].name|)] else t, names, size, n + 1)
  {
    hide Fill, EltSize;
    forall i: nat | i < size
      ensures Fill(names, size, n + 1, i) ==
                Fill(names, size, n, i) + (if Goes(names[n], size, i) then EltSize(|names[n].name|) else 0)
    {
      FillNext(names, size, n, i);
    }
  }

  lemma FilledNone(names: seq<Key>, buckets: seq<int>, m: seq<Cell>)
    requires |buckets| > 0
    ensures Filled(names, buckets, m, 0)
  {}

  method FillBuckets(names: seq<Key>, size: nat, ghost line: nat, ghost limit: nat, buckets: array<int>,
                     test: array<nat>, mem: array<Cell>)
    requires 0 < size <= test.Length && line > 0 && buckets.Length == size && Placed(names, size, line, buckets[..])
    requires mem.Length == Base(names, size, line, size) && Fits(names, size, limit) && limit < SHORT
    modifies test, mem
    ensures Filled(names, buckets[..], mem[..], |names|) && buckets[..] == old(buckets[..])
    ensures Counts(test[..], names, size, |names|)
  {
    hide Fill, EltSize, Goes, Base, Cap, EltAt, Filled, Counts, Placed, Fits;
    Clear(test, size, 0);
    var n := 0;
    CountsNone(test[..], names, size);
    FilledNone(names, buckets[..], mem[..]);
    while n < |names|
      invariant 0 <= n <= |names| && buckets[..] == old(buckets[..])
      invariant Filled(names, buckets[..], mem[..], n) && Counts(test[..], names, size, n)
    {
      ghost var m, t := mem[..], test[..];
      CountsNext(t, names, size, n);
      if names[n].present {
        var key := names[n].hash % size;
        GoesTo(names[n], size);
        InBucket(names, size, line, limit, n, key);
        PlacedAt(names, size, line, buckets[..], key);
        WriteElt(mem, buckets[key] + test[key], names[n].name, names[n].value);
        FilledNext(names, size, line, buckets[..], m, mem[..], n, key);
        test[key] := (test[key] + EltSize(|names[n].name|)) % SHORT;
        assert test[..] == t[key := t[key] + EltSize(|names[n].name|)];
      } else {
        FilledSame(names, buckets[..], m, n);
      }
      n := n + 1;
    }
  }

  // ---------- the closing pointers

  ghost predicate Ended(names: seq<Key>, buckets: seq<int>, m: seq<Cell>, n: nat)
    requires |buckets| > 0 && n <= |buckets|
  {
    forall i: nat :: i < n && buckets[i] >= 0 ==> PtrAt(m, buckets[i] + Fill(names, |buckets|, |names|, i), 0)
  }

  /** The closing pointer of a bucket is behind its elements and in no other bucket. */
  lemma EndApart(names: seq<Key>, size: nat, line: nat, k: nat, i: nat)
    requires size > 0 && line > 0 && k < size && i < size
    requires Fill(names, size, |names|, k) > 0 && Fill(names, size, |names|, i) > 0
    ensures i < k ==>
              Base(names, size, line, i) + Fill(names, size, |names|, i) + PTR_SIZE <= Base(names, size, line, k)
    ensures k < i ==>
              Base(names, size, line, k) + Fill(names, size, |names|, k) + PTR_SIZE <= Base(names, size, line, i)
    ensures Base(names, size, line, k) + Fill(names, size, |names|, k) + PTR_SIZE <= Base(names, size, line, size)
  {
    hide Fill, Base, Cap;
    CapRoom(names, size, line, k);
    CapRoom(names, size, line, i);
    if i < k { BaseUp(names, size, line, i, k); }
    if k < i { BaseUp(names, size, line, k, i); }
    BaseUp(names, size, line, k, size);
  }

  lemma EndedNext(names: seq<Key>, size: nat, line: nat, buckets: seq<int>, m: seq<Cell>, w: seq<Cell>, k: nat)
    requires size > 0 && line > 0 && Placed(names, size, line, buckets) && k < size && buckets[k] >= 0
    requires Filled(names, buckets, m, |names|) && Ended(names, buckets, m, k) && |w| == |m|
    requires var o := Base(names, size, line, k) + Fill(names, size, |names|, k);
             PtrAt(w, o, 0) && forall j :: 0 <= j < |m| && !(o <= j < o + PTR_SIZE) ==> w[j] == m[j]
    ensures Filled(names, buckets, w, |names|) && Ended(names, buckets, w, k + 1)
  {
    hide EltAt, Packed, Fill, Base, EltSize, Bytes, Cap;
    forall i: nat | i < size && buckets[i] >= 0 ensures Packed(w, buckets[i], Items(names, size, |names|, i)) {
      FillIsBytes(names, size, |names|, i);
      EndApart(names, size, line, k, i);
      PackedFrame(m, w, buckets[i], Items(names, size, |names|, i));
    }
    forall i: nat | i < k && buckets[i] >= 0 ensures PtrAt(w, buckets[i] + Fill(names, size, |names|, i), 0) {
      EndApart(names, size, line, k, i);
    }
  }

  method EndBuckets(names: seq<Key>, size: nat, ghost line: nat, buckets: array<int>, test: array<nat>,
                    mem: array<Cell>)
    requires 0 < size <= test.Length && line > 0 && buckets.Length == size && Placed(names, size, line, buckets[..])
    requires mem.Length == Base(names, size, line, size) && Filled(names, buckets[..], mem[..], |names|)
    requires forall i: nat :: i < size ==> test[i] == Fill(names, size, |names|, i)
    modifies mem
    ensures Filled(names, buckets[..], mem[..], |names|) && Ended(names, buckets[..], mem[..], size)
  {
    hide Fill, Base, Cap, Filled, PtrAt;
    var i := 0;
    while i < size
      invariant 0 <= i <= size && Filled(names, buckets[..], mem[..], |names|) && Ended(names, buckets[..], mem[..], i)
    {
      if buckets[i] >= 0 {
        EndApart(names, size, line, i, i);
        ghost var m := mem[..];
        WritePtr(mem, buckets[i] + test[i], 0);
        EndedNext(names, size, line, buckets[..], m, mem[..], i);
      }
      i := i + 1;
    }
  }

  // ---------- ngx_hash_init

  datatype Hash = Hash(buckets: seq<int>, mem: seq<Cell>) | NoHash

  /** The least number of buckets tried. */
  function StartSize(n: nat, limit: nat, max: nat): (s: nat)
    requires limit >= 16
    ensures s > 0
  {
    var s := Quotient(n, limit / 16);
    if max > 10000 && n > 0 && Quotient(max, n) < 100 then max - 1000 else if s == 0 then 1 else s
  }

  lemma {:induction false} ItemValues(names: seq<Key>, size: nat, n: nat, i: nat)
    requires size > 0 && n <= |names| && forall k :: 0 <= k < |names| && names[k].present ==> names[k].value != 0
    ensures forall k :: 0 <= k < |Items(names, size, n, i)| ==> Items(names, size, n, i)[k].value != 0
  {
    if n > 0 {
      ItemValues(names, size, n - 1, i);
      var before := Items(names, size, n - 1, i);
      var last := names[n - 1];
      if Goes(last, size, i) {
        assert last.value != 0;
        assert Items(names, size, n, i) == before + [Item(Lowered(last.name), last.value)];
      } else {
        assert Items(names, size, n, i) == before;
      }
    }
  }

  lemma BuiltIs(names: seq<Key>, size: nat, line: nat, buckets: seq<int>, m: seq<Cell>)
    requires size > 0 && LineOk(line) && Placed(names, size, line, buckets)
    requires Filled(names, buckets, m, |names|) && Ended(names, buckets, m, size)
    requires forall n :: 0 <= n < |names| && names[n].present ==> names[n].value != 0
    ensures Built(names, m, buckets)
  {
    hide Fill, Base, Packed, PtrAt, OnPointer, Bytes;
    forall i: nat | i < size ensures BucketOk(m, buckets[i], Items(names, size, |names|, i)) {
      FillIsBytes(names, size, |names|, i);
      BaseAligned(names, size, line, i);
      ItemValues(names, size, |names|, i);
    }
  }

  method Lay(names: seq<Key>, size: nat, limit: nat, line: nat, test: array<nat>)
    returns (buckets: array<int>, mem: array<Cell>)
    requires 0 < size <= test.Length && Fits(names, size, limit) && NoWrap(names, limit, line)
    requires forall n :: 0 <= n < |names| && names[n].present ==> names[n].value != 0
    modifies test
    ensures Built(names, mem[..], buckets[..]) && buckets.Length == size
  {
    hide Placed, Built, Filled, Ended, Base;
    var len;
    buckets, len := PlaceBuckets(names, size, limit, line, test);
    mem := new Cell[len](_ => Blank);
    FillBuckets(names, size, line, limit, buckets, test, mem);
    EndBuckets(names, size, line, buckets, test, mem);
    BuiltIs(names, size, line, buckets[..], mem[..]);
  }

  method Init(names: seq<Key>, bucketSize: nat, max: nat, line: nat) returns (h: Hash)
    requires 24 <= bucketSize && NoWrap(names, bucketSize - PTR_SIZE, line)
    requires forall n :: 0 <= n < |names| && names[n].present ==> names[n].value != 0
    ensures h.Hash? ==> Built(names, h.mem, h.buckets)
    ensures var limit := bucketSize - PTR_SIZE;
            h.NoHash? <==>
              !Short(names, limit) || forall s :: StartSize(|names|, limit, max) <= s < max ==> !Fits(names, s, limit)
  {
    hide Fits, Filled, Ended, Placed, Built, StartSize;
    var n := 0;
    while n < |names|
      invariant 0 <= n <= |names| && forall k :: 0 <= k < n ==> EltSize(|names[k].name|) <= bucketSize - PTR_SIZE
    {
      if bucketSize < EltSize(|names[n].name|) + PTR_SIZE { return NoHash; }
      n := n + 1;
    }
    var test := new nat[max](_ => 0);
    var limit := bucketSize - PTR_SIZE;
    var size := ChooseSize(names, StartSize(|names|, limit, max), max, limit, line, test);
    if size == 0 { return NoHash; }
    assert Fits(names, size, limit);
    var buckets, mem := Lay(names, size, limit, line, test);
    return Hash(buckets[..], mem[..]);
  }

  // ---------- what a search finds

  /** No two names are the same in lower case. */
  ghost predicate Different(names: seq<Key>) {
    forall j, k :: 0 <= j < k < |names| && names[j].present && names[k].present ==>
      Lowered(names[j].name) != Lowered(names[k].name)
  }

  /** The key under a name in lower case, among the first `n`; `n` if there is none. */
  ghost predicate Stored(names: seq<Key>, name: string, k: nat) {
    k < |names| && names[k].present && Lowered(names[k].name) == name
  }

  lemma {:induction false} ItemFrom(names: seq<Key>, size: nat, n: nat, i: nat, j: nat)
    requires size > 0 && n <= |names| && j < |Items(names, size, n, i)|
    ensures exists k: nat :: k < n && names[k].present && Goes(names[k], size, i)
                             && Items(names, size, n, i)[j] == Item(Lowered(names[k].name), names[k].value)
  {
    if n > 0 {
      if j < |Items(names, size, n - 1, i)| {
        ItemFrom(names, size, n - 1, i, j);
      } else {
        var k := n - 1;
        assert names[k].present && Goes(names[k], size, i);
      }
    }
  }

  lemma {:induction false} FirstOf(names: seq<Key>, size: nat, n: nat, i: nat, name: string, j: nat)
    requires size > 0 && n <= |names| && j <= |Items(names, size, n, i)|
    ensures var v := First(Items(names, size, n, i), j, name);
            v == 0 || exists k: nat :: k < n && Stored(names, name, k) && Goes(names[k], size, i) && v == names[k].value
    decreases |Items(names, size, n, i)| - j
  {
    var items := Items(names, size, n, i);
    if j < |items| {
      if items[j].name == name { ItemFrom(names, size, n, i, j); } else { FirstOf(names, size, n, i, name, j + 1); }
    }
  }

  lemma {:induction false} ItemOf(names: seq<Key>, size: nat, n: nat, i: nat, k: nat) returns (j: nat)
    requires size > 0 && k < n <= |names| && Goes(names[k], size, i)
    ensures var items := Items(names, size, n, i);
            j < |items| && items[j] == Item(Lowered(names[k].name), names[k].value)
  {
    if k == n - 1 { j := |Items(names, size, n - 1, i)|; } else { j := ItemOf(names, size, n - 1, i, k); }
  }

  lemma {:induction false} FirstFinds(items: seq<Item>, from: nat, j: nat, name: string)
    requires from <= j < |items| && items[j].name == name && forall k :: 0 <= k < |items| ==> items[k].value != 0
    ensures First(items, from, name) != 0
    decreases |items| - from
  {
    if items[from].name != name { FirstFinds(items, from + 1, j, name); }
  }

  /** The search of a table: as in a finite map from the names in lower case, the value of a name
      that is stored and null for any other. */
  method Find(ghost names: seq<Key>, h: Hash, key: nat, name: string) returns (value: nat)
    requires h.Hash? && Built(names, h.mem, h.buckets) && Different(names)
    requires forall n :: 0 <= n < |names| && names[n].present ==> names[n].value != 0
    requires forall k: nat :: Stored(names, name, k) ==> names[k].hash == key
    ensures forall k: nat :: Stored(names, name, k) ==> value == names[k].value
    ensures (forall k: nat :: !Stored(names, name, k)) ==> value == 0
  {
    hide BucketOk, First, Items;
    var size := |h.buckets|;
    var i := key % size;
    ghost var items := Items(names, size, |names|, i);
    assert BucketOk(h.mem, h.buckets[i], items);
    value := FindIn(h.mem, h.buckets[i], name, items);
    FirstOf(names, size, |names|, i, name, 0);
    forall k: nat | Stored(names, name, k) ensures value == names[k].value {
      var j := ItemOf(names, size, |names|, i, k);
      ItemValues(names, size, |names|, i);
      FirstFinds(items, 0, j, name);
    }
  }
}
