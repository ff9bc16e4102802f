/** Every JSON text nested less deep than the limit is accepted: the automaton reads any
    tree's text from a state that awaits it to one behind it, with the mode stack as before.
 */
module JsonComplete {
  import opened Common
  import opened JsonTable
  import opened JsonGrammar

  ghost predicate Runs(conf: Conf, depth: nat, t: Text, conf': Conf) {
    FeedAll(conf, depth, t) == Some(conf')
  }

  lemma {:induction false} RunsCat(conf: Conf, depth: nat, a: Text, conf': Conf, b: Text, conf'': Conf)
    requires Runs(conf, depth, a, conf') && Runs(conf', depth, b, conf'')
    ensures Runs(conf, depth, a + b, conf'')
    decreases |b|
  {
    hide Feed, FeedAll;
    if b == [] {
      FeedNone(conf', depth);
      assert a + b == a;
    } else {
      var init := b[..|b| - 1];
      FeedLast(conf', depth, b);
      FeedLast(conf, depth, a + b);
      RunsCat(conf, depth, a, conf', init, FeedAll(conf', depth, init).value);
      assert (a + b)[..|a + b| - 1] == a + init;
    }
  }

  lemma RunsOne(conf: Conf, depth: nat, c: int, conf': Conf)
    requires Feed(conf, depth, c) == Some(conf')
    ensures Runs(conf, depth, [c], conf')
  {
    hide Feed, FeedAll;
    FeedLast(conf, depth, [c]);
    FeedNone(conf, depth);
  }

  lemma RunsThen(conf: Conf, depth: nat, a: Text, conf': Conf, c: int, conf'': Conf)
    requires Runs(conf, depth, a, conf') && Feed(conf', depth, c) == Some(conf'')
    ensures Runs(conf, depth, a + [c], conf'')
  {
    hide Feed, FeedAll;
    FeedLast(conf, depth, a + [c]);
    assert (a + [c])[..|a|] == a;
  }

  lemma RunsNone(conf: Conf, depth: nat)
    ensures Runs(conf, depth, [], conf)
  {
    hide FeedAll;
    FeedNone(conf, depth);
  }

  // ---------- runs within one state

  predicate WsLoop(s: State) { s.GO? || s.OK? || s.OB? || s.KE? || s.CO? || s.VA? || s.AR? }

  /** States in which a value is complete. */
  predicate Behind(s: State) { s.OK? || s.ZE? || s.IN? || s.FR? || s.E3? }

  lemma WsClass(c: int)
    requires IsWs(c)
    ensures ClassOf(c) == Some(if c == 32 then Space else White)
  {}

  lemma WsFeed(s: State, m: seq<Mode>, depth: nat, c: int)
    requires IsWs(c)
    ensures WsLoop(s) ==> Feed(Conf(s, m), depth, c) == Some(Conf(s, m))
    ensures Behind(s) ==> Feed(Conf(s, m), depth, c) == Some(Conf(OK, m))
  {
    hide ClassOf;
    WsClass(c);
  }

  lemma {:induction false} WsRuns(s: State, m: seq<Mode>, depth: nat, ws: Text)
    requires AllWs(ws) && WsLoop(s)
    ensures Runs(Conf(s, m), depth, ws, Conf(s, m))
    decreases |ws|
  {
    if ws != [] {
      var init, c := ws[..|ws| - 1], ws[|ws| - 1];
      WsRuns(s, m, depth, init);
      WsFeed(s, m, depth, c);
    }
  }

  lemma WsBehind(s: State, m: seq<Mode>, depth: nat, ws: Text) returns (e: State)
    requires AllWs(ws) && Behind(s)
    ensures Behind(e) && (s.OK? ==> e.OK?) && Runs(Conf(s, m), depth, ws, Conf(e, m))
  {
    if ws == [] {
      e := s;
    } else {
      e := OK;
      var c, rest := ws[0], ws[1..];
      WsFeed(s, m, depth, c);
      RunsOne(Conf(s, m), depth, c, Conf(OK, m));
      WsRuns(OK, m, depth, rest);
      RunsCat(Conf(s, m), depth, [c], Conf(OK, m), rest, Conf(OK, m));
      assert ws == [c] + rest;
    }
  }

  lemma DigitFeed(s: State, m: seq<Mode>, depth: nat, c: int)
    requires IsDigit(c)
    ensures s.IN? || s.FR? || s.E3? ==> Feed(Conf(s, m), depth, c) == Some(Conf(s, m))
    ensures s.E1? || s.E2? ==> Feed(Conf(s, m), depth, c) == Some(Conf(E3, m))
  {}

  lemma {:induction false} DigitsRun(s: State, m: seq<Mode>, depth: nat, digits: Text)
    requires AllDigits(digits) && (s.IN? || s.FR? || s.E3?)
    ensures Runs(Conf(s, m), depth, digits, Conf(s, m))
    decreases |digits|
  {
    if digits != [] {
      DigitsRun(s, m, depth, digits[..|digits| - 1]);
      DigitFeed(s, m, depth, digits[|digits| - 1]);
    }
  }

  // ---------- tokens

  lemma PlainFeed(m: seq<Mode>, depth: nat, c: int)
    requires c >= 32 && c != 34 && c != 92
    ensures Feed(Conf(ST, m), depth, c) == Some(Conf(ST, m))
  {}

  lemma EscapeFeed(m: seq<Mode>, depth: nat, c: int)
    ensures Feed(Conf(ST, m), depth, 92) == Some(Conf(ES, m))
    ensures GoodItem(Escaped(c)) ==> Feed(Conf(ES, m), depth, c) == Some(Conf(ST, m))
    ensures c == 117 ==> Feed(Conf(ES, m), depth, c) == Some(Conf(U1, m))
  {}

  lemma HexFeed(m: seq<Mode>, depth: nat, c: int)
    requires IsHex(c)
    ensures Feed(Conf(U1, m), depth, c) == Some(Conf(U2, m))
    ensures Feed(Conf(U2, m), depth, c) == Some(Conf(U3, m))
    ensures Feed(Conf(U3, m), depth, c) == Some(Conf(U4, m))
    ensures Feed(Conf(U4, m), depth, c) == Some(Conf(ST, m))
  {}

  lemma UnicodeRuns(m: seq<Mode>, depth: nat, a: int, b: int, c: int, d: int)
    requires IsHex(a) && IsHex(b) && IsHex(c) && IsHex(d)
    ensures Runs(Conf(ST, m), depth, [92, 117, a, b, c, d], Conf(ST, m))
  {
    hide Feed; hide FeedAll;
    var st := Conf(ST, m);
    EscapeFeed(m, depth, 117);
    HexFeed(m, depth, a); HexFeed(m, depth, b); HexFeed(m, depth, c); HexFeed(m, depth, d);
    RunsOne(st, depth, 92, Conf(ES, m));
    RunsThen(st, depth, [92], Conf(ES, m), 117, Conf(U1, m));
    RunsThen(st, depth, [92] + [117], Conf(U1, m), a, Conf(U2, m));
    RunsThen(st, depth, [92] + [117] + [a], Conf(U2, m), b, Conf(U3, m));
    RunsThen(st, depth, [92] + [117] + [a] + [b], Conf(U3, m), c, Conf(U4, m));
    RunsThen(st, depth, [92] + [117] + [a] + [b] + [c], Conf(U4, m), d, st);
    assert [92] + [117] + [a] + [b] + [c] + [d] == [92, 117, a, b, c, d];
  }

  lemma ItemRuns(m: seq<Mode>, depth: nat, i: StrItem)
    requires GoodItem(i)
    ensures Runs(Conf(ST, m), depth, ItemText(i), Conf(ST, m))
  {
    hide Feed; hide FeedAll;
    var st := Conf(ST, m);
    match i
    case Plain(c) =>
      PlainFeed(m, depth, c);
      RunsOne(st, depth, c, st);
    case Escaped(c) =>
      EscapeFeed(m, depth, c);
      RunsOne(st, depth, 92, Conf(ES, m));
      RunsThen(st, depth, [92], Conf(ES, m), c, st);
      assert [92] + [c] == ItemText(i);
    case Unicode(a, b, c, d) =>
      UnicodeRuns(m, depth, a, b, c, d);
  }

  lemma {:induction false} ItemsRun(m: seq<Mode>, depth: nat, items: seq<StrItem>)
    requires GoodItems(items)
    ensures Runs(Conf(ST, m), depth, ItemsText(items), Conf(ST, m))
    decreases |items|
  {
    if items != [] {
      var init, i := items[..|items| - 1], items[|items| - 1];
      ItemsRun(m, depth, init);
      ItemRuns(m, depth, i);
      RunsCat(Conf(ST, m), depth, ItemsText(init), Conf(ST, m), ItemText(i), Conf(ST, m));
    }
  }

  lemma StringRuns(s: State, m: seq<Mode>, depth: nat, items: seq<StrItem>)
    requires GoodItems(items) && (s.OB? || s.KE? || s.VA? || s.AR?)
    requires Top(m) == Some(KEY) || Top(m) == Some(ARRAY) || Top(m) == Some(OBJECT)
    ensures Runs(Conf(s, m), depth, StrText(items), Conf(if Top(m) == Some(KEY) then CO else OK, m))
  {
    RunsOne(Conf(s, m), depth, 34, Conf(ST, m));
    ItemsRun(m, depth, items);
    hide ItemsText;
    RunsCat(Conf(s, m), depth, [34], Conf(ST, m), ItemsText(items), Conf(ST, m));
    RunsThen(Conf(s, m), depth, [34] + ItemsText(items), Conf(ST, m), 34,
             Conf(if Top(m) == Some(KEY) then CO else OK, m));
  }

  // ---------- numbers and words

  lemma NumberClass(c: int)
    ensures c == 43 ==> ClassOf(c) == Some(Plus)
    ensures c == 45 ==> ClassOf(c) == Some(Minus)
    ensures c == 46 ==> ClassOf(c) == Some(Point)
    ensures c == 48 ==> ClassOf(c) == Some(Zero)
    ensures 49 <= c <= 57 ==> ClassOf(c) == Some(Digit)
    ensures c == 69 ==> ClassOf(c) == Some(E)
    ensures c == 101 ==> ClassOf(c) == Some(LowE)
  {}

  lemma NumberFeed(s: State, m: seq<Mode>, depth: nat, c: int)
    ensures (s.VA? || s.AR?) && c == 45 ==> Feed(Conf(s, m), depth, c) == Some(Conf(MI, m))
    ensures (s.VA? || s.AR? || s.MI?) && c == 48 ==> Feed(Conf(s, m), depth, c) == Some(Conf(ZE, m))
    ensures (s.VA? || s.AR? || s.MI?) && 49 <= c <= 57 ==> Feed(Conf(s, m), depth, c) == Some(Conf(IN, m))
    ensures (s.ZE? || s.IN?) && c == 46 ==> Feed(Conf(s, m), depth, c) == Some(Conf(FR, m))
    ensures (s.IN? || s.FR?) && (c == 69 || c == 101) ==> Feed(Conf(s, m), depth, c) == Some(Conf(E1, m))
    ensures s.E1? && (c == 43 || c == 45) ==> Feed(Conf(s, m), depth, c) == Some(Conf(E2, m))
  {
    hide ClassOf;
    NumberClass(c);
  }

  function IntState(n: Number): State { if n.digits == [48] then ZE else IN }

  lemma FirstDigit(n: Number)
    requires GoodNumber(n)
    ensures |n.digits| > 0 && IsDigit(n.digits[0]) && AllDigits(n.digits[1..])
    ensures n.digits == [48] || n.digits[0] != 48
  {}

  lemma IntRuns(s: State, m: seq<Mode>, depth: nat, n: Number)
    requires GoodNumber(n) && (s.VA? || s.AR?)
    ensures Runs(Conf(s, m), depth, (if n.neg then [45] else []) + n.digits, Conf(IntState(n), m))
  {
    hide Runs, Feed, GoodNumber;
    FirstDigit(n);
    var c, rest := n.digits[0], n.digits[1..];
    var sign: Text := if n.neg then [45] else [];
    var s' := if n.neg then MI else s;
    NumberFeed(s, m, depth, 45);
    if n.neg { RunsOne(Conf(s, m), depth, 45, Conf(MI, m)); } else { RunsNone(Conf(s, m), depth); }
    NumberFeed(s', m, depth, c);
    var e := IntState(n);
    RunsThen(Conf(s, m), depth, sign, Conf(s', m), c, Conf(e, m));
    if n.digits == [48] {
      assert sign + n.digits == sign + [c];
    } else {
      DigitsRun(IN, m, depth, rest);
      RunsCat(Conf(s, m), depth, sign + [c], Conf(e, m), rest, Conf(IN, m));
      assert sign + [c] + rest == sign + n.digits;
    }
  }

  lemma MantissaRuns(s: State, m: seq<Mode>, depth: nat, n: Number)
    requires GoodNumber(n) && (s.VA? || s.AR?)
    ensures Runs(Conf(s, m), depth, MantissaText(n), Conf(if n.frac.Some? then FR else IntState(n), m))
  {
    hide Feed; hide FeedAll;
    var lead := (if n.neg then [45] else []) + n.digits;
    var e := IntState(n);
    IntRuns(s, m, depth, n);
    if n.frac.Some? {
      NumberFeed(e, m, depth, 46);
      RunsThen(Conf(s, m), depth, lead, Conf(e, m), 46, Conf(FR, m));
      DigitsRun(FR, m, depth, n.frac.value);
      RunsCat(Conf(s, m), depth, lead + [46], Conf(FR, m), n.frac.value, Conf(FR, m));
      assert lead + [46] + n.frac.value == MantissaText(n);
    } else {
      assert lead == MantissaText(n);
    }
  }

  lemma ExpRuns(s: State, m: seq<Mode>, depth: nat, e: Exp)
    requires GoodExp(e) && (s.IN? || s.FR?)
    ensures Runs(Conf(s, m), depth, [e.mark] + e.sign + e.digits, Conf(E3, m))
  {
    hide Feed; hide FeedAll;
    NumberFeed(s, m, depth, e.mark);
    RunsOne(Conf(s, m), depth, e.mark, Conf(E1, m));
    var s' := if e.sign == [] then E1 else E2;
    if e.sign == [] {
      assert [e.mark] + e.sign == [e.mark];
    } else {
      NumberFeed(E1, m, depth, e.sign[0]);
      RunsThen(Conf(s, m), depth, [e.mark], Conf(E1, m), e.sign[0], Conf(E2, m));
      assert e.sign == [e.sign[0]];
    }
    var lead := [e.mark] + e.sign;
    var c, rest := e.digits[0], e.digits[1..];
    assert e.digits == [c] + rest;
    DigitFeed(s', m, depth, c);
    RunsThen(Conf(s, m), depth, lead, Conf(s', m), c, Conf(E3, m));
    DigitsRun(E3, m, depth, rest);
    RunsCat(Conf(s, m), depth, lead + [c], Conf(E3, m), rest, Conf(E3, m));
    assert lead + [c] + rest == lead + e.digits;
  }

  lemma NumberRuns(s: State, m: seq<Mode>, depth: nat, n: Number) returns (e: State)
    requires GoodNumber(n) && (s.VA? || s.AR?)
    ensures Behind(e) && Runs(Conf(s, m), depth, NumText(n), Conf(e, m))
  {
    hide Feed; hide FeedAll; hide MantissaText;
    e := if n.frac.Some? then FR else IntState(n);
    MantissaRuns(s, m, depth, n);
    if n.exp.Some? {
      var x := n.exp.value;
      ExpRuns(e, m, depth, x);
      RunsCat(Conf(s, m), depth, MantissaText(n), Conf(e, m), [x.mark] + x.sign + x.digits, Conf(E3, m));
      e := E3;
    } else {
      assert MantissaText(n) + [] == MantissaText(n);
    }
  }

  lemma FeedTo(s: State, m: seq<Mode>, depth: nat, c: int, k: Class, s': State)
    requires ClassOf(c) == Some(k) && Table(s, k) == To(s')
    ensures Feed(Conf(s, m), depth, c) == Some(Conf(s', m))
  {}

  lemma LetterClasses()
    ensures ClassOf(97) == Some(LowA) && ClassOf(101) == Some(LowE) && ClassOf(102) == Some(LowF)
    ensures ClassOf(108) == Some(LowL) && ClassOf(110) == Some(LowN) && ClassOf(114) == Some(LowR)
    ensures ClassOf(115) == Some(LowS) && ClassOf(116) == Some(LowT) && ClassOf(117) == Some(LowU)
  {}

  lemma WordStarts(s: State)
    requires s.VA? || s.AR?
    ensures Table(s, LowT) == To(T1) && Table(s, LowN) == To(N1) && Table(s, LowF) == To(F1)
  {}

  lemma TrueTable()
    ensures Table(T1, LowR) == To(T2) && Table(T2, LowU) == To(T3) && Table(T3, LowE) == To(OK)
  {}

  lemma NullTable()
    ensures Table(N1, LowU) == To(N2) && Table(N2, LowL) == To(N3) && Table(N3, LowL) == To(OK)
  {}

  lemma FalseTable()
    ensures Table(F1, LowA) == To(F2) && Table(F2, LowL) == To(F3) && Table(F3, LowS) == To(F4)
    ensures Table(F4, LowE) == To(OK)
  {}

  lemma TrueNullFeed(s: State, m: seq<Mode>, depth: nat)
    requires s.VA? || s.AR?
    ensures Feed(Conf(s, m), depth, 116) == Some(Conf(T1, m)) && Feed(Conf(T1, m), depth, 114) == Some(Conf(T2, m))
    ensures Feed(Conf(T2, m), depth, 117) == Some(Conf(T3, m)) && Feed(Conf(T3, m), depth, 101) == Some(Conf(OK, m))
    ensures Feed(Conf(s, m), depth, 110) == Some(Conf(N1, m)) && Feed(Conf(N1, m), depth, 117) == Some(Conf(N2, m))
    ensures Feed(Conf(N2, m), depth, 108) == Some(Conf(N3, m)) && Feed(Conf(N3, m), depth, 108) == Some(Conf(OK, m))
  {
    hide ClassOf; hide Feed; hide Table;
    WordStarts(s);
    TrueTable();
    NullTable();
    LetterClasses();
    FeedTo(s, m, depth, 116, LowT, T1);
    FeedTo(T1, m, depth, 114, LowR, T2);
    FeedTo(T2, m, depth, 117, LowU, T3);
    FeedTo(T3, m, depth, 101, LowE, OK);
    FeedTo(s, m, depth, 110, LowN, N1);
    FeedTo(N1, m, depth, 117, LowU, N2);
    FeedTo(N2, m, depth, 108, LowL, N3);
    FeedTo(N3, m, depth, 108, LowL, OK);
  }

  lemma FalseFeed(s: State, m: seq<Mode>, depth: nat)
    requires s.VA? || s.AR?
    ensures Feed(Conf(s, m), depth, 102) == Some(Conf(F1, m)) && Feed(Conf(F1, m), depth, 97) == Some(Conf(F2, m))
    ensures Feed(Conf(F2, m), depth, 108) == Some(Conf(F3, m)) && Feed(Conf(F3, m), depth, 115) == Some(Conf(F4, m))
    ensures Feed(Conf(F4, m), depth, 101) == Some(Conf(OK, m))
  {
    hide ClassOf; hide Feed; hide Table;
    WordStarts(s);
    FalseTable();
    LetterClasses();
    FeedTo(s, m, depth, 102, LowF, F1);
    FeedTo(F1, m, depth, 97, LowA, F2);
    FeedTo(F2, m, depth, 108, LowL, F3);
    FeedTo(F3, m, depth, 115, LowS, F4);
    FeedTo(F4, m, depth, 101, LowE, OK);
  }

  lemma Chain4(c0: Conf, c1: Conf, c2: Conf, c3: Conf, c4: Conf, depth: nat, w: int, x: int, y: int, z: int)
    requires Feed(c0, depth, w) == Some(c1) && Feed(c1, depth, x) == Some(c2)
    requires Feed(c2, depth, y) == Some(c3) && Feed(c3, depth, z) == Some(c4)
    ensures Runs(c0, depth, [w, x, y, z], c4)
  {
    hide Feed; hide FeedAll;
    RunsOne(c0, depth, w, c1);
    RunsThen(c0, depth, [w], c1, x, c2);
    RunsThen(c0, depth, [w] + [x], c2, y, c3);
    RunsThen(c0, depth, [w] + [x] + [y], c3, z, c4);
    assert [w] + [x] + [y] + [z] == [w, x, y, z];
  }

  lemma WordRuns(s: State, m: seq<Mode>, depth: nat, w: Text)
    requires (s.VA? || s.AR?) && (w == TRUE || w == FALSE || w == NULL)
    ensures Runs(Conf(s, m), depth, w, Conf(OK, m))
  {
    hide Feed; hide FeedAll;
    TrueNullFeed(s, m, depth);
    FalseFeed(s, m, depth);
    Chain4(Conf(s, m), Conf(T1, m), Conf(T2, m), Conf(T3, m), Conf(OK, m), depth, 116, 114, 117, 101);
    Chain4(Conf(s, m), Conf(N1, m), Conf(N2, m), Conf(N3, m), Conf(OK, m), depth, 110, 117, 108, 108);
    Chain4(Conf(s, m), Conf(F1, m), Conf(F2, m), Conf(F3, m), Conf(F4, m), depth, 102, 97, 108, 115);
    RunsThen(Conf(s, m), depth, [102, 97, 108, 115], Conf(F4, m), 101, Conf(OK, m));
    assert [102, 97, 108, 115] + [101] == FALSE;
  }

  // ---------- brackets, commas and colons

  lemma PopLast(m: seq<Mode>, x: Mode)
    ensures Top(m + [x]) == Some(x) && Popped(m + [x]) == m
  {}

  lemma OpenFeed(s: State, m: seq<Mode>, depth: nat)
    requires (s.GO? || s.VA? || s.AR?) && |m| < depth
    ensures Feed(Conf(s, m), depth, 91) == Some(Conf(AR, m + [ARRAY]))
    ensures Feed(Conf(s, m), depth, 123) == Some(Conf(OB, m + [KEY]))
  {}

  lemma CloseFeed(s: State, m: seq<Mode>, depth: nat)
    ensures Behind(s) || s.AR? ==> Feed(Conf(s, m + [ARRAY]), depth, 93) == Some(Conf(OK, m))
    ensures Behind(s) ==> Feed(Conf(s, m + [OBJECT]), depth, 125) == Some(Conf(OK, m))
    ensures s.OB? ==> Feed(Conf(s, m + [KEY]), depth, 125) == Some(Conf(OK, m))
  {
    PopLast(m, ARRAY); PopLast(m, OBJECT); PopLast(m, KEY);
  }

  lemma CommaFeed(s: State, m: seq<Mode>, depth: nat)
    requires Behind(s) && |m| < depth
    ensures Feed(Conf(s, m + [ARRAY]), depth, 44) == Some(Conf(VA, m + [ARRAY]))
    ensures Feed(Conf(s, m + [OBJECT]), depth, 44) == Some(Conf(KE, m + [KEY]))
    ensures Feed(Conf(CO, m + [KEY]), depth, 58) == Some(Conf(VA, m + [OBJECT]))
  {
    PopLast(m, ARRAY); PopLast(m, OBJECT); PopLast(m, KEY);
  }

  // ---------- values

  ghost predicate Awaits(s: State, m: seq<Mode>, v: Value) {
    || ((s.VA? || s.AR?) && (Top(m) == Some(ARRAY) || Top(m) == Some(OBJECT)))
    || (s.GO? && (v.Arr? || v.Obj?))
  }

  lemma {:induction false} ValueRuns(s: State, m: seq<Mode>, depth: nat, v: Value) returns (e: State)
    requires GoodValue(v) && Awaits(s, m, v) && |m| + Nesting(v) <= depth
    ensures Behind(e) && (v.Arr? || v.Obj? ==> e.OK?) && Runs(Conf(s, m), depth, ValueText(v), Conf(e, m))
    decreases v, 0
  {
    e := OK;
    match v
    case Str(items) => StringRuns(s, m, depth, items);
    case Num(n) => e := NumberRuns(s, m, depth, n);
    case Lit(w) => WordRuns(s, m, depth, w);
    case Arr(es, ws) => ArrayRuns(s, m, depth, es, ws);
    case Obj(ms, ws) => ObjectRuns(s, m, depth, ms, ws);
  }

  lemma {:induction false} ArrayRuns(s: State, m: seq<Mode>, depth: nat, es: Elems, ws: Text)
    requires GoodElems(es) && AllWs(ws) && (s.GO? || s.VA? || s.AR?) && |m| + 1 + ElemsNesting(es) <= depth
    ensures Runs(Conf(s, m), depth, [91] + (if es.NoElems? then ws else ElemsText(es)) + [93], Conf(OK, m))
    decreases es, 2
  {
    hide Feed; hide FeedAll; hide ElemsText;
    var m', from := m + [ARRAY], Conf(s, m);
    OpenFeed(s, m, depth);
    RunsOne(from, depth, 91, Conf(AR, m'));
    var t, e := ws, AR;
    if es.NoElems? {
      WsRuns(AR, m', depth, ws);
    } else {
      t := ElemsText(es);
      e := ElemsRun(m, depth, es);
    }
    RunsCat(from, depth, [91], Conf(AR, m'), t, Conf(e, m'));
    CloseFeed(e, m, depth);
    RunsThen(from, depth, [91] + t, Conf(e, m'), 93, Conf(OK, m));
  }

  lemma ElemsUnfold(es: Elems)
    requires es.MoreElems?
    ensures ElemsText(es) == ElemsLead(es.init) + (es.pre + ValueText(es.value) + es.post)
  {}

  lemma {:induction false} ElemsRun(m: seq<Mode>, depth: nat, es: Elems) returns (e: State)
    requires es.MoreElems? && GoodElems(es) && |m| + 1 + ElemsNesting(es) <= depth
    ensures Behind(e) && Runs(Conf(AR, m + [ARRAY]), depth, ElemsText(es), Conf(e, m + [ARRAY]))
    decreases es, 1
  {
    hide Feed; hide FeedAll; hide ValueText;
    var m' := m + [ARRAY];
    var from := Conf(AR, m');
    PopLast(m, ARRAY);
    var s := AR;
    if es.init.NoElems? {
      RunsNone(from, depth);
    } else {
      var e0 := ElemsRun(m, depth, es.init);
      CommaFeed(e0, m, depth);
      RunsThen(from, depth, ElemsText(es.init), Conf(e0, m'), 44, Conf(VA, m'));
      s := VA;
    }
    var lead := ElemsLead(es.init);
    e := ItemAt(s, m', depth, es.pre, es.value, es.post);
    hide ElemsText; hide ElemsLead;
    RunsCat(from, depth, lead, Conf(s, m'), es.pre + ValueText(es.value) + es.post, Conf(e, m'));
    assert ElemsText(es) == lead + (es.pre + ValueText(es.value) + es.post) by { ElemsUnfold(es); }
  }

  /** White space, a value, white space. */
  lemma {:induction false} ItemAt(s: State, m: seq<Mode>, depth: nat, pre: Text, v: Value, post: Text)
    returns (e: State)
    requires AllWs(pre) && GoodValue(v) && AllWs(post) && (s.VA? || s.AR?)
    requires (Top(m) == Some(ARRAY) || Top(m) == Some(OBJECT)) && |m| + Nesting(v) <= depth
    ensures Behind(e) && Runs(Conf(s, m), depth, pre + ValueText(v) + post, Conf(e, m))
    decreases v, 1
  {
    WsRuns(s, m, depth, pre);
    var e0 := ValueRuns(s, m, depth, v);
    e := WsBehind(e0, m, depth, post);
    hide Feed; hide FeedAll; hide ValueText;
    RunsCat(Conf(s, m), depth, pre, Conf(s, m), ValueText(v), Conf(e0, m));
    RunsCat(Conf(s, m), depth, pre + ValueText(v), Conf(e0, m), post, Conf(e, m));
  }

  lemma {:induction false} ObjectRuns(s: State, m: seq<Mode>, depth: nat, ms: Members, ws: Text)
    requires GoodMembers(ms) && AllWs(ws) && (s.GO? || s.VA? || s.AR?) && |m| + 1 + MembersNesting(ms) <= depth
    ensures Runs(Conf(s, m), depth, [123] + (if ms.NoMembers? then ws else MembersText(ms)) + [125], Conf(OK, m))
    decreases ms, 2
  {
    hide Feed; hide FeedAll; hide MembersText;
    var from := Conf(s, m);
    OpenFeed(s, m, depth);
    RunsOne(from, depth, 123, Conf(OB, m + [KEY]));
    var t, last := ws, Conf(OB, m + [KEY]);
    if ms.NoMembers? {
      WsRuns(OB, m + [KEY], depth, ws);
    } else {
      t := MembersText(ms);
      var e := MembersRun(m, depth, ms);
      last := Conf(e, m + [OBJECT]);
    }
    RunsCat(from, depth, [123], Conf(OB, m + [KEY]), t, last);
    CloseFeed(last.state, m, depth);
    RunsThen(from, depth, [123] + t, last, 125, Conf(OK, m));
  }

  lemma MembersUnfold(ms: Members)
    requires ms.MoreMembers?
    ensures MembersText(ms) ==
      MembersLead(ms.init) + (KeyText(ms.pre, ms.key, ms.mid) + (ms.pre' + ValueText(ms.value) + ms.post))
  {}

  lemma KeyRuns(s: State, m: seq<Mode>, depth: nat, pre: Text, key: seq<StrItem>, mid: Text)
    requires AllWs(pre) && GoodItems(key) && AllWs(mid) && (s.OB? || s.KE?) && |m| < depth
    ensures Runs(Conf(s, m + [KEY]), depth, KeyText(pre, key, mid), Conf(VA, m + [OBJECT]))
  {
    var m' := m + [KEY];
    var from := Conf(s, m');
    PopLast(m, KEY);
    WsRuns(s, m', depth, pre);
    StringRuns(s, m', depth, key);
    WsRuns(CO, m', depth, mid);
    CommaFeed(OK, m, depth);
    hide Feed; hide FeedAll; hide StrText;
    RunsCat(from, depth, pre, from, StrText(key), Conf(CO, m'));
    RunsCat(from, depth, pre + StrText(key), Conf(CO, m'), mid, Conf(CO, m'));
    RunsThen(from, depth, pre + StrText(key) + mid, Conf(CO, m'), 58, Conf(VA, m + [OBJECT]));
  }

  lemma {:induction false} MembersRun(m: seq<Mode>, depth: nat, ms: Members) returns (e: State)
    requires ms.MoreMembers? && GoodMembers(ms) && |m| + 1 + MembersNesting(ms) <= depth
    ensures Behind(e) && Runs(Conf(OB, m + [KEY]), depth, MembersText(ms), Conf(e, m + [OBJECT]))
    decreases ms, 1
  {
    hide Feed; hide FeedAll; hide ValueText; hide KeyText;
    var from := Conf(OB, m + [KEY]);
    PopLast(m, OBJECT);
    var s := OB;
    if ms.init.NoMembers? {
      RunsNone(from, depth);
    } else {
      var e0 := MembersRun(m, depth, ms.init);
      CommaFeed(e0, m, depth);
      RunsThen(from, depth, MembersText(ms.init), Conf(e0, m + [OBJECT]), 44, Conf(KE, m + [KEY]));
      s := KE;
    }
    var lead, key := MembersLead(ms.init), KeyText(ms.pre, ms.key, ms.mid);
    KeyRuns(s, m, depth, ms.pre, ms.key, ms.mid);
    e := ItemAt(VA, m + [OBJECT], depth, ms.pre', ms.value, ms.post);
    hide MembersText; hide MembersLead;
    var val := ms.pre' + ValueText(ms.value) + ms.post;
    RunsCat(Conf(s, m + [KEY]), depth, key, Conf(VA, m + [OBJECT]), val, Conf(e, m + [OBJECT]));
    RunsCat(from, depth, lead, Conf(s, m + [KEY]), key + val, Conf(e, m + [OBJECT]));
    assert MembersText(ms) == lead + (key + val) by { MembersUnfold(ms); }
  }

  /** Completeness: JSON nested less deep than the limit is accepted. */
  lemma JsonIsAccepted(depth: nat, t: Text)
    requires IsJson(t, depth)
    ensures Accepts(depth, t)
  {
    var pre, v, post :| Denotes(t, depth, pre, v, post);
    var m := [DONE];
    WsRuns(GO, m, depth, pre);
    var e := ValueRuns(GO, m, depth, v);
    WsRuns(OK, m, depth, post);
    hide Feed; hide FeedAll; hide ValueText;
    RunsCat(INITIAL, depth, pre, INITIAL, ValueText(v), Conf(OK, m));
    RunsCat(INITIAL, depth, pre + ValueText(v), Conf(OK, m), post, Conf(OK, m));
  }
}
