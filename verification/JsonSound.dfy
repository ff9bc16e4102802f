/** Every text the automaton accepts is JSON: each configuration it reaches is that of
    a tree under construction, which prints as the text read so far.
 */
module JsonSound {
  import opened Common
  import opened JsonTable
  import opened JsonGrammar

  /** An open bracket, the white space before it, and what stands behind it already. */
  datatype Frame =
    | InArr(pre: Text, elems: Elems)
    | AtKey(pre: Text, members: Members)
    | AtValue(pre: Text, members: Members, kpre: Text, key: seq<StrItem>, mid: Text)

  /** What has been read behind the innermost open bracket, comma or colon. */
  datatype Cur =
    | Ready(pre: Text)
    | Token(pre: Text, tok: Text)
    | AtColon(pre: Text, key: seq<StrItem>, mid: Text)
    | Complete(pre: Text, value: Value, post: Text)

  function ModeOf(f: Frame): Mode {
    match f
    case InArr(_, _) => ARRAY
    case AtKey(_, _) => KEY
    case AtValue(_, _, _, _, _) => OBJECT
  }

  function ModesOf(fs: seq<Frame>): seq<Mode> {
    if fs == [] then [DONE] else ModesOf(fs[..|fs| - 1]) + [ModeOf(fs[|fs| - 1])]
  }

  function FrameText(f: Frame): Text {
    match f
    case InArr(pre, es) => pre + [91] + ElemsLead(es)
    case AtKey(pre, ms) => pre + [123] + MembersLead(ms)
    case AtValue(pre, ms, kpre, key, mid) => pre + [123] + MembersLead(ms) + KeyText(kpre, key, mid)
  }

  function FramesText(fs: seq<Frame>): Text {
    if fs == [] then [] else FramesText(fs[..|fs| - 1]) + FrameText(fs[|fs| - 1])
  }

  function CurText(cur: Cur): Text {
    match cur
    case Ready(pre) => pre
    case Token(pre, tok) => pre + tok
    case AtColon(pre, key, mid) => pre + StrText(key) + mid
    case Complete(pre, v, post) => pre + ValueText(v) + post
  }

  function ReadText(fs: seq<Frame>, cur: Cur): Text { FramesText(fs) + CurText(cur) }

  predicate GoodFrame(f: Frame) {
    match f
    case InArr(pre, es) => AllWs(pre) && GoodElems(es)
    case AtKey(pre, ms) => AllWs(pre) && GoodMembers(ms)
    case AtValue(pre, ms, kpre, key, mid) => AllWs(pre) && GoodMembers(ms) && AllWs(kpre) && GoodItems(key)
                                             && AllWs(mid)
  }

  function FrameNesting(f: Frame): nat {
    if f.InArr? then ElemsNesting(f.elems) else MembersNesting(f.members)
  }

  predicate GoodFrames(fs: seq<Frame>, depth: nat) {
    forall i :: 0 <= i < |fs| ==>
      && GoodFrame(fs[i]) && FrameNesting(fs[i]) + i + 1 < depth
      && (fs[i].AtKey? ==> i == |fs| - 1)
  }

  // ---------- unfinished tokens

  /** What a string state has read since the last finished item. */
  predicate Tail(s: State, t: Text) {
    match s
    case ST => t == []
    case ES => t == [92]
    case U1 => t == [92, 117]
    case U2 => |t| == 3 && t[..2] == [92, 117] && IsHex(t[2])
    case U3 => |t| == 4 && t[..2] == [92, 117] && IsHex(t[2]) && IsHex(t[3])
    case U4 => |t| == 5 && t[..2] == [92, 117] && IsHex(t[2]) && IsHex(t[3]) && IsHex(t[4])
    case _ => false
  }

  predicate StringState(s: State) { s.ST? || s.ES? || s.U1? || s.U2? || s.U3? || s.U4? }

  predicate InString(s: State, tok: Text, items: seq<StrItem>, t: Text) {
    GoodItems(items) && Tail(s, t) && tok == [34] + ItemsText(items) + t
  }

  /** States in which a number is complete. */
  predicate NumberEnd(s: State) { s.ZE? || s.IN? || s.FR? || s.E3? }

  predicate NumberState(s: State) { NumberEnd(s) || s.MI? || s.E1? || s.E2? }

  predicate IsMark(c: int) { c == 69 || c == 101 }

  predicate BeforeExp(n: Number) { n.exp.None? && (n.digits == [48] ==> n.frac.Some?) }

  predicate InNumber(s: State, tok: Text, n: Number) {
    match s
    case MI => tok == [45]
    case ZE => GoodNumber(n) && tok == NumText(n) && n.digits == [48] && n.frac.None? && n.exp.None?
    case IN => GoodNumber(n) && tok == NumText(n) && n.digits[0] != 48 && n.frac.None? && n.exp.None?
    case FR => GoodNumber(n) && tok == NumText(n) && n.frac.Some? && n.exp.None?
    case E1 => GoodNumber(n) && BeforeExp(n) && |tok| > 0 && IsMark(tok[|tok| - 1]) && tok[..|tok| - 1] == NumText(n)
    case E2 =>
      && GoodNumber(n) && BeforeExp(n) && |tok| > 1 && IsMark(tok[|tok| - 2])
      && (tok[|tok| - 1] == 43 || tok[|tok| - 1] == 45) && tok[..|tok| - 2] == NumText(n)
    case E3 => GoodNumber(n) && tok == NumText(n) && n.exp.Some?
    case _ => false
  }

  predicate WordState(s: State) {
    s.T1? || s.T2? || s.T3? || s.F1? || s.F2? || s.F3? || s.F4? || s.N1? || s.N2? || s.N3?
  }

  function WordRead(s: State): Text
    requires WordState(s)
  {
    match s
    case T1 => TRUE[..1] case T2 => TRUE[..2] case T3 => TRUE[..3]
    case F1 => FALSE[..1] case F2 => FALSE[..2] case F3 => FALSE[..3] case F4 => FALSE[..4]
    case N1 => NULL[..1] case N2 => NULL[..2] case N3 => NULL[..3]
  }

  ghost predicate InToken(s: State, tok: Text) {
    || (StringState(s) && exists items, t :: InString(s, tok, items, t))
    || (NumberState(s) && exists n :: InNumber(s, tok, n))
    || (WordState(s) && tok == WordRead(s))
  }

  // ---------- configurations

  /** Where a value may stand: in an array or behind a colon. */
  predicate ValuePlace(fs: seq<Frame>) { fs != [] && !fs[|fs| - 1].AtKey? }

  predicate KeyPlace(fs: seq<Frame>) { fs != [] && fs[|fs| - 1].AtKey? }

  predicate ReadyPlace(s: State, fs: seq<Frame>) {
    match s
    case GO => fs == []
    case OB => KeyPlace(fs) && fs[|fs| - 1].members.NoMembers?
    case KE => KeyPlace(fs)
    case VA => ValuePlace(fs)
    case AR => ValuePlace(fs) && fs[|fs| - 1].InArr? && fs[|fs| - 1].elems.NoElems?
    case _ => false
  }

  /** The tree under construction matches the state. */
  ghost predicate Matches(s: State, fs: seq<Frame>, cur: Cur, depth: nat) {
    match cur
    case Ready(pre) => AllWs(pre) && ReadyPlace(s, fs)
    case Token(pre, tok) => AllWs(pre) && InToken(s, tok) && (if StringState(s) then fs != [] else ValuePlace(fs))
    case AtColon(pre, key, mid) => AllWs(pre) && GoodItems(key) && AllWs(mid) && s.CO? && KeyPlace(fs)
    case Complete(pre, v, post) =>
      && AllWs(pre) && GoodValue(v) && AllWs(post) && s.OK? && Nesting(v) + |fs| < depth
      && (if fs == [] then v.Arr? || v.Obj? else ValuePlace(fs))
  }

  ghost predicate Parsed(depth: nat, conf: Conf, fs: seq<Frame>, cur: Cur) {
    && conf.modes == ModesOf(fs) && |fs| < depth
    && GoodFrames(fs, depth)
    && Matches(conf.state, fs, cur, depth)
  }

  lemma ParsedReady(depth: nat, conf: Conf, fs: seq<Frame>, pre: Text)
    ensures Parsed(depth, conf, fs, Ready(pre)) <==>
      && conf.modes == ModesOf(fs) && |fs| < depth && GoodFrames(fs, depth)
      && AllWs(pre) && ReadyPlace(conf.state, fs)
  {}

  lemma ParsedComplete(depth: nat, conf: Conf, fs: seq<Frame>, pre: Text, v: Value, post: Text)
    ensures Parsed(depth, conf, fs, Complete(pre, v, post)) <==>
      && conf.modes == ModesOf(fs) && |fs| < depth && GoodFrames(fs, depth)
      && AllWs(pre) && GoodValue(v) && AllWs(post) && conf.state.OK? && Nesting(v) + |fs| < depth
      && (if fs == [] then v.Arr? || v.Obj? else ValuePlace(fs))
  {}

  // ---------- text under construction

  lemma FramesSnoc(fs: seq<Frame>, f: Frame)
    ensures FramesText(fs + [f]) == FramesText(fs) + FrameText(f)
    ensures ModesOf(fs + [f]) == ModesOf(fs) + [ModeOf(f)]
  {}

  lemma {:induction false} ModesTop(fs: seq<Frame>)
    ensures |ModesOf(fs)| == |fs| + 1
    ensures fs != [] ==>
              Top(ModesOf(fs)) == Some(ModeOf(fs[|fs| - 1])) && Popped(ModesOf(fs)) == ModesOf(fs[..|fs| - 1])
    ensures fs == [] ==> Top(ModesOf(fs)) == Some(DONE)
  {
    if fs != [] { ModesTop(fs[..|fs| - 1]); }
  }

  lemma ItemsSnoc(items: seq<StrItem>, i: StrItem)
    ensures ItemsText(items + [i]) == ItemsText(items) + ItemText(i)
  {}

  // ---------- characters and classes

  lemma ClassFacts(c: int, k: Class)
    requires ClassOf(c) == Some(k)
    ensures k.Space? || k.White? <==> IsWs(c)
    ensures DigitClass(k) <==> IsDigit(c)
    ensures k.Zero? <==> c == 48
    ensures k.LCurB? <==> c == 123
    ensures k.RCurB? <==> c == 125
    ensures k.LSqrB? <==> c == 91
    ensures k.RSqrB? <==> c == 93
    ensures k.Colon? <==> c == 58
    ensures k.Comma? <==> c == 44
    ensures k.Quote? <==> c == 34
    ensures k.Backs? <==> c == 92
    ensures k.Slash? <==> c == 47
    ensures k.Plus? <==> c == 43
    ensures k.Minus? <==> c == 45
    ensures k.Point? <==> c == 46
    ensures k.LowE? || k.E? <==> IsMark(c)
    ensures !k.White? ==> c >= 32
  {}

  lemma LetterFacts(c: int, k: Class)
    requires ClassOf(c) == Some(k)
    ensures HexClass(k) <==> IsHex(c)
    ensures k.LowA? <==> c == 97
    ensures k.LowB? <==> c == 98
    ensures k.LowE? <==> c == 101
    ensures k.LowF? <==> c == 102
    ensures k.LowL? <==> c == 108
    ensures k.LowN? <==> c == 110
    ensures k.LowR? <==> c == 114
    ensures k.LowS? <==> c == 115
    ensures k.LowT? <==> c == 116
    ensures k.LowU? <==> c == 117
  {}

  // ---------- one character more, by what is being read

  predicate ReadyState(s: State) { s.GO? || s.OB? || s.KE? || s.VA? || s.AR? }

  lemma ReadyTable(s: State, k: Class)
    requires ReadyState(s) && !Table(s, k).Error?
    ensures k.Space? || k.White? ==> Table(s, k) == To(s)
    ensures k.LCurB? ==> Table(s, k) == OpenObject && !s.OB? && !s.KE?
    ensures k.LSqrB? ==> Table(s, k) == OpenArray && !s.OB? && !s.KE?
    ensures k.RCurB? ==> Table(s, k) == CloseEmpty && s.OB?
    ensures k.RSqrB? ==> Table(s, k) == CloseArray && s.AR?
    ensures !(k.Space? || k.White? || k.LCurB? || k.LSqrB? || k.RCurB? || k.RSqrB?) ==> Table(s, k).To? && !s.GO?
    ensures Table(s, k).To? && !(k.Space? || k.White?) ==> (s.OB? || s.KE? ==> k.Quote?)
  {}

  ghost predicate Follows(depth: nat, conf: Conf, fs: seq<Frame>, cur: Cur, c: int, fs': seq<Frame>, cur': Cur) {
    Parsed(depth, conf, fs', cur') && ReadText(fs', cur') == ReadText(fs, cur) + [c]
  }

  /** Only what stands behind the innermost bracket grows. */
  lemma CurStep(depth: nat, conf: Conf, conf': Conf, fs: seq<Frame>, cur: Cur, next: Cur, c: int)
    returns (fs': seq<Frame>, cur': Cur)
    requires Parsed(depth, conf, fs, cur) && conf'.modes == conf.modes
    requires Matches(conf'.state, fs, next, depth) && CurText(next) == CurText(cur) + [c]
    ensures Follows(depth, conf', fs, cur, c, fs', cur')
  {
    fs', cur' := fs, next;
    assert FramesText(fs) + (CurText(cur) + [c]) == FramesText(fs) + CurText(cur) + [c];
  }

  lemma ReadyWs(depth: nat, conf: Conf, fs: seq<Frame>, cur: Cur, c: int) returns (fs': seq<Frame>, cur': Cur)
    requires Parsed(depth, conf, fs, cur) && cur.Ready? && IsWs(c)
    ensures Follows(depth, conf, fs, cur, c, fs', cur')
  {
    hide GoodFrames; hide InToken;
    fs', cur' := CurStep(depth, conf, conf, fs, cur, Ready(cur.pre + [c]), c);
  }

  lemma ReadyToken(depth: nat, conf: Conf, conf': Conf, fs: seq<Frame>, cur: Cur, c: int)
    returns (fs': seq<Frame>, cur': Cur)
    requires Parsed(depth, conf, fs, cur) && cur.Ready? && conf'.modes == conf.modes && !conf.state.GO?
    requires InToken(conf'.state, [c]) && (conf.state.OB? || conf.state.KE? ==> StringState(conf'.state))
    ensures Follows(depth, conf', fs, cur, c, fs', cur')
  {
    hide GoodFrames; hide InToken; hide StringState;
    fs', cur' := CurStep(depth, conf, conf', fs, cur, Token(cur.pre, [c]), c);
  }

  lemma OpenText(fs: seq<Frame>, pre: Text, f: Frame, c: int)
    requires (f == AtKey(pre, NoMembers) && c == 123) || (f == InArr(pre, NoElems) && c == 91)
    ensures ReadText(fs + [f], Ready([])) == ReadText(fs, Ready(pre)) + [c]
  {
    FramesSnoc(fs, f);
    assert FrameText(f) == pre + [c];
    hide FramesText;
    assert FramesText(fs) + (pre + [c]) + [] == FramesText(fs) + pre + [c];
  }

  lemma GoodSnoc(fs: seq<Frame>, f: Frame, depth: nat)
    requires GoodFrames(fs, depth) && (fs != [] ==> !fs[|fs| - 1].AtKey?)
    requires GoodFrame(f) && FrameNesting(f) + |fs| + 1 < depth
    ensures GoodFrames(fs + [f], depth)
  {}

  lemma ReadyOpen(depth: nat, conf: Conf, fs: seq<Frame>, cur: Cur, c: int, obj: bool)
    returns (fs': seq<Frame>, cur': Cur)
    requires Parsed(depth, conf, fs, cur) && cur.Ready? && !conf.state.OB? && !conf.state.KE?
    requires |conf.modes| < depth && c == if obj then 123 else 91
    ensures Follows(depth, Conf(if obj then OB else AR, conf.modes + [if obj then KEY else ARRAY]), fs, cur, c,
                    fs', cur')
  {
    hide ReadText; hide ModesOf; hide FramesText; hide GoodFrames; hide InToken; hide GoodValue;
    var f := if obj then AtKey(cur.pre, NoMembers) else InArr(cur.pre, NoElems);
    fs', cur' := fs + [f], Ready([]);
    ModesTop(fs);
    GoodSnoc(fs, f, depth);
    FramesSnoc(fs, f);
    OpenText(fs, cur.pre, f, c);
  }

  /** Taking the innermost frame off, with the text it stands for. */
  lemma TopFrame(fs: seq<Frame>, f: Frame)
    requires fs != [] && f == fs[|fs| - 1]
    ensures FramesText(fs) == FramesText(fs[..|fs| - 1]) + FrameText(f)
  {}

  lemma CatEmpty(a: Text, b: Text, c: Text, d: Text, e: Text)
    ensures a + (b + (c + d + e) + []) == a + (b + c) + d + e
  {}

  lemma {:induction false} EmptyText(fs: seq<Frame>, pre: Text, v: Value, c: int)
    requires fs != [] && (v == Obj(NoMembers, pre) || v == Arr(NoElems, pre))
    requires var f := fs[|fs| - 1];
             if v.Obj? then f == AtKey(f.pre, NoMembers) && c == 125 else f == InArr(f.pre, NoElems) && c == 93
    ensures ReadText(fs[..|fs| - 1], Complete(fs[|fs| - 1].pre, v, [])) == ReadText(fs, Ready(pre)) + [c]
  {
    var f := fs[|fs| - 1];
    TopFrame(fs, f);
    var o := if v.Obj? then 123 else 91;
    assert FrameText(f) == f.pre + [o];
    assert ValueText(v) == [o] + pre + [c];
    hide FramesText;
    CatEmpty(FramesText(fs[..|fs| - 1]), f.pre, [o], pre, [c]);
  }

  /** Below the innermost frame all is as good, and no frame is at a key. */
  lemma GoodInit(fs: seq<Frame>, depth: nat)
    requires GoodFrames(fs, depth) && fs != []
    ensures GoodFrames(fs[..|fs| - 1], depth) && GoodFrame(fs[|fs| - 1]) && FrameNesting(fs[|fs| - 1]) + |fs| < depth
    ensures |fs| > 1 ==> !fs[|fs| - 2].AtKey?
  {}

  lemma ReadyClose(depth: nat, conf: Conf, fs: seq<Frame>, cur: Cur, c: int, obj: bool)
    returns (fs': seq<Frame>, cur': Cur)
    requires Parsed(depth, conf, fs, cur) && cur.Ready? && conf.state == (if obj then OB else AR)
    requires c == if obj then 125 else 93
    ensures Follows(depth, Conf(OK, Popped(conf.modes)), fs, cur, c, fs', cur')
  {
    hide ReadText; hide ModesOf; hide FramesText; hide Parsed; hide GoodFrames;
    ParsedReady(depth, conf, fs, cur.pre);
    ModesTop(fs);
    var f := fs[|fs| - 1];
    var v := if obj then Obj(NoMembers, cur.pre) else Arr(NoElems, cur.pre);
    EmptyText(fs, cur.pre, v, c);
    GoodInit(fs, depth);
    fs', cur' := fs[..|fs| - 1], Complete(f.pre, v, []);
    ParsedComplete(depth, Conf(OK, Popped(conf.modes)), fs', f.pre, v, []);
  }

  lemma TokenFirst(s: State, k: Class)
    requires ReadyState(s) && Table(s, k).To? && !k.Space? && !k.White?
    ensures var s' := Table(s, k).state;
      || (k.Quote? && s'.ST?) || (k.Minus? && s'.MI?) || (k.Zero? && s'.ZE?) || (k.Digit? && s'.IN?)
      || (k.LowF? && s'.F1?) || (k.LowN? && s'.N1?) || (k.LowT? && s'.T1?)
  {}

  lemma TokenStart(s: State, c: int, k: Class)
    requires ClassOf(c) == Some(k) && ReadyState(s)
    ensures Table(s, k).To? && !IsWs(c) ==>
      && InToken(Table(s, k).state, [c])
      && (StringState(Table(s, k).state) <==> k.Quote?)
  {
    ClassFacts(c, k);
    LetterFacts(c, k);
    if Table(s, k).To? && !IsWs(c) {
      TokenFirst(s, k);
      var s' := Table(s, k).state;
      hide ClassOf; hide Table;
      if k.Quote? {
        assert InString(ST, [c], [], []);
      } else if k.Minus? {
        assert InNumber(MI, [c], Number(true, [48], None, None));
      } else if DigitClass(k) {
        var n := Number(false, [c], None, None);
        assert NumText(n) == [c];
        assert InNumber(s', [c], n);
      }
    }
  }

  lemma ReadyStep(depth: nat, conf: Conf, fs: seq<Frame>, cur: Cur, c: int, k: Class)
    returns (fs': seq<Frame>, cur': Cur)
    requires Parsed(depth, conf, fs, cur) && cur.Ready? && ClassOf(c) == Some(k)
    requires Act(conf, depth, Table(conf.state, k)).Some?
    ensures Follows(depth, Act(conf, depth, Table(conf.state, k)).value, fs, cur, c, fs', cur')
  {
    ClassFacts(c, k);
    ReadyTable(conf.state, k);
    TokenStart(conf.state, c, k);
    assert ReadyPlace(conf.state, fs) && AllWs(cur.pre);
    hide ClassOf; hide Table; hide InToken; hide Parsed; hide Follows; hide ReadyPlace; hide AllWs;
    var conf' := Act(conf, depth, Table(conf.state, k)).value;
    if k.Space? || k.White? {
      fs', cur' := ReadyWs(depth, conf, fs, cur, c);
    } else if k.LCurB? || k.LSqrB? {
      fs', cur' := ReadyOpen(depth, conf, fs, cur, c, k.LCurB?);
    } else if k.RCurB? || k.RSqrB? {
      fs', cur' := ReadyClose(depth, conf, fs, cur, c, k.RCurB?);
    } else {
      fs', cur' := ReadyToken(depth, conf, conf', fs, cur, c);
    }
  }

  lemma StringGrow(s: State, tok: Text, items: seq<StrItem>, t: Text, c: int)
    requires GoodItems(items) && tok == [34] + ItemsText(items) + t && Tail(s, t + [c])
    ensures InString(s, tok + [c], items, t + [c])
  {}

  lemma StringItem(tok: Text, items: seq<StrItem>, t: Text, c: int, i: StrItem)
    requires GoodItems(items) && tok == [34] + ItemsText(items) + t && GoodItem(i) && ItemText(i) == t + [c]
    ensures InString(ST, tok + [c], items + [i], [])
  {
    ItemsSnoc(items, i);
    hide ItemsText; hide ItemText; hide GoodItem;
    assert [34] + (ItemsText(items) + (t + [c])) + [] == [34] + ItemsText(items) + t + [c];
  }

  lemma StringNext(s: State, tok: Text, items: seq<StrItem>, t: Text, c: int, k: Class)
    returns (items': seq<StrItem>, t': Text)
    requires StringState(s) && InString(s, tok, items, t) && ClassOf(c) == Some(k) && Table(s, k).To?
    ensures StringState(Table(s, k).state) && InString(Table(s, k).state, tok + [c], items', t')
  {
    ClassFacts(c, k);
    LetterFacts(c, k);
    hide ClassOf; hide ItemsText; hide GoodItems;
    if s.ST? && !k.Backs? {
      items', t' := items + [Plain(c)], [];
      StringItem(tok, items, t, c, Plain(c));
    } else if s.ES? && !k.LowU? {
      items', t' := items + [Escaped(c)], [];
      StringItem(tok, items, t, c, Escaped(c));
    } else if s.U4? {
      var i := Unicode(t[2], t[3], t[4], c);
      items', t' := items + [i], [];
      assert t == [92, 117, t[2], t[3], t[4]];
      StringItem(tok, items, t, c, i);
    } else {
      items', t' := items, t + [c];
      StringGrow(Table(s, k).state, tok, items, t, c);
    }
  }

  lemma StringEnd(depth: nat, conf: Conf, fs: seq<Frame>, cur: Cur, items: seq<StrItem>)
    returns (fs': seq<Frame>, cur': Cur)
    requires Parsed(depth, conf, fs, cur) && cur.Token? && conf.state.ST? && InString(ST, cur.tok, items, [])
    ensures Act(conf, depth, EndString).Some?
    ensures Follows(depth, Act(conf, depth, EndString).value, fs, cur, 34, fs', cur')
  {
    ModesTop(fs);
    hide GoodFrames; hide InToken; hide ModesOf;
    var conf' := Act(conf, depth, EndString).value;
    assert cur.tok + [34] == StrText(items);
    assert cur.pre + (cur.tok + [34]) + [] == cur.pre + cur.tok + [34];
    var next := if KeyPlace(fs) then AtColon(cur.pre, items, []) else Complete(cur.pre, Str(items), []);
    fs', cur' := CurStep(depth, conf, conf', fs, cur, next, 34);
  }

  lemma StringStep(depth: nat, conf: Conf, fs: seq<Frame>, cur: Cur, c: int, k: Class)
    returns (fs': seq<Frame>, cur': Cur)
    requires Parsed(depth, conf, fs, cur) && cur.Token? && StringState(conf.state) && ClassOf(c) == Some(k)
    requires Act(conf, depth, Table(conf.state, k)).Some?
    ensures Follows(depth, Act(conf, depth, Table(conf.state, k)).value, fs, cur, c, fs', cur')
  {
    var items, t :| InString(conf.state, cur.tok, items, t);
    var conf' := Act(conf, depth, Table(conf.state, k)).value;
    if Table(conf.state, k).To? {
      var items', t' := StringNext(conf.state, cur.tok, items, t, c, k);
      hide Table; hide ClassOf; hide InString; hide GoodFrames;
      assert cur.pre + (cur.tok + [c]) == cur.pre + cur.tok + [c];
      fs', cur' := CurStep(depth, conf, conf', fs, cur, Token(cur.pre, cur.tok + [c]), c);
    } else {
      ClassFacts(c, k);
      assert conf.state.ST? && k.Quote?;
      fs', cur' := StringEnd(depth, conf, fs, cur, items);
    }
  }

  lemma CatFlip(a: Text, b: Text, c: Text, d: Text)
    ensures a + (b + (c + d)) + [] == a + b + c + d
  {}

  lemma FlipText(fs: seq<Frame>, f: Frame, pre: Text, key: seq<StrItem>, mid: Text)
    requires f.AtKey?
    ensures ReadText(fs + [AtValue(f.pre, f.members, pre, key, mid)], Ready([])) ==
      ReadText(fs + [f], AtColon(pre, key, mid)) + [58]
  {
    var g := AtValue(f.pre, f.members, pre, key, mid);
    FramesSnoc(fs, f);
    FramesSnoc(fs, g);
    assert FrameText(g) == FrameText(f) + (pre + StrText(key) + mid + [58]);
    hide FramesText; hide FrameText;
    CatFlip(FramesText(fs), FrameText(f), pre + StrText(key) + mid, [58]);
  }

  lemma Flipped(depth: nat, conf: Conf, fs: seq<Frame>, cur: Cur) returns (fs': seq<Frame>, cur': Cur)
    requires Parsed(depth, conf, fs, cur) && cur.AtColon?
    ensures Act(conf, depth, Flip).Some?
    ensures Follows(depth, Act(conf, depth, Flip).value, fs, cur, 58, fs', cur')
  {
    hide ReadText; hide ModesOf; hide FramesText; hide GoodFrames; hide InToken; hide GoodValue;
    ModesTop(fs);
    ModesTop(fs[..|fs| - 1]);
    var init, f := fs[..|fs| - 1], fs[|fs| - 1];
    assert fs == init + [f];
    var g := AtValue(f.pre, f.members, cur.pre, cur.key, cur.mid);
    GoodInit(fs, depth);
    GoodSnoc(init, g, depth);
    FlipText(init, f, cur.pre, cur.key, cur.mid);
    FramesSnoc(init, g);
    fs', cur' := init + [g], Ready([]);
  }

  lemma ColonStep(depth: nat, conf: Conf, fs: seq<Frame>, cur: Cur, c: int, k: Class)
    returns (fs': seq<Frame>, cur': Cur)
    requires Parsed(depth, conf, fs, cur) && cur.AtColon? && ClassOf(c) == Some(k)
    requires Act(conf, depth, Table(conf.state, k)).Some?
    ensures Follows(depth, Act(conf, depth, Table(conf.state, k)).value, fs, cur, c, fs', cur')
  {
    ClassFacts(c, k);
    hide ClassOf; hide InToken; hide GoodValue;
    if k.Colon? {
      fs', cur' := Flipped(depth, conf, fs, cur);
    } else {
      var t := cur.pre + StrText(cur.key);
      assert t + (cur.mid + [c]) == t + cur.mid + [c];
      fs', cur' := CurStep(depth, conf, conf, fs, cur, AtColon(cur.pre, cur.key, cur.mid + [c]), c);
    }
  }

  // ---------- a complete value, and what may follow it

  /** The frame with the complete value added. */
  function Grown(f: Frame, cur: Cur): Frame
    requires !f.AtKey? && cur.Complete?
  {
    if f.InArr? then InArr(f.pre, MoreElems(f.elems, cur.pre, cur.value, cur.post))
    else AtKey(f.pre, MoreMembers(f.members, f.kpre, f.key, f.mid, cur.pre, cur.value, cur.post))
  }

  function Closed(f: Frame): Value
    requires !f.AtValue?
  {
    if f.InArr? then Arr(f.elems, []) else Obj(f.members, [])
  }

  lemma CatGrown(pre: Text, o: Text, lead: Text, x: Text, comma: Text, close: Text)
    ensures pre + o + (lead + x + comma) == pre + o + lead + x + comma
    ensures pre + (o + (lead + x) + close) == pre + o + lead + x + close
  {}

  lemma GrownText(f: Frame, cur: Cur)
    requires !f.AtKey? && cur.Complete?
    ensures FrameText(Grown(f, cur)) == FrameText(f) + CurText(cur) + [44]
    ensures f.pre + ValueText(Closed(Grown(f, cur))) == FrameText(f) + CurText(cur) + [if f.InArr? then 93 else 125]
    ensures FrameNesting(Grown(f, cur)) == Max(FrameNesting(f), Nesting(cur.value))
    ensures Nesting(Closed(Grown(f, cur))) == 1 + FrameNesting(Grown(f, cur))
  {
    var x := CurText(cur);
    if f.InArr? {
      var es := Grown(f, cur).elems;
      assert ElemsText(es) == ElemsLead(f.elems) + x;
      CatGrown(f.pre, [91], ElemsLead(f.elems), x, [44], [93]);
    } else {
      var ms := Grown(f, cur).members;
      var key := KeyText(f.kpre, f.key, f.mid);
      assert MembersText(ms) == MembersLead(f.members) + (key + x);
      assert MembersLead(f.members) + (key + x) == MembersLead(f.members) + key + x;
      assert FrameText(f) == f.pre + [123] + (MembersLead(f.members) + key);
      CatGrown(f.pre, [123], MembersLead(f.members) + key, x, [44], [125]);
    }
  }

  lemma SepAct(depth: nat, conf: Conf, init: seq<Frame>, f: Frame, cur: Cur)
    requires !f.AtKey? && cur.Complete? && conf.modes == ModesOf(init + [f]) && |init| + 1 < depth
    ensures Act(conf, depth, Sep) == Some(Conf(if f.InArr? then VA else KE, ModesOf(init + [Grown(f, cur)])))
  {
    hide ModesOf; hide FramesText; hide FrameText;
    FramesSnoc(init, f);
    FramesSnoc(init, Grown(f, cur));
    ModesTop(init);
    var modes := ModesOf(init);
    assert Popped(modes + [ModeOf(f)]) == modes;
    if f.InArr? {
      assert conf.modes == modes + [ARRAY] == ModesOf(init + [Grown(f, cur)]);
    } else {
      assert conf.modes == modes + [OBJECT] && ModesOf(init + [Grown(f, cur)]) == modes + [KEY];
    }
  }

  lemma SepText(init: seq<Frame>, f: Frame, cur: Cur)
    requires !f.AtKey? && cur.Complete?
    ensures ReadText(init + [Grown(f, cur)], Ready([])) == ReadText(init + [f], cur) + [44]
  {
    FramesSnoc(init, f);
    FramesSnoc(init, Grown(f, cur));
    GrownText(f, cur);
    hide FramesText; hide FrameText;
    CatFlip(FramesText(init), FrameText(f), CurText(cur), [44]);
    assert FrameText(f) + (CurText(cur) + [44]) == FrameText(f) + CurText(cur) + [44];
  }

  lemma Separated(depth: nat, conf: Conf, fs: seq<Frame>, cur: Cur) returns (fs': seq<Frame>, cur': Cur)
    requires Parsed(depth, conf, fs, cur) && cur.Complete? && fs != []
    ensures Act(conf, depth, Sep).Some?
    ensures Follows(depth, Act(conf, depth, Sep).value, fs, cur, 44, fs', cur')
  {
    hide ReadText, ModesOf, FramesText, GoodFrames, FrameText, CurText, FrameNesting, Parsed, Act;
    ParsedComplete(depth, conf, fs, cur.pre, cur.value, cur.post);
    var init, f := fs[..|fs| - 1], fs[|fs| - 1];
    assert fs == init + [f];
    var g := Grown(f, cur);
    GoodInit(fs, depth);
    GrownText(f, cur);
    GoodSnoc(init, g, depth);
    SepText(init, f, cur);
    SepAct(depth, conf, init, f, cur);
    fs', cur' := init + [g], Ready([]);
    ParsedReady(depth, Act(conf, depth, Sep).value, fs', []);
  }

  lemma FinText(init: seq<Frame>, f: Frame, cur: Cur)
    requires !f.AtKey? && cur.Complete?
    ensures ReadText(init, Complete(f.pre, Closed(Grown(f, cur)), [])) ==
      ReadText(init + [f], cur) + [if f.InArr? then 93 else 125]
  {
    FramesSnoc(init, f);
    GrownText(f, cur);
    hide FramesText; hide FrameText; hide ValueText;
    var close := [if f.InArr? then 93 else 125];
    CatFlip(FramesText(init), FrameText(f), CurText(cur), close);
    assert FrameText(f) + (CurText(cur) + close) == FrameText(f) + CurText(cur) + close;
    assert FramesText(init) + (FrameText(f) + CurText(cur) + close + []) ==
             FramesText(init) + (FrameText(f) + CurText(cur) + close) + [];
  }

  lemma Finished(depth: nat, conf: Conf, fs: seq<Frame>, cur: Cur, arr: bool) returns (fs': seq<Frame>, cur': Cur)
    requires Parsed(depth, conf, fs, cur) && cur.Complete? && fs != [] && arr == fs[|fs| - 1].InArr?
    ensures Act(conf, depth, if arr then CloseArray else CloseObject).Some?
    ensures Follows(depth, Act(conf, depth, if arr then CloseArray else CloseObject).value, fs, cur,
                    if arr then 93 else 125, fs', cur')
  {
    hide ReadText, ModesOf, FramesText, GoodFrames, InToken, FrameText, CurText, FrameNesting, Nesting;
    var init, f := fs[..|fs| - 1], fs[|fs| - 1];
    assert fs == init + [f];
    var g := Grown(f, cur);
    ModesTop(fs);
    GoodInit(fs, depth);
    GrownText(f, cur);
    FinText(init, f, cur);
    fs', cur' := init, Complete(f.pre, Closed(g), []);
    assert GoodValue(Closed(g));
    assert init != [] ==> init[|init| - 1] == fs[|fs| - 2];
    assert Matches(OK, fs', cur', depth);
  }

  lemma CompleteStep(depth: nat, conf: Conf, fs: seq<Frame>, cur: Cur, c: int, k: Class)
    returns (fs': seq<Frame>, cur': Cur)
    requires Parsed(depth, conf, fs, cur) && cur.Complete? && ClassOf(c) == Some(k)
    requires Act(conf, depth, EndRow(k)).Some?
    ensures Follows(depth, Act(conf, depth, EndRow(k)).value, fs, cur, c, fs', cur')
  {
    ClassFacts(c, k);
    hide ClassOf; hide InToken; hide GoodFrames; hide ReadText; hide Follows;
    ModesTop(fs);
    if k.Comma? {
      fs', cur' := Separated(depth, conf, fs, cur);
    } else if k.RCurB? || k.RSqrB? {
      fs', cur' := Finished(depth, conf, fs, cur, k.RSqrB?);
    } else {
      var t := cur.pre + ValueText(cur.value);
      assert t + (cur.post + [c]) == t + cur.post + [c];
      fs', cur' := CurStep(depth, conf, conf, fs, cur, Complete(cur.pre, cur.value, cur.post + [c]), c);
    }
  }

  // ---------- numbers and words

  /** The number with one character more. */
  function NumberGrown(s: State, tok: Text, n: Number, c: int): Number
    requires |tok| > 0
  {
    match s
    case MI => Number(true, [c], None, None)
    case ZE => n.(frac := Some([]))
    case IN => if c == 46 then n.(frac := Some([])) else if IsDigit(c) then n.(digits := n.digits + [c]) else n
    case FR => if IsDigit(c) && n.frac.Some? then n.(frac := Some(n.frac.value + [c])) else n
    case E1 => if IsDigit(c) then n.(exp := Some(Exp(tok[|tok| - 1], [], [c]))) else n
    case E2 => if |tok| > 1 then n.(exp := Some(Exp(tok[|tok| - 2], [tok[|tok| - 1]], [c]))) else n
    case E3 => if n.exp.Some? then n.(exp := Some(n.exp.value.(digits := n.exp.value.digits + [c]))) else n
    case _ => n
  }

  lemma NumberStart(tok: Text, n: Number, c: int, k: Class)
    requires InNumber(MI, tok, n) && ClassOf(c) == Some(k) && Table(MI, k).To?
    ensures NumberState(Table(MI, k).state) && InNumber(Table(MI, k).state, tok + [c], NumberGrown(MI, tok, n, c))
  {
    ClassFacts(c, k);
    hide ClassOf;
    assert NumText(Number(true, [c], None, None)) == [45] + [c];
  }

  /** A digit more in the integer part or the fraction, or the point between them. */
  lemma MantissaText'(n: Number, c: int)
    requires n.exp.None?
    ensures n.frac.None? ==>
      && NumText(n.(digits := n.digits + [c])) == NumText(n) + [c]
      && NumText(n.(frac := Some([]))) == NumText(n) + [46]
    ensures n.frac.Some? ==> NumText(n.(frac := Some(n.frac.value + [c]))) == NumText(n) + [c]
  {}

  lemma CatDigit(a: Text, b: Text, c: Text)
    ensures a + (b + c) == a + b + c
  {}

  lemma ZeroNext(tok: Text, n: Number, c: int, k: Class)
    requires |tok| > 0 && InNumber(ZE, tok, n) && ClassOf(c) == Some(k)
    requires Table(ZE, k).To? && !Table(ZE, k).state.OK?
    ensures NumberState(Table(ZE, k).state) && InNumber(Table(ZE, k).state, tok + [c], NumberGrown(ZE, tok, n, c))
  {
    hide ClassOf, NumText;
    ClassFacts(c, k);
    MantissaText'(n, c);
  }

  lemma IntNext(tok: Text, n: Number, c: int, k: Class)
    requires |tok| > 0 && InNumber(IN, tok, n) && ClassOf(c) == Some(k)
    requires Table(IN, k).To? && !Table(IN, k).state.OK?
    ensures NumberState(Table(IN, k).state) && InNumber(Table(IN, k).state, tok + [c], NumberGrown(IN, tok, n, c))
  {
    hide ClassOf, NumText;
    ClassFacts(c, k);
    MantissaText'(n, c);
    assert (tok + [c])[..|tok|] == tok;
  }

  lemma FracNext(tok: Text, n: Number, c: int, k: Class)
    requires |tok| > 0 && InNumber(FR, tok, n) && ClassOf(c) == Some(k)
    requires Table(FR, k).To? && !Table(FR, k).state.OK?
    ensures NumberState(Table(FR, k).state) && InNumber(Table(FR, k).state, tok + [c], NumberGrown(FR, tok, n, c))
  {
    hide ClassOf, NumText;
    ClassFacts(c, k);
    MantissaText'(n, c);
    assert (tok + [c])[..|tok|] == tok;
  }

  lemma ExpText(n: Number, mark: int, sign: Text, digits: Text)
    requires n.exp.None?
    ensures NumText(n.(exp := Some(Exp(mark, sign, digits)))) == NumText(n) + [mark] + sign + digits
  {}

  lemma ExponentFirst(s: State, tok: Text, n: Number, c: int, k: Class)
    requires (s.E1? || s.E2?) && |tok| > 0 && InNumber(s, tok, n) && ClassOf(c) == Some(k)
    requires Table(s, k).To? && !Table(s, k).state.OK?
    ensures NumberState(Table(s, k).state) && InNumber(Table(s, k).state, tok + [c], NumberGrown(s, tok, n, c))
  {
    hide ClassOf, NumText;
    ClassFacts(c, k);
    if s.E1? {
      ExpText(n, tok[|tok| - 1], [], [c]);
      assert tok == tok[..|tok| - 1] + [tok[|tok| - 1]];
      assert (tok + [c])[..|tok| - 1] == tok[..|tok| - 1];
      assert tok + [] == tok;
    } else {
      ExpText(n, tok[|tok| - 2], [tok[|tok| - 1]], [c]);
      assert tok == tok[..|tok| - 2] + [tok[|tok| - 2]] + [tok[|tok| - 1]];
    }
  }

  lemma ExponentRow(k: Class)
    ensures Table(E3, k).To? && !Table(E3, k).state.OK? <==> DigitClass(k)
    ensures DigitClass(k) ==> Table(E3, k).state.E3?
  {}

  lemma ExponentMore(tok: Text, n: Number, c: int, k: Class)
    requires |tok| > 0 && InNumber(E3, tok, n) && ClassOf(c) == Some(k)
    requires Table(E3, k).To? && !Table(E3, k).state.OK?
    ensures Table(E3, k).state.E3? && InNumber(E3, tok + [c], NumberGrown(E3, tok, n, c))
  {
    hide ClassOf, NumText, Table;
    ClassFacts(c, k);
    ExponentRow(k);
    var e, n0 := n.exp.value, n.(exp := None);
    ExpText(n0, e.mark, e.sign, e.digits);
    ExpText(n0, e.mark, e.sign, e.digits + [c]);
    assert n0.(exp := Some(e)) == n;
    assert n0.(exp := Some(Exp(e.mark, e.sign, e.digits + [c]))) == NumberGrown(E3, tok, n, c);
    CatDigit(NumText(n0) + [e.mark] + e.sign, e.digits, [c]);
  }

  lemma NumberNext(s: State, tok: Text, n: Number, c: int, k: Class)
    requires NumberState(s) && |tok| > 0 && InNumber(s, tok, n) && ClassOf(c) == Some(k)
    requires Table(s, k).To? && !Table(s, k).state.OK?
    ensures NumberState(Table(s, k).state) && InNumber(Table(s, k).state, tok + [c], NumberGrown(s, tok, n, c))
  {
    hide ClassOf; hide InNumber; hide NumberGrown; hide Table;
    match s
    case MI => NumberStart(tok, n, c, k);
    case ZE => ZeroNext(tok, n, c, k);
    case IN => IntNext(tok, n, c, k);
    case FR => FracNext(tok, n, c, k);
    case E1 => ExponentFirst(s, tok, n, c, k);
    case E2 => ExponentFirst(s, tok, n, c, k);
    case E3 => ExponentMore(tok, n, c, k);
  }

  lemma NumberLength(n: Number)
    requires GoodNumber(n)
    ensures |NumText(n)| > 0
  {}

  lemma NumberTable(s: State, k: Class, tok: Text, n: Number)
    requires NumberState(s) && InNumber(s, tok, n) && !Table(s, k).Error?
    ensures |tok| > 0
    ensures !(Table(s, k).To? && !Table(s, k).state.OK?) ==>
      Table(s, k) == EndRow(k) && NumberEnd(s) && GoodNumber(n) && tok == NumText(n)
  {
    hide NumText, EndRow, GoodNumber;
    if GoodNumber(n) { NumberLength(n); }
  }

  lemma NumberGrow(depth: nat, conf: Conf, fs: seq<Frame>, cur: Cur, n: Number, c: int, k: Class)
    returns (fs': seq<Frame>, cur': Cur)
    requires Parsed(depth, conf, fs, cur) && cur.Token? && NumberState(conf.state) && ClassOf(c) == Some(k)
    requires InNumber(conf.state, cur.tok, n) && |cur.tok| > 0
    requires Table(conf.state, k).To? && !Table(conf.state, k).state.OK?
    ensures Follows(depth, Conf(Table(conf.state, k).state, conf.modes), fs, cur, c, fs', cur')
  {
    var s, tok := conf.state, cur.tok;
    NumberNext(s, tok, n, c, k);
    hide InNumber; hide Table; hide ClassOf; hide GoodFrames; hide NumberGrown;
    assert InNumber(Table(s, k).state, tok + [c], NumberGrown(s, tok, n, c));
    assert cur.pre + (tok + [c]) == cur.pre + tok + [c];
    fs', cur' := CurStep(depth, conf, Conf(Table(s, k).state, conf.modes), fs, cur, Token(cur.pre, tok + [c]), c);
  }

  lemma ActSame(conf: Conf, depth: nat, k: Class)
    ensures Act(Conf(OK, conf.modes), depth, EndRow(k)) == Act(conf, depth, EndRow(k))
  {}

  lemma NumberDone(depth: nat, conf: Conf, fs: seq<Frame>, cur: Cur, n: Number, c: int, k: Class)
    returns (fs': seq<Frame>, cur': Cur)
    requires Parsed(depth, conf, fs, cur) && cur.Token? && NumberEnd(conf.state) && ClassOf(c) == Some(k)
    requires GoodNumber(n) && cur.tok == NumText(n) && Act(conf, depth, EndRow(k)).Some?
    ensures Follows(depth, Act(conf, depth, EndRow(k)).value, fs, cur, c, fs', cur')
  {
    hide InToken; hide ClassOf; hide GoodFrames; hide NumText; hide GoodNumber;
    ActSame(conf, depth, k);
    hide Act;
    var cur0 := Complete(cur.pre, Num(n), []);
    assert cur.pre + cur.tok + [] == cur.pre + cur.tok;
    fs', cur' := CompleteStep(depth, Conf(OK, conf.modes), fs, cur0, c, k);
  }

  lemma NumberStep(depth: nat, conf: Conf, fs: seq<Frame>, cur: Cur, c: int, k: Class)
    returns (fs': seq<Frame>, cur': Cur)
    requires Parsed(depth, conf, fs, cur) && cur.Token? && NumberState(conf.state) && ClassOf(c) == Some(k)
    requires Act(conf, depth, Table(conf.state, k)).Some?
    ensures Follows(depth, Act(conf, depth, Table(conf.state, k)).value, fs, cur, c, fs', cur')
  {
    var n :| InNumber(conf.state, cur.tok, n);
    NumberTable(conf.state, k, cur.tok, n);
    hide InNumber; hide Table; hide ClassOf; hide Follows; hide Parsed;
    if Table(conf.state, k).To? && !Table(conf.state, k).state.OK? {
      fs', cur' := NumberGrow(depth, conf, fs, cur, n, c, k);
    } else {
      fs', cur' := NumberDone(depth, conf, fs, cur, n, c, k);
    }
  }

  lemma WordOnly(s: State, tok: Text)
    requires WordState(s)
    ensures InToken(s, tok) <==> tok == WordRead(s)
    ensures !StringState(s)
  {}

  lemma WordDone(tok: Text)
    requires tok == TRUE || tok == FALSE || tok == NULL
    ensures GoodValue(Lit(tok)) && ValueText(Lit(tok)) == tok && Nesting(Lit(tok)) == 0
  {}

  lemma WordNext(s: State, c: int, k: Class)
    requires WordState(s) && ClassOf(c) == Some(k) && !Table(s, k).Error?
    ensures Table(s, k).To?
    ensures var s' := Table(s, k).state; var tok := WordRead(s) + [c];
      if s'.OK? then tok == TRUE || tok == FALSE || tok == NULL else WordState(s') && tok == WordRead(s')
  {
    LetterFacts(c, k);
  }

  lemma WordStep(depth: nat, conf: Conf, fs: seq<Frame>, cur: Cur, c: int, k: Class)
    returns (fs': seq<Frame>, cur': Cur)
    requires Parsed(depth, conf, fs, cur) && cur.Token? && WordState(conf.state) && ClassOf(c) == Some(k)
    requires Act(conf, depth, Table(conf.state, k)).Some?
    ensures Follows(depth, Act(conf, depth, Table(conf.state, k)).value, fs, cur, c, fs', cur')
  {
    hide Table, ClassOf, GoodFrames, WordRead, InToken, Nesting, WordState, StringState;
    WordNext(conf.state, c, k);
    WordOnly(conf.state, cur.tok);
    var conf' := Act(conf, depth, Table(conf.state, k)).value;
    var tok := cur.tok + [c];
    assert cur.pre + tok == cur.pre + cur.tok + [c];
    assert cur.pre + tok + [] == cur.pre + tok;
    if conf'.state.OK? {
      WordDone(tok);
      fs', cur' := CurStep(depth, conf, conf', fs, cur, Complete(cur.pre, Lit(tok), []), c);
    } else {
      WordOnly(conf'.state, tok);
      fs', cur' := CurStep(depth, conf, conf', fs, cur, Token(cur.pre, tok), c);
    }
  }

  // ---------- whole texts

  lemma StepSound(depth: nat, conf: Conf, fs: seq<Frame>, cur: Cur, c: int) returns (fs': seq<Frame>, cur': Cur)
    requires Parsed(depth, conf, fs, cur) && Feed(conf, depth, c).Some?
    ensures Follows(depth, Feed(conf, depth, c).value, fs, cur, c, fs', cur')
  {
    var k := ClassOf(c).value;
    hide Follows; hide ClassOf; hide GoodFrames; hide Act;
    match cur
    case Ready(_) => fs', cur' := ReadyStep(depth, conf, fs, cur, c, k);
    case AtColon(_, _, _) => fs', cur' := ColonStep(depth, conf, fs, cur, c, k);
    case Complete(_, _, _) => fs', cur' := CompleteStep(depth, conf, fs, cur, c, k);
    case Token(_, _) =>
      if StringState(conf.state) {
        fs', cur' := StringStep(depth, conf, fs, cur, c, k);
      } else if NumberState(conf.state) {
        fs', cur' := NumberStep(depth, conf, fs, cur, c, k);
      } else {
        fs', cur' := WordStep(depth, conf, fs, cur, c, k);
      }
  }

  lemma StartSound(depth: nat)
    requires depth >= 1
    ensures Parsed(depth, INITIAL, [], Ready([])) && ReadText([], Ready([])) == []
  {}

  /** Every configuration reached is that of a tree under construction. */
  lemma {:induction false} RunSound(depth: nat, t: Text) returns (fs: seq<Frame>, cur: Cur)
    requires depth >= 1 && FeedAll(INITIAL, depth, t).Some?
    ensures Parsed(depth, FeedAll(INITIAL, depth, t).value, fs, cur) && ReadText(fs, cur) == t
    decreases |t|
  {
    hide Parsed, ReadText, Feed, FeedAll;
    if t == [] {
      fs, cur := [], Ready([]);
      StartSound(depth);
      FeedNone(INITIAL, depth);
    } else {
      var init, c := t[..|t| - 1], t[|t| - 1];
      FeedLast(INITIAL, depth, t);
      assert t == init + [c];
      fs, cur := RunSound(depth, init);
      fs, cur := StepSound(depth, FeedAll(INITIAL, depth, init).value, fs, cur, c);
    }
  }

  /** Soundness: what the checker accepts is JSON, nested less deep than its limit. */
  lemma AcceptedIsJson(depth: nat, t: Text)
    requires depth >= 1 && Accepts(depth, t)
    ensures IsJson(t, depth)
  {
    var fs, cur := RunSound(depth, t);
    ModesTop(fs);
    assert fs == [];
    assert Denotes(t, depth, cur.pre, cur.value, cur.post);
  }

  lemma {:induction false} ModesAt(fs: seq<Frame>)
    ensures |ModesOf(fs)| == |fs| + 1 && ModesOf(fs)[0] == DONE
    ensures forall i :: 0 <= i < |fs| ==> ModesOf(fs)[i + 1] == ModeOf(fs[i])
  {
    if fs != [] { ModesAt(fs[..|fs| - 1]); }
  }

  /** Only the top of the mode stack is ever KEY, and only its bottom is DONE. */
  lemma ModesShape(depth: nat, t: Text, i: nat)
    requires depth >= 1 && FeedAll(INITIAL, depth, t).Some?
    ensures var modes := FeedAll(INITIAL, depth, t).value.modes;
      && 1 <= |modes| <= depth
      && (i < |modes| && modes[i] == KEY ==> i == |modes| - 1)
      && (i < |modes| ==> (modes[i] == DONE <==> i == 0))
  {
    hide FeedAll; hide ReadText; hide Matches;
    var fs, cur := RunSound(depth, t);
    ModesAt(fs);
    if 0 < i <= |fs| {
      assert ModesOf(fs)[(i - 1) + 1] == ModeOf(fs[i - 1]);
    }
  }

  /** The mode checks behind a colon, an empty object and a closing quote never fail. */
  lemma ModeChecksHold(depth: nat, t: Text)
    requires depth >= 1 && FeedAll(INITIAL, depth, t).Some?
    ensures var conf := FeedAll(INITIAL, depth, t).value;
      && (conf.state.CO? ==> Feed(conf, depth, 58).Some?)
      && (conf.state.OB? ==> Feed(conf, depth, 125).Some?)
      && (conf.state.ST? ==> Feed(conf, depth, 34).Some?)
  {
    hide FeedAll; hide ReadText; hide GoodFrames; hide ModesOf;
    var fs, cur := RunSound(depth, t);
    var conf := FeedAll(INITIAL, depth, t).value;
    ModesTop(fs);
    if conf.state.CO? {
      fs, cur := Flipped(depth, conf, fs, cur);
    } else if conf.state.ST? {
      var items, u :| InString(ST, cur.tok, items, u);
      fs, cur := StringEnd(depth, conf, fs, cur, items);
    }
  }
}
