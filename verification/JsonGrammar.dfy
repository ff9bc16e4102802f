/** The language the checker is for, as parse trees: a text is in it when some tree
    prints as that text. This is JSON with the number syntax of the table, which
    allows no digit after the point and no exponent straight after a lone zero.
 */
module JsonGrammar {
  import opened Common
  import opened JsonTable

  /** A character of a string, as it is written. */
  datatype StrItem = Plain(c: int) | Escaped(c: int) | Unicode(a: int, b: int, c': int, d: int)

  datatype Exp = Exp(mark: int, sign: Text, digits: Text)

  datatype Number = Number(neg: bool, digits: Text, frac: Option<Text>, exp: Option<Exp>)

  datatype Value =
    | Str(items: seq<StrItem>)
    | Num(number: Number)
    | Lit(word: Text)
    | Arr(elems: Elems, ws: Text)
    | Obj(members: Members, ws: Text)

  datatype Elems = NoElems | MoreElems(init: Elems, pre: Text, value: Value, post: Text)

  datatype Members =
    | NoMembers
    | MoreMembers(init: Members, pre: Text, key: seq<StrItem>, mid: Text, pre': Text, value: Value, post: Text)

  const TRUE: Text := [116, 114, 117, 101]
  const FALSE: Text := [102, 97, 108, 115, 101]
  const NULL: Text := [110, 117, 108, 108]

  // ---------- which trees are grammatical

  predicate IsWs(c: int) { c == 32 || c == 9 || c == 10 || c == 13 }

  predicate IsDigit(c: int) { 48 <= c <= 57 }

  predicate IsHex(c: int) { IsDigit(c) || 65 <= c <= 70 || 97 <= c <= 102 }

  predicate AllWs(t: Text) { forall i :: 0 <= i < |t| ==> IsWs(t[i]) }

  predicate AllDigits(t: Text) { forall i :: 0 <= i < |t| ==> IsDigit(t[i]) }

  predicate GoodItem(i: StrItem) {
    match i
    case Plain(c) => c >= 32 && c != 34 && c != 92
    case Escaped(c) => c == 34 || c == 92 || c == 47 || c == 98 || c == 102 || c == 110 || c == 114 || c == 116
    case Unicode(a, b, c, d) => IsHex(a) && IsHex(b) && IsHex(c) && IsHex(d)
  }

  predicate GoodItems(s: seq<StrItem>) { forall i :: 0 <= i < |s| ==> GoodItem(s[i]) }

  predicate GoodExp(e: Exp) {
    && (e.mark == 69 || e.mark == 101)
    && (e.sign == [] || e.sign == [43] || e.sign == [45])
    && |e.digits| > 0 && AllDigits(e.digits)
  }

  predicate GoodNumber(n: Number) {
    && (n.digits == [48] || (|n.digits| > 0 && n.digits[0] != 48 && AllDigits(n.digits)))
    && (n.frac.Some? ==> AllDigits(n.frac.value))
    && (n.exp.Some? ==> GoodExp(n.exp.value) && (n.digits == [48] ==> n.frac.Some?))
  }

  predicate GoodValue(v: Value) {
    match v
    case Str(items) => GoodItems(items)
    case Num(n) => GoodNumber(n)
    case Lit(w) => w == TRUE || w == FALSE || w == NULL
    case Arr(es, ws) => GoodElems(es) && AllWs(ws)
    case Obj(ms, ws) => GoodMembers(ms) && AllWs(ws)
  }

  predicate GoodElems(es: Elems) {
    es.NoElems? || (GoodElems(es.init) && AllWs(es.pre) && GoodValue(es.value) && AllWs(es.post))
  }

  predicate GoodMembers(ms: Members) {
    ms.NoMembers? ||
    (&& GoodMembers(ms.init) && AllWs(ms.pre) && GoodItems(ms.key) && AllWs(ms.mid) && AllWs(ms.pre')
     && GoodValue(ms.value) && AllWs(ms.post))
  }

  // ---------- how a tree is written

  function ItemText(i: StrItem): Text {
    match i
    case Plain(c) => [c]
    case Escaped(c) => [92, c]
    case Unicode(a, b, c, d) => [92, 117, a, b, c, d]
  }

  function ItemsText(s: seq<StrItem>): Text {
    if s == [] then [] else ItemsText(s[..|s| - 1]) + ItemText(s[|s| - 1])
  }

  function StrText(s: seq<StrItem>): Text { [34] + ItemsText(s) + [34] }

  function MantissaText(n: Number): Text {
    (if n.neg then [45] else []) + n.digits + (if n.frac.Some? then [46] + n.frac.value else [])
  }

  function NumText(n: Number): Text {
    MantissaText(n) + (if n.exp.Some? then [n.exp.value.mark] + n.exp.value.sign + n.exp.value.digits else [])
  }

  function ValueText(v: Value): Text
    decreases v
  {
    match v
    case Str(items) => StrText(items)
    case Num(n) => NumText(n)
    case Lit(w) => w
    case Arr(es, ws) => [91] + (if es.NoElems? then ws else ElemsText(es)) + [93]
    case Obj(ms, ws) => [123] + (if ms.NoMembers? then ws else MembersText(ms)) + [125]
  }

  function ElemsText(es: Elems): Text
    decreases es, 0
  {
    if es.NoElems? then [] else ElemsLead(es.init) + (es.pre + ValueText(es.value) + es.post)
  }

  /** The elements before another one, each followed by its comma. */
  function ElemsLead(es: Elems): Text
    decreases es, 1
  {
    if es.NoElems? then [] else ElemsText(es) + [44]
  }

  function KeyText(pre: Text, key: seq<StrItem>, mid: Text): Text { pre + StrText(key) + mid + [58] }

  function MembersText(ms: Members): Text
    decreases ms, 0
  {
    if ms.NoMembers? then []
    else MembersLead(ms.init) + (KeyText(ms.pre, ms.key, ms.mid) + (ms.pre' + ValueText(ms.value) + ms.post))
  }

  function MembersLead(ms: Members): Text
    decreases ms, 1
  {
    if ms.NoMembers? then [] else MembersText(ms) + [44]
  }

  // ---------- how deep it nests

  function Max(a: nat, b: nat): nat { if a < b then b else a }

  function Nesting(v: Value): nat {
    match v
    case Arr(es, _) => 1 + ElemsNesting(es)
    case Obj(ms, _) => 1 + MembersNesting(ms)
    case _ => 0
  }

  function ElemsNesting(es: Elems): nat {
    if es.NoElems? then 0 else Max(ElemsNesting(es.init), Nesting(es.value))
  }

  function MembersNesting(ms: Members): nat {
    if ms.NoMembers? then 0 else Max(MembersNesting(ms.init), Nesting(ms.value))
  }

  ghost predicate Denotes(t: Text, depth: nat, pre: Text, v: Value, post: Text) {
    && AllWs(pre) && (v.Arr? || v.Obj?) && GoodValue(v) && AllWs(post)
    && t == pre + ValueText(v) + post && Nesting(v) < depth
  }

  /** `t` is a JSON text: white space around an array or an object. */
  ghost predicate IsJson(t: Text, depth: nat) {
    exists pre, v, post :: Denotes(t, depth, pre, v, post)
  }
}
