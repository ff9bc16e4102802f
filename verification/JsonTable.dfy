/** The character classes, the states and the transition table of the JSON_checker
    pushdown automaton, and one step of it on values.
 */
module JsonTable {

  import opened Common

  /** Characters, or partial characters, as the numbers they are fed in as. */
  type Text = seq<int>

  datatype Class =
    | Space | White | LCurB | RCurB | LSqrB | RSqrB | Colon | Comma | Quote | Backs | Slash | Plus | Minus | Point
    | Zero | Digit | LowA | LowB | LowC | LowD | LowE | LowF | LowL | LowN | LowR | LowS | LowT | LowU | ABCDF | E | Etc

  datatype State =
    | GO | OK | OB | KE | CO | VA | AR | ST | ES | U1 | U2 | U3 | U4 | MI | ZE | IN | FR | E1 | E2 | E3
    | T1 | T2 | T3 | F1 | F2 | F3 | F4 | N1 | N2 | N3

  datatype Mode = ARRAY | DONE | KEY | OBJECT

  /** A table entry: the error code, a new state, or one of the numbered actions. */
  datatype Entry =
    | Error
    | To(state: State)
    | Flip        // -2  :
    | Sep         // -3  ,
    | EndString   // -4  "
    | OpenArray   // -5  [
    | OpenObject  // -6  {
    | CloseArray  // -7  ]
    | CloseObject // -8  }
    | CloseEmpty  // -9  }

  /** ascii_class, with everything beyond ASCII in the class Etc */
  function ClassOf(c: int): Option<Class> {
    if c < 0 then None
    else if c >= 128 then Some(Etc)
    else if c == 9 || c == 10 || c == 13 then Some(White)
    else if c < 32 then None
    else if c == 32 then Some(Space)
    else if c == 34 then Some(Quote)
    else if c == 43 then Some(Plus)
    else if c == 44 then Some(Comma)
    else if c == 45 then Some(Minus)
    else if c == 46 then Some(Point)
    else if c == 47 then Some(Slash)
    else if c == 48 then Some(Zero)
    else if 49 <= c <= 57 then Some(Digit)
    else if c == 58 then Some(Colon)
    else if c == 69 then Some(E)
    else if 65 <= c <= 70 then Some(ABCDF)
    else if c == 91 then Some(LSqrB)
    else if c == 92 then Some(Backs)
    else if c == 93 then Some(RSqrB)
    else if c == 97 then Some(LowA)
    else if c == 98 then Some(LowB)
    else if c == 99 then Some(LowC)
    else if c == 100 then Some(LowD)
    else if c == 101 then Some(LowE)
    else if c == 102 then Some(LowF)
    else if c == 108 then Some(LowL)
    else if c == 110 then Some(LowN)
    else if c == 114 then Some(LowR)
    else if c == 115 then Some(LowS)
    else if c == 116 then Some(LowT)
    else if c == 117 then Some(LowU)
    else if c == 123 then Some(LCurB)
    else if c == 125 then Some(RCurB)
    else Some(Etc)
  }

  function Ws(k: Class, s: State): Entry {
    if k.Space? || k.White? then To(s) else Error
  }

  /** The columns shared by the rows of states in which a value is complete. */
  function EndRow(k: Class): Entry {
    match k
    case RCurB => CloseObject
    case RSqrB => CloseArray
    case Comma => Sep
    case _ => Ws(k, OK)
  }

  /** The columns shared by the rows of states that await a value. */
  function ValueRow(k: Class, s: State): Entry {
    match k
    case LCurB => OpenObject
    case LSqrB => OpenArray
    case Quote => To(ST)
    case Minus => To(MI)
    case Zero => To(ZE)
    case Digit => To(IN)
    case LowF => To(F1)
    case LowN => To(N1)
    case LowT => To(T1)
    case _ => Ws(k, s)
  }

  predicate HexClass(k: Class) {
    k.Zero? || k.Digit? || k.LowA? || k.LowB? || k.LowC? || k.LowD? || k.LowE? || k.LowF? || k.ABCDF? || k.E?
  }

  predicate DigitClass(k: Class) { k.Zero? || k.Digit? }

  function On(hit: bool, s: State): Entry {
    if hit then To(s) else Error
  }

  /** state_transition_table */
  function Table(s: State, k: Class): Entry {
    match s
    case GO => if k.LCurB? then OpenObject else if k.LSqrB? then OpenArray else Ws(k, GO)
    case OK => EndRow(k)
    case OB => if k.RCurB? then CloseEmpty else if k.Quote? then To(ST) else Ws(k, OB)
    case KE => if k.Quote? then To(ST) else Ws(k, KE)
    case CO => if k.Colon? then Flip else Ws(k, CO)
    case VA => ValueRow(k, VA)
    case AR => if k.RSqrB? then CloseArray else ValueRow(k, AR)
    case ST => if k.White? then Error else if k.Quote? then EndString else if k.Backs? then To(ES) else To(ST)
    case ES =>
      if k.Quote? || k.Backs? || k.Slash? || k.LowB? || k.LowF? || k.LowN? || k.LowR? || k.LowT? then To(ST)
      else On(k.LowU?, U1)
    case U1 => On(HexClass(k), U2)
    case U2 => On(HexClass(k), U3)
    case U3 => On(HexClass(k), U4)
    case U4 => On(HexClass(k), ST)
    case MI => if k.Zero? then To(ZE) else On(k.Digit?, IN)
    case ZE => if k.Point? then To(FR) else EndRow(k)
    case IN =>
      if k.Point? then To(FR) else if DigitClass(k) then To(IN) else if k.LowE? || k.E? then To(E1) else EndRow(k)
    case FR => if DigitClass(k) then To(FR) else if k.LowE? || k.E? then To(E1) else EndRow(k)
    case E1 => if k.Plus? || k.Minus? then To(E2) else On(DigitClass(k), E3)
    case E2 => On(DigitClass(k), E3)
    case E3 => if DigitClass(k) then To(E3) else EndRow(k)
    case T1 => On(k.LowR?, T2)
    case T2 => On(k.LowU?, T3)
    case T3 => On(k.LowE?, OK)
    case F1 => On(k.LowA?, F2)
    case F2 => On(k.LowL?, F3)
    case F3 => On(k.LowS?, F4)
    case F4 => On(k.LowE?, OK)
    case N1 => On(k.LowU?, N2)
    case N2 => On(k.LowL?, N3)
    case N3 => On(k.LowL?, OK)
  }

  /** The state and the mode stack, top last. */
  datatype Conf = Conf(state: State, modes: seq<Mode>)

  function Top(modes: seq<Mode>): Option<Mode> {
    if modes == [] then None else Some(modes[|modes| - 1])
  }

  function Popped(modes: seq<Mode>): seq<Mode> {
    if modes == [] then [] else modes[..|modes| - 1]
  }

  function PopTo(conf: Conf, mode: Mode, s: State): Option<Conf> {
    if Top(conf.modes) == Some(mode) then Some(Conf(s, Popped(conf.modes))) else None
  }

  function PushTo(conf: Conf, depth: nat, mode: Mode, s: State): Option<Conf> {
    if |conf.modes| < depth then Some(Conf(s, conf.modes + [mode])) else None
  }

  /** The actions of json_checker_char; None is a rejection. */
  function Act(conf: Conf, depth: nat, e: Entry): Option<Conf> {
    match e
    case Error => None
    case To(s) => Some(Conf(s, conf.modes))
    case CloseEmpty => PopTo(conf, KEY, OK)
    case CloseObject => PopTo(conf, OBJECT, OK)
    case CloseArray => PopTo(conf, ARRAY, OK)
    case OpenObject => PushTo(conf, depth, KEY, OB)
    case OpenArray => PushTo(conf, depth, ARRAY, AR)
    case EndString =>
      (match Top(conf.modes)
       case Some(KEY) => Some(Conf(CO, conf.modes))
       case Some(ARRAY) => Some(Conf(OK, conf.modes))
       case Some(OBJECT) => Some(Conf(OK, conf.modes))
       case _ => None)
    case Sep =>
      (match Top(conf.modes)
       case Some(OBJECT) => PushTo(Conf(conf.state, Popped(conf.modes)), depth, KEY, KE)
       case Some(ARRAY) => Some(Conf(VA, conf.modes))
       case _ => None)
    case Flip =>
      if Top(conf.modes) == Some(KEY)
      then PushTo(Conf(conf.state, Popped(conf.modes)), depth, OBJECT, VA)
      else None
  }

  function Feed(conf: Conf, depth: nat, c: int): Option<Conf> {
    match ClassOf(c)
    case None => None
    case Some(k) => Act(conf, depth, Table(conf.state, k))
  }

  function FeedAll(conf: Conf, depth: nat, t: Text): Option<Conf>
    decreases |t|
  {
    if t == [] then Some(conf)
    else match FeedAll(conf, depth, t[..|t| - 1])
      case None => None
      case Some(conf') => Feed(conf', depth, t[|t| - 1])
  }

  lemma FeedNone(conf: Conf, depth: nat)
    ensures FeedAll(conf, depth, []) == Some(conf)
  {}

  lemma FeedLast(conf: Conf, depth: nat, t: Text)
    requires t != []
    ensures FeedAll(conf, depth, t) == match FeedAll(conf, depth, t[..|t| - 1])
                                       case None => None
                                       case Some(conf') => Feed(conf', depth, t[|t| - 1])
  {
    hide Feed;
  }

  const INITIAL := Conf(GO, [DONE])

  /** json_checker_done after every character has been taken */
  predicate Accepting(conf: Conf) {
    conf.state == OK && Top(conf.modes) == Some(DONE)
  }

  predicate Accepts(depth: nat, t: Text) {
    var r := FeedAll(INITIAL, depth, t);
    r.Some? && Accepting(r.value)
  }
}
