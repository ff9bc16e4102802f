/** JSON_checker: a character-at-a-time syntax checker with a bounded mode stack. */
module JsonChecker {
  import opened Common
  import opened JsonTable
  import opened JsonGrammar
  import JsonSound
  import JsonComplete

  /** The checker accepts exactly the JSON texts nested less deep than its limit. */
  lemma AcceptsExactly(depth: nat, t: Text)
    requires depth >= 1
    ensures Accepts(depth, t) <==> IsJson(t, depth)
  {
    if Accepts(depth, t) { JsonSound.AcceptedIsJson(depth, t); }
    if IsJson(t, depth) { JsonComplete.JsonIsAccepted(depth, t); }
  }

  /** A text rejected on the way stays rejected, so a caller may stop at the first false. */
  lemma {:induction false} RejectedForGood(depth: nat, t: Text, more: Text)
    requires FeedAll(INITIAL, depth, t).None?
    ensures FeedAll(INITIAL, depth, t + more).None?
    decreases |more|
  {
    hide Feed, FeedAll;
    if more == [] {
      assert t + more == t;
    } else {
      FeedLast(INITIAL, depth, t + more);
      RejectedForGood(depth, t, more[..|more| - 1]);
      assert (t + more)[..|t + more| - 1] == t + more[..|more| - 1];
    }
  }

  class Checker {
    var state: State
    const depth: nat
    var top: int
    const stack: array<Mode>

    ghost predicate Valid()
      reads this, stack
    {
      stack.Length == depth && 0 <= top < depth && stack[0] == DONE
    }

    ghost function Abs(): Conf
      requires Valid()
      reads this, stack
    {
      Conf(state, stack[..top + 1])
    }

    /** Push a mode; false if there is overflow. */
    method Push(mode: Mode) returns (ok: bool)
      requires stack.Length == depth && -1 <= top < depth
      modifies this`top, stack
      ensures ok == (old(top) + 1 < depth) && top == old(top) + 1
      ensures ok ==> stack[..top + 1] == old(stack[..top + 1]) + [mode]
    {
      top := top + 1;
      if top >= depth {
        return false;
      }
      stack[top] := mode;
      return true;
    }

    /** new_json_checker */
    constructor (depth: nat)
      requires depth >= 1
      ensures Valid() && fresh(stack) && this.depth == depth && Abs() == INITIAL
    {
      state := GO;
      this.depth := depth;
      top := -1;
      stack := new Mode[depth](_ => ARRAY);
      new;
      var pushed := Push(DONE);
    }

    /** Pop a mode; false, changing nothing, if the modes mismatch. */
    method Pop(mode: Mode) returns (ok: bool)
      requires stack.Length == depth && -1 <= top < depth
      modifies this`top
      ensures ok == (Top(stack[..old(top) + 1]) == Some(mode))
      ensures top == if ok then old(top) - 1 else old(top)
    {
      if top < 0 || stack[top] != mode {
        return false;
      }
      top := top - 1;
      return true;
    }

    /** The switch over the actions. */
    method Action(next: Entry) returns (ok: bool)
      requires Valid() && !next.To?
      modifies this`state, this`top, stack
      ensures ok == Act(old(Abs()), depth, next).Some?
      ensures ok ==> Valid() && Abs() == Act(old(Abs()), depth, next).value
    {
      assert Top(stack[..top + 1]) == Some(stack[top]) && Popped(stack[..top + 1]) == stack[..top];
      match next
      case CloseEmpty =>
        ok := Pop(KEY);
        if ok { state := OK; }
      case CloseObject =>
        ok := Pop(OBJECT);
        if ok { state := OK; }
      case CloseArray =>
        ok := Pop(ARRAY);
        if ok { state := OK; }
      case OpenObject =>
        ok := Push(KEY);
        if ok { state := OB; }
      case OpenArray =>
        ok := Push(ARRAY);
        if ok { state := AR; }
      case EndString =>
        match stack[top] {
          case KEY => state := CO; ok := true;
          case ARRAY => state := OK; ok := true;
          case OBJECT => state := OK; ok := true;
          case DONE => ok := false;
        }
      case Sep =>
        match stack[top] {
          case OBJECT =>
            ok := Pop(OBJECT);
            if ok { ok := Push(KEY); }
            if ok { state := KE; }
          case ARRAY => state := VA; ok := true;
          case _ => ok := false;
        }
      case Flip =>
        ok := Pop(KEY);
        if ok { ok := Push(OBJECT); }
        if ok { state := VA; }
      case Error => ok := false;
    }

    /** json_checker_char: false is a rejection, after which the object must not be used. */
    method Char(nextChar: int) returns (ok: bool)
      requires Valid()
      modifies this`state, this`top, stack
      ensures ok == Feed(old(Abs()), depth, nextChar).Some?
      ensures ok ==> Valid() && Abs() == Feed(old(Abs()), depth, nextChar).value
    {
      if nextChar < 0 {
        return false;
      }
      var class' := ClassOf(nextChar);
      if class'.None? {
        return false;
      }
      var next := Table(state, class'.value);
      if next.To? {
        state := next.state;
        return true;
      }
      ok := Action(next);
    }

    /** json_checker_done */
    method Done() returns (ok: bool)
      requires Valid()
      modifies this`top
      ensures ok == Accepting(old(Abs()))
    {
      assert Top(stack[..top + 1]) == Some(stack[top]);
      if state == OK {
        ok := Pop(DONE);
      } else {
        ok := false;
      }
    }
  }

  /** A checker fed with a whole text, as the three functions are meant to be used. */
  method Check(depth: nat, t: Text) returns (ok: bool)
    requires depth >= 1
    ensures ok <==> IsJson(t, depth)
  {
    hide Feed, FeedAll, IsJson, Accepting;
    AcceptsExactly(depth, t);
    var jc := new Checker(depth);
    FeedNone(INITIAL, depth);
    for i := 0 to |t|
      invariant jc.Valid() && fresh(jc) && fresh(jc.stack) && jc.depth == depth
      invariant FeedAll(INITIAL, depth, t[..i]) == Some(jc.Abs())
    {
      FeedLast(INITIAL, depth, t[..i + 1]);
      assert t[..i + 1][..i] == t[..i];
      var more := jc.Char(t[i]);
      if !more {
        assert t == t[..i + 1] + t[i + 1..];
        RejectedForGood(depth, t[..i + 1], t[i + 1..]);
        return false;
      }
    }
    assert t[..|t|] == t;
    ok := jc.Done();
  }
}
