/** The SAX handler `json_error_locator` of `common/json-partial.cpp`: its stack is always
    determined by the containers that are open in the text read so far. */
module JsonSax {
  import opened Chars
  import opened JsonAcceptor

  /** Stack elements; the key text is stored by the source but never read. */
  datatype Element = ObjectEl | KeyEl | ArrayEl

  /** A value of the innermost object is due or under way. */
  predicate InValue(m: Mode) {
    m.Colon? || m.Value? || (m.InStr? && !m.key) || m.Num? || m.Lit?
  }

  /** The handler's elements for containers all of which have a value under way. */
  function Outer(stack: seq<Container>): seq<Element>
    decreases |stack|
  {
    if stack == [] then []
    else Outer(stack[..|stack| - 1]) + (if Top(stack) == Obj then [ObjectEl, KeyEl] else [ArrayEl])
  }

  function SaxStack(p: Pda): seq<Element>
    requires p.Pda?
  {
    if p.stack == [] then []
    else if InValue(p.mode) || Top(p.stack) == Arr then Outer(p.stack)
    else Outer(p.stack[..|p.stack| - 1]) + [ObjectEl]
  }

  /** At the end of the text a complete number counts as a finished value. */
  function Finish(p: Pda): Pda {
    if p.Pda? && p.mode.Num? && NumComplete(p.mode.n) then Pda(After, p.stack) else p
  }

  lemma {:induction false} OuterShape(stack: seq<Container>)
    ensures var els := Outer(stack);
            && (els != [] ==> els[|els| - 1] != ObjectEl)
            && (forall i :: 0 <= i < |els| && els[i] == KeyEl ==> 0 < i && els[i - 1] == ObjectEl)
            && (forall i :: 0 <= i < |els| && els[i] == ObjectEl ==> i + 1 < |els| && els[i + 1] == KeyEl)
    decreases |stack|
  {
    if stack != [] { OuterShape(stack[..|stack| - 1]); }
  }

  /** KEY stands only directly above OBJECT, and OBJECT is followed by KEY unless it is the top. */
  lemma KeyOnlyAboveObject(p: Pda)
    requires p.Pda?
    ensures var els := SaxStack(p);
            && (forall i :: 0 <= i < |els| && els[i] == KeyEl ==> 0 < i && els[i - 1] == ObjectEl)
            && (forall i :: 0 <= i < |els| - 1 && els[i] == ObjectEl ==> els[i + 1] == KeyEl)
  {
    OuterShape(p.stack);
    if p.stack != [] { OuterShape(p.stack[..|p.stack| - 1]); }
  }

  lemma OuterPush(stack: seq<Container>, c: Container)
    ensures Outer(stack + [c]) == Outer(stack) + (if c == Obj then [ObjectEl, KeyEl] else [ArrayEl])
  {
    assert (stack + [c])[..|stack|] == stack;
  }

  /** The brackets for a handler stack, as the `closing` loop of the source collects them. */
  function ClosingOf(els: seq<Element>): string
    decreases |els|
  {
    if els == [] then ""
    else
      var rest := ClosingOf(els[..|els| - 1]);
      match els[|els| - 1]
      case ObjectEl => "}" + rest
      case ArrayEl => "]" + rest
      case KeyEl => rest
  }

  lemma ClosingOfPush(els: seq<Element>, e: Element)
    ensures ClosingOf(els + [e]) == (match e case ObjectEl => "}" case ArrayEl => "]" case KeyEl => "") + ClosingOf(els)
  {
    assert (els + [e])[..|els|] == els;
    assert "" + ClosingOf(els) == ClosingOf(els);
  }

  lemma {:induction false} ClosingOfOuter(stack: seq<Container>)
    ensures ClosingOf(Outer(stack)) == Closing(stack)
    decreases |stack|
  {
    if stack != [] {
      var rest := stack[..|stack| - 1];
      ClosingOfOuter(rest);
      if Top(stack) == Obj {
        assert Outer(stack) == (Outer(rest) + [ObjectEl]) + [KeyEl];
        ClosingOfPush(Outer(rest) + [ObjectEl], KeyEl);
        ClosingOfPush(Outer(rest), ObjectEl);
      } else {
        ClosingOfPush(Outer(rest), ArrayEl);
      }
    }
  }

  lemma ClosingOfSax(p: Pda)
    requires p.Pda?
    ensures ClosingOf(SaxStack(p)) == Closing(p.stack)
  {
    hide ClosingOf, Outer;
    ClosingOfOuter(p.stack);
    if p.stack != [] {
      ClosingOfOuter(p.stack[..|p.stack| - 1]);
      ClosingOfPush(Outer(p.stack[..|p.stack| - 1]), ObjectEl);
    } else {
      assert ClosingOf([]) == "" by { ClosingOfNothing(); }
    }
  }

  lemma ClosingOfNothing()
    ensures ClosingOf([]) == ""
  {
  }

  /** How far a text can be read, and the state there: at the first character nothing can follow,
      or at the end. */
  function Reach(p: Pda, s: string): (r: (nat, Pda))
    requires p.Pda?
    ensures r.0 <= |s| && r.1.Pda?
    ensures var (n, q) := r; q == RunFrom(p, s[..n])
    ensures r.0 < |s| ==> Step(r.1, s[r.0]).Dead?
    decreases |s|
  {
    if s == "" || Step(p, s[0]).Dead? then (0, p)
    else
      var r := Reach(Step(p, s[0]), s[1..]);
      assert s[..r.0 + 1][1..] == s[1..][..r.0];
      (r.0 + 1, r.1)
  }

  // ------------------------------------------------------------------- where an error is reported

  predicate InToken(p: Pda) {
    p.Pda? && (p.mode.InStr? || p.mode.Num? || p.mode.Lit?)
  }

  predicate NumberDone(p: Pda) {
    p.Pda? && p.mode.Num? && NumComplete(p.mode.n)
  }

  /** The four digits of an escape are read before they are judged; `n` of them stand before `i`. */
  function HexEnd(s: string, i: nat, n: nat): (r: nat)
    requires i <= |s|
    ensures i <= r <= |s|
    decreases |s| - i
  {
    if i == |s| || !IsHex(s[i]) || n >= 3 then i else HexEnd(s, i + 1, n + 1)
  }

  /** The last character of the token that `q` is in, or the one that cannot stand in it. A number ends before the
      first character that is not part of it. */
  function TokenEnd(q: Pda, s: string, i: nat): (r: nat)
    requires InToken(q) && 0 < i <= |s|
    ensures (if NumberDone(q) then i - 1 else i) <= r <= |s|
    decreases |s| - i
  {
    if i < |s| && InToken(Step(q, s[i])) then TokenEnd(Step(q, s[i]), s, i + 1)
    else if NumberDone(q) then i - 1
    else if i < |s| && Step(q, s[i]).Dead? && q.mode.InStr? && q.mode.st.Hex? then HexEnd(s, i, |q.mode.st.digits|)
    else i
  }

  /** Where the error is when nothing can follow at `i`: in the token under way, or behind a token that the lexer
      reads before the parser refuses it. */
  function RefusedAt(p: Pda, s: string, i: nat): (r: nat)
    requires p.Pda? && i < |s| && Step(p, s[i]).Dead?
    ensures i <= r <= |s|
  {
    if InToken(p) && !NumberDone(p) then
      if p.mode.InStr? && p.mode.st.Hex? then HexEnd(s, i, |p.mode.st.digits|) else i
    else
      var q := Step(INIT, s[i]);
      if InToken(q) then TokenEnd(q, s, i + 1) else i
  }

  function ErrorAt(s: string): (r: nat)
    ensures Reach(INIT, s).0 <= r <= |s|
  {
    var r := Reach(INIT, s);
    if r.0 == |s| then |s| else RefusedAt(r.1, s, r.0)
  }

  /** A text that can be read to its end is. */
  lemma {:induction false} ReachAll(p: Pda, s: string)
    requires p.Pda? && RunFrom(p, s).Pda?
    ensures Reach(p, s) == (|s|, RunFrom(p, s))
    decreases |s|
  {
    hide Step;
    if s != "" {
      if Step(p, s[0]).Dead? { DeadStays(s[1..]); }
      ReachAll(Step(p, s[0]), s[1..]);
    }
  }

  class JsonErrorLocator {
    var position: nat
    var foundError: bool
    var stack: seq<Element>

    constructor ()
      ensures position == 0 && !foundError && stack == []
    {
      position, foundError, stack := 0, false, [];
    }

    method CloseValue()
      modifies this`stack
      ensures stack == if old(stack) != [] && old(stack)[|old(stack)| - 1] == KeyEl then old(stack)[..|old(stack)| - 1] else old(stack)
    {
      if stack != [] && stack[|stack| - 1] == KeyEl {
        stack := stack[..|stack| - 1];
      }
    }

    method Push(e: Element)
      modifies this`stack
      ensures stack == old(stack) + [e]
    {
      stack := stack + [e];
    }

    /** `end_object` and `end_array`; the precondition is the source's assertion. */
    method End(e: Element)
      requires stack != [] && stack[|stack| - 1] == e
      modifies this`stack
      ensures var outer := old(stack)[..|old(stack)| - 1];
              stack == if outer != [] && outer[|outer| - 1] == KeyEl then outer[..|outer| - 1] else outer
    {
      stack := stack[..|stack| - 1];
      CloseValue();
    }

    /** The events of one transition `p` to `Step(p, c)` that leaves the text readable. */
    method Feed(p: Pda, c: char)
      requires WellFormed(p) && p.Pda? && stack == SaxStack(p) && Step(p, c).Pda?
      modifies this`stack
      ensures stack == SaxStack(Step(p, c))
    {
      hide Outer;
      match p.mode
      case Value(_) => FeedValue(p, c);
      case InStr(key, st) =>
        if st == Plain && c == '"' {
          if key { FeedKey(p); } else { CloseValueOf(p); }
        }
      case Num(n) =>
        if NumStep(n, c).None? {
          CloseValueOf(p);
          FeedAfter(Pda(After, p.stack), c);
        }
      case Lit(rest) => if |rest| == 1 { CloseValueOf(p); }
      case Colon =>
      case Key(_) => FeedAfter(p, c);
      case After => FeedAfter(p, c);
    }

    method FeedKey(p: Pda)
      requires WellFormed(p) && p.Pda? && p.mode.InStr? && p.mode.key && stack == SaxStack(p)
      modifies this`stack
      ensures stack == SaxStack(Pda(Colon, p.stack))
    {
      hide Outer;
      OuterTop(p.stack);
      Push(KeyEl);
    }

    method FeedValue(p: Pda, c: char)
      requires WellFormed(p) && p.Pda? && p.mode.Value? && stack == SaxStack(p) && Step(p, c).Pda?
      modifies this`stack
      ensures stack == SaxStack(Step(p, c))
    {
      hide Outer, StrStep, NumStep;
      if c == '{' || c == '[' {
        SaxOfPush(p, if c == '{' then Obj else Arr);
        Push(if c == '{' then ObjectEl else ArrayEl);
      } else if c == ']' {
        EndOf(p, c);
      }
    }

    /** No value is due or under way. */
    method FeedAfter(p: Pda, c: char)
      requires WellFormed(p) && p.Pda? && (p.mode.Key? || p.mode == After) && stack == SaxStack(p) && Step(p, c).Pda?
      modifies this`stack
      ensures stack == SaxStack(Step(p, c))
    {
      hide Outer, StrStep, NumStep;
      if c == '}' || c == ']' { EndOf(p, c); }
    }

    /** A scalar value has ended: the key it belongs to, if any, is popped. */
    method CloseValueOf(p: Pda)
      requires p.Pda? && InValue(p.mode) && stack == SaxStack(p)
      modifies this`stack
      ensures stack == SaxStack(Pda(After, p.stack))
    {
      hide Outer;
      OuterTop(p.stack);
      CloseValue();
    }

    /** The innermost container is closed by `c`. */
    method EndOf(p: Pda, c: char)
      requires p.Pda? && p.stack != [] && stack == SaxStack(p)
      requires if Top(p.stack) == Obj then c == '}' && !InValue(p.mode) else c == ']'
      modifies this`stack
      ensures stack == SaxStack(Pop(p.stack))
    {
      hide Outer;
      OuterTop(p.stack);
      OuterTop(p.stack[..|p.stack| - 1]);
      End(if c == '}' then ObjectEl else ArrayEl);
    }

    /** `json::sax_parse`: reads as far as it can. Throughout, the stack is the one the text determines. */
    method SaxParse(input: string) returns (ok: bool)
      requires stack == [] && !foundError
      modifies this
      ensures ok == Accepts(input) && foundError == !ok
      ensures !ok ==> position == ErrorAt(input) && stack == SaxStack(Finish(Reach(INIT, input).1))
    {
      hide Step, Outer;
      var p, i := INIT, 0;
      while i < |input| && Step(p, input[i]).Pda?
        invariant 0 <= i <= |input| && p.Pda? && WellFormed(p) && !foundError
        invariant stack == SaxStack(p)
        invariant p == RunFrom(INIT, input[..i])
        invariant Reach(INIT, input) == (i + Reach(p, input[i..]).0, Reach(p, input[i..]).1)
      {
        Feed(p, input[i]);
        StepWellFormed(p, input[i]);
        assert input[..i + 1] == input[..i] + [input[i]];
        RunSnoc(INIT, input[..i], input[i]);
        assert input[i..][1..] == input[i + 1..];
        p := Step(p, input[i]);
        i := i + 1;
      }
      if p.mode.Num? && NumComplete(p.mode.n) { CloseValueOf(p); }
      ReachIs(input, i, p);
      ok := i == |input| && Accepting(p);
      if !ok { position, foundError := if i < |input| then RefusedAt(p, input, i) else i, true; }
    }
  }

  lemma OuterTop(stack: seq<Container>)
    ensures stack != [] ==>
              Outer(stack) == Outer(stack[..|stack| - 1]) + (if Top(stack) == Obj then [ObjectEl, KeyEl] else [ArrayEl])
    ensures stack == [] ==> Outer(stack) == []
  {
  }

  lemma SaxOfPush(p: Pda, c: Container)
    requires p.Pda? && p.mode.Value?
    ensures SaxStack(Pda(if c == Obj then Key(true) else Value(true), p.stack + [c]))
         == SaxStack(p) + [if c == Obj then ObjectEl else ArrayEl]
  {
    OuterPush(p.stack, c);
    assert (p.stack + [c])[..|p.stack|] == p.stack;
  }

  lemma ReachIs(input: string, i: nat, p: Pda)
    requires i <= |input| && p.Pda? && p == RunFrom(INIT, input[..i])
    requires Reach(INIT, input) == (i + Reach(p, input[i..]).0, Reach(p, input[i..]).1)
    requires i < |input| ==> Step(p, input[i]).Dead?
    ensures Reach(INIT, input) == (i, p)
    ensures Accepts(input) ==> i == |input|
    ensures i == |input| ==> p == Run(input)
  {
    hide Step;
    if i < |input| {
      assert input == input[..i] + input[i..];
      RunConcat(INIT, input[..i], input[i..]);
      DeadStays(input[i..][1..]);
    } else {
      assert input[..i] == input;
    }
  }
}
