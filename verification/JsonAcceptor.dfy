/** A deterministic pushdown acceptor for JSON texts (RFC 8259), standing in for the library
    parser that `common/json-partial.cpp` calls. A text is a sequence of code points. */
module JsonAcceptor {
  import opened Chars
  import opened Wrappers

  datatype Container = Obj | Arr

  /** Inside a string: `Hex` after `\u` with the digits so far, `low` when they must complete a surrogate
      pair; `High` after a high surrogate escape, `HighEsc` after the backslash that must follow it. */
  datatype StrState = Plain | Esc | Hex(digits: string, low: bool) | High | HighEsc

  datatype NumState = Minus | Zero | Int | Dot | Frac | Exp0 | ExpSign | Exp

  datatype Mode =
    | Value(first: bool)   // a value is due; `first`: the array may also be closed
    | Key(first: bool)     // a key is due; `first`: the object may also be closed
    | Colon
    | InStr(key: bool, st: StrState)
    | Num(n: NumState)
    | Lit(rest: string)    // inside true, false or null: what is still missing
    | After                // a value has just ended

  /** The open containers, innermost last. */
  datatype Pda = Dead | Pda(mode: Mode, stack: seq<Container>)

  const INIT := Pda(Value(false), [])

  predicate IsWs(c: char) { c == ' ' || c == '\t' || c == '\n' || c == '\r' }

  /** The first two digits of an escape: D8..DB begin a high surrogate, DC..DF a low one. */
  predicate HighPair(a: char, b: char) { (a == 'd' || a == 'D') && (b == '8' || b == '9' || b == 'a' || b == 'b' || b == 'A' || b == 'B') }

  predicate LowPair(a: char, b: char) { (a == 'd' || a == 'D') && ('c' <= b <= 'f' || 'C' <= b <= 'F') }

  function HexStep(digits: string, low: bool, c: char): Option<StrState> {
    var d := digits + [c];
    if !IsHex(c) then None
    else if |d| == 1 && low && !(c == 'd' || c == 'D') then None
    else if |d| == 2 && low != LowPair(d[0], d[1]) then None
    else if |d| < 4 then Some(Hex(d, low))
    else if HighPair(d[0], d[1]) then Some(High)
    else Some(Plain)
  }

  function StrStep(st: StrState, c: char): Option<StrState> {
    match st
    case Plain => if c == '\\' then Some(Esc) else if c < ' ' || c == '"' then None else Some(Plain)
    case Esc =>
      if c == 'u' then Some(Hex("", false))
      else if c in ['"', '\\', '/', 'b', 'f', 'n', 'r', 't'] then Some(Plain)
      else None
    case Hex(digits, low) => HexStep(digits, low, c)
    case High => if c == '\\' then Some(HighEsc) else None
    case HighEsc => if c == 'u' then Some(Hex("", true)) else None
  }

  function NumStep(n: NumState, c: char): Option<NumState> {
    match n
    case Minus => if c == '0' then Some(Zero) else if IsDigit(c) then Some(Int) else None
    case Zero => if c == '.' then Some(Dot) else if c == 'e' || c == 'E' then Some(Exp0) else None
    case Int => if IsDigit(c) then Some(Int) else if c == '.' then Some(Dot) else if c == 'e' || c == 'E' then Some(Exp0) else None
    case Dot => if IsDigit(c) then Some(Frac) else None
    case Frac => if IsDigit(c) then Some(Frac) else if c == 'e' || c == 'E' then Some(Exp0) else None
    case Exp0 => if c == '+' || c == '-' then Some(ExpSign) else if IsDigit(c) then Some(Exp) else None
    case ExpSign => if IsDigit(c) then Some(Exp) else None
    case Exp => if IsDigit(c) then Some(Exp) else None
  }

  predicate NumComplete(n: NumState) { n.Zero? || n.Int? || n.Frac? || n.Exp? }

  function Pop(stack: seq<Container>): Pda
    requires stack != []
  {
    Pda(After, stack[..|stack| - 1])
  }

  function Top(stack: seq<Container>): Container
    requires stack != []
  {
    stack[|stack| - 1]
  }

  function AfterStep(stack: seq<Container>, c: char): Pda {
    if IsWs(c) then Pda(After, stack)
    else if stack == [] then Dead
    else if c == ',' then Pda(if Top(stack) == Obj then Key(false) else Value(false), stack)
    else if c == '}' && Top(stack) == Obj then Pop(stack)
    else if c == ']' && Top(stack) == Arr then Pop(stack)
    else Dead
  }

  function ValueStep(first: bool, stack: seq<Container>, c: char): Pda {
    if IsWs(c) then Pda(Value(first), stack)
    else if c == '"' then Pda(InStr(false, Plain), stack)
    else if c == '{' then Pda(Key(true), stack + [Obj])
    else if c == '[' then Pda(Value(true), stack + [Arr])
    else if c == '-' then Pda(Num(Minus), stack)
    else if c == '0' then Pda(Num(Zero), stack)
    else if IsDigit(c) then Pda(Num(Int), stack)
    else if c == 't' then Pda(Lit("rue"), stack)
    else if c == 'f' then Pda(Lit("alse"), stack)
    else if c == 'n' then Pda(Lit("ull"), stack)
    else if c == ']' && first && stack != [] then Pop(stack)
    else Dead
  }

  function Step(p: Pda, c: char): Pda {
    match p
    case Dead => Dead
    case Pda(mode, stack) =>
      match mode
      case Value(first) => ValueStep(first, stack, c)
      case Key(first) =>
        if IsWs(c) then p
        else if c == '"' then Pda(InStr(true, Plain), stack)
        else if c == '}' && first && stack != [] then Pop(stack)
        else Dead
      case Colon => if IsWs(c) then p else if c == ':' then Pda(Value(false), stack) else Dead
      case InStr(key, st) =>
        if st == Plain && c == '"' then Pda(if key then Colon else After, stack)
        else
          var st' := StrStep(st, c);
          if st'.None? then Dead else Pda(InStr(key, st'.value), stack)
      case Num(n) =>
        var n' := NumStep(n, c);
        if n'.Some? then Pda(Num(n'.value), stack)
        else if NumComplete(n) then AfterStep(stack, c)
        else Dead
      case Lit(rest) =>
        if rest == "" || rest[0] != c then Dead
        else if |rest| == 1 then Pda(After, stack)
        else Pda(Lit(rest[1..]), stack)
      case After => AfterStep(stack, c)
  }

  function RunFrom(p: Pda, s: string): Pda
    decreases |s|
  {
    if s == "" then p else RunFrom(Step(p, s[0]), s[1..])
  }

  function Run(s: string): Pda { RunFrom(INIT, s) }

  predicate Accepting(p: Pda) {
    p.Pda? && p.stack == [] && (p.mode == After || (p.mode.Num? && NumComplete(p.mode.n)))
  }

  /** The text is a JSON document: what `json::parse` returns without throwing for. */
  predicate Accepts(s: string) { Accepting(Run(s)) }

  // ------------------------------------------------------------------------ running

  lemma {:induction false} RunConcat(p: Pda, s: string, t: string)
    ensures RunFrom(p, s + t) == RunFrom(RunFrom(p, s), t)
    decreases |s|
  {
    hide Step;
    if s == "" {
      assert s + t == t;
    } else {
      assert (s + t)[1..] == s[1..] + t;
      RunConcat(Step(p, s[0]), s[1..], t);
    }
  }

  lemma RunSnoc(p: Pda, s: string, c: char)
    ensures RunFrom(p, s + [c]) == Step(RunFrom(p, s), c)
  {
    hide Step;
    RunConcat(p, s, [c]);
    Run1(RunFrom(p, s), c);
  }

  lemma Run1(p: Pda, c: char)
    ensures RunFrom(p, [c]) == Step(p, c)
  {
    hide Step;
    assert [c][1..] == "";
    assert RunFrom(Step(p, c), "") == Step(p, c);
  }

  lemma RunCons(p: Pda, c: char, s: string)
    ensures RunFrom(p, [c] + s) == RunFrom(Step(p, c), s)
  {
    hide Step;
    assert ([c] + s)[1..] == s;
  }

  lemma {:induction false} DeadStays(s: string)
    ensures RunFrom(Dead, s) == Dead
    decreases |s|
  {
    if s != "" { DeadStays(s[1..]); }
  }

  /** Every truncation of a document is still alive. */
  lemma TruncationAlive(doc: string, s: string)
    requires Accepts(doc) && s <= doc
    ensures Run(s).Pda?
  {
    hide RunFrom;
    assert doc == s + doc[|s|..];
    RunConcat(INIT, s, doc[|s|..]);
    DeadStays(doc[|s|..]);
  }

  /** What every reachable state satisfies. */
  predicate WellFormed(p: Pda) {
    p.Pda? ==>
      match p.mode
      case Value(first) => first ==> p.stack != [] && Top(p.stack) == Arr
      case Key(_) => p.stack != [] && Top(p.stack) == Obj
      case Colon => p.stack != [] && Top(p.stack) == Obj
      case InStr(key, st) => (key ==> p.stack != [] && Top(p.stack) == Obj) && (st.Hex? ==> GoodHex(st.digits, st.low))
      case Num(_) => true
      case Lit(rest) => rest != "" && forall i :: 0 <= i < |rest| ==> 'a' <= rest[i] <= 'z'
      case After => true
  }

  predicate GoodHex(d: string, low: bool) {
    && |d| < 4
    && (forall i :: 0 <= i < |d| ==> IsHex(d[i]))
    && (|d| >= 1 && low ==> d[0] == 'd' || d[0] == 'D')
    && (|d| >= 2 ==> low == LowPair(d[0], d[1]))
  }

  lemma StepWellFormed(p: Pda, c: char)
    requires WellFormed(p)
    ensures WellFormed(Step(p, c))
  {
    hide AfterStep, ValueStep, StrStep, NumStep;
    if p.Pda? {
      AfterStepWellFormed(p.stack, c);
      if p.mode.Value? { ValueStepWellFormed(p.mode.first, p.stack, c); }
      if p.mode.InStr? { StrStepWellFormed(p.mode.st, c); }
    }
  }

  lemma StrStepWellFormed(st: StrState, c: char)
    requires st.Hex? ==> GoodHex(st.digits, st.low)
    ensures var st' := StrStep(st, c); st'.Some? && st'.value.Hex? ==> GoodHex(st'.value.digits, st'.value.low)
  {
  }

  lemma AfterStepWellFormed(stack: seq<Container>, c: char)
    ensures WellFormed(AfterStep(stack, c))
  {
  }

  lemma ValueStepWellFormed(first: bool, stack: seq<Container>, c: char)
    requires WellFormed(Pda(Value(first), stack))
    ensures WellFormed(ValueStep(first, stack, c))
  {
  }

  lemma {:induction false} RunWellFormed(p: Pda, s: string)
    requires WellFormed(p)
    ensures WellFormed(RunFrom(p, s))
    decreases |s|
  {
    hide Step, WellFormed;
    if s != "" {
      StepWellFormed(p, s[0]);
      RunWellFormed(Step(p, s[0]), s[1..]);
    }
  }

  // ------------------------------------------------------------------------ closing

  /** The brackets that close the open containers, innermost first. */
  function Closing(stack: seq<Container>): string
    decreases |stack|
  {
    if stack == [] then "" else [if Top(stack) == Obj then '}' else ']'] + Closing(stack[..|stack| - 1])
  }

  /** Right after a value, or a complete number, the brackets finish the document. */
  lemma {:induction false} ClosingAccepts(p: Pda)
    requires p.Pda? && (p.mode == After || (p.mode.Num? && NumComplete(p.mode.n)))
    ensures Accepting(RunFrom(p, Closing(p.stack)))
    decreases |p.stack|
  {
    if p.stack != [] {
      var rest := p.stack[..|p.stack| - 1];
      var c := if Top(p.stack) == Obj then '}' else ']';
      RunCons(p, c, Closing(rest));
      assert Step(p, c) == Pda(After, rest);
      ClosingAccepts(Pda(After, rest));
    }
  }

  /** A container that has just been opened may be closed at once. */
  lemma EmptyObjectCloses(p: Pda)
    requires p.Pda? && p.mode == Key(true) && p.stack != [] && Top(p.stack) == Obj
    ensures Accepting(RunFrom(p, Closing(p.stack)))
  {
    var rest := p.stack[..|p.stack| - 1];
    RunCons(p, '}', Closing(rest));
    ClosingAccepts(Pda(After, rest));
  }

  predicate NoQuote(s: string) { forall i :: 0 <= i < |s| ==> s[i] != '"' }

  lemma {:induction false} ClosingNoQuote(stack: seq<Container>)
    ensures NoQuote(Closing(stack)) && (stack != [] ==> Closing(stack) != "" && Closing(stack)[0] in ['}', ']'])
    decreases |stack|
  {
    if stack != [] { ClosingNoQuote(stack[..|stack| - 1]); }
  }

  /** Text without a quote cannot end a string. */
  lemma {:induction false} NoQuoteStays(p: Pda, s: string)
    requires p.Dead? || p.mode.InStr?
    requires NoQuote(s)
    ensures !Accepting(RunFrom(p, s))
    decreases |s|
  {
    if s != "" { NoQuoteStays(Step(p, s[0]), s[1..]); }
  }

  // ------------------------------------------------------------- short texts, step by step

  lemma Run2(p: Pda, a: char, b: char)
    ensures RunFrom(p, [a, b]) == Step(Step(p, a), b)
  {
    hide Step;
    assert [a, b] == [a] + [b];
    RunConcat(p, [a], [b]);
    Run1(p, a);
    Run1(Step(p, a), b);
  }

  lemma Run3(p: Pda, a: char, b: char, c: char)
    ensures RunFrom(p, [a, b, c]) == Step(Step(Step(p, a), b), c)
  {
    hide Step;
    assert [a, b, c] == [a, b] + [c];
    RunConcat(p, [a, b], [c]);
    Run2(p, a, b);
    Run1(Step(Step(p, a), b), c);
  }

  lemma Run4(p: Pda, a: char, b: char, c: char, d: char)
    ensures RunFrom(p, [a, b, c, d]) == Step(Step(Step(Step(p, a), b), c), d)
  {
    hide Step;
    assert [a, b, c, d] == [a, b] + [c, d];
    RunConcat(p, [a, b], [c, d]);
    Run2(p, a, b);
    Run2(Step(Step(p, a), b), c, d);
  }

  /** `json::parse` on a text, a few more characters and the closing brackets. */
  lemma AcceptsAppend(s: string, x: string, closing: string)
    ensures Accepts(s + x + closing) <==> Accepting(RunFrom(RunFrom(Run(s), x), closing))
  {
    hide RunFrom;
    RunConcat(INIT, s + x, closing);
    RunConcat(INIT, s, x);
  }
}
