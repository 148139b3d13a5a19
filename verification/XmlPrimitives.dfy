/** The beginnings of literals and numbers, which the tool-call parser waits for: the test for them accepts every beginning of
    a top-level literal or number that is not complete, and with a text all its beginnings. */
module XmlPrimitives {
  import opened Chars
  import opened Wrappers
  import opened Strings
  import opened ChatParser
  import opened XmlToolCalls
  import JsonAcceptor
  import Utf8

  function View(t: string): string {
    t[SkipSpaces(t, 0)..]
  }

  predicate LiteralOrNumber(v: string) {
    var rest := if |v| < 6 then v else "a";
    rest <= "null" || rest <= "true" || rest <= "false" || MaybeNumber(v)
  }

  /** The test on the text from a value on. */
  predicate LikePrimitive(t: string) {
    LiteralOrNumber(View(t))
  }

  lemma SkipsShifted(s: string, pos: nat)
    requires pos <= |s|
    ensures SkipSpaces(s, pos) == pos + SkipSpaces(s[pos..], 0)
  {
    hide SkipSpaces;
    SkipSpacesSpec(s[pos..], 0);
    var k := SkipSpaces(s[pos..], 0);
    assert forall i :: 0 <= i < |s| - pos ==> s[pos..][i] == s[pos + i];
    assert forall i :: pos <= i < pos + k ==> s[i] == s[pos..][i - pos];
    SkipSpacesIs(s, pos, pos + k);
  }

  /** For a text that is cut between characters it is the test of the parser. */
  lemma TestIsLike(env: Env, pos: nat)
    requires pos <= |env.input| && Utf8.TruncateSafe(env.input) == |env.input|
    ensures MaybePrimitive(env, pos) == Some(LikePrimitive(env.input[pos..]))
  {
    hide SkipSpaces, Utf8.TruncateSafe, MaybeNumber;
    SkipsShifted(env.input, pos);
    var at := SkipSpaces(env.input, pos);
    assert env.input[at..|env.input|] == env.input[pos..][at - pos..];
  }

  // -------------------------------------------------------------------------------- beginnings

  lemma {:induction false} SkipDigitsOf(v: string, k: nat, i: nat)
    requires i <= k <= |v|
    ensures SkipDigits(v[..k], i) == Min(k, SkipDigits(v, i))
    decreases k - i
  {
    if i < k && IsDigit(v[i]) { SkipDigitsOf(v, k, i + 1); }
  }

  /** Where the digits before a point end, and those behind it. */
  function WholeEnd(v: string): nat
    requires v != ""
  {
    SkipDigits(v, 1)
  }

  function PointEnd(v: string): nat
    requires v != ""
  {
    var i := WholeEnd(v);
    if i < |v| && v[i] == '.' then SkipDigits(v, i + 1) else i
  }

  predicate IsE(c: char) {
    c == 'e' || c == 'E'
  }

  /** Where the digits of an exponent begin. */
  function ExponentStart(v: string, j: nat): nat
    requires j < |v|
  {
    if j + 1 < |v| && v[j + 1] in {'+', '-'} then j + 2 else j + 1
  }

  lemma NumberParts(v: string)
    requires v != ""
    ensures 1 <= WholeEnd(v) <= PointEnd(v) <= |v|
    ensures MaybeNumber(v) <==>
            && (v[0] == '-' || IsDigit(v[0]))
            && var j := PointEnd(v); (if j < |v| && IsE(v[j]) then SkipDigits(v, ExponentStart(v, j)) else j) == |v|
  {
    hide SkipDigits;
  }

  lemma PartsOfBeginning(v: string, k: nat)
    requires 0 < k <= |v|
    ensures WholeEnd(v[..k]) == Min(k, WholeEnd(v)) && PointEnd(v[..k]) == Min(k, PointEnd(v))
  {
    hide SkipDigits;
    SkipDigitsOf(v, k, 1);
    var i := WholeEnd(v);
    if i < k && v[i] == '.' { SkipDigitsOf(v, k, i + 1); }
  }

  /** Every beginning of what looks like a number is nothing or looks like one. */
  lemma NumberBegins(v: string, k: nat)
    requires MaybeNumber(v) && 0 < k <= |v|
    ensures MaybeNumber(v[..k])
  {
    hide SkipDigits, WholeEnd, PointEnd, MaybeNumber;
    NumberParts(v);
    NumberParts(v[..k]);
    PartsOfBeginning(v, k);
    var j := PointEnd(v);
    if j < k && IsE(v[j]) && ExponentStart(v, j) <= k { SkipDigitsOf(v, k, ExponentStart(v, j)); }
  }

  lemma LiteralBegins(v: string, k: nat)
    requires LiteralOrNumber(v) && k <= |v|
    ensures LiteralOrNumber(v[..k])
  {
    hide MaybeNumber;
    assert !("a" <= "null") && !("a" <= "true") && !("a" <= "false") by {
      assert "a"[0] != "null"[0] && "a"[0] != "true"[0] && "a"[0] != "false"[0];
    }
    if k == 0 {
      assert v[..0] <= "null";
    } else if MaybeNumber(v) {
      NumberBegins(v, k);
    }
  }

  lemma ViewOfBeginning(t: string, u: string)
    requires t <= u
    ensures View(t) <= View(u)
  {
    hide SkipSpaces, IsSpace;
    SkipSpacesSpec(t, 0);
    var k := SkipSpaces(t, 0);
    if k < |t| {
      assert forall i :: 0 <= i < |t| ==> t[i] == u[i];
      SkipSpacesIs(u, 0, k);
      assert t[k..] == u[k..|t|];
    }
  }

  /** With a text all its beginnings look like a literal or number. */
  lemma LikeBegins(t: string, u: string)
    requires t <= u && LikePrimitive(u)
    ensures LikePrimitive(t)
  {
    hide LiteralOrNumber, View;
    ViewOfBeginning(t, u);
    LiteralBegins(View(u), |View(t)|);
    assert View(u)[..|View(t)|] == View(t);
  }

  // ------------------------------------------------------------------- numbers that are not complete

  /** What a number looks like in each state of the acceptor. */
  predicate NumberShape(n: JsonAcceptor.NumState, v: string) {
    && v != "" && (v[0] == '-' || IsDigit(v[0]))
    && var i, j := WholeEnd(v), PointEnd(v);
       match n
       case Minus => |v| == 1
       case Zero => i == |v|
       case Int => i == |v|
       case Dot => i + 1 == |v| && v[i] == '.'
       case Frac => i < |v| && v[i] == '.' && j == |v|
       case Exp0 => j + 1 == |v| && IsE(v[j])
       case ExpSign => j + 2 == |v| && IsE(v[j]) && v[j + 1] in {'+', '-'}
       case Exp =>
         && j + 1 < |v| && IsE(v[j])
         && SkipDigits(v, if v[j + 1] in {'+', '-'} then j + 2 else j + 1) == |v|
  }

  lemma SkipSnoc(v: string, c: char, i: nat)
    requires i <= |v|
    ensures SkipDigits(v + [c], i) == if SkipDigits(v, i) == |v| && IsDigit(c) then |v| + 1 else SkipDigits(v, i)
  {
    SkipSnocFrom(v, c, i);
  }

  lemma {:induction false} SkipSnocFrom(v: string, c: char, i: nat)
    requires i <= |v|
    ensures SkipDigits(v + [c], i) == if SkipDigits(v, i) == |v| && IsDigit(c) then |v| + 1 else SkipDigits(v, i)
    decreases |v| - i
  {
    if i < |v| && IsDigit(v[i]) {
      SkipSnocFrom(v, c, i + 1);
    } else if i == |v| && IsDigit(c) {
      assert SkipDigits(v + [c], |v| + 1) == |v| + 1;
    }
  }

  lemma EndsSnoc(v: string, c: char)
    requires v != ""
    ensures WholeEnd(v + [c]) == if WholeEnd(v) == |v| && IsDigit(c) then |v| + 1 else WholeEnd(v)
    ensures WholeEnd(v) < |v| && v[WholeEnd(v)] == '.' ==>
              PointEnd(v + [c]) == if PointEnd(v) == |v| && IsDigit(c) then |v| + 1 else PointEnd(v)
    ensures WholeEnd(v) == |v| && c == '.' ==> PointEnd(v + [c]) == |v| + 1
    ensures WholeEnd(v) == |v| && c != '.' ==> PointEnd(v + [c]) == WholeEnd(v + [c])
    ensures WholeEnd(v) < |v| && v[WholeEnd(v)] != '.' ==> PointEnd(v + [c]) == PointEnd(v) == WholeEnd(v)
  {
    hide SkipDigits;
    SkipSnoc(v, c, 1);
    var i := SkipDigits(v, 1);
    if i < |v| { SkipSnoc(v, c, i + 1); }
  }

  lemma NumberSnoc(n: JsonAcceptor.NumState, v: string, c: char)
    requires NumberShape(n, v) && JsonAcceptor.NumStep(n, c).Some?
    ensures NumberShape(JsonAcceptor.NumStep(n, c).value, v + [c])
  {
    hide SkipDigits, WholeEnd, PointEnd;
    EndsSnoc(v, c);
    AtMostLength(v);
    var j := PointEnd(v);
    if j + 1 <= |v| { SkipSnoc(v, c, j + 1); }
    if j + 2 <= |v| { SkipSnoc(v, c, j + 2); }
    var w := v + [c];
    assert w[|v|] == c && forall i :: 0 <= i < |v| ==> w[i] == v[i];
  }

  lemma AtMostLength(v: string)
    requires v != ""
    ensures 1 <= WholeEnd(v) <= PointEnd(v) <= |v|
    ensures WholeEnd(v) == |v| ==> PointEnd(v) == |v|
    ensures WholeEnd(v) < |v| && v[WholeEnd(v)] == '.' ==> WholeEnd(v) < PointEnd(v)
    ensures |v| == 1 ==> WholeEnd(v) == 1
  {
  }

  lemma ShapeIsNumber(n: JsonAcceptor.NumState, v: string)
    requires NumberShape(n, v)
    ensures MaybeNumber(v)
  {
    hide SkipDigits;
    if |v| == 1 { NoDigitsLeft(v); }
  }

  lemma NoDigitsLeft(v: string)
    requires |v| == 1
    ensures SkipDigits(v, 1) == 1
  {
  }

  // ------------------------------------------------------------------- top-level texts so far

  /** What the text from its first character on looks like while it is read as a literal or number. */
  predicate ScalarSoFar(p: JsonAcceptor.Pda, v: string) {
    p.Pda? && p.stack == [] ==>
      match p.mode
      case Value(_) => v == ""
      case Num(n) => NumberShape(n, v)
      case Lit(rest) => v != "" && rest != "" && v + rest in {"true", "false", "null"}
      case _ => true
  }

  lemma LitSnoc(v: string, rest: string, c: char)
    requires rest != "" && rest[0] == c && v + rest in {"true", "false", "null"}
    ensures v + [c] + rest[1..] in {"true", "false", "null"}
  {
    assert v + [c] + rest[1..] == v + rest;
  }

  lemma ScalarStep(p: JsonAcceptor.Pda, v: string, c: char)
    requires ScalarSoFar(p, v) && p.Pda? && p.stack == [] && JsonAcceptor.Step(p, c).Pda?
    requires !p.mode.Colon? && !(p.mode.Value? && JsonAcceptor.IsWs(c)) && JsonAcceptor.Step(p, c).stack == []
    ensures ScalarSoFar(JsonAcceptor.Step(p, c), v + [c])
  {
    hide NumberShape, WholeEnd, PointEnd;
    match p.mode
    case Value(_) =>
      FirstOfNumber(c);
      FirstOfLiteral(c);
      assert v + [c] == [c];
    case Num(n) => if JsonAcceptor.NumStep(n, c).Some? { NumberSnoc(n, v, c); }
    case Lit(rest) => if rest[0] == c { LitSnoc(v, rest, c); }
    case _ =>
  }

  lemma FirstOfNumber(c: char)
    ensures c == '-' ==> NumberShape(JsonAcceptor.Minus, [c])
    ensures IsDigit(c) ==> NumberShape(JsonAcceptor.Zero, [c]) && NumberShape(JsonAcceptor.Int, [c])
  {
  }

  lemma FirstOfLiteral(c: char)
    ensures c == 't' ==> [c] + "rue" in {"true", "false", "null"}
    ensures c == 'f' ==> [c] + "alse" in {"true", "false", "null"}
    ensures c == 'n' ==> [c] + "ull" in {"true", "false", "null"}
  {
    assert ['t'] + "rue" == "true" && ['f'] + "alse" == "false" && ['n'] + "ull" == "null";
  }

  /** Behind a literal or number nothing but blanks can be read. */
  lemma {:induction false} ScalarRun(p: JsonAcceptor.Pda, v: string, rest: string)
    requires p.Pda? && p.stack == [] && (p.mode.Num? || p.mode.Lit? || p.mode.After?) && ScalarSoFar(p, v)
    ensures var q := JsonAcceptor.RunFrom(p, rest);
            q.Pda? ==> q.stack == [] && (q.mode.Num? || q.mode.Lit? || q.mode.After?) && ScalarSoFar(q, v + rest)
    decreases |rest|
  {
    hide JsonAcceptor.Step, ScalarSoFar;
    if rest == "" {
      assert v + "" == v;
    } else {
      var c := rest[0];
      assert v + rest == v + [c] + rest[1..];
      if JsonAcceptor.Step(p, c).Dead? {
        JsonAcceptor.DeadStays(rest[1..]);
      } else {
        ScalarStays(p, v, c);
        ScalarStep(p, v, c);
        ScalarRun(JsonAcceptor.Step(p, c), v + [c], rest[1..]);
      }
    }
  }

  lemma ScalarStays(p: JsonAcceptor.Pda, v: string, c: char)
    requires p.Pda? && p.stack == [] && (p.mode.Num? || p.mode.Lit? || p.mode.After?) && ScalarSoFar(p, v) && JsonAcceptor.Step(p, c).Pda?
    ensures var q := JsonAcceptor.Step(p, c); q.stack == [] && (q.mode.Num? || q.mode.Lit? || q.mode.After?)
  {
    hide NumberShape;
  }

  /** A string or a container has begun. */
  predicate Passed(p: JsonAcceptor.Pda) {
    p.Pda? ==> p.stack != [] || (p.mode.InStr? && !p.mode.key) || p.mode.After?
  }

  lemma {:induction false} PassedRun(p: JsonAcceptor.Pda, rest: string)
    requires Passed(p)
    ensures Passed(JsonAcceptor.RunFrom(p, rest))
    decreases |rest|
  {
    hide Passed, JsonAcceptor.Step;
    if rest != "" {
      PassedStep(p, rest[0]);
      PassedRun(JsonAcceptor.Step(p, rest[0]), rest[1..]);
    }
  }

  lemma PassedStep(p: JsonAcceptor.Pda, c: char)
    requires Passed(p)
    ensures Passed(JsonAcceptor.Step(p, c))
  {
  }

  /** A blank text, or the beginning of a top-level literal or number, passes the test. */
  lemma {:induction false} BeginningPasses(t: string)
    requires var p := JsonAcceptor.Run(t); p.Pda? && p.stack == [] && (p.mode.Value? || p.mode.Num? || p.mode.Lit?)
    ensures LikePrimitive(t)
    decreases |t|
  {
    hide JsonAcceptor.Step, View, LiteralOrNumber, ScalarSoFar, Passed;
    if t == "" {
      NothingPasses();
    } else {
      var c := t[0];
      if JsonAcceptor.Step(JsonAcceptor.INIT, c).Dead? { JsonAcceptor.DeadStays(t[1..]); }
      FirstStep(c);
      if JsonAcceptor.IsWs(c) {
        BeginningPasses(t[1..]);
        ViewBehindBlank(t);
      } else if c in {'"', '{', '['} {
        PassedRun(JsonAcceptor.Step(JsonAcceptor.INIT, c), t[1..]);
        assert Passed(JsonAcceptor.Run(t));
        PassedIsNone(JsonAcceptor.Run(t));
      } else {
        ScalarRun(JsonAcceptor.Step(JsonAcceptor.INIT, c), [c], t[1..]);
        assert [c] + t[1..] == t;
        WholeView(t);
        ScalarPasses(JsonAcceptor.Run(t), t);
      }
    }
  }

  lemma NothingPasses()
    ensures LikePrimitive("")
  {
    assert View("") == "";
    assert "" <= "null";
  }

  lemma PassedIsNone(p: JsonAcceptor.Pda)
    requires Passed(p) && p.Pda? && p.stack == []
    ensures !(p.mode.Value? || p.mode.Num? || p.mode.Lit?)
  {
  }

  /** The first character of a top-level text. */
  lemma FirstStep(c: char)
    requires JsonAcceptor.Step(JsonAcceptor.INIT, c).Pda?
    ensures var p := JsonAcceptor.Step(JsonAcceptor.INIT, c);
            if JsonAcceptor.IsWs(c) then p == JsonAcceptor.INIT
            else
              && !IsSpace(c)
              && if c in {'"', '{', '['} then Passed(p)
                 else p.stack == [] && (p.mode.Num? || p.mode.Lit?) && ScalarSoFar(p, [c])
  {
    hide NumberShape;
    FirstOfNumber(c);
    FirstOfLiteral(c);
  }

  lemma ViewBehindBlank(t: string)
    requires t != "" && JsonAcceptor.IsWs(t[0])
    ensures View(t) == View(t[1..])
  {
    SkipsShifted(t, 1);
    assert t[1 + SkipSpaces(t[1..], 0)..] == t[1..][SkipSpaces(t[1..], 0)..];
  }

  lemma WholeView(t: string)
    requires t != "" && !IsSpace(t[0])
    ensures View(t) == t
  {
  }

  lemma ScalarPasses(p: JsonAcceptor.Pda, v: string)
    requires p.Pda? && p.stack == [] && (p.mode.Num? || p.mode.Lit?) && ScalarSoFar(p, v)
    ensures LiteralOrNumber(v)
  {
    hide NumberShape, MaybeNumber;
    match p.mode
    case Num(n) => ShapeIsNumber(n, v);
    case Lit(rest) => LiteralPasses(v, rest);
  }

  lemma LiteralPasses(v: string, rest: string)
    requires rest != "" && v + rest in {"true", "false", "null"}
    ensures LiteralOrNumber(v)
  {
    assert v <= v + rest;
  }
}
