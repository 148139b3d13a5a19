/** What the healer guarantees on every truncation of a JSON document. */
module JsonHealing {
  import opened Chars
  import opened Wrappers
  import opened JsonAcceptor
  import opened JsonSax
  import opened JsonHealer

  // ---------------------------------------------- what the text looks like in each state

  predicate AllWs(s: string) { forall i :: 0 <= i < |s| ==> IsWs(s[i]) }

  /** Characters of numbers and of true, false, null; none of them is structural. */
  predicate ScalarChar(c: char) { IsDigit(c) || 'a' <= c <= 'z' || c == 'E' || c == '+' || c == '-' || c == '.' }

  predicate Structural(c: char) { c == ':' || c == '[' || c == ',' || c == '{' }

  /** Where the last character that made a value or key due stands, and where the last scalar begins. */
  datatype Track = Track(delim: int, start: int)

  function TrackStep(p: Pda, c: char, i: nat, t: Track): Track {
    var p' := Step(p, c);
    if p'.Dead? then t
    else if (p'.mode.Value? || p'.mode.Key?) && !IsWs(c) then t.(delim := i)
    else if p.Pda? && p.mode.Value? && (p'.mode.Num? || p'.mode.Lit?) then t.(start := i)
    else t
  }

  function TrackOf(s: string): Track
    decreases |s|
  {
    if s == "" then Track(-1, 0)
    else TrackStep(Run(s[..|s| - 1]), s[|s| - 1], |s| - 1, TrackOf(s[..|s| - 1]))
  }

  /** Inside the containers `stack`, a value is due at `at`: after the colon, or after `[` or a comma,
      only blanks follow, and the text up to that character was read into the same containers. */
  ghost predicate ValueDueAt(s: string, at: int, delim: int, stack: seq<Container>) {
    stack != [] ==>
      && 0 <= delim < at <= |s|
      && s[delim] in (if Top(stack) == Obj then [':'] else ['[', ','])
      && AllWs(s[delim + 1..at])
      && Run(s[..delim + 1]).Pda? && Run(s[..delim + 1]).mode.Value? && Run(s[..delim + 1]).stack == stack
  }

  /** A scalar that began where a value was due reaches to the end of the text. */
  ghost predicate ScalarTail(s: string, t: Track, p: Pda)
    requires p.Pda?
  {
    && 0 <= t.start < |s|
    && ValueDueAt(s, t.start, t.delim, p.stack)
    && (forall i :: t.start <= i < |s| ==> ScalarChar(s[i]))
    && RunFrom(INIT, s[t.start..]) == Pda(p.mode, [])
  }

  predicate HighEscape(h: string) { |h| == 4 && HighPair(h[0], h[1]) && forall i :: 0 <= i < |h| ==> IsHex(h[i]) }

  ghost predicate StringTail(s: string, st: StrState) {
    match st
    case Plain => true
    case Esc => EndsWith(s, "\\")
    case Hex(d, low) => EndsWith(s, "\\u" + d) && (low ==> exists h :: HighEscape(h) && EndsWith(s, "\\u" + h + "\\u" + d))
    case High => exists h :: HighEscape(h) && EndsWith(s, "\\u" + h)
    case HighEsc => exists h :: HighEscape(h) && EndsWith(s, "\\u" + h + "\\")
  }

  predicate BackIsNumberLike(s: string) { s != "" && MaybeNumberChar(s[|s| - 1]) }

  ghost predicate TextInv(s: string, p: Pda, t: Track) {
    p.Pda? ==>
      match p.mode
      case Value(_) => ValueDueAt(s, |s|, t.delim, p.stack)
      case Key(first) => 0 <= t.delim < |s| && s[t.delim] == (if first then '{' else ',') && AllWs(s[t.delim + 1..])
      case Colon => true
      case InStr(_, st) => StringTail(s, st)
      case Num(n) => ScalarTail(s, t, p) && (NumComplete(n) ==> IsDigit(s[|s| - 1]))
      case Lit(rest) => ScalarTail(s, t, p)
      case After =>
        && LastNonWs(s).Some? && !Structural(s[LastNonWs(s).value])
        && (BackIsNumberLike(s) ==> ScalarTail(s, t, p))
  }

  lemma {:induction false} TextInvHolds(s: string)
    ensures TextInv(s, Run(s), TrackOf(s))
    decreases |s|
  {
    hide Step, TextInv;
    if s == "" {
      StartInv();
    } else {
      var s0, c := s[..|s| - 1], s[|s| - 1];
      TextInvHolds(s0);
      assert s == s0 + [c];
      RunSnoc(INIT, s0, c);
      RunWellFormed(INIT, s0);
      InvStep(s0, c, Run(s0), TrackOf(s0));
    }
  }

  lemma StartInv()
    ensures TextInv("", Run(""), TrackOf(""))
  {
  }

  lemma DueExtends(s: string, s': string, at: int, delim: int, stack: seq<Container>)
    requires s <= s' && ValueDueAt(s, at, delim, stack)
    ensures ValueDueAt(s', at, delim, stack)
  {
    hide RunFrom;
    if stack != [] {
      assert s'[delim + 1..at] == s[delim + 1..at];
      assert s'[..delim + 1] == s[..delim + 1];
    }
  }

  lemma DueAfterBlank(s: string, c: char, delim: int, stack: seq<Container>)
    requires IsWs(c) && ValueDueAt(s, |s|, delim, stack)
    ensures ValueDueAt(s + [c], |s| + 1, delim, stack)
  {
    hide RunFrom;
    DueExtends(s, s + [c], |s|, delim, stack);
    if stack != [] {
      assert (s + [c])[delim + 1..|s| + 1] == (s + [c])[delim + 1..|s|] + [c];
    }
  }

  /** `c` has just made a value due. */
  lemma DueNow(s: string, c: char, p: Pda)
    requires p.Pda? && p.mode.Value? && p == Run(s + [c])
    requires p.stack != [] ==> c in (if Top(p.stack) == Obj then [':'] else ['[', ','])
    ensures ValueDueAt(s + [c], |s| + 1, |s|, p.stack)
  {
    hide RunFrom;
    assert (s + [c])[..|s| + 1] == s + [c];
  }

  lemma ScalarStarts(s: string, c: char, p: Pda, t: Track)
    requires p == Run(s) && p.Pda? && p.mode.Value? && ValueDueAt(s, |s|, t.delim, p.stack)
    requires Step(p, c).Pda? && (Step(p, c).mode.Num? || Step(p, c).mode.Lit?)
    ensures ScalarTail(s + [c], t.(start := |s|), Step(p, c))
    ensures Step(p, c).stack == p.stack
  {
    hide RunFrom;
    DueExtends(s, s + [c], |s|, t.delim, p.stack);
    assert (s + [c])[|s|..] == [c];
    Run1(INIT, c);
  }

  lemma ScalarGrows(s: string, c: char, p: Pda, t: Track, mode: Mode)
    requires p.Pda? && ScalarTail(s, t, p) && ScalarChar(c)
    requires Step(Pda(p.mode, []), c) == Pda(mode, [])
    ensures ScalarTail(s + [c], t, Pda(mode, p.stack))
  {
    hide RunFrom, Step;
    DueExtends(s, s + [c], t.start, t.delim, p.stack);
    assert (s + [c])[t.start..] == s[t.start..] + [c];
    RunSnoc(INIT, s[t.start..], c);
  }

  lemma LastNonWsSnoc(s: string, c: char)
    ensures LastNonWs(s + [c]) == if IsWs(c) then LastNonWs(s) else Some(|s|)
  {
    assert (s + [c])[..|s|] == s;
  }

  /** A value ends with `c`, which is a quote or a closing bracket. */
  lemma EndedBy(s: string, c: char, p: Pda, t: Track)
    requires c == '"' || c == '}' || c == ']'
    requires p.Pda? && p.mode == After
    ensures TextInv(s + [c], p, t)
  {
    LastNonWsSnoc(s, c);
  }

  lemma BlankAfter(s: string, c: char, p: Pda, t: Track)
    requires IsWs(c) && p.Pda? && p.mode == After
    requires LastNonWs(s).Some? && !Structural(s[LastNonWs(s).value])
    ensures TextInv(s + [c], p, t)
  {
    LastNonWsSnoc(s, c);
  }

  lemma InvFromValue(s: string, c: char, p: Pda, t: Track)
    requires p == Run(s) && WellFormed(p) && p.Pda? && p.mode.Value? && TextInv(s, p, t)
    requires Run(s + [c]) == Step(p, c) && Step(p, c).Pda?
    ensures TextInv(s + [c], Step(p, c), TrackStep(p, c, |s|, t))
  {
    hide RunFrom, ValueDueAt, ScalarTail, LastNonWs, StringTail;
    var p' := Step(p, c);
    if IsWs(c) {
      DueAfterBlank(s, c, t.delim, p.stack);
    } else if p'.mode.Num? || p'.mode.Lit? {
      ScalarStarts(s, c, p, t);
    } else if c == ']' {
      EndedBy(s, c, p', t);
    } else if c == '[' {
      DueNow(s, c, p');
    } else if c == '"' {
      assert StringTail(s + [c], Plain) by { PlainTail(s + [c]); }
    } else {
      assert c == '{' && (s + [c])[|s| + 1..] == "";
    }
  }

  lemma PlainTail(s: string)
    ensures StringTail(s, Plain)
  {
  }

  lemma InvFromKey(s: string, c: char, p: Pda, t: Track)
    requires p == Run(s) && WellFormed(p) && p.Pda? && p.mode.Key? && TextInv(s, p, t)
    requires Step(p, c).Pda?
    ensures TextInv(s + [c], Step(p, c), TrackStep(p, c, |s|, t))
  {
    hide RunFrom, ValueDueAt, ScalarTail, LastNonWs;
    if c == '}' {
      EndedBy(s, c, Step(p, c), t);
    } else if IsWs(c) {
      assert (s + [c])[t.delim + 1..] == s[t.delim + 1..] + [c];
    }
  }

  lemma InvFromColon(s: string, c: char, p: Pda, t: Track)
    requires p == Run(s) && WellFormed(p) && p.Pda? && p.mode.Colon?
    requires Run(s + [c]) == Step(p, c) && Step(p, c).Pda?
    ensures TextInv(s + [c], Step(p, c), TrackStep(p, c, |s|, t))
  {
    hide RunFrom, ValueDueAt, ScalarTail, LastNonWs;
    if !IsWs(c) { DueNow(s, c, Step(p, c)); }
  }

  lemma EndsWithSnoc(s: string, t: string, c: char)
    requires EndsWith(s, t)
    ensures EndsWith(s + [c], t + [c])
  {
    assert (s + [c])[|s| - |t|..] == s[|s| - |t|..] + [c];
  }

  lemma EndsWithLast(s: string, c: char)
    ensures c == '\\' ==> EndsWith(s + [c], "\\")
  {
    assert (s + [c])[|s|..] == [c];
  }

  lemma StringTailStep(s: string, c: char, st: StrState)
    requires StringTail(s, st) && (st.Hex? ==> GoodHex(st.digits, st.low)) && StrStep(st, c).Some?
    ensures StringTail(s + [c], StrStep(st, c).value)
  {
    hide EndsWith;
    match st
    case Plain =>
      EndsWithLast(s, c);
    case Esc =>
      if c == 'u' {
        EndsWithSnoc(s, "\\", c);
        assert "\\u" + "" == "\\" + [c];
        assert StringTail(s + [c], Hex("", false));
      }
    case Hex(d, low) => HexTailStep(s, c, d, low);
    case High =>
      var h :| HighEscape(h) && EndsWith(s, "\\u" + h);
      EndsWithSnoc(s, "\\u" + h, c);
      assert "\\u" + h + "\\" == "\\u" + h + [c];
    case HighEsc =>
      var h :| HighEscape(h) && EndsWith(s, "\\u" + h + "\\");
      EndsWithSnoc(s, "\\u" + h + "\\", c);
      assert "\\u" + h + "\\u" + "" == "\\u" + h + "\\" + [c];
      assert "\\u" + h + ("\\u" + "") == "\\u" + h + "\\u" + "";
      EndsWithPart(s + [c], "\\u" + h, "\\u" + "");
      assert StringTail(s + [c], Hex("", true));
  }

  lemma HexTailStep(s: string, c: char, d: string, low: bool)
    requires StringTail(s, Hex(d, low)) && GoodHex(d, low) && HexStep(d, low, c).Some?
    ensures StringTail(s + [c], HexStep(d, low, c).value)
  {
    hide EndsWith;
    EndsWithSnoc(s, "\\u" + d, c);
    assert "\\u" + (d + [c]) == "\\u" + d + [c];
    if low {
      var h :| HighEscape(h) && EndsWith(s, "\\u" + h + "\\u" + d);
      EndsWithSnoc(s, "\\u" + h + "\\u" + d, c);
      assert "\\u" + h + "\\u" + (d + [c]) == "\\u" + h + "\\u" + d + [c];
    }
    if |d| == 3 && HighPair(d[0], d[1]) {
      assert HighEscape(d + [c]);
    }
  }

  lemma EndsWithPart(s: string, t: string, u: string)
    requires EndsWith(s, t + u)
    ensures EndsWith(s, u)
  {
    assert s[|s| - |u|..] == (t + u)[|t|..];
  }

  lemma InvFromStr(s: string, c: char, p: Pda, t: Track)
    requires p == Run(s) && WellFormed(p) && p.Pda? && p.mode.InStr? && TextInv(s, p, t)
    requires Step(p, c).Pda?
    ensures TextInv(s + [c], Step(p, c), TrackStep(p, c, |s|, t))
  {
    hide RunFrom, ValueDueAt, ScalarTail, LastNonWs, StringTail, StrStep;
    if p.mode.st == Plain && c == '"' {
      if !p.mode.key { EndedBy(s, c, Step(p, c), t); }
    } else {
      StringTailStep(s, c, p.mode.st);
    }
  }

  /** What may follow a finished value. */
  lemma InvAfterValue(s: string, c: char, stack: seq<Container>, t: Track)
    requires LastNonWs(s).Some? && !Structural(s[LastNonWs(s).value])
    requires AfterStep(stack, c).Pda? && Run(s + [c]) == AfterStep(stack, c)
    ensures var p' := AfterStep(stack, c);
            TextInv(s + [c], p', if p'.mode.After? then t else t.(delim := |s|))
  {
    hide RunFrom, ValueDueAt, ScalarTail, LastNonWs;
    var p' := AfterStep(stack, c);
    if IsWs(c) {
      BlankAfter(s, c, p', t);
    } else if c == ',' {
      if p'.mode.Value? { DueNow(s, c, p'); } else { assert (s + [c])[|s| + 1..] == ""; }
    } else {
      EndedBy(s, c, p', t);
    }
  }

  lemma InvFromAfter(s: string, c: char, p: Pda, t: Track)
    requires p == Run(s) && p.Pda? && p.mode.After? && TextInv(s, p, t)
    requires Run(s + [c]) == Step(p, c) && Step(p, c).Pda?
    ensures TextInv(s + [c], Step(p, c), TrackStep(p, c, |s|, t))
  {
    hide RunFrom, ValueDueAt, ScalarTail, LastNonWs;
    InvAfterValue(s, c, p.stack, t);
  }

  lemma InvFromNum(s: string, c: char, p: Pda, t: Track)
    requires p == Run(s) && p.Pda? && p.mode.Num? && TextInv(s, p, t)
    requires Run(s + [c]) == Step(p, c) && Step(p, c).Pda?
    ensures TextInv(s + [c], Step(p, c), TrackStep(p, c, |s|, t))
  {
    hide RunFrom, ValueDueAt, LastNonWs;
    if NumStep(p.mode.n, c).Some? {
      ScalarGrows(s, c, p, t, Num(NumStep(p.mode.n, c).value));
    } else {
      ScalarLast(s, t, p);
      InvAfterValue(s, c, p.stack, t);
    }
  }

  lemma ScalarLast(s: string, t: Track, p: Pda)
    requires p.Pda? && ScalarTail(s, t, p)
    ensures LastNonWs(s) == Some(|s| - 1) && !Structural(s[|s| - 1])
  {
    hide RunFrom, ValueDueAt;
    assert ScalarChar(s[|s| - 1]);
  }

  lemma InvFromLit(s: string, c: char, p: Pda, t: Track)
    requires p == Run(s) && p.Pda? && p.mode.Lit? && TextInv(s, p, t)
    requires WellFormed(p) && Step(p, c).Pda?
    ensures TextInv(s + [c], Step(p, c), TrackStep(p, c, |s|, t))
  {
    hide RunFrom, ValueDueAt, LastNonWs;
    ScalarGrows(s, c, p, t, Step(p, c).mode);
    ScalarLast(s + [c], t, Step(p, c));
  }

  lemma InvStep(s: string, c: char, p: Pda, t: Track)
    requires TextInv(s, p, t) && p == Run(s) && WellFormed(p)
    ensures TextInv(s + [c], Step(p, c), TrackStep(p, c, |s|, t))
  {
    hide RunFrom, TextInv;
    var p' := Step(p, c);
    var s', t' := s + [c], TrackStep(p, c, |s|, t);
    if p.Pda? && p'.Pda? {
      RunSnoc(INIT, s, c);
      match p.mode
      case Value(first) => InvFromValue(s, c, p, t);
      case Key(first) => InvFromKey(s, c, p, t);
      case Colon => InvFromColon(s, c, p, t);
      case InStr(key, st) => InvFromStr(s, c, p, t);
      case Num(n) => InvFromNum(s, c, p, t);
      case Lit(rest) => InvFromLit(s, c, p, t);
      case After => InvFromAfter(s, c, p, t);
    } else {
      assert TextInv(s', p', t') by { InvOfDead(s', t'); }
    }
  }

  lemma InvOfDead(s: string, t: Track)
    ensures TextInv(s, Dead, t)
  {
  }

  // -------------------------------------------------------------- what the theorem promises

  /** Markers that stand for themselves inside a JSON string. */
  predicate PlainMarker(m: string) {
    m != "" && forall i :: 0 <= i < |m| ==> m[i] >= ' ' && m[i] != '"' && m[i] != '\\'
  }

  /** Of the text only its end is given up, and that is blanks and one number or literal at most,
      complete or not, where a value is due. */
  ghost predicate LosesAtMostScalar(s: string, keep: nat) {
    && keep <= |s|
    && (keep == |s| ||
        exists b: nat :: keep <= b < |s| && AllWs(s[keep..b]) && ScalarAt(s, keep, b))
  }

  ghost predicate ScalarAt(s: string, keep: nat, b: nat)
    requires keep <= b < |s|
  {
    && Run(s[..keep]).Pda? && Run(s[..keep]).mode.Value?
    && (forall i :: b <= i < |s| ==> ScalarChar(s[i]))
    && var r := RunFrom(INIT, s[b..]);
       r.Pda? && r.stack == [] && (r.mode.Num? || r.mode.Lit? || r.mode.After?)
  }

  /** What stands before the marker, unless an escape has to be completed. */
  predicate Lead(pre: string) {
    pre == "" || pre == "\\" || pre == "\"" || pre == ":\"" || pre == ",\""
  }

  predicate Escaping(st: StrState) { st.Hex? || st.High? || st.HighEsc? }

  predicate EscapeOpen(p: Pda) {
    p.Pda? && p.mode.InStr? && Escaping(p.mode.st)
  }

  /** What is put in place of the end of the text, but for the marker, leads into a string; it is the padding if and
      only if an escape is under way. */
  ghost predicate MarkerInString(s: string, ch: Choice, seed: string)
    requires ch.Complete? && ch.keep <= |s|
  {
    && EndsWith(ch.dump, seed)
    && var pre := ch.dump[..|ch.dump| - |seed|];
       var q := RunFrom(Run(s[..ch.keep]), pre);
       && q.Pda? && q.mode.InStr? && q.mode.st == Plain
       && if EscapeOpen(Run(s)) then ch.keep == |s| && pre == Padding(s) else Lead(pre)
  }

  /** The choice completes the text to a document, gives up no more than that, and the marker stands in a string. */
  ghost predicate Heals(s: string, ch: Choice, closing: string, seed: string) {
    && ch.Complete? && ch.keep <= |s|
    && Accepts(Text(s, ch, closing))
    && LosesAtMostScalar(s, ch.keep)
    && MarkerInString(s, ch, seed)
  }

  /** The one failing family. The text stops in a `\u` escape of which at most a first digit d is there;
      the escape is not the second half of a pair, but the characters before it look like a
      high surrogate (they are plain text after an escaped backslash). */
  predicate PseudoSurrogate(s: string) {
    && Run(s).Pda? && Run(s).mode.InStr? && Run(s).mode.st.Hex? && !Run(s).mode.st.low
    && match UnicodeTail(s)
       case None => false
       case Some(m) =>
         && (|m| == 2 || (|m| == 3 && (m[2] == 'd' || m[2] == 'D')))
         && match UnicodeTail(s[..|s| - |m|])
            case None => false
            case Some(m2) => IsHighSurrogate(m2)
  }

  // ------------------------------------------------------------------ running the completions

  lemma Tokens(p: Pda)
    ensures RunFrom(p, "") == p
    ensures RunFrom(p, "1") == Step(p, '1')
    ensures RunFrom(p, "\"") == Step(p, '"')
    ensures RunFrom(p, "\\\"") == Step(Step(p, '\\'), '"')
    ensures RunFrom(p, ": 1") == Step(Step(Step(p, ':'), ' '), '1')
    ensures RunFrom(p, ", 1") == Step(Step(Step(p, ','), ' '), '1')
  {
    hide Step;
    Run1(p, '1');
    Run1(p, '"');
    Run2(p, '\\', '"');
    Run3(p, ':', ' ', '1');
    Run3(p, ',', ' ', '1');
  }

  lemma KeyTokens(p: Pda)
    ensures RunFrom(p, "\": 1") == RunFrom(Step(p, '"'), ": 1")
    ensures RunFrom(p, "\"\": 1") == RunFrom(Step(Step(p, '"'), '"'), ": 1")
    ensures RunFrom(p, ",\"\": 1") == RunFrom(Step(p, ','), "\"\": 1")
    ensures RunFrom(p, "\\\": 1") == RunFrom(Step(p, '\\'), "\": 1")
  {
    hide Step, RunFrom;
    RunCons(p, '"', ": 1");
    assert ['"'] + ": 1" == "\": 1";
    RunCons(Step(p, '"'), '"', ": 1");
    RunCons(p, '"', "\": 1");
    assert ['"'] + "\": 1" == "\"\": 1";
    RunCons(p, ',', "\"\": 1");
    assert [','] + "\"\": 1" == ",\"\": 1";
    RunCons(p, '\\', "\": 1");
    assert ['\\'] + "\": 1" == "\\\": 1";
  }

  predicate Done(p: Pda, stack: seq<Container>) {
    p.Pda? && p.stack == stack && (p.mode == After || (p.mode.Num? && NumComplete(p.mode.n)))
  }

  predicate Stuck(p: Pda) { p.Dead? || p.mode.InStr? }

  /** Whether `json::parse` takes the text with `x` and the brackets, by the state `x` leads to. */
  lemma Can(s: string, p: Pda, x: string)
    requires p == Run(s) && p.Pda?
    ensures Done(RunFrom(p, x), p.stack) ==> Accepts(s + x + Closing(p.stack))
    ensures Stuck(RunFrom(p, x)) ==> !Accepts(s + x + Closing(p.stack))
  {
    hide RunFrom, Step;
    AcceptsAppend(s, x, Closing(p.stack));
    if Done(RunFrom(p, x), p.stack) { ClosingAccepts(RunFrom(p, x)); }
    if Stuck(RunFrom(p, x)) {
      ClosingNoQuote(p.stack);
      NoQuoteStays(RunFrom(p, x), Closing(p.stack));
    }
  }

  /** The text itself with the brackets. */
  lemma CanClose(s: string, p: Pda)
    requires p == Run(s) && p.Pda? && WellFormed(p)
    ensures p.mode == Key(true) ==> Accepts(s + Closing(p.stack))
    ensures Stuck(p) ==> !Accepts(s + Closing(p.stack))
    ensures p.stack != [] && (p.mode.Lit? || p.mode.Colon? || (p.mode.Num? && !NumComplete(p.mode.n))) ==> !Accepts(s + Closing(p.stack))
  {
    hide RunFrom;
    assert s + "" + Closing(p.stack) == s + Closing(p.stack);
    AcceptsAppend(s, "", Closing(p.stack));
    Tokens(p);
    Can(s, p, "");
    if p.mode == Key(true) { EmptyObjectCloses(p); }
    if p.stack != [] && (p.mode.Lit? || p.mode.Colon? || (p.mode.Num? && !NumComplete(p.mode.n))) {
      ClosingNoQuote(p.stack);
      var c := Closing(p.stack)[0];
      assert Closing(p.stack) == [c] + Closing(p.stack)[1..];
      RunCons(p, c, Closing(p.stack)[1..]);
      assert Step(p, c) == Dead;
      DeadStays(Closing(p.stack)[1..]);
    }
  }

  lemma {:induction false} PlainRuns(p: Pda, m: string)
    requires p.Pda? && p.mode.InStr? && p.mode.st == Plain
    requires forall i :: 0 <= i < |m| ==> m[i] >= ' ' && m[i] != '"' && m[i] != '\\'
    ensures RunFrom(p, m) == p
    decreases |m|
  {
    if m != "" { PlainRuns(p, m[1..]); }
  }

  lemma Regroup(s: string, x: string, y: string, z: string)
    ensures s[..|s|] + x + y + z == s + (x + y) + z
  {
    assert s[..|s|] == s;
    assert s + x + y == s + (x + y);
  }

  lemma EndsWithIs(a: string, b: string)
    ensures EndsWith(a + b, b)
  {
    assert (a + b)[|a|..] == b;
  }

  /** A completion that keeps the whole text: `pre`, the marker, a tail. */
  lemma KeepsAll(s: string, p: Pda, pre: string, seed: string, tail: string)
    requires p == Run(s) && p.Pda? && PlainMarker(seed)
    requires if EscapeOpen(p) then pre == Padding(s) else Lead(pre)
    requires var q := RunFrom(p, pre);
             q.Pda? && q.mode.InStr? && q.mode.st == Plain && Done(RunFrom(q, tail), p.stack)
    ensures Heals(s, Complete(|s|, pre + seed, tail), Closing(p.stack), seed)
  {
    hide Step, RunFrom, Accepts, Accepting, Closing, EndsWith, Lead, Padding;
    var q := RunFrom(p, pre);
    RunConcat(p, pre, seed);
    PlainRuns(q, seed);
    RunConcat(p, pre + seed, tail);
    Can(s, p, pre + seed + tail);
    Regroup(s, pre + seed, tail, Closing(p.stack));
    EndsWithIs(pre, seed);
    assert (pre + seed)[..|pre|] == pre && s[..|s|] == s;
  }

  /** A completion that cuts back to where the value under way was due. */
  lemma CutsScalar(s: string, p: Pda, t: Track, set_: seq<char>, seed: string)
    requires p == Run(s) && p.Pda? && p.stack != [] && PlainMarker(seed)
    requires ScalarTail(s, t, p) && (p.mode.Num? || p.mode.Lit? || p.mode.After?)
    requires set_ == (if Top(p.stack) == Obj then ":" else "[,")
    ensures Heals(s, CutBack(s, set_, seed), Closing(p.stack), seed)
  {
    hide RunFrom, Step, FindLastOf, Accepts, Closing, EndsWith;
    CutPlace(s, t, p, set_);
    var keep := t.delim + 1;
    QuoteHeals(s[..keep], p.stack, seed);
    assert s[..keep][..|s[..keep]|] == s[..keep];
    CutKeeps(s, t, p);
  }

  /** The text is cut behind the character that made the value due. */
  lemma CutPlace(s: string, t: Track, p: Pda, set_: seq<char>)
    requires p.Pda? && p.stack != [] && ScalarTail(s, t, p)
    requires set_ == (if Top(p.stack) == Obj then ":" else "[,")
    ensures 0 <= t.delim < |s| && FindLastOf(s, set_) == Some(t.delim)
    ensures Run(s[..t.delim + 1]).Pda? && Run(s[..t.delim + 1]).mode.Value? && Run(s[..t.delim + 1]).stack == p.stack
  {
    hide RunFrom, FindLastOf;
    forall i | t.delim < i < |s| ensures s[i] !in set_ {
      if i < t.start {
        assert s[t.delim + 1..t.start][i - t.delim - 1] == s[i];
      } else {
        assert ScalarChar(s[i]);
      }
    }
    FindLastOfIs(s, set_, t.delim);
  }

  lemma CutKeeps(s: string, t: Track, p: Pda)
    requires p.Pda? && p.stack != [] && ScalarTail(s, t, p) && (p.mode.Num? || p.mode.Lit? || p.mode.After?)
    ensures LosesAtMostScalar(s, t.delim + 1)
  {
    hide RunFrom;
    assert ScalarAt(s, t.delim + 1, t.start);
  }

  /** A string is put where a value is due. */
  lemma QuoteHeals(s: string, stack: seq<Container>, seed: string)
    requires Run(s).Pda? && Run(s).mode.Value? && Run(s).stack == stack && PlainMarker(seed)
    ensures Heals(s, Complete(|s|, "\"" + seed, "\""), Closing(stack), seed)
  {
    hide RunFrom, Step, Heals, Closing;
    var p := Run(s);
    Tokens(p);
    ValueQuote(p);
    var q := Pda(InStr(false, Plain), stack);
    Tokens(q);
    StringQuote(q);
    KeepsAll(s, p, "\"", seed, "\"");
  }

  lemma ValueQuote(p: Pda)
    requires p.Pda? && p.mode.Value?
    ensures Step(p, '"') == Pda(InStr(false, Plain), p.stack)
  {
  }

  lemma StringQuote(p: Pda)
    requires p.Pda? && p.mode.InStr? && p.mode.st == Plain
    ensures Step(p, '"') == Pda(if p.mode.key then Colon else After, p.stack)
  {
  }

  lemma {:induction false} FindLastOfIs(s: string, set_: seq<char>, i: nat)
    requires i < |s| && s[i] in set_
    requires forall k :: i < k < |s| ==> s[k] !in set_
    ensures FindLastOf(s, set_) == Some(i)
    decreases |s|
  {
    if i < |s| - 1 { FindLastOfIs(s[..|s| - 1], set_, i); }
  }

  lemma {:induction false} LastNonWsIs(s: string, i: nat)
    requires i < |s| && !IsWs(s[i]) && AllWs(s[i + 1..])
    ensures LastNonWs(s) == Some(i)
    decreases |s|
  {
    if i < |s| - 1 {
      assert s[i + 1..][|s| - i - 2] == s[|s| - 1];
      assert s[..|s| - 1][i + 1..] == s[i + 1..][..|s| - i - 2];
      LastNonWsIs(s[..|s| - 1], i);
    }
  }

  // --------------------------------------------------------------- completing an escape

  /** The regular expression matches exactly the escape that ends the text. */
  lemma TailIs(s: string, d: string)
    requires EndsWith(s, "\\u" + d) && |d| <= 4 && forall i :: 0 <= i < |d| ==> IsHex(d[i])
    ensures UnicodeTail(s) == Some("\\u" + d)
    ensures s[..|s| - 2 - |d|] + ("\\u" + d) == s
  {
    hide UnicodeTailOf;
    var t := "\\u" + d;
    var n := |s| - |t|;
    assert s[n..] == t && s[..n] + s[n..] == s;
    TailChars(s, d);
    TailHere(s, d);
    forall k: nat | k <= 4 && k != |d| ensures !UnicodeTailOf(s, k) {
      TailNotThere(s, d, k);
    }
  }

  lemma TailChars(s: string, d: string)
    requires EndsWith(s, "\\u" + d)
    ensures var n := |s| - 2 - |d|;
            && s[n] == '\\' && s[n + 1] == 'u'
            && forall i :: n + 2 <= i < |s| ==> s[i] == d[i - n - 2]
  {
    var n := |s| - 2 - |d|;
    forall i | n <= i < |s| ensures s[i] == ("\\u" + d)[i - n] {
      assert s[i] == s[n..][i - n];
    }
  }

  lemma TailHere(s: string, d: string)
    requires |d| <= 4 && |d| + 2 <= |s| && forall i :: 0 <= i < |d| ==> IsHex(d[i])
    requires var n := |s| - 2 - |d|;
             && s[n] == '\\' && s[n + 1] == 'u'
             && forall i :: n + 2 <= i < |s| ==> s[i] == d[i - n - 2]
    ensures UnicodeTailOf(s, |d|)
  {
    hide IsHex;
  }

  lemma TailNotThere(s: string, d: string, k: nat)
    requires |d| <= 4 && k <= 4 && k != |d| && |d| + 2 <= |s| && forall i :: 0 <= i < |d| ==> IsHex(d[i])
    requires var n := |s| - 2 - |d|;
             && s[n] == '\\' && s[n + 1] == 'u'
             && forall i :: n + 2 <= i < |s| ==> s[i] == d[i - n - 2]
    ensures !UnicodeTailOf(s, k)
  {
    if k < |d| { assert IsHex(d[|d| - 1 - k]); }
  }

  lemma NoTail(s: string)
    requires EndsWith(s, "\\")
    ensures UnicodeTail(s) == None && s != "" && s[|s| - 1] == '\\'
  {
    assert s[|s| - 1] == s[|s| - 1..][0];
  }

  lemma Before(s: string, a: string, b: string)
    requires EndsWith(s, a + b)
    ensures |b| <= |s| && EndsWith(s[..|s| - |b|], a) && EndsWith(s, b)
  {
    var n := |s| - |a| - |b|;
    assert s[n..] == a + b;
    assert s[..|s| - |b|][n..] == s[n..][..|a|];
    assert s[|s| - |b|..] == s[n..][|a|..];
  }

  /** What completes an escape with the digits `d`. */
  function EscapeRest(d: string, low: bool, pseudo: bool): string {
    if |d| == 2 && HighPair(d[0], d[1]) then "00\\udc00"
    else if |d| == 3 && HighPair(d[0], d[1]) then "0\\udc00"
    else if |d| == 0 then if low || pseudo then "dc00" else "0000"
    else if |d| == 1 then if low || pseudo then "c00" else "000"
    else if |d| == 2 then "00"
    else "0"
  }

  ghost predicate LooksPaired(s: string, d: string) {
    2 + |d| <= |s| && UnicodeTail(s[..|s| - 2 - |d|]).Some? && IsHighSurrogate(UnicodeTail(s[..|s| - 2 - |d|]).value)
  }

  lemma ZerosAre(n: nat)
    requires n <= 4
    ensures Zeros(n) == "0000"[..n]
  {
  }

  lemma PaddingIs(s: string, d: string)
    requires EndsWith(s, "\\u" + d) && |d| < 4 && forall i :: 0 <= i < |d| ==> IsHex(d[i])
    ensures Padding(s) == EscapeRest(d, false, LooksPaired(s, d))
  {
    hide UnicodeTail, EndsWith, Zeros;
    TailIs(s, d);
    ZerosAre(4 - |d|);
    ZerosAre(4);
    var m := "\\u" + d;
    assert |d| >= 2 ==> m[2] == d[0] && m[3] == d[1];
    assert "0000"[..4] == "0000" && "0000"[..3] == "000" && "0000"[..2] == "00" && "0000"[..1] == "0";
    assert "00" + "\\udc00" == "00\\udc00" && "0" + "\\udc00" == "0\\udc00";
  }

  lemma PairedWhenLow(s: string, d: string)
    requires StringTail(s, Hex(d, true)) && GoodHex(d, true)
    ensures LooksPaired(s, d)
  {
    hide UnicodeTail, EndsWith;
    var h :| HighEscape(h) && EndsWith(s, "\\u" + h + "\\u" + d);
    assert "\\u" + h + "\\u" + d == ("\\u" + h) + ("\\u" + d);
    Before(s, "\\u" + h, "\\u" + d);
    TailIs(s[..|s| - 2 - |d|], h);
    var m := "\\u" + h;
    assert m[2] == h[0] && m[3] == h[1];
  }

  lemma LowPairRest(p: Pda)
    requires p.Pda? && p.mode.InStr? && p.mode.st == Hex("", true)
    ensures RunFrom(p, "dc00") == Pda(InStr(p.mode.key, Plain), p.stack)
  {
    hide RunFrom;
    Run4(p, 'd', 'c', '0', '0');
    assert "" + ['d'] == "d" && "d" + ['c'] == "dc" && "dc" + ['0'] == "dc0" && "dc0" + ['0'] == "dc00";
  }

  /** Completing a `\u` escape that is not the second half of a pair. */
  lemma EscapeCompletes(p: Pda, d: string, pseudo: bool)
    requires p.Pda? && p.mode.InStr? && p.mode.st == Hex(d, false) && GoodHex(d, false)
    ensures var done := RunFrom(p, EscapeRest(d, false, pseudo));
            if pseudo && (|d| == 0 || (|d| == 1 && (d[0] == 'd' || d[0] == 'D'))) then done == Dead
            else done == Pda(InStr(p.mode.key, Plain), p.stack)
  {
    hide RunFrom;
    if |d| == 0 {
      assert d == "";
      if pseudo { Run4(p, 'd', 'c', '0', '0'); } else { Run4(p, '0', '0', '0', '0'); }
    } else if |d| == 1 {
      assert d == [d[0]];
      if pseudo { Run3(p, 'c', '0', '0'); } else { Run3(p, '0', '0', '0'); }
    } else if |d| == 2 {
      Run2(p, '0', '0');
      if HighPair(d[0], d[1]) {
        HighCompletes(p, "00", d + ['0'] + ['0']);
      }
    } else {
      Run1(p, '0');
      if HighPair(d[0], d[1]) {
        HighCompletes(p, "0", d + ['0']);
      }
    }
  }

  /** After a completed high surrogate the low half follows. */
  lemma HighCompletes(p: Pda, zeros: string, d: string)
    requires p.Pda? && p.mode.InStr? && RunFrom(p, zeros) == Pda(InStr(p.mode.key, High), p.stack)
    ensures RunFrom(p, zeros + "\\udc00") == Pda(InStr(p.mode.key, Plain), p.stack)
    ensures zeros == "00" ==> zeros + "\\udc00" == "00\\udc00"
    ensures zeros == "0" ==> zeros + "\\udc00" == "0\\udc00"
    ensures zeros == "" ==> zeros + "\\udc00" == "\\udc00"
  {
    hide RunFrom;
    var q := Pda(InStr(p.mode.key, High), p.stack);
    RunConcat(p, zeros, "\\udc00");
    assert "\\u" + "dc00" == "\\udc00";
    RunConcat(q, "\\u", "dc00");
    Run2(q, '\\', 'u');
    LowPairRest(Step(Step(q, '\\'), 'u'));
  }

  lemma LowCompletes(p: Pda, d: string)
    requires p.Pda? && p.mode.InStr? && p.mode.st == Hex(d, true) && GoodHex(d, true)
    ensures RunFrom(p, EscapeRest(d, false, true)) == Pda(InStr(p.mode.key, Plain), p.stack)
  {
    hide RunFrom;
    if |d| == 0 {
      assert d == "";
      LowPairRest(p);
    } else if |d| == 1 {
      assert d == [d[0]];
      Run3(p, 'c', '0', '0');
    } else if |d| == 2 {
      Run2(p, '0', '0');
    } else {
      Run1(p, '0');
    }
  }

  lemma HexPads(s: string, p: Pda)
    requires p == Run(s) && p.Pda? && p.mode.InStr? && WellFormed(p) && StringTail(s, p.mode.st)
    requires p.mode.st.Hex?
    ensures RunFrom(p, Padding(s)) == if PseudoSurrogate(s) then Dead else Pda(InStr(p.mode.key, Plain), p.stack)
  {
    hide RunFrom, UnicodeTail, Step, LooksPaired, IsHighSurrogate;
    var d, low := p.mode.st.digits, p.mode.st.low;
    PaddingIs(s, d);
    if low {
      PairedWhenLow(s, d);
      LowCompletes(p, d);
    } else {
      TailIs(s, d);
      EscapeCompletes(p, d, LooksPaired(s, d));
      PseudoIs(s, d);
    }
  }

  lemma HighPads(s: string, p: Pda)
    requires p == Run(s) && p.Pda? && p.mode.InStr? && WellFormed(p) && StringTail(s, p.mode.st)
    requires p.mode.st.High?
    ensures RunFrom(p, Padding(s)) == Pda(InStr(p.mode.key, Plain), p.stack)
  {
    hide RunFrom, UnicodeTail, EndsWith, Step;
    var h :| HighEscape(h) && EndsWith(s, "\\u" + h);
    TailIs(s, h);
    var m := "\\u" + h;
    assert m[2] == h[0] && m[3] == h[1];
    assert Zeros(0) + "\\udc00" == "" + "\\udc00";
    Tokens(p);
    HighCompletes(p, "", "");
  }

  lemma HighEscPads(s: string, p: Pda)
    requires p == Run(s) && p.Pda? && p.mode.InStr? && WellFormed(p) && StringTail(s, p.mode.st)
    requires p.mode.st.HighEsc?
    ensures RunFrom(p, Padding(s)) == Pda(InStr(p.mode.key, Plain), p.stack)
  {
    hide RunFrom, UnicodeTail, EndsWith, Step;
    var h :| HighEscape(h) && EndsWith(s, "\\u" + h + "\\");
    Before(s, "\\u" + h, "\\");
    NoTail(s);
    RunCons(p, 'u', "dc00");
    assert ['u'] + "dc00" == "udc00";
    HighEscStep(p);
    LowPairRest(Step(p, 'u'));
  }

  /** What the source appends completes the escape, except in the one failing family. */
  lemma PaddingCompletes(s: string, p: Pda)
    requires p == Run(s) && p.Pda? && p.mode.InStr? && WellFormed(p)
    requires Escaping(p.mode.st) && StringTail(s, p.mode.st)
    ensures if PseudoSurrogate(s) then RunFrom(p, Padding(s)) == Dead
            else RunFrom(p, Padding(s)) == Pda(InStr(p.mode.key, Plain), p.stack)
  {
    hide RunFrom, UnicodeTail, Padding, StringTail, WellFormed;
    match p.mode.st
    case Hex(_, _) => HexPads(s, p);
    case High => HighPads(s, p);
    case HighEsc => HighEscPads(s, p);
  }

  lemma HighEscStep(p: Pda)
    requires p.Pda? && p.mode.InStr? && p.mode.st == HighEsc
    ensures Step(p, 'u') == Pda(InStr(p.mode.key, Hex("", true)), p.stack)
  {
  }

  lemma PseudoIs(s: string, d: string)
    requires Run(s).Pda? && Run(s).mode.InStr? && Run(s).mode.st == Hex(d, false)
    requires |d| < 4 && UnicodeTail(s) == Some("\\u" + d)
    ensures PseudoSurrogate(s) <==> LooksPaired(s, d) && (|d| == 0 || (|d| == 1 && (d[0] == 'd' || d[0] == 'D')))
  {
    hide RunFrom, UnicodeTail, IsHighSurrogate;
    var m := "\\u" + d;
    assert |d| == 1 ==> m[2] == d[0];
  }

  // ------------------------------------------------------------------ the tests of the source

  lemma CanPadded(s: string, p: Pda, x: string)
    requires p == Run(s) && p.Pda?
    ensures Done(RunFrom(RunFrom(p, Padding(s)), x), p.stack) ==> Accepts(s + Padding(s) + x + Closing(p.stack))
    ensures Stuck(RunFrom(RunFrom(p, Padding(s)), x)) ==> !Accepts(s + Padding(s) + x + Closing(p.stack))
  {
    hide RunFrom, Padding, Accepts, Closing;
    RunConcat(p, Padding(s), x);
    Can(s, p, Padding(s) + x);
    assert s + Padding(s) + x == s + (Padding(s) + x);
  }

  predicate PadChar(c: char) { c == '0' || c == 'u' || c == 'd' || c == 'c' || c == '\\' }

  lemma PaddingChars(s: string)
    ensures forall i :: 0 <= i < |Padding(s)| ==> PadChar(Padding(s)[i])
  {
    hide UnicodeTail, IsHighSurrogate;
  }

  /** No escape is completed outside a string: whatever is appended, a quote is refused. */
  lemma {:induction false} PadOutsideString(p: Pda, x: string)
    requires p.Dead? || p.mode.Num? || p.mode.Lit? || p.mode.After?
    requires WellFormed(p) && forall i :: 0 <= i < |x| ==> PadChar(x[i])
    ensures Step(RunFrom(p, x), '"') == Dead
    decreases |x|
  {
    if x != "" { PadOutsideString(Step(p, x[0]), x[1..]); }
  }

  /** No quote is taken after a value or inside a number or literal. */
  lemma NoQuoteHere(s: string, p: Pda)
    requires p == Run(s) && p.Pda? && WellFormed(p) && (p.mode.Num? || p.mode.Lit? || p.mode.After?)
    ensures !Accepts(s + "\"" + Closing(p.stack)) && !Accepts(s + "\\\"" + Closing(p.stack))
    ensures !Accepts(s + Padding(s) + "\"" + Closing(p.stack))
    ensures !Accepts(s + "\": 1" + Closing(p.stack)) && !Accepts(s + "\\\": 1" + Closing(p.stack))
    ensures !Accepts(s + Padding(s) + "\": 1" + Closing(p.stack))
  {
    hide RunFrom, Accepts, Closing, Padding, WellFormed;
    Tokens(p);
    KeyTokens(p);
    Tokens(Dead);
    KeyTokens(Dead);
    assert Step(p, '"') == Dead && Step(p, '\\') == Dead by { ScalarSteps(p); }
    Can(s, p, "\"");
    Can(s, p, "\\\"");
    Can(s, p, "\": 1");
    Can(s, p, "\\\": 1");
    var q := RunFrom(p, Padding(s));
    PaddingChars(s);
    PadOutsideString(p, Padding(s));
    Tokens(q);
    KeyTokens(q);
    CanPadded(s, p, "\"");
    CanPadded(s, p, "\": 1");
  }

  lemma ScalarSteps(p: Pda)
    requires p.Pda? && WellFormed(p) && (p.mode.Num? || p.mode.Lit? || p.mode.After?)
    ensures Step(p, '"') == Dead && Step(p, '\\') == Dead
    ensures p.mode.Lit? || (p.mode.Num? && !NumComplete(p.mode.n)) ==> Step(p, ',') == Dead && Step(p, ':') == Dead
    ensures p.stack != [] && !p.mode.Lit? && (p.mode.Num? ==> NumComplete(p.mode.n)) ==>
              Step(p, ',') == Pda(if Top(p.stack) == Obj then Key(false) else Value(false), p.stack)
  {
  }

  lemma StrStays(p: Pda, c: char)
    requires (p.Dead? || p.mode.InStr?) && c != '"'
    ensures Stuck(Step(p, c)) && (p.Pda? && Step(p, c).Pda? ==> Step(p, c).stack == p.stack && Step(p, c).mode.key == p.mode.key)
  {
  }

  /** Inside a string nothing without a quote finishes the document. */
  lemma UnquotedInString(s: string, p: Pda)
    requires p == Run(s) && p.Pda? && p.mode.InStr? && WellFormed(p)
    ensures !Accepts(s + "1" + Closing(p.stack)) && !Accepts(s + ": 1" + Closing(p.stack))
    ensures !Accepts(s + ", 1" + Closing(p.stack)) && !Accepts(s + Closing(p.stack))
  {
    hide RunFrom, Accepts, Closing, Step, WellFormed;
    Tokens(p);
    StrStays(p, '1');
    StrStays(p, ':');
    StrStays(Step(p, ':'), ' ');
    StrStays(Step(Step(p, ':'), ' '), '1');
    StrStays(p, ',');
    StrStays(Step(p, ','), ' ');
    StrStays(Step(Step(p, ','), ' '), '1');
    Can(s, p, "1");
    Can(s, p, ": 1");
    Can(s, p, ", 1");
    CanClose(s, p);
  }

  /** From just after a key string, `: 1` completes the member. */
  lemma MemberDone(p: Pda)
    requires p.Pda? && p.mode.Colon?
    ensures RunFrom(p, ": 1") == Pda(Num(Int), p.stack)
  {
    hide RunFrom;
    Tokens(p);
  }

  // ------------------------------------------------------------------------ value strings

  /** The three tests for a string value, and what they choose. `rest` is what the other tests choose. */
  function StringChoice(s: string, closing: string, seed: string, rest: Choice): Choice
    requires s != ""
  {
    if Accepts(s + "\"" + closing) then Complete(|s|, seed, "\"")
    else if s[|s| - 1] == '\\' && Accepts(s + "\\\"" + closing) then Complete(|s|, "\\" + seed, "\"")
    else if Accepts(s + Padding(s) + "\"" + closing) then Complete(|s|, Padding(s) + seed, "\"")
    else rest
  }

  function KeyStringChoice(s: string, closing: string, seed: string, rest: Choice): Choice
    requires s != ""
  {
    if Accepts(s + "\": 1" + closing) then Complete(|s|, seed, "\": 1")
    else if s[|s| - 1] == '\\' && Accepts(s + "\\\": 1" + closing) then Complete(|s|, "\\" + seed, "\": 1")
    else if Accepts(s + Padding(s) + "\": 1" + closing) then Complete(|s|, Padding(s) + seed, "\": 1")
    else rest
  }

  lemma NotPseudo(s: string)
    requires Run(s).Pda? && (Run(s).mode.InStr? ==> !Run(s).mode.st.Hex?)
    ensures !PseudoSurrogate(s)
  {
  }

  lemma NonEmptyRun(s: string)
    requires Run(s).Pda? && Run(s).stack != []
    ensures s != ""
  {
  }

  lemma ValueString(s: string, p: Pda, seed: string, rest: Choice)
    requires p == Run(s) && p.Pda? && p.mode.InStr? && !p.mode.key && p.stack != []
    requires WellFormed(p) && StringTail(s, p.mode.st) && PlainMarker(seed) && s != ""
    ensures var ch := StringChoice(s, Closing(p.stack), seed, rest);
            if PseudoSurrogate(s) then ch == rest else Heals(s, ch, Closing(p.stack), seed)
  {
    hide RunFrom, Accepts, Closing, Padding, PseudoSurrogate, WellFormed, StringTail, Heals;
    var closing := Closing(p.stack);
    var plain := Pda(InStr(false, Plain), p.stack);
    Tokens(p);
    Tokens(plain);
    Can(s, p, "\"");
    Can(s, p, "\\\"");
    assert Step(plain, '"') == Pda(After, p.stack);
    match p.mode.st
    case Plain =>
      NotPseudo(s);
      KeepsAll(s, p, "", seed, "\"");
      assert "" + seed == seed;
    case Esc =>
      NotPseudo(s);
      EscTail(s);
      Run1(p, '\\');
      KeepsAll(s, p, "\\", seed, "\"");
    case Hex(_, _) => EscapedValue(s, p, seed, rest);
    case High => EscapedValue(s, p, seed, rest);
    case HighEsc => EscapedValue(s, p, seed, rest);
  }

  lemma EscTail(s: string)
    requires StringTail(s, Esc)
    ensures s != "" && s[|s| - 1] == '\\'
  {
    hide UnicodeTail;
    NoTail(s);
  }

  lemma EscapedValue(s: string, p: Pda, seed: string, rest: Choice)
    requires p == Run(s) && p.Pda? && p.mode.InStr? && !p.mode.key && p.stack != [] && Escaping(p.mode.st)
    requires WellFormed(p) && StringTail(s, p.mode.st) && PlainMarker(seed) && s != ""
    ensures var ch := StringChoice(s, Closing(p.stack), seed, rest);
            if PseudoSurrogate(s) then ch == rest else Heals(s, ch, Closing(p.stack), seed)
  {
    hide RunFrom, Accepts, Closing, Padding, PseudoSurrogate, WellFormed, StringTail, Heals;
    Tokens(p);
    Can(s, p, "\"");
    Can(s, p, "\\\"");
    EscapingSteps(p);
    PaddingCompletes(s, p);
    var q := RunFrom(p, Padding(s));
    Tokens(q);
    CanPadded(s, p, "\"");
    if !PseudoSurrogate(s) { KeepsAll(s, p, Padding(s), seed, "\""); }
  }

  lemma EscapingSteps(p: Pda)
    requires p.Pda? && p.mode.InStr? && Escaping(p.mode.st)
    ensures Step(p, '"') == Dead && Stuck(Step(Step(p, '\\'), '"')) && Step(p, ',') == Dead
    ensures Step(p, '\\').Dead? || Step(p, '\\') == Pda(InStr(p.mode.key, HighEsc), p.stack)
    ensures Step(Step(p, '\\'), '"') == Dead
  {
  }

  lemma KeyString(s: string, p: Pda, seed: string, rest: Choice)
    requires p == Run(s) && p.Pda? && p.mode.InStr? && p.mode.key && p.stack != []
    requires WellFormed(p) && StringTail(s, p.mode.st) && PlainMarker(seed) && s != ""
    ensures var ch := KeyStringChoice(s, Closing(p.stack), seed, rest);
            if PseudoSurrogate(s) then ch == rest else Heals(s, ch, Closing(p.stack), seed)
  {
    hide RunFrom, Accepts, Closing, Padding, PseudoSurrogate, WellFormed, StringTail, Heals;
    var plain := Pda(InStr(true, Plain), p.stack);
    Tokens(p);
    KeyTokens(p);
    KeyTokens(plain);
    MemberDone(Pda(Colon, p.stack));
    Can(s, p, "\": 1");
    Can(s, p, "\\\": 1");
    assert Step(plain, '"') == Pda(Colon, p.stack);
    match p.mode.st
    case Plain =>
      NotPseudo(s);
      KeepsAll(s, p, "", seed, "\": 1");
      assert "" + seed == seed;
    case Esc =>
      NotPseudo(s);
      EscTail(s);
      Tokens(plain);
      StrStays(plain, ':');
      StrStays(Step(plain, ':'), ' ');
      StrStays(Step(Step(plain, ':'), ' '), '1');
      Run1(p, '\\');
      KeepsAll(s, p, "\\", seed, "\": 1");
    case Hex(_, _) => EscapedKey(s, p, seed, rest);
    case High => EscapedKey(s, p, seed, rest);
    case HighEsc => EscapedKey(s, p, seed, rest);
  }

  lemma EscapedKey(s: string, p: Pda, seed: string, rest: Choice)
    requires p == Run(s) && p.Pda? && p.mode.InStr? && p.mode.key && p.stack != [] && Escaping(p.mode.st)
    requires WellFormed(p) && StringTail(s, p.mode.st) && PlainMarker(seed) && s != ""
    ensures var ch := KeyStringChoice(s, Closing(p.stack), seed, rest);
            if PseudoSurrogate(s) then ch == rest else Heals(s, ch, Closing(p.stack), seed)
  {
    hide RunFrom, Accepts, Closing, Padding, PseudoSurrogate, WellFormed, StringTail, Heals;
    KeyTokens(p);
    KeyTokens(Step(p, '\\'));
    Tokens(Dead);
    Can(s, p, "\": 1");
    Can(s, p, "\\\": 1");
    EscapingSteps(p);
    PaddingCompletes(s, p);
    var q := RunFrom(p, Padding(s));
    KeyTokens(q);
    MemberDone(Pda(Colon, p.stack));
    CanPadded(s, p, "\": 1");
    if !PseudoSurrogate(s) { KeepsAll(s, p, Padding(s), seed, "\": 1"); }
  }

  /** In the failing family the last resort gives up part of a string, or nothing can be done. */
  lemma CutLosesString(s: string, set_: seq<char>, closing: string, seed: string)
    requires PseudoSurrogate(s) && set_ in [":", "[,"]
    ensures !Heals(s, CutBack(s, set_, seed), closing, seed)
  {
    hide RunFrom, Accepts;
    RunWellFormed(INIT, s);
    TextInvHolds(s);
    var d := Run(s).mode.st.digits;
    PseudoTail(s, d);
    var ch := CutBack(s, set_, seed);
    if ch.Complete? {
      FindLastOfIn(s, set_);
      var e := |s| - 2 - |d|;
      assert ch.keep <= e;
      if LosesAtMostScalar(s, ch.keep) {
        var b: nat :| ch.keep <= b < |s| && AllWs(s[ch.keep..b]) && ScalarAt(s, ch.keep, b);
        PseudoNotScalar(s, ch.keep, b, e);
      }
    }
  }

  lemma PseudoTail(s: string, d: string)
    requires PseudoSurrogate(s) && d == Run(s).mode.st.digits && WellFormed(Run(s)) && StringTail(s, Run(s).mode.st)
    ensures |d| <= 1 && 2 + |d| <= |s| && s[|s| - 2 - |d|] == '\\' && s[|s| - 1 - |d|] == 'u' && (|d| == 1 ==> s[|s| - 1] in ['d', 'D'])
  {
    hide RunFrom, UnicodeTail, IsHighSurrogate;
    TailIs(s, d);
    PseudoIs(s, d);
    EscapeAtEnd(s, d);
  }

  lemma EscapeAtEnd(s: string, d: string)
    requires |d| + 2 <= |s| && s[|s| - 2 - |d|..] == "\\u" + d
    ensures s[|s| - 2 - |d|] == '\\' && s[|s| - 1 - |d|] == 'u' && (|d| == 1 ==> s[|s| - 1] == d[0])
  {
    var n := |s| - 2 - |d|;
    assert s[n] == s[n..][0] && s[n + 1] == s[n..][1];
    if |d| == 1 { assert s[n + 2] == s[n..][2] == d[0]; }
  }

  lemma {:induction false} FindLastOfIn(s: string, set_: seq<char>)
    ensures FindLastOf(s, set_).Some? ==> s[FindLastOf(s, set_).value] in set_
    decreases |s|
  {
    if s != "" && s[|s| - 1] !in set_ { FindLastOfIn(s[..|s| - 1], set_); }
  }

  lemma PseudoNotScalar(s: string, keep: nat, b: nat, e: nat)
    requires keep <= e < |s| && s[e] == '\\' && keep <= b < |s|
    ensures !(AllWs(s[keep..b]) && ScalarAt(s, keep, b))
  {
    hide RunFrom;
    if e < b { assert s[keep..b][e - keep] == s[e]; }
  }

  // --------------------------------------------------------------- the three kinds of place

  /** The state and the text that the source sees when a document is cut inside a container. */
  ghost predicate CutInside(s: string, p: Pda, t: Track) {
    p == Run(s) && p.Pda? && p.stack != [] && WellFormed(p) && TextInv(s, p, t) && s != ""
  }

  lemma DueLast(s: string, delim: int, stack: seq<Container>)
    requires stack != [] && ValueDueAt(s, |s|, delim, stack)
    ensures LastNonWs(s) == Some(delim) && s[delim] in (if Top(stack) == Obj then [':'] else ['[', ','])
  {
    hide RunFrom, LastNonWs;
    assert s[delim + 1..|s|] == s[delim + 1..];
    LastNonWsIs(s, delim);
  }

  /** A value is due: a string value with the marker is put there. */
  lemma ValueDueHeals(s: string, p: Pda, seed: string)
    requires p == Run(s) && p.Pda? && p.mode.Value? && PlainMarker(seed)
    ensures Accepts(s + "1" + Closing(p.stack))
    ensures Heals(s, Complete(|s|, "\"" + seed, "\""), Closing(p.stack), seed)
  {
    hide RunFrom, Accepts, Closing, Heals;
    Tokens(p);
    Can(s, p, "1");
    QuoteHeals(s, p.stack, seed);
  }

  lemma ColonDueHeals(s: string, p: Pda, seed: string)
    requires p == Run(s) && p.Pda? && p.mode.Colon? && PlainMarker(seed)
    ensures !Accepts(s + "1" + Closing(p.stack)) && Accepts(s + ": 1" + Closing(p.stack))
    ensures Heals(s, Complete(|s|, ":\"" + seed, "\""), Closing(p.stack), seed)
  {
    hide RunFrom, Accepts, Closing, Heals;
    Tokens(p);
    Can(s, p, "1");
    MemberDone(p);
    Can(s, p, ": 1");
    Run2(p, ':', '"');
    var q := Pda(InStr(false, Plain), p.stack);
    assert RunFrom(p, ":\"") == q;
    Tokens(q);
    StringQuote(q);
    KeepsAll(s, p, ":\"", seed, "\"");
  }

  /** The innermost element is a key. */
  lemma KeyPlaceHeals(s: string, p: Pda, t: Track, last: char, seed: string)
    requires CutInside(s, p, t) && PlainMarker(seed) && LastNonWs(s).Some? && last == s[LastNonWs(s).value]
    requires Top(p.stack) == Obj && InValue(p.mode) && (p.mode.Num? ==> !NumComplete(p.mode.n))
    ensures Heals(s, HealKey(s, last, Closing(p.stack), seed), Closing(p.stack), seed) <==> !PseudoSurrogate(s)
    ensures PseudoSurrogate(s) ==> HealKey(s, last, Closing(p.stack), seed) == CutBack(s, ":", seed)
  {
    hide RunFrom, Accepts, Closing, Padding, PseudoSurrogate, Heals, Step, StringTail, ScalarTail, ValueDueAt;
    match p.mode
    case Value(_) =>
      NotPseudo(s);
      DueLast(s, t.delim, p.stack);
      ValueDueHeals(s, p, seed);
    case Colon =>
      NotPseudo(s);
      ColonDueHeals(s, p, seed);
    case InStr(_, _) =>
      UnquotedInString(s, p);
      ValueString(s, p, seed, CutBack(s, ":", seed));
      if PseudoSurrogate(s) { CutLosesString(s, ":", Closing(p.stack), seed); }
    case Num(_) => KeyScalarHeals(s, p, t, last, seed);
    case Lit(_) => KeyScalarHeals(s, p, t, last, seed);
  }

  lemma KeyScalarHeals(s: string, p: Pda, t: Track, last: char, seed: string)
    requires CutInside(s, p, t) && PlainMarker(seed) && LastNonWs(s).Some? && last == s[LastNonWs(s).value]
    requires Top(p.stack) == Obj && (p.mode.Lit? || (p.mode.Num? && !NumComplete(p.mode.n)))
    ensures Heals(s, HealKey(s, last, Closing(p.stack), seed), Closing(p.stack), seed) && !PseudoSurrogate(s)
  {
    hide RunFrom, Accepts, Closing, Padding, PseudoSurrogate, Heals, Step, ScalarTail;
    NotPseudo(s);
    ScalarLast(s, t, p);
    ScalarSteps(p);
    Tokens(p);
    Tokens(Dead);
    Can(s, p, ": 1");
    assert Step(Step(Dead, ' '), '1') == Dead by { DeadSteps(); }
    NoQuoteHere(s, p);
    CanClose(s, p);
    CutsScalar(s, p, t, ":", seed);
  }

  lemma DeadSteps()
    ensures Step(Dead, ' ') == Dead && Step(Dead, '1') == Dead && Step(Step(Dead, ' '), '1') == Dead && Step(Dead, '"') == Dead
  {
  }

  /** The innermost element is an array. */
  lemma ArrayPlaceHeals(s: string, p: Pda, t: Track, last: char, seed: string)
    requires CutInside(s, p, t) && PlainMarker(seed) && LastNonWs(s).Some? && last == s[LastNonWs(s).value]
    requires Top(p.stack) == Arr
    ensures Heals(s, HealArray(s, last, Closing(p.stack), seed), Closing(p.stack), seed) <==> !PseudoSurrogate(s)
    ensures PseudoSurrogate(s) ==> HealArray(s, last, Closing(p.stack), seed) == CutBack(s, "[,", seed)
  {
    hide RunFrom, Accepts, Closing, Padding, PseudoSurrogate, Heals, Step, StringTail, ScalarTail, ValueDueAt;
    match p.mode
    case Value(_) =>
      NotPseudo(s);
      DueLast(s, t.delim, p.stack);
      ValueDueHeals(s, p, seed);
    case InStr(_, _) =>
      UnquotedInString(s, p);
      ArrayString(s, p, last, seed);
    case Num(_) => ArrayScalarHeals(s, p, t, last, seed);
    case Lit(_) => ArrayScalarHeals(s, p, t, last, seed);
    case After => ArrayScalarHeals(s, p, t, last, seed);
  }

  lemma ArrayString(s: string, p: Pda, last: char, seed: string)
    requires p == Run(s) && p.Pda? && p.mode.InStr? && !p.mode.key && p.stack != [] && s != ""
    requires WellFormed(p) && StringTail(s, p.mode.st) && PlainMarker(seed)
    requires !Accepts(s + "1" + Closing(p.stack)) && !Accepts(s + ", 1" + Closing(p.stack))
    ensures Heals(s, HealArray(s, last, Closing(p.stack), seed), Closing(p.stack), seed) <==> !PseudoSurrogate(s)
    ensures PseudoSurrogate(s) ==> HealArray(s, last, Closing(p.stack), seed) == CutBack(s, "[,", seed)
  {
    hide RunFrom, Accepts, Closing, Padding, PseudoSurrogate, Heals, Step, StringTail;
    ValueString(s, p, seed, CutBack(s, "[,", seed));
    if PseudoSurrogate(s) { CutLosesString(s, "[,", Closing(p.stack), seed); }
  }

  lemma NumberLikeBack(s: string, last: char)
    requires LastNonWs(s).Some? && last == s[LastNonWs(s).value] && s != ""
    ensures WasMaybeNumber(s, last) ==> BackIsNumberLike(s)
    ensures IsDigit(s[|s| - 1]) ==> WasMaybeNumber(s, last)
  {
  }

  lemma CommaThenString(p: Pda)
    requires p.Pda? && p.stack != [] && Top(p.stack) == Arr && Step(p, ',') == Pda(Value(false), p.stack)
    ensures RunFrom(p, ",\"") == Pda(InStr(false, Plain), p.stack)
    ensures RunFrom(p, ", 1") == Pda(Num(Int), p.stack)
  {
    hide RunFrom;
    Run2(p, ',', '"');
    Tokens(p);
  }

  lemma ArrayScalarHeals(s: string, p: Pda, t: Track, last: char, seed: string)
    requires CutInside(s, p, t) && PlainMarker(seed) && LastNonWs(s).Some? && last == s[LastNonWs(s).value]
    requires Top(p.stack) == Arr && (p.mode.Num? || p.mode.Lit? || p.mode.After?)
    ensures Heals(s, HealArray(s, last, Closing(p.stack), seed), Closing(p.stack), seed) && !PseudoSurrogate(s)
  {
    hide RunFrom, Accepts, Closing, Padding, PseudoSurrogate, Heals, Step, ScalarTail, LastNonWs, WasMaybeNumber;
    NotPseudo(s);
    if !p.mode.After? { ScalarLast(s, t, p); }
    ScalarSteps(p);
    NumberLikeBack(s, last);
    NoQuoteHere(s, p);
    if Step(p, ',').Dead? {
      Tokens(p);
      DeadSteps();
      Can(s, p, ", 1");
      CutsScalar(s, p, t, "[,", seed);
    } else {
      CommaThenString(p);
      Can(s, p, ", 1");
      var q := Pda(InStr(false, Plain), p.stack);
      Tokens(q);
      StringQuote(q);
      KeepsAll(s, p, ",\"", seed, "\"");
      if WasMaybeNumber(s, last) { CutsScalar(s, p, t, "[,", seed); }
    }
  }

  /** The innermost element is an object: a key is due or under way, or a value has ended. */
  lemma ObjectPlaceHeals(s: string, p: Pda, t: Track, last: char, seed: string)
    requires CutInside(s, p, t) && PlainMarker(seed) && LastNonWs(s).Some? && last == s[LastNonWs(s).value]
    requires Top(p.stack) == Obj && (!InValue(p.mode) || (p.mode.Num? && NumComplete(p.mode.n)))
    ensures Heals(s, HealObject(s, last, Closing(p.stack), seed), Closing(p.stack), seed) <==> !PseudoSurrogate(s)
    ensures PseudoSurrogate(s) ==> HealObject(s, last, Closing(p.stack), seed) == CutBack(s, ":", seed)
  {
    hide RunFrom, Accepts, Closing, Padding, PseudoSurrogate, Heals, Step, StringTail, ScalarTail, ValueDueAt;
    match p.mode
    case Key(first) =>
      NotPseudo(s);
      KeyDueHeals(s, p, t, last, seed);
    case InStr(_, _) =>
      UnquotedInString(s, p);
      ObjectString(s, p, last, seed);
    case Num(_) => ObjectScalarHeals(s, p, t, last, seed);
    case After => ObjectScalarHeals(s, p, t, last, seed);
  }

  lemma KeyDueHeals(s: string, p: Pda, t: Track, last: char, seed: string)
    requires CutInside(s, p, t) && PlainMarker(seed) && LastNonWs(s).Some? && last == s[LastNonWs(s).value]
    requires p.mode.Key?
    ensures Heals(s, HealObject(s, last, Closing(p.stack), seed), Closing(p.stack), seed)
  {
    hide RunFrom, Accepts, Closing, Padding, Heals, LastNonWs;
    LastNonWsIs(s, t.delim);
    Tokens(p);
    KeyTokens(p);
    MemberDone(Pda(Colon, p.stack));
    var q := Pda(InStr(true, Plain), p.stack);
    KeyTokens(q);
    Can(s, p, "\"\": 1");
    CanClose(s, p);
    KeepsAll(s, p, "\"", seed, "\": 1");
  }

  lemma ObjectString(s: string, p: Pda, last: char, seed: string)
    requires p == Run(s) && p.Pda? && p.mode.InStr? && p.mode.key && p.stack != [] && s != ""
    requires LastNonWs(s).Some? && last == s[LastNonWs(s).value]
    requires WellFormed(p) && StringTail(s, p.mode.st) && PlainMarker(seed) && !Accepts(s + Closing(p.stack))
    ensures Heals(s, HealObject(s, last, Closing(p.stack), seed), Closing(p.stack), seed) <==> !PseudoSurrogate(s)
    ensures PseudoSurrogate(s) ==> HealObject(s, last, Closing(p.stack), seed) == CutBack(s, ":", seed)
  {
    hide RunFrom, Accepts, Closing, Padding, PseudoSurrogate, Heals, Step, StringTail;
    KeyString(s, p, seed, CutBack(s, ":", seed));
    NoNewMember(s, p, last);
    if PseudoSurrogate(s) { CutLosesString(s, ":", Closing(p.stack), seed); }
  }

  /** Inside a key no further member can begin. */
  lemma NoNewMember(s: string, p: Pda, last: char)
    requires p == Run(s) && p.Pda? && p.mode.InStr? && p.mode.key && p.stack != [] && s != ""
    requires LastNonWs(s).Some? && last == s[LastNonWs(s).value]
    requires WellFormed(p) && StringTail(s, p.mode.st)
    ensures last == ',' ==> !Accepts(s + "\"\": 1" + Closing(p.stack))
    ensures !Accepts(s + ",\"\": 1" + Closing(p.stack))
  {
    hide RunFrom, Accepts, Closing, StringTail, WellFormed;
    KeyTokens(p);
    KeyTokens(Step(p, ','));
    Tokens(Dead);
    DeadSteps();
    Can(s, p, "\"\": 1");
    Can(s, p, ",\"\": 1");
    if p.mode.st == Esc {
      EscTail(s);
      assert LastNonWs(s) == Some(|s| - 1);
    } else if Escaping(p.mode.st) {
      EscapingSteps(p);
    }
  }

  lemma ObjectScalarHeals(s: string, p: Pda, t: Track, last: char, seed: string)
    requires CutInside(s, p, t) && PlainMarker(seed) && LastNonWs(s).Some? && last == s[LastNonWs(s).value]
    requires Top(p.stack) == Obj && (p.mode.After? || (p.mode.Num? && NumComplete(p.mode.n)))
    ensures Heals(s, HealObject(s, last, Closing(p.stack), seed), Closing(p.stack), seed) && !PseudoSurrogate(s)
  {
    hide RunFrom, Accepts, Closing, Padding, PseudoSurrogate, Heals, Step, ScalarTail, LastNonWs, WasMaybeNumber;
    NotPseudo(s);
    if !p.mode.After? { ScalarLast(s, t, p); }
    ScalarSteps(p);
    NumberLikeBack(s, last);
    NoQuoteHere(s, p);
    CommaThenKey(p);
    Can(s, p, ",\"\": 1");
    var q := Pda(InStr(true, Plain), p.stack);
    KeyTokens(q);
    StringQuote(q);
    MemberDone(Pda(Colon, p.stack));
    KeepsAll(s, p, ",\"", seed, "\": 1");
    if WasMaybeNumber(s, last) { CutsScalar(s, p, t, ":", seed); }
  }

  lemma CommaThenKey(p: Pda)
    requires p.Pda? && Step(p, ',') == Pda(Key(false), p.stack)
    ensures RunFrom(p, ",\"") == Pda(InStr(true, Plain), p.stack)
    ensures RunFrom(p, ",\"\": 1") == Pda(Num(Int), p.stack)
  {
    hide RunFrom;
    Run2(p, ',', '"');
    KeyTokens(p);
    KeyTokens(Pda(Key(false), p.stack));
    MemberDone(Pda(Colon, p.stack));
  }

  // ------------------------------------------------------------------------- the theorem

  lemma TopOfSax(p: Pda)
    requires p.Pda? && p.stack != []
    ensures var els := SaxStack(Finish(p));
            && els != [] && ClosingOf(els) == Closing(p.stack)
            && els[|els| - 1] == (if Top(p.stack) == Arr then ArrayEl
                                  else if InValue(Finish(p).mode) then KeyEl else ObjectEl)
  {
    hide ClosingOf, Closing;
    ClosingOfSax(Finish(p));
    OuterTop(p.stack);
  }

  /** HEALING, EXACTLY. Cut any JSON document anywhere inside a container. The source completes the text to a
      document that begins with the text, or with all of it but a number or literal at its very end (and blanks
      before that), if and only if the cut is not in the family `PseudoSurrogate`. In particular, outside that
      family no exception is thrown and nothing inside a string, key or nested value is ever lost. */
  lemma HealingIsExact(doc: string, s: string, marker: string)
    requires Accepts(doc) && s <= doc && (Run(s).Pda? ==> Run(s).stack != []) && PlainMarker(marker)
    ensures Run(s).Pda?
    ensures (exists ch :: Heals(s, ch, Closing(Run(s).stack), marker)
                       && Parse(s, marker) == Parsed(Text(s, ch, Closing(Run(s).stack)), |s|, marker, ch.dump)
                       && ch == Heal(s, SaxStack(Finish(Run(s))), marker))
            <==> !PseudoSurrogate(s)
  {
    hide RunFrom, Accepts, Closing, ClosingOf, Heal, PseudoSurrogate, SaxStack, Reach, Text;
    TruncationAlive(doc, s);
    var p := Run(s);
    CutIsInside(s);
    TopOfSax(p);
    var els := SaxStack(Finish(p));
    ReachAll(INIT, s);
    assert s[..|s|] == s;
    NotADocument(s, p);
    HealHeals(s, p, marker);
    assert Parse(s, marker) == ParsedOr(s, Heal(s, els, marker), Closing(p.stack), marker);
  }

  lemma CutIsInside(s: string)
    requires Run(s).Pda? && Run(s).stack != []
    ensures CutInside(s, Run(s), TrackOf(s))
  {
    hide RunFrom, TextInv, WellFormed;
    StartWellFormed();
    RunWellFormed(INIT, s);
    TextInvHolds(s);
    NonEmptyRun(s);
  }

  lemma StartWellFormed()
    ensures WellFormed(INIT)
  {
  }

  lemma NotADocument(s: string, p: Pda)
    requires p == Run(s) && p.Pda? && p.stack != []
    ensures !Accepts(s)
  {
  }

  /** What a text is cut back to. */
  function CutSet(els: seq<Element>): string
    requires els != []
  {
    if els[|els| - 1] == ArrayEl then "[," else ":"
  }

  lemma HealHeals(s: string, p: Pda, marker: string)
    requires p == Run(s) && p.Pda? && p.stack != [] && PlainMarker(marker) && CutInside(s, p, TrackOf(s))
    ensures SaxStack(Finish(p)) != []
    ensures Heals(s, Heal(s, SaxStack(Finish(p)), marker), Closing(p.stack), marker) <==> !PseudoSurrogate(s)
    ensures var ch := Heal(s, SaxStack(Finish(p)), marker);
            PseudoSurrogate(s) ==> ch == CutBack(s, CutSet(SaxStack(Finish(p))), marker)
  {
    hide RunFrom, Accepts, Closing, ClosingOf, PseudoSurrogate, SaxStack, Heals, TextInv, HealKey, HealArray, HealObject, WellFormed;
    TopOfSax(p);
    var t := TrackOf(s);
    HasNonWs(s, p, t);
    var last := s[LastNonWs(s).value];
    if Top(p.stack) == Arr {
      ArrayPlaceHeals(s, p, t, last, marker);
    } else if InValue(Finish(p).mode) {
      KeyPlaceHeals(s, p, t, last, marker);
    } else {
      ObjectPlaceHeals(s, p, t, last, marker);
    }
  }

  /** The text has a character that is not blank. */
  lemma HasNonWs(s: string, p: Pda, t: Track)
    requires CutInside(s, p, t)
    ensures LastNonWs(s).Some?
  {
    hide RunFrom, TextInv;
    BlankIsNothing(s);
  }

  lemma {:induction false} BlankIsNothing(s: string)
    ensures LastNonWs(s).None? ==> Run(s) == INIT
    decreases |s|
  {
    hide RunFrom;
    if s != "" && IsWs(s[|s| - 1]) {
      BlankIsNothing(s[..|s| - 1]);
      assert s == s[..|s| - 1] + [s[|s| - 1]];
      RunSnoc(INIT, s[..|s| - 1], s[|s| - 1]);
    } else if s == "" {
      Tokens(INIT);
    }
  }

  // --------------------------------------------------------- the failing family is not empty

  const CUT := "[\"x," + "\\\\ud8" + "00\\u"

  lemma CutSegments(p: Pda, q: Pda)
    requires p == Pda(InStr(false, Plain), [Arr]) && q == Pda(InStr(false, Hex("", false)), [Arr])
    ensures RunFrom(INIT, "[\"x,") == p
    ensures RunFrom(p, "\\\\ud") == p && RunFrom(p, "8") == p
    ensures RunFrom(p, "00\\u") == q
    ensures RunFrom(p, "\"]") == Pda(After, [])
  {
    hide RunFrom;
    Run4(INIT, '[', '"', 'x', ',');
    assert [] + [Arr] == [Arr];
    Run4(p, '\\', '\\', 'u', 'd');
    Run1(p, '8');
    Run4(p, '0', '0', '\\', 'u');
    Run2(p, '"', ']');
  }

  lemma CutEscape(q: Pda)
    requires q == Pda(InStr(false, Hex("", false)), [Arr])
    ensures RunFrom(q, "0041") == Pda(InStr(false, Plain), [Arr])
  {
    hide RunFrom;
    Run4(q, '0', '0', '4', '1');
    assert "" + ['0'] == "0" && "0" + ['0'] == "00" && "00" + ['4'] == "004" && "004" + ['1'] == "0041";
  }

  lemma CutIsRead()
    ensures Run("[\"x,") == Pda(InStr(false, Plain), [Arr])
    ensures Run(CUT) == Pda(InStr(false, Hex("", false)), [Arr])
    ensures Accepts(CUT + "0041" + "\"]")
  {
    hide RunFrom, Step;
    var p, q := Pda(InStr(false, Plain), [Arr]), Pda(InStr(false, Hex("", false)), [Arr]);
    CutSegments(p, q);
    CutEscape(q);
    assert "\\\\ud8" == "\\\\ud" + "8";
    RunConcat(p, "\\\\ud", "8");
    RunConcat(INIT, "[\"x,", "\\\\ud8");
    RunConcat(INIT, "[\"x," + "\\\\ud8", "00\\u");
    RunConcat(INIT, CUT, "0041");
    RunConcat(INIT, CUT + "0041", "\"]");
  }

  lemma CutIsPseudo()
    ensures PseudoSurrogate(CUT)
    ensures FindLastOf(CUT, "[,") == Some(3) && CUT[..4] == "[\"x," && LastNonWs(CUT) == Some(12) && |CUT| == 13
  {
    hide RunFrom, UnicodeTail, PseudoSurrogate;
    CutLooksPaired();
    FindLastOfIs(CUT, "[,", 3);
    LastNonWsIs(CUT, 12);
  }

  /** Before the unfinished escape stands text that looks like another one. */
  lemma CutLooksPaired()
    ensures PseudoSurrogate(CUT)
  {
    hide RunFrom, UnicodeTail;
    CutIsRead();
    assert CUT == "[\"x,\\\\ud800\\u";
    var before := CUT[..|CUT| - 2];
    assert before == "[\"x,\\\\ud800";
    assert CUT[11..] == "\\u" + "" && before[5..] == "\\u" + "d800";
    TailIs(CUT, "");
    TailIs(before, "d800");
  }

  /** In the family the source may even throw: cutting the document `["x,\\ud800\u0041"]` behind the last `\u`
      makes it fall back to the comma inside the string. Markers are numbers. */
  lemma HealingCanThrow(marker: string)
    requires PlainMarker(marker) && IsDigit(marker[0])
    ensures Accepts(CUT + "0041" + "\"]") && PseudoSurrogate(CUT)
    ensures Parse(CUT, marker) == ParseError
  {
    hide RunFrom, Padding, PseudoSurrogate, StringTail, LastNonWs, FindLastOf, ClosingOf, SaxStack, Reach;
    CutIsRead();
    CutIsPseudo();
    var doc := CUT + "0041" + "\"]";
    var p := Run(CUT);
    assert CUT <= doc && CUT != "";
    CutIsInside(CUT);
    TopOfSax(p);
    ReachAll(INIT, CUT);
    assert CUT[..|CUT|] == CUT;
    NotADocument(CUT, p);
    UnquotedInString(CUT, p);
    ValueString(CUT, p, marker, CutBack(CUT, "[,", marker));
    var ch := CutBack(CUT, "[,", marker);
    assert Heal(CUT, SaxStack(Finish(p)), marker) == ch;
    FallbackBreaks(marker, Closing(p.stack));
  }

  lemma FallbackBreaks(marker: string, closing: string)
    requires PlainMarker(marker) && IsDigit(marker[0])
    ensures !Accepts("[\"x," + ("\"" + marker) + "\"" + closing)
  {
    hide RunFrom;
    CutIsRead();
    var p := Pda(InStr(false, Plain), [Arr]);
    var rest := marker[1..] + "\"" + closing;
    assert "[\"x," + ("\"" + marker) + "\"" + closing == "[\"x," + (['"'] + ([marker[0]] + rest));
    RunConcat(INIT, "[\"x,", ['"'] + ([marker[0]] + rest));
    RunCons(p, '"', [marker[0]] + rest);
    RunCons(Pda(After, [Arr]), marker[0], rest);
    assert Step(Pda(After, [Arr]), marker[0]) == Dead;
    DeadStays(rest);
  }
}
