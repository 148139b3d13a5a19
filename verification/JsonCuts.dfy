/** What the reader makes of the beginnings of a text: when it takes a text that is cut, and when what it finds cannot
    change any more. */
module JsonCuts {
  import opened Chars
  import opened Wrappers
  import opened Strings
  import opened JsonAcceptor
  import opened JsonSax
  import opened JsonHealer
  import opened JsonHealing
  import opened JsonMarkers

  // --------------------------------------------------------------- texts that can be read so far

  /** The text may go on as JSON, but the reader does not take it: it stops in an escape of a string that no container
      holds, or in the failing family. */
  ghost predicate Blind(t: string) {
    Run(t).Pda? && if Run(t).stack == [] then EscapeOpen(Run(t)) else PseudoSurrogate(t)
  }

  /** A text that can be read to its end is taken as a whole, unless the reader is blind to it, or it is the beginning of
      a number or literal, or blank. */
  lemma AliveParses(t: string, marker: string)
    requires Run(t).Pda? && DigitMarker(marker)
    ensures var r, p := Parse(t, marker), Run(t);
            && (Accepts(t) ==> r == Parsed(t, |t|, "", ""))
            && (!Accepts(t) && !Blind(t) && (p.stack != [] || p.mode.InStr?) ==> r.Parsed? && r.end == |t| && r.marker == marker)
            && (!Accepts(t) && p.stack == [] && (p.mode.InStr? ==> Blind(t)) ==> r == Refused)
  {
    hide RunFrom, Accepts, Accepting, HealTop, Heal, PseudoSurrogate, Heals, Text, SaxStack, ClosingOf, Closing, TextInv, WellFormed;
    var p := Run(t);
    ReachAll(INIT, t);
    assert t[..|t|] == t;
    if !Accepts(t) {
      if p.stack == [] {
        TopAlive(t, marker);
        NoStack(p);
      } else {
        PlainDigits(marker);
        CutIsInside(t);
        TopOfSax(p);
        HealHeals(t, p, marker);
        HealedText(t, Heal(t, SaxStack(Finish(p)), marker), Closing(p.stack), marker);
      }
    }
  }

  lemma NoStack(p: Pda)
    requires p.Pda? && p.stack == []
    ensures SaxStack(Finish(p)) == []
  {
  }

  lemma HealedText(s: string, ch: Choice, closing: string, seed: string)
    ensures Heals(s, ch, closing, seed) ==> ch.Complete? && ch.keep <= |s| && Accepts(Text(s, ch, closing))
  {
    hide Accepts, MarkerInString, LosesAtMostScalar;
  }

  /** A top-level value that is not complete. */
  lemma TopAlive(t: string, marker: string)
    requires Run(t).Pda? && Run(t).stack == [] && !Accepts(t) && DigitMarker(marker)
    ensures t != "" ==>
              var ch := HealTop(t, marker);
              if Run(t).mode.InStr? && !EscapeOpen(Run(t)) then ch.Complete? && ch.keep == |t| && Accepts(Text(t, ch, ""))
              else ch.CannotHeal?
    ensures Run(t).mode.InStr? ==> t != ""
  {
    hide RunFrom, Text, StringTail, TextInv;
    var p := Run(t);
    PlainDigits(marker);
    StartWellFormed();
    RunWellFormed(INIT, t);
    TextInvHolds(t);
    TopQuotes(t, p);
    Tokens(INIT);
    assert "" + marker == marker;
    if t != "" && p.mode.InStr? && !EscapeOpen(p) {
      var pre := if p.mode.st == Plain then "" else "\\";
      assert p.mode.st == Plain || p.mode.st == Esc;
      if p.mode.st == Esc { EscTail(t) by { assert StringTail(t, Esc) by { TailInString(t); } } }
      TopKeeps(t, p, pre, marker);
    }
  }

  lemma TailInString(t: string)
    requires Run(t).Pda? && Run(t).mode.InStr? && TextInv(t, Run(t), TrackOf(t))
    ensures StringTail(t, Run(t).mode.st)
  {
    hide RunFrom, StringTail;
  }

  lemma TopKeeps(t: string, p: Pda, pre: string, marker: string)
    requires p == Run(t) && p.Pda? && p.stack == [] && p.mode.InStr? && !p.mode.key && PlainMarker(marker)
    requires if p.mode.st == Plain then pre == "" else p.mode.st == Esc && pre == "\\"
    ensures Accepts(Text(t, Complete(|t|, pre + marker, "\""), ""))
  {
    hide RunFrom, Text, Padding;
    Tokens(p);
    Run1(p, '\\');
    var q := RunFrom(p, pre);
    Tokens(q);
    KeepsAll(t, p, pre, marker, "\"");
    assert Closing([]) == "";
  }

  /** What a quote, plain or escaped, makes of a top-level text. */
  lemma TopQuotes(t: string, p: Pda)
    requires p == Run(t) && p.Pda? && p.stack == [] && WellFormed(p) && !Accepting(p)
    ensures Accepts(t + "\"") <==> p.mode.InStr? && p.mode.st == Plain
    ensures Accepts(t + "\\\"") <==> p.mode.InStr? && p.mode.st == Esc
    ensures p.mode.InStr? ==> !p.mode.key
  {
    hide RunFrom;
    RunConcat(INIT, t, "\"");
    RunConcat(INIT, t, "\\\"");
    Tokens(p);
    TopSteps(p);
  }

  lemma TopSteps(p: Pda)
    requires p.Pda? && p.stack == [] && WellFormed(p) && !Accepting(p)
    ensures Accepting(Step(p, '"')) <==> p.mode.InStr? && p.mode.st == Plain
    ensures Accepting(Step(Step(p, '\\'), '"')) <==> p.mode.InStr? && p.mode.st == Esc
  {
  }

  // ---------------------------------------------------------------- errors that cannot move any more

  /** The digits of an escape reach to the end of the text. */
  predicate HexOpen(s: string, i: nat, n: nat)
    requires i <= |s|
    decreases |s| - i
  {
    i == |s| || (IsHex(s[i]) && n < 3 && HexOpen(s, i + 1, n + 1))
  }

  lemma {:induction false} HexSettled(s: string, u: string, i: nat, n: nat)
    requires i <= |s| && s <= u
    ensures if HexOpen(s, i, n) then HexEnd(s, i, n) == |s| && |s| <= HexEnd(u, i, n)
            else HexEnd(s, i, n) < |s| && HexEnd(u, i, n) == HexEnd(s, i, n) && !HexOpen(u, i, n)
    decreases |s| - i
  {
    if i < |s| && IsHex(s[i]) && n < 3 { HexSettled(s, u, i + 1, n + 1); }
  }

  /** The token that `q` is in reaches to the end of the text. */
  predicate TokenOpen(q: Pda, s: string, i: nat)
    requires InToken(q) && 0 < i <= |s|
    decreases |s| - i
  {
    if i == |s| then true
    else if InToken(Step(q, s[i])) then TokenOpen(Step(q, s[i]), s, i + 1)
    else !NumberDone(q) && Step(q, s[i]).Dead? && q.mode.InStr? && q.mode.st.Hex? && HexOpen(s, i, |q.mode.st.digits|)
  }

  /** ... and is a number that could end there. */
  predicate NumberOpen(q: Pda, s: string, i: nat)
    requires InToken(q) && 0 < i <= |s|
    decreases |s| - i
  {
    if i == |s| then NumberDone(q) else InToken(Step(q, s[i])) && NumberOpen(Step(q, s[i]), s, i + 1)
  }

  lemma {:induction false} TokenSettled(q: Pda, s: string, u: string, i: nat)
    requires InToken(q) && 0 < i <= |s| && s <= u
    ensures if TokenOpen(q, s, i) then
              if NumberOpen(q, s, i) then TokenEnd(q, s, i) == |s| - 1 else TokenEnd(q, s, i) == |s| && |s| <= TokenEnd(q, u, i)
            else TokenEnd(q, s, i) < |s| && TokenEnd(q, u, i) == TokenEnd(q, s, i) && !TokenOpen(q, u, i)
    ensures NumberOpen(q, s, i) ==> TokenOpen(q, s, i)
    decreases |s| - i
  {
    hide Step;
    if i < |s| {
      if InToken(Step(q, s[i])) {
        TokenSettled(Step(q, s[i]), s, u, i + 1);
      } else if q.mode.InStr? && q.mode.st.Hex? {
        HexSettled(s, u, i, |q.mode.st.digits|);
      }
    }
  }

  predicate RefusalOpen(p: Pda, s: string, i: nat)
    requires p.Pda? && i < |s|
  {
    if InToken(p) && !NumberDone(p) then p.mode.InStr? && p.mode.st.Hex? && HexOpen(s, i, |p.mode.st.digits|)
    else InToken(Step(INIT, s[i])) && TokenOpen(Step(INIT, s[i]), s, i + 1)
  }

  predicate RefusedNumber(p: Pda, s: string, i: nat)
    requires p.Pda? && i < |s|
  {
    !(InToken(p) && !NumberDone(p)) && InToken(Step(INIT, s[i])) && NumberOpen(Step(INIT, s[i]), s, i + 1)
  }

  lemma RefusalSettled(p: Pda, s: string, u: string, i: nat)
    requires p.Pda? && i < |s| && s <= u && Step(p, s[i]).Dead?
    ensures if RefusalOpen(p, s, i) then RefusedNumber(p, s, i) || (RefusedAt(p, s, i) == |s| && |s| <= RefusedAt(p, u, i))
            else RefusedAt(p, s, i) < |s| && RefusedAt(p, u, i) == RefusedAt(p, s, i) && !RefusalOpen(p, u, i)
  {
    hide Step, TokenEnd, TokenOpen, NumberOpen, HexEnd, HexOpen;
    if InToken(p) && !NumberDone(p) {
      if p.mode.InStr? && p.mode.st.Hex? { HexSettled(s, u, i, |p.mode.st.digits|); }
    } else if InToken(Step(INIT, s[i])) {
      TokenSettled(Step(INIT, s[i]), s, u, i + 1);
    }
  }

  /** Where the error is depends on what follows. */
  predicate Undecided(s: string) {
    var r := Reach(INIT, s);
    r.0 == |s| || RefusalOpen(r.1, s, r.0)
  }

  /** The text ends with a number where none can stand. */
  predicate NumberAtEnd(s: string) {
    var r := Reach(INIT, s);
    r.0 < |s| && RefusedNumber(r.1, s, r.0)
  }

  lemma {:induction false} ReachExtends(p: Pda, s: string, u: string)
    requires p.Pda? && s <= u && Reach(p, s).0 < |s|
    ensures Reach(p, u) == Reach(p, s)
    decreases |s|
  {
    hide Step;
    assert u[0] == s[0];
    if !Step(p, s[0]).Dead? { ReachExtends(Step(p, s[0]), s[1..], u[1..]); }
  }

  lemma ReachIsAlive(s: string)
    ensures Reach(INIT, s).0 == |s| <==> Run(s).Pda?
  {
    hide Reach;
    assert s[..|s|] == s;
    if Run(s).Pda? { ReachAll(INIT, s); }
  }

  /** Where the error is decided, nothing that follows changes what the reader finds. */
  lemma DecidedStays(s: string, u: string, marker: string)
    requires s <= u && !Undecided(s)
    ensures ErrorAt(s) < |s| && ErrorAt(u) == ErrorAt(s) && !Undecided(u) && Parse(u, marker) == Parse(s, marker)
  {
    hide RunFrom, Step, Reach, RefusalOpen, RefusedAt, HealTop, Heal, SaxStack, Text;
    ReachIsAlive(s);
    ReachIsAlive(u);
    ReachExtends(INIT, s, u);
    var r := Reach(INIT, s);
    RefusalSettled(r.1, s, u, r.0);
    assert u[..ErrorAt(u)] == s[..ErrorAt(s)];
  }

  lemma DeadAnyway(s: string, u: string)
    requires s <= u && Run(s).Dead?
    ensures Run(u).Dead? && !Accepts(u)
  {
    hide RunFrom;
    assert u == s + u[|s|..];
    DeadAppend(s, u[|s|..]);
  }

  lemma TopDead(s: string, seed: string)
    requires s != "" && Run(s).Dead?
    ensures HealTop(s, seed) == CannotHeal
  {
    hide RunFrom, Accepts;
    DeadAppend(s, "\"");
    DeadAppend(s, "\\\"");
  }

  lemma {:induction false} NotInSet(s: string, set_: seq<char>)
    ensures FindLastOf(s, set_).None? ==> forall i :: 0 <= i < |s| ==> s[i] !in set_
    decreases |s|
  {
    if s != "" { NotInSet(s[..|s| - 1], set_); }
  }

  /** What a longer text is cut back to can only be behind the end of the shorter one, so that the result cannot be read. */
  lemma CutsBehind(s: string, u: string, set_: seq<char>, seed: string)
    requires s <= u && Run(s).Dead? && FindLastOf(s, set_).None? && CutBack(u, set_, seed).Complete?
    ensures forall closing :: !Accepts(Text(u, CutBack(u, set_, seed), closing))
  {
    hide RunFrom, Accepts, FindLastOf;
    NotInSet(s, set_);
    FindLastOfIn(u, set_);
    var ch := CutBack(u, set_, seed);
    assert |s| < ch.keep by { assert forall i :: 0 <= i < |s| ==> u[i] == s[i]; }
    assert s <= u[..ch.keep];
    forall closing ensures !Accepts(Text(u, ch, closing)) {
      DeadAnyway(s, u[..ch.keep] + ch.dump + ch.tail + closing);
    }
  }

  /** A text that the reader gives up on while a token is under way is never taken later. */
  lemma NeverAgain(s: string, u: string, marker: string)
    requires s <= u && Run(s).Dead? && Undecided(s) && !NumberAtEnd(s) && marker != ""
    requires var r := Parse(s, marker); r.Refused? || r.GivesUp?
    ensures !Parse(u, marker).Parsed?
  {
    hide RunFrom, Reach, RefusalOpen, RefusedAt, RefusedNumber, HealTop, Heal, SaxStack, ClosingOf, Text, Accepts, FindLastOf;
    ReachIsAlive(s);
    ReachExtends(INIT, s, u);
    var r := Reach(INIT, s);
    RefusalSettled(r.1, s, u, r.0);
    assert s[..|s|] == s;
    var v := u[..ErrorAt(u)];
    assert s <= v;
    DeadAnyway(s, v);
    DeadAnyway(s, u);
    DeadAnyway(s, s);
    var els := SaxStack(Finish(r.1));
    if els == [] {
      TopDead(v, marker);
    } else {
      GivesUpStays(s, v, els, marker);
    }
  }

  lemma GivesUpStays(s: string, v: string, els: seq<Element>, marker: string)
    requires s <= v && Run(s).Dead? && els != []
    requires var r := ParsedOr(s, Heal(s, els, marker), ClosingOf(els), marker); r.GivesUp?
    ensures !ParsedOr(v, Heal(v, els, marker), ClosingOf(els), marker).Parsed?
  {
    hide RunFrom, Heal, ClosingOf, Text, Accepts, LastNonWs, FindLastOf;
    DeadAnyway(s, v);
    DeadIsCut(s, els, marker);
    DeadIsCut(v, els, marker);
    NotBlank(s);
    var set_ := CutSet(els);
    if CutBack(v, set_, marker).Complete? && LastNonWs(v).Some? { CutsBehind(s, v, set_, marker); }
  }

  lemma NotBlank(s: string)
    requires Run(s).Dead?
    ensures LastNonWs(s).Some?
  {
    hide RunFrom;
    BlankIsNothing(s);
  }

  // ------------------------------------------------------------------- documents and what follows

  /** Characters at which a document ends, whatever it is. */
  predicate EndsDocument(c: char) {
    c in {'<', ',', '}'} || (IsSpace(c) && !IsWs(c))
  }

  /** The reader takes a document and stops behind it. */
  lemma DocumentStops(t: string, n: nat, marker: string)
    requires n < |t| && Accepts(t[..n]) && EndsDocument(t[n])
    ensures Parse(t, marker) == Parsed(t[..n], n, "", "") && ErrorAt(t) == n && !Undecided(t)
  {
    hide RunFrom, Step, Reach;
    var p := Run(t[..n]);
    StopsHere(p, t[n]);
    ReachStops(t, n);
    ReachIsAlive(t);
    assert t[..n][..n] == t[..n];
  }

  lemma StopsHere(p: Pda, c: char)
    requires Accepting(p) && EndsDocument(c)
    ensures Step(p, c).Dead? && !InToken(Step(INIT, c)) && (InToken(p) ==> NumberDone(p))
  {
  }

  lemma ReachStops(t: string, n: nat)
    requires n < |t| && Run(t[..n]).Pda? && Step(Run(t[..n]), t[n]).Dead?
    ensures Reach(INIT, t) == (n, Run(t[..n]))
  {
    ReachParts(INIT, t, n);
  }

  lemma {:induction false} ReachParts(p: Pda, t: string, n: nat)
    requires p.Pda? && n < |t| && RunFrom(p, t[..n]).Pda? && Step(RunFrom(p, t[..n]), t[n]).Dead?
    ensures Reach(p, t) == (n, RunFrom(p, t[..n]))
    decreases n
  {
    hide Step;
    if n > 0 {
      assert t[..n][0] == t[0] && t[..n][1..] == t[1..][..n - 1];
      if Step(p, t[0]).Dead? { DeadStays(t[..n][1..]); }
      ReachParts(Step(p, t[0]), t[1..], n - 1);
    }
  }
}
