/** What the reader answers to any text, by conditions on the text alone. The marker is drawn at random for every parser, and the
    answer does not depend on it. */
module JsonVerdict {
  import opened Chars
  import opened Wrappers
  import opened Strings
  import opened JsonAcceptor
  import opened JsonSax
  import opened JsonHealer
  import opened JsonHealing
  import opened JsonMarkers
  import opened JsonCuts

  datatype Verdict = Whole | Healed | NoValue | NoHealing | NoDocument

  /** A value is due behind the kept text, in the containers that will be closed. */
  ghost predicate ValueDue(kept: string, stack: seq<Container>) {
    Run(kept).Pda? && Run(kept).mode.Value? && Run(kept).stack == stack
  }

  /** A text that is cut back is healed if and only if a value is due where it is cut. */
  ghost function CutVerdict(s: string, stack: seq<Container>): Verdict
    requires stack != []
  {
    match FindLastOf(s, if Top(stack) == Arr then "[," else ":")
    case None => NoHealing
    case Some(i) =>
      if LastNonWs(s).None? then NoHealing else if ValueDue(s[..i + 1], stack) then Healed else NoDocument
  }

  ghost function VerdictOf(t: string): Verdict {
    var s, stack := Kept(t), Reach(INIT, t).1.stack;
    if Accepts(s) then Whole
    else if stack == [] then
      if Run(s).Pda? && Run(s).mode.InStr? && !EscapeOpen(Run(s)) then Healed else NoValue
    else if Run(s).Pda? && !PseudoSurrogate(s) then Healed
    else CutVerdict(s, stack)
  }

  /** The answer that a verdict stands for. */
  predicate Answers(t: string, r: Outcome, v: Verdict, marker: string) {
    match v
    case Whole => r == Parsed(Kept(t), |Kept(t)|, "", "")
    case Healed => r.Parsed? && r.end == |Kept(t)| && r.marker == marker
    case NoValue => r == Refused
    case NoHealing => r == GivesUp
    case NoDocument => r == ParseError
  }

  // ----------------------------------------------------------------------------- texts that are cut back

  /** Brackets close the containers they were made for, and no others. */
  lemma {:induction false} ClosingDetermines(open: seq<Container>, stack: seq<Container>)
    requires Accepting(RunFrom(Pda(After, open), Closing(stack)))
    ensures open == stack
    decreases |stack|
  {
    hide RunFrom, Accepting, Closing, Step;
    var p := Pda(After, open);
    ClosingParts(stack);
    if stack == [] {
      Tokens(p);
      NothingOpen(p);
    } else {
      var rest := stack[..|stack| - 1];
      var c := if Top(stack) == Obj then '}' else ']';
      RunCons(p, c, Closing(rest));
      StaysRefused(Step(p, c), Closing(rest));
      ClosesTop(open, c, stack);
      ClosingDetermines(open[..|open| - 1], rest);
      SameStack(open, stack);
    }
  }

  lemma ClosingParts(stack: seq<Container>)
    ensures stack == [] ==> Closing(stack) == ""
    ensures stack != [] ==> Closing(stack) == [if Top(stack) == Obj then '}' else ']'] + Closing(stack[..|stack| - 1])
  {
  }

  lemma StaysRefused(p: Pda, x: string)
    requires Accepting(RunFrom(p, x))
    ensures p.Pda?
  {
    hide RunFrom;
    if p.Dead? { DeadStays(x); }
  }

  lemma SameStack(a: seq<Container>, b: seq<Container>)
    requires a != [] && b != [] && Top(a) == Top(b) && a[..|a| - 1] == b[..|b| - 1]
    ensures a == b
  {
    assert a == a[..|a| - 1] + [Top(a)] && b == b[..|b| - 1] + [Top(b)];
  }

  lemma NothingOpen(p: Pda)
    requires Accepting(p)
    ensures p.stack == []
  {
  }

  lemma NotAccepting()
    ensures !Accepting(Dead)
  {
  }

  lemma ClosesTop(open: seq<Container>, c: char, stack: seq<Container>)
    requires stack != [] && c == (if Top(stack) == Obj then '}' else ']') && Step(Pda(After, open), c).Pda?
    ensures open != [] && Top(open) == Top(stack) && Step(Pda(After, open), c) == Pda(After, open[..|open| - 1])
  {
  }

  lemma NoEscapeBehind(p: Pda, c: char)
    requires c != '\\'
    ensures var q := Step(p, c); q.Pda? && q.mode.InStr? ==> q.mode.st != Esc
  {
  }

  /** Where a quote opens a string, a value is due, or a key; a backslash before it aside. */
  lemma QuoteWhere(q: Pda)
    requires q.Pda? && (q.mode.InStr? ==> q.mode.st != Esc)
    requires var r := Step(q, '"'); r.Pda? && r.mode.InStr? && r.mode.st == Plain
    ensures if q.mode.Value? then Step(q, '"') == Pda(InStr(false, Plain), q.stack)
            else q.mode.Key? && Step(q, '"') == Pda(InStr(true, Plain), q.stack)
  {
  }

  lemma BehindColon(stack: seq<Container>, p: Pda)
    requires stack != [] && p.Pda? && p.mode == Colon
    ensures !Accepting(RunFrom(p, Closing(stack)))
  {
    hide RunFrom, Accepting;
    ClosingNoQuote(stack);
    var c := Closing(stack)[0];
    assert Closing(stack) == [c] + Closing(stack)[1..];
    RunCons(p, c, Closing(stack)[1..]);
    assert Step(p, c) == Dead;
    DeadStays(Closing(stack)[1..]);
    NotAccepting();
  }

  /** A string behind the kept text makes a document if and only if a value is due there. */
  lemma CutAccepts(kept: string, stack: seq<Container>, seed: string)
    requires DigitMarker(seed) && stack != [] && kept != "" && kept[|kept| - 1] != '\\'
    ensures Accepts(kept + ("\"" + seed) + "\"" + Closing(stack)) <==> ValueDue(kept, stack)
  {
    hide RunFrom, Accepts, Closing, Heals;
    PlainDigits(seed);
    if ValueDue(kept, stack) {
      QuoteHeals(kept, stack, seed);
      HealedText(kept, Complete(|kept|, "\"" + seed, "\""), Closing(stack), seed);
      assert kept[..|kept|] == kept;
    }
    if Accepts(kept + ("\"" + seed) + "\"" + Closing(stack)) { AcceptsDue(kept, stack, seed); }
  }

  lemma AcceptsDue(kept: string, stack: seq<Container>, seed: string)
    requires DigitMarker(seed) && stack != [] && kept != "" && kept[|kept| - 1] != '\\'
    requires Accepts(kept + ("\"" + seed) + "\"" + Closing(stack))
    ensures ValueDue(kept, stack)
  {
    hide RunFrom, Closing, Step, Accepting;
    assert kept + ("\"" + seed) + "\"" + Closing(stack) == kept + ("\"" + seed) + ("\"" + Closing(stack));
    StringOpens(kept, seed, "\"" + Closing(stack));
    assert kept + ("\"" + seed) + "\"" + Closing(stack) == kept + "\"" + seed + ("\"" + Closing(stack));
    var q, v := Run(kept), Run(kept + "\"");
    NoEscapeThere(kept);
    QuoteWhere(q);
    PlainDigits(seed);
    PlainRuns(v, seed);
    AcceptsParts(kept + "\"" + seed, "\"" + Closing(stack));
    RunTwice(kept + "\"", seed);
    RunCons(v, '"', Closing(stack));
    StringQuote(v);
    if q.mode.Key? { BehindColon(stack, Step(v, '"')); } else { ClosingDetermines(q.stack, stack); }
  }

  lemma NoEscapeThere(kept: string)
    requires kept != "" && kept[|kept| - 1] != '\\'
    ensures var q := Run(kept); q.Pda? && q.mode.InStr? ==> q.mode.st != Esc
  {
    hide RunFrom, Step;
    var s, c := kept[..|kept| - 1], kept[|kept| - 1];
    assert kept == s + [c];
    RunSnoc(INIT, s, c);
    NoEscapeBehind(Run(s), c);
  }

  /** In a document the quote before a marker opens a string. */
  lemma StringOpens(kept: string, seed: string, rest: string)
    requires DigitMarker(seed) && Accepts(kept + ("\"" + seed) + rest)
    ensures Run(kept).Pda? && Run(kept + "\"") == Step(Run(kept), '"')
    ensures var q := Run(kept + "\""); q.Pda? && q.mode.InStr? && q.mode.st == Plain && RunFrom(q, seed).Pda?
  {
    hide RunFrom, Accepts, Accepting;
    assert kept + ("\"" + seed) + rest == kept + "\"" + seed + rest;
    AcceptsParts(kept + "\"" + seed, rest);
    RunTwice(kept + "\"", seed);
    RunTwice(kept, "\"");
    Run1(Run(kept), '"');
    assert seed == [seed[0]] + seed[1..];
    RunCons(Run(kept + "\""), seed[0], seed[1..]);
    if Step(Run(kept + "\""), seed[0]).Dead? { DeadStays(seed[1..]); }
    StartWellFormed();
    RunWellFormed(INIT, kept);
    QuoteOpens(Run(kept), seed[0]);
  }

  // ---------------------------------------------------------------------------------- every text

  lemma CutVerdictIs(s: string, els: seq<Element>, stack: seq<Container>, marker: string)
    requires DigitMarker(marker) && stack != [] && els != [] && ClosingOf(els) == Closing(stack)
    requires CutSet(els) == (if Top(stack) == Arr then "[," else ":")
    ensures var ch := if LastNonWs(s).None? then CannotHeal else CutBack(s, CutSet(els), marker);
            var r := ParsedOr(s, ch, ClosingOf(els), marker);
            match CutVerdict(s, stack)
            case Healed => r.Parsed? && r.end == |s| && r.marker == marker
            case NoHealing => r == GivesUp
            case _ => r == ParseError && CutVerdict(s, stack) == NoDocument
  {
    hide RunFrom, Accepts, ClosingOf, Closing, FindLastOf, LastNonWs, ValueDue;
    FindLastOfIn(s, CutSet(els));
    match FindLastOf(s, CutSet(els))
    case None =>
    case Some(i) =>
      var kept := s[..i + 1];
      assert kept[|kept| - 1] == s[i] != '\\';
      CutAccepts(kept, stack, marker);
  }

  lemma WholeIs(t: string, marker: string)
    requires Accepts(Kept(t))
    ensures Parse(t, marker) == Parsed(Kept(t), |Kept(t)|, "", "")
  {
    hide RunFrom, Reach, RefusedAt;
    if Accepts(t) {
      ReachAll(INIT, t);
      assert t[..|t|] == t;
    }
  }

  /** The kept text of a document is the document. */
  lemma KeptDocument(t: string)
    requires Accepts(t)
    ensures Kept(t) == t
  {
    hide RunFrom, Reach, RefusedAt;
    ReachAll(INIT, t);
    assert t[..|t|] == t;
  }

  lemma StackOfElements(p: Pda)
    requires p.Pda?
    ensures var els := SaxStack(Finish(p));
            && (els == [] <==> p.stack == [])
            && (p.stack != [] ==> ClosingOf(els) == Closing(p.stack) && CutSet(els) == if Top(p.stack) == Arr then "[," else ":")
  {
    hide ClosingOf, Closing;
    if p.stack == [] { NoStack(p); } else { TopOfSax(p); }
  }

  lemma TopVerdict(s: string, marker: string)
    requires !Accepts(s) && DigitMarker(marker) && (Run(s).Pda? ==> Run(s).stack == [])
    ensures var in_ := Run(s).Pda? && Run(s).mode.InStr? && !EscapeOpen(Run(s));
            && (in_ ==> s != "" && var ch := HealTop(s, marker); ch.Complete? && ch.keep == |s| && Accepts(Text(s, ch, "")))
            && (!in_ && s != "" ==> HealTop(s, marker) == CannotHeal)
  {
    hide RunFrom, Accepts, HealTop, Text;
    if Run(s).Pda? {
      TopAlive(s, marker);
    } else if s != "" {
      TopDead(s, marker);
    }
  }

  lemma InnerVerdict(s: string, p: Pda, els: seq<Element>, marker: string)
    requires p.Pda? && p.stack != [] && els == SaxStack(Finish(p)) && els != [] && DigitMarker(marker)
    requires Run(s).Dead? || Run(s) == p
    requires ClosingOf(els) == Closing(p.stack) && CutSet(els) == (if Top(p.stack) == Arr then "[," else ":")
    ensures var r := ParsedOr(s, Heal(s, els, marker), ClosingOf(els), marker);
            if Run(s).Pda? && !PseudoSurrogate(s) then r.Parsed? && r.end == |s| && r.marker == marker
            else
              match CutVerdict(s, p.stack)
              case Healed => r.Parsed? && r.end == |s| && r.marker == marker
              case NoHealing => r == GivesUp
              case _ => r == ParseError && CutVerdict(s, p.stack) == NoDocument
  {
    hide RunFrom, Accepts, ClosingOf, Closing, CutVerdict, Heal, Heals, PseudoSurrogate, SaxStack, Text, CutSet, LastNonWs, TextInv;
    PlainDigits(marker);
    CutVerdictIs(s, els, p.stack, marker);
    if Run(s).Dead? {
      DeadIsCut(s, els, marker);
    } else {
      CutIsInside(s);
      HasNonWs(s, p, TrackOf(s));
      HealHeals(s, p, marker);
      HealedText(s, Heal(s, els, marker), Closing(p.stack), marker);
    }
  }

  /** THE ANSWER IS DECIDED BY THE TEXT. For every text and every marker of digits the reader answers as the verdict on the text says. */
  lemma VerdictIsRight(t: string, marker: string)
    requires DigitMarker(marker)
    ensures Answers(t, Parse(t, marker), VerdictOf(t), marker)
  {
    hide RunFrom, Accepts, Reach, SaxStack, ClosingOf, Closing, Heal, HealTop, Text, PseudoSurrogate, CutVerdict, ErrorAt, EscapeOpen, CutSet;
    var s, p := Kept(t), Reach(INIT, t).1;
    if Accepts(s) {
      WholeIs(t, marker);
    } else {
      if Accepts(t) { KeptDocument(t); }
      KeptIs(t);
      StackOfElements(p);
      if p.stack == [] {
        TopVerdict(s, marker);
      } else {
        InnerVerdict(s, p, SaxStack(Finish(p)), marker);
      }
    }
  }

  /** ANY MARKER DOES. For two markers the reader takes a text, or heals it, or refuses it, alike and up to the same place. */
  lemma AnyMarker(t: string, m: string, n: string)
    requires DigitMarker(m) && DigitMarker(n)
    ensures var r, q := Parse(t, m), Parse(t, n);
            && (r.Refused? <==> q.Refused?) && (r.GivesUp? <==> q.GivesUp?) && (r.ParseError? <==> q.ParseError?)
            && (r.Parsed? <==> q.Parsed?) && (r.Parsed? ==> r.end == q.end && (r.marker == "" <==> q.marker == ""))
  {
    hide Parse, VerdictOf, Kept;
    VerdictIsRight(t, m);
    VerdictIsRight(t, n);
  }

  /** WHEN THE LIBRARY THROWS, EXACTLY: inside containers, of a text that cannot be read to the error or is of the failing family,
      and where the last character to cut back to is not one behind which a value is due in these containers. */
  lemma ThrowsExactly(t: string, marker: string)
    requires DigitMarker(marker)
    ensures var s, stack := Kept(t), Reach(INIT, t).1.stack;
            Parse(t, marker).ParseError? <==>
              && stack != [] && (Run(s).Dead? || PseudoSurrogate(s)) && LastNonWs(s).Some?
              && var i := FindLastOf(s, if Top(stack) == Arr then "[," else ":");
                 i.Some? && !ValueDue(s[..i.value + 1], stack)
  {
    hide RunFrom, Parse, Reach, PseudoSurrogate, Kept, FindLastOf, LastNonWs, ValueDue;
    VerdictIsRight(t, marker);
    var s := Kept(t);
    KeptIs(t);
    if Accepts(s) { AcceptedIsWhole(s); }
  }

  lemma AcceptedIsWhole(s: string)
    requires Accepts(s)
    ensures Run(s).Pda? && Run(s).stack == []
  {
    hide RunFrom;
  }
}
