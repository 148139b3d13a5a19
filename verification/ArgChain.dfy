/** The linear-size grammar for ordered, optional arguments
    (the argument loop of `build_grammar_xml_tool_call` in `common/chat-parser-xml-toolcall.cpp`). */
module ArgChain {

  /** What the rules are made of: the rule of one argument (key, separator, value), the end of a value
      that another argument follows, and the end of the last value. */
  datatype Sym = Arg(i: nat) | ValEnd | LastEnd

  datatype Item = Term(sym: Sym) | Ref(id: nat)

  type Alternative = seq<Item>

  /** Rules in the order in which `add_rule` was called; a rule refers to earlier ones only. */
  type Rules = seq<seq<Alternative>>

  ghost predicate Derives(g: Rules, bound: nat, alt: Alternative, w: seq<Sym>)
    decreases bound, |alt|
  {
    if alt == [] then w == []
    else
      match alt[0]
      case Term(s) => w != [] && w[0] == s && Derives(g, bound, alt[1..], w[1..])
      case Ref(id) =>
        && id < bound
        && exists k :: 0 <= k <= |w| && RuleDerives(g, id, w[..k]) && Derives(g, bound, alt[1..], w[k..])
  }

  ghost predicate RuleDerives(g: Rules, id: nat, w: seq<Sym>)
    decreases id + 1, 0
  {
    id < |g| && exists a :: 0 <= a < |g[id]| && Derives(g, id, g[id][a], w)
  }

  // ------------------------------------------------------------------------- the builder

  datatype Chain = Chain(rules: Rules, next: Alternative, nextSep: Alternative)

  /** The state before the loop: no argument is left, the last value ends. */
  const START := Chain([[[Term(LastEnd)]]], [], [Ref(0)])

  /** One turn of the loop, for argument `i`. */
  function Extend(ch: Chain, i: nat, required: bool): Chain {
    var n := |ch.rules|;
    var withArg := [Term(Arg(i))] + ch.nextSep;
    var withSep := [Term(ValEnd)] + withArg;
    Chain(ch.rules + [if required then [withArg] else [withArg, ch.next],
                      if required then [withSep] else [withSep, ch.nextSep]],
          [Ref(n)], [Ref(n + 1)])
  }

  /** The rules for the arguments from `i` on. */
  function ChainFrom(required: seq<bool>, i: nat): (ch: Chain)
    requires i <= |required|
    ensures |ch.rules| == 1 + 2 * (|required| - i)
    decreases |required| - i
  {
    if i == |required| then START else Extend(ChainFrom(required, i + 1), i, required[i])
  }

  const SIZE_T := 0x1_0000_0000_0000_0000

  /** The index below a number that is not zero; below zero it wraps around. */
  lemma CountsDown(done: nat, i: nat)
    requires done < SIZE_T && i == (done - 1) % SIZE_T
    ensures if done == 0 then i == SIZE_T - 1 else i == done - 1
  {
  }

  /** The loop counts an unsigned index down and stops when it wraps around. */
  method BuildArgChain(required: seq<bool>) returns (rules: Rules, nextArg: Alternative)
    requires |required| < SIZE_T
    ensures Chain(rules, nextArg, ChainFrom(required, 0).nextSep) == ChainFrom(required, 0)
    ensures |rules| == 1 + 2 * |required|
  {
    rules := [[[Term(LastEnd)]]];
    var nextArgWithSep: Alternative := [Ref(0)];
    nextArg := [];
    var i := (|required| - 1) % SIZE_T;
    ghost var done: nat := |required|;
    while i < |required|
      invariant 0 <= done <= |required| && i == (done - 1) % SIZE_T
      invariant Chain(rules, nextArg, nextArgWithSep) == ChainFrom(required, done)
      decreases done
    {
      CountsDown(done, i);
      ghost var before := Chain(rules, nextArg, nextArgWithSep);
      var withArg := [Term(Arg(i))] + nextArgWithSep;
      var id := |rules|;
      rules := rules + [if required[i] then [withArg] else [withArg, nextArg]];
      withArg := [Term(ValEnd)] + withArg;
      rules := rules + [if required[i] then [withArg] else [withArg, nextArgWithSep]];
      nextArg, nextArgWithSep := [Ref(id)], [Ref(id + 1)];
      done := i;
      assert rules == Extend(before, done, required[done]).rules;
      i := (i - 1) % SIZE_T;
    }
  }

  // -------------------------------------------------------------------------- the meaning

  /** The text of a selection of arguments, when other arguments precede it. */
  function TextSep(sel: seq<nat>): seq<Sym>
    decreases |sel|
  {
    if sel == [] then [LastEnd] else [ValEnd, Arg(sel[0])] + TextSep(sel[1..])
  }

  function Text(sel: seq<nat>): seq<Sym> {
    if sel == [] then [] else [Arg(sel[0])] + TextSep(sel[1..])
  }

  /** Arguments from `i` on, in order, none twice, with every required one. */
  ghost predicate Selection(required: seq<bool>, i: nat, sel: seq<nat>) {
    && (forall k :: 0 <= k < |sel| ==> i <= sel[k] < |required|)
    && (forall k, m :: 0 <= k < m < |sel| ==> sel[k] < sel[m])
    && (forall j :: i <= j < |required| && required[j] ==> j in sel)
  }

  ghost predicate IsText(required: seq<bool>, i: nat, w: seq<Sym>) {
    exists sel :: Selection(required, i, sel) && w == Text(sel)
  }

  ghost predicate IsTextSep(required: seq<bool>, i: nat, w: seq<Sym>) {
    exists sel :: Selection(required, i, sel) && w == TextSep(sel)
  }

  lemma SelectionWithout(required: seq<bool>, i: nat, sel: seq<nat>)
    requires i < |required| && (sel == [] || sel[0] != i)
    ensures Selection(required, i, sel) <==> !required[i] && Selection(required, i + 1, sel)
  {
    if Selection(required, i, sel) {
      forall k | 0 <= k < |sel| ensures sel[k] != i {
        if k > 0 { assert sel[0] < sel[k]; }
      }
    }
  }

  lemma SelectionWith(required: seq<bool>, i: nat, sel: seq<nat>)
    requires i < |required| && sel != [] && sel[0] == i
    ensures Selection(required, i, sel) <==> Selection(required, i + 1, sel[1..])
  {
    var tail := sel[1..];
    assert forall k :: 0 <= k < |tail| ==> tail[k] == sel[k + 1];
    if Selection(required, i, sel) {
      forall k | 0 <= k < |tail| ensures i + 1 <= tail[k] { assert sel[0] < sel[k + 1]; }
      forall j | i + 1 <= j < |required| && required[j] ensures j in tail {
        var k :| 0 <= k < |sel| && sel[k] == j;
        assert tail[k - 1] == j;
      }
    }
    if Selection(required, i + 1, tail) {
      assert forall k :: 0 < k < |sel| ==> sel[k] == tail[k - 1];
      forall j | i <= j < |required| && required[j] ensures j in sel {
        if j > i { assert j in tail; }
      }
    }
  }

  // -------------------------------------------------------------------- deriving from a chain

  /** Adding rules at the end changes nothing for what was there. */
  lemma {:induction false} DerivesStable(g: Rules, g': Rules, bound: nat, alt: Alternative, w: seq<Sym>)
    requires g <= g' && bound <= |g|
    ensures Derives(g, bound, alt, w) <==> Derives(g', bound, alt, w)
    decreases bound, |alt|
  {
    if alt != [] {
      match alt[0]
      case Term(s) => if w != [] { DerivesStable(g, g', bound, alt[1..], w[1..]); }
      case Ref(id) =>
        if id < bound {
          forall k | 0 <= k <= |w|
            ensures RuleDerives(g, id, w[..k]) && Derives(g, bound, alt[1..], w[k..])
               <==> RuleDerives(g', id, w[..k]) && Derives(g', bound, alt[1..], w[k..])
          {
            RuleStable(g, g', id, w[..k]);
            DerivesStable(g, g', bound, alt[1..], w[k..]);
          }
        }
    }
  }

  lemma {:induction false} RuleStable(g: Rules, g': Rules, id: nat, w: seq<Sym>)
    requires g <= g' && id < |g|
    ensures RuleDerives(g, id, w) <==> RuleDerives(g', id, w)
    decreases id + 1, 0
  {
    assert g'[id] == g[id];
    forall a | 0 <= a < |g[id]| ensures Derives(g, id, g[id][a], w) <==> Derives(g', id, g[id][a], w) {
      DerivesStable(g, g', id, g[id][a], w);
    }
  }

  lemma {:induction false} BoundIrrelevant(g: Rules, b: nat, b': nat, alt: Alternative, w: seq<Sym>)
    requires forall k :: 0 <= k < |alt| ==> alt[k].Ref? ==> alt[k].id < b && alt[k].id < b'
    ensures Derives(g, b, alt, w) <==> Derives(g, b', alt, w)
    decreases |alt|
  {
    if alt != [] {
      assert forall k :: 0 <= k < |alt| - 1 ==> alt[1..][k] == alt[k + 1];
      match alt[0]
      case Term(s) => if w != [] { BoundIrrelevant(g, b, b', alt[1..], w[1..]); }
      case Ref(id) =>
        forall k | 0 <= k <= |w| ensures Derives(g, b, alt[1..], w[k..]) <==> Derives(g, b', alt[1..], w[k..]) {
          BoundIrrelevant(g, b, b', alt[1..], w[k..]);
        }
    }
  }

  lemma JustRef(g: Rules, bound: nat, id: nat, w: seq<Sym>)
    requires id < bound
    ensures Derives(g, bound, [Ref(id)], w) <==> RuleDerives(g, id, w)
  {
    hide RuleDerives;
    var alt: Alternative := [Ref(id)];
    assert alt[1..] == [];
    assert w[..|w|] == w;
    if Derives(g, bound, alt, w) {
      var k :| 0 <= k <= |w| && RuleDerives(g, id, w[..k]) && Derives(g, bound, alt[1..], w[k..]);
      assert k == |w|;
    }
    if RuleDerives(g, id, w) {
      assert RuleDerives(g, id, w[..|w|]) && Derives(g, bound, alt[1..], w[|w|..]);
    }
  }

  lemma TermThen(g: Rules, bound: nat, s: Sym, alt: Alternative, w: seq<Sym>)
    ensures Derives(g, bound, [Term(s)] + alt, w) <==> w != [] && w[0] == s && Derives(g, bound, alt, w[1..])
  {
    assert ([Term(s)] + alt)[1..] == alt;
  }

  /** The references of a chain are to its own rules. */
  lemma ChainRefs(required: seq<bool>, i: nat)
    requires i <= |required|
    ensures var ch := ChainFrom(required, i);
            && |ch.nextSep| == 1 && ch.nextSep[0].Ref? && ch.nextSep[0].id < |ch.rules|
            && (ch.next == [] || (|ch.next| == 1 && ch.next[0].Ref? && ch.next[0].id < |ch.rules|))
  {
  }

  /** What one more argument adds, in terms of the chain for the later ones. */
  lemma ExtendDerives(required: seq<bool>, i: nat, w: seq<Sym>)
    requires i < |required|
    ensures var prev, ch := ChainFrom(required, i + 1), ChainFrom(required, i);
            var n := |prev.rules|;
            && (Derives(ch.rules, n + 2, ch.next, w) <==>
                  || (w != [] && w[0] == Arg(i) && Derives(prev.rules, n, prev.nextSep, w[1..]))
                  || (!required[i] && Derives(prev.rules, n, prev.next, w)))
            && (Derives(ch.rules, n + 2, ch.nextSep, w) <==>
                  || (|w| >= 2 && w[0] == ValEnd && w[1] == Arg(i) && Derives(prev.rules, n, prev.nextSep, w[2..]))
                  || (!required[i] && Derives(prev.rules, n, prev.nextSep, w)))
  {
    hide Derives, ChainFrom;
    var prev := ChainFrom(required, i + 1);
    var n := |prev.rules|;
    assert ChainFrom(required, i) == Extend(prev, i, required[i]) by { ChainStep(required, i); }
    var ch := Extend(prev, i, required[i]);
    ChainRefs(required, i + 1);
    JustRef(ch.rules, n + 2, n, w);
    JustRef(ch.rules, n + 2, n + 1, w);
    var withArg := [Term(Arg(i))] + prev.nextSep;
    TermThen(ch.rules, n, Arg(i), prev.nextSep, w);
    TermThen(ch.rules, n + 1, ValEnd, withArg, w);
    if w != [] {
      TermThen(ch.rules, n + 1, Arg(i), prev.nextSep, w[1..]);
      DerivesStable(prev.rules, ch.rules, n, prev.nextSep, w[1..]);
      if |w| > 1 {
        assert w[1..][1..] == w[2..];
        BoundIrrelevant(ch.rules, n + 1, n, prev.nextSep, w[2..]);
        DerivesStable(prev.rules, ch.rules, n, prev.nextSep, w[2..]);
      }
    }
    DerivesStable(prev.rules, ch.rules, n, prev.next, w);
    DerivesStable(prev.rules, ch.rules, n, prev.nextSep, w);
    BoundIrrelevant(ch.rules, n + 1, n, prev.nextSep, w);
    RuleAlternatives(ch.rules, n, w);
    RuleAlternatives(ch.rules, n + 1, w);
  }

  lemma ChainStep(required: seq<bool>, i: nat)
    requires i < |required|
    ensures ChainFrom(required, i) == Extend(ChainFrom(required, i + 1), i, required[i])
  {
  }

  lemma RuleAlternatives(g: Rules, id: nat, w: seq<Sym>)
    requires id < |g| && 1 <= |g[id]| <= 2
    ensures RuleDerives(g, id, w) <==> Derives(g, id, g[id][0], w) || (|g[id]| == 2 && Derives(g, id, g[id][1], w))
  {
    hide Derives;
  }

  /** Both rules of a chain, and the selections they stand for. */
  lemma {:induction false} ChainDerives(required: seq<bool>, i: nat, w: seq<Sym>)
    requires i <= |required|
    ensures var ch := ChainFrom(required, i);
            && (Derives(ch.rules, |ch.rules|, ch.next, w) <==> IsText(required, i, w))
            && (Derives(ch.rules, |ch.rules|, ch.nextSep, w) <==> IsTextSep(required, i, w))
    decreases |required| - i
  {
    hide Derives, Selection, Text, TextSep;
    if i == |required| {
      ChainEnd(required, w);
    } else {
      ExtendDerives(required, i, w);
      ChainDerives(required, i + 1, w);
      if w != [] { ChainDerives(required, i + 1, w[1..]); }
      if |w| > 1 { ChainDerives(required, i + 1, w[2..]); }
      SelectionsSplit(required, i, w);
    }
  }

  lemma ChainEnd(required: seq<bool>, w: seq<Sym>)
    ensures var ch := ChainFrom(required, |required|);
            && (Derives(ch.rules, 1, ch.next, w) <==> IsText(required, |required|, w))
            && (Derives(ch.rules, 1, ch.nextSep, w) <==> IsTextSep(required, |required|, w))
  {
    var g := START.rules;
    JustRef(g, 1, 0, w);
    assert g[0][0] == [Term(LastEnd)] + [];
    TermThen(g, 0, LastEnd, [], w);
    RuleAlternatives(g, 0, w);
    assert w == [LastEnd] <==> w != [] && w[0] == LastEnd && w[1..] == [];
    assert Selection(required, |required|, []);
    forall sel | Selection(required, |required|, sel) ensures sel == [] {
      if sel != [] { OutOfRange(required, sel); }
    }
    assert Text([]) == [] && TextSep([]) == [LastEnd];
  }

  lemma OutOfRange(required: seq<bool>, sel: seq<nat>)
    requires sel != []
    ensures !Selection(required, |required|, sel)
  {
    assert sel[0] in sel;
  }

  /** A selection from `i` on either begins with `i` or leaves it out. */
  lemma SelectionsSplit(required: seq<bool>, i: nat, w: seq<Sym>)
    requires i < |required|
    ensures IsText(required, i, w) <==>
              || (w != [] && w[0] == Arg(i) && IsTextSep(required, i + 1, w[1..]))
              || (!required[i] && IsText(required, i + 1, w))
    ensures IsTextSep(required, i, w) <==>
              || (|w| >= 2 && w[0] == ValEnd && w[1] == Arg(i) && IsTextSep(required, i + 1, w[2..]))
              || (!required[i] && IsTextSep(required, i + 1, w))
  {
    hide Selection, IsText, IsTextSep;
    if IsText(required, i, w) { TextTaken(required, i, w); }
    if IsTextSep(required, i, w) { TextSepTaken(required, i, w); }
    if w != [] && w[0] == Arg(i) && IsTextSep(required, i + 1, w[1..]) { ArgPut(required, i, w); }
    if |w| >= 2 && w[0] == ValEnd && w[1] == Arg(i) && IsTextSep(required, i + 1, w[2..]) { SepArgPut(required, i, w); }
    if !required[i] { ArgLeftOut(required, i, w); }
  }

  lemma TextTaken(required: seq<bool>, i: nat, w: seq<Sym>)
    requires i < |required| && IsText(required, i, w)
    ensures || (w != [] && w[0] == Arg(i) && IsTextSep(required, i + 1, w[1..]))
            || (!required[i] && IsText(required, i + 1, w))
  {
    hide Selection;
    var sel :| Selection(required, i, sel) && w == Text(sel);
    if sel != [] && sel[0] == i {
      SelectionWith(required, i, sel);
      assert w[1..] == TextSep(sel[1..]);
    } else {
      SelectionWithout(required, i, sel);
    }
  }

  lemma TextSepTaken(required: seq<bool>, i: nat, w: seq<Sym>)
    requires i < |required| && IsTextSep(required, i, w)
    ensures || (|w| >= 2 && w[0] == ValEnd && w[1] == Arg(i) && IsTextSep(required, i + 1, w[2..]))
            || (!required[i] && IsTextSep(required, i + 1, w))
  {
    hide Selection;
    var sel :| Selection(required, i, sel) && w == TextSep(sel);
    if sel != [] && sel[0] == i {
      SelectionWith(required, i, sel);
      assert w[2..] == TextSep(sel[1..]);
    } else {
      SelectionWithout(required, i, sel);
    }
  }

  lemma ArgPut(required: seq<bool>, i: nat, w: seq<Sym>)
    requires i < |required| && w != [] && w[0] == Arg(i) && IsTextSep(required, i + 1, w[1..])
    ensures IsText(required, i, w)
  {
    hide Selection;
    var sel :| Selection(required, i + 1, sel) && w[1..] == TextSep(sel);
    Prepend(required, i, sel);
    assert w == [w[0]] + w[1..] == Text([i] + sel);
  }

  lemma SepArgPut(required: seq<bool>, i: nat, w: seq<Sym>)
    requires i < |required| && |w| >= 2 && w[0] == ValEnd && w[1] == Arg(i) && IsTextSep(required, i + 1, w[2..])
    ensures IsTextSep(required, i, w)
  {
    hide Selection;
    var sel :| Selection(required, i + 1, sel) && w[2..] == TextSep(sel);
    Prepend(required, i, sel);
    assert w == [w[0], w[1]] + w[2..] == TextSep([i] + sel);
  }

  lemma ArgLeftOut(required: seq<bool>, i: nat, w: seq<Sym>)
    requires i < |required| && !required[i]
    ensures IsText(required, i + 1, w) ==> IsText(required, i, w)
    ensures IsTextSep(required, i + 1, w) ==> IsTextSep(required, i, w)
  {
    hide Selection, Text, TextSep;
    forall sel | Selection(required, i + 1, sel) ensures Selection(required, i, sel) {
      NotFirst(required, i, sel);
      SelectionWithout(required, i, sel);
    }
  }

  lemma Prepend(required: seq<bool>, i: nat, sel: seq<nat>)
    requires i < |required| && Selection(required, i + 1, sel)
    ensures Selection(required, i, [i] + sel) && ([i] + sel)[1..] == sel
  {
    hide Selection;
    assert ([i] + sel)[1..] == sel;
    SelectionWith(required, i, [i] + sel);
  }

  lemma NotFirst(required: seq<bool>, i: nat, sel: seq<nat>)
    requires Selection(required, i + 1, sel)
    ensures sel == [] || sel[0] != i
  {
  }

  /** THE ARGUMENT GRAMMAR IS EXACT. `next_arg` derives exactly the texts of the selections of arguments,
      in order, that contain every required argument; the empty selection has the empty text. */
  lemma ArgGrammarIsExact(required: seq<bool>, w: seq<Sym>)
    ensures var ch := ChainFrom(required, 0);
            Derives(ch.rules, |ch.rules|, ch.next, w) <==> exists sel :: Selection(required, 0, sel) && w == Text(sel)
  {
    hide Derives;
    ChainDerives(required, 0, w);
  }

  lemma {:induction false} TextSepLength(sel: seq<nat>)
    ensures |TextSep(sel)| == 1 + 2 * |sel|
  {
    if sel != [] { TextSepLength(sel[1..]); }
  }

  lemma {:induction false} TextSepInjective(a: seq<nat>, b: seq<nat>)
    requires TextSep(a) == TextSep(b)
    ensures a == b
    decreases |a|
  {
    if a != [] && b != [] {
      var t := TextSep(a);
      assert t[1] == Arg(a[0]) == Arg(b[0]) && t[2..] == TextSep(a[1..]) == TextSep(b[1..]);
      TextSepInjective(a[1..], b[1..]);
      assert a == [a[0]] + a[1..] && b == [b[0]] + b[1..];
    } else {
      TextSepLength(a);
      TextSepLength(b);
    }
  }

  /** Different selections have different texts. */
  lemma TextInjective(a: seq<nat>, b: seq<nat>)
    requires Text(a) == Text(b)
    ensures a == b
  {
    if a != [] && b != [] {
      var t := Text(a);
      assert t[0] == Arg(a[0]) == Arg(b[0]) && t[1..] == TextSep(a[1..]) == TextSep(b[1..]);
      TextSepInjective(a[1..], b[1..]);
      assert a == [a[0]] + a[1..] && b == [b[0]] + b[1..];
    }
  }
}
