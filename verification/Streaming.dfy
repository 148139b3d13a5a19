/** Streaming monotonicity of the content-only parse: what a text has already
    produced stays a prefix of what every longer text produces. */
module Streaming {
  import opened Chars
  import opened Wrappers
  import opened Strings
  import opened ChatParser

  /** The one way to lose text: without a forced-open block, blanks that were already passed on as
      content are withdrawn while the text after them is still an unfinished start tag. */
  predicate Withdraws(x: string, y: string, syn: Syntax, tags: Tags) {
    && !syn.reasoningFormat.FormatNone?
    && !syn.thinkingForcedOpen
    && x != "" && AllSpace(x)
    && var first := SkipSpaces(y, 0);
       first < |y| && MeetsPartOf(y, first, tags.start)
  }

  // ------------------------------------------------- blocks of a text and of an extension

  /** How the blocks of a text of length `n` may go on in a longer text: closed blocks stay, an open one
      grows or closes further right, and only what stopped at the very end is still undecided. */
  predicate GoesOn(b: Blocks, b': Blocks, n: nat)
    decreases b
  {
    match b
    case Stop(at) => at == n || b' == b
    case Open(begin, end, tagged, _, size) =>
      && size == n
      && !b'.Stop? && b'.begin == begin && end <= b'.end && b'.tagged == tagged
    case Closed(begin, end, tagged, rest) =>
      b'.Closed? && b'.begin == begin && b'.end == end && b'.tagged == tagged && GoesOn(rest, b'.rest, n)
  }

  /** First occurrences survive an extension of the text. */
  lemma FindExtends(x: string, y: string, pat: string, from: nat)
    requires x <= y && Find(x, pat, from).Some?
    ensures Find(y, pat, from) == Find(x, pat, from)
  {
    hide Find, OccursAt;
    FindSpec(x, pat, from);
    var i := Find(x, pat, from).value;
    forall j: int | from <= j <= i ensures OccursAt(y, pat, j) <==> OccursAt(x, pat, j) {
      OccursInPrefix(x, y, pat, j);
    }
    FindIs(y, pat, from, i);
  }

  lemma OccursShift(s: string, pat: string, from: nat, i: nat)
    requires from <= |s|
    ensures OccursAt(s, pat, from + i) <==> OccursAt(s[from..], pat, i)
  {
    if from + i + |pat| <= |s| {
      assert s[from..][i..i + |pat|] == s[from + i..from + i + |pat|];
    }
  }

  lemma NotContainedFrom(s: string, pat: string, from: nat)
    requires from <= |s| && Find(s, pat, from).None?
    ensures !Contains(s[from..], pat)
  {
    hide Find, OccursAt;
    FindSpec(s, pat, from);
    forall i: nat | i <= |s| - from ensures !OccursAt(s[from..], pat, i) {
      OccursShift(s, pat, from, i);
    }
  }

  /** A search that fails in `x` cannot succeed in `y` before the possible partial tag at the end of `x`. */
  lemma FindBeyondPartial(x: string, y: string, pat: string, from: nat)
    requires x <= y && from <= |x| && Find(x, pat, from).None?
    ensures Find(y, pat, from).Some? ==> from + StopIndex(x[from..], pat) <= Find(y, pat, from).value
    ensures Find(y, pat, from).None? ==> StopIndex(x[from..], pat) <= StopIndex(y[from..], pat)
  {
    hide Find, OccursAt, StopIndex;
    var s, u := x[from..], y[from..];
    NotContainedFrom(x, pat, from);
    StopIndexMonotone(s, u, pat);
    if Find(y, pat, from).Some? {
      FindSpec(y, pat, from);
      var i := Find(y, pat, from).value;
      OccursShift(y, pat, from, i - from);
      PartialStopSafe(s, u, pat, i - from);
    }
  }

  lemma SkipSpacesExtends(x: string, y: string, i: nat)
    requires x <= y && i <= |x| && SkipSpaces(x, i) < |x|
    ensures SkipSpaces(y, i) == SkipSpaces(x, i)
  {
    hide SkipSpaces;
    SkipSpacesSpec(x, i);
    SkipSpacesIs(y, i, SkipSpaces(x, i));
  }

  /** A mismatch or a whole tag stays one; a partial tag is one that may still go either way. */
  lemma MeetsExtends(x: string, y: string, at: nat, tag: string)
    requires x <= y && at <= |x|
    ensures !MeetsTag(x, at, tag) ==> !MeetsTag(y, at, tag)
    ensures MeetsTag(x, at, tag) && !MeetsPartOf(x, at, tag) ==> MeetsTag(y, at, tag) && !MeetsPartOf(y, at, tag)
  {
    var k, k' := Min(|tag|, |x| - at), Min(|tag|, |y| - at);
    assert y[at..at + k'][..k] == x[at..at + k];
    assert tag[..k'][..k] == tag[..k];
  }

  lemma {:induction false} ScanGoesOn(x: string, y: string, tags: Tags, cursor: nat, tagged: bool)
    requires x <= y && cursor <= |x|
    requires tags.start != "" || tags.end != ""
    ensures GoesOn(Scan(x, tags, cursor, tagged), Scan(y, tags, cursor, tagged), |x|)
    decreases |x| - cursor, if tags.start == "" then 0 else 1
  {
    hide Find, SkipSpaces, StopIndex, PartialStop, MeetsTag;
    if cursor < |x| {
      match Find(x, tags.end, cursor)
      case None => FindBeyondPartial(x, y, tags.end, cursor);
      case Some(end) =>
        FindExtends(x, y, tags.end, cursor);
        var from := end + |tags.end|;
        if SkipSpaces(x, from) < |x| { SkipSpacesExtends(x, y, from); }
        ScanAfterGoesOn(x, y, tags, SkipSpaces(x, from), SkipSpaces(y, from));
    }
  }

  lemma {:induction false} ScanAfterGoesOn(x: string, y: string, tags: Tags, next: nat, next': nat)
    requires x <= y && next <= |x| && next' <= |y| && (next < |x| ==> next' == next)
    requires tags.start != "" || tags.end != ""
    ensures GoesOn(ScanAfter(x, tags, next), ScanAfter(y, tags, next'), |x|)
    decreases |x| - next, if tags.start == "" then 1 else 0
  {
    hide Find, SkipSpaces, StopIndex, PartialStop, MeetsTag;
    if next < |x| {
      MeetsExtends(x, y, next, tags.start);
      if MeetsTag(x, next, tags.start) && !MeetsPartOf(x, next, tags.start) {
        ScanGoesOn(x, y, tags, next + |tags.start|, true);
      }
    }
  }

  // ------------------------------------------------------------------------ what is shown

  lemma PrefixJoin(a: string, b: string, c: string)
    requires b <= c
    ensures a + b <= a + c
  {
  }

  lemma PrefixMore(a: string, b: string, c: string)
    requires a <= b
    ensures a <= b + c
  {
  }

  /** A growing open block only ever shows more. */
  lemma OpenBlockGrows(syn: Syntax, tags: Tags, tagged: bool, a: string, b: string, closed: bool)
    requires a <= b
    ensures BlockContent(syn, tags, a, false) <= BlockContent(syn, tags, b, closed)
    ensures BlockReasoning(syn, tags, tagged, a) <= BlockReasoning(syn, tags, tagged, b)
  {
    hide Strip, OpenTag, CloseTag, ReasoningPrefix;
    StripMonotone(a, b);
    if Strip(a) != "" {
      PrefixJoin(ReasoningPrefix(syn, tags, tagged), Strip(a), Strip(b));
      PrefixJoin(OpenTag(syn, tags), Strip(a), Strip(b));
      PrefixMore(OpenTag(syn, tags) + Strip(a), OpenTag(syn, tags) + Strip(b), CloseTag(syn, tags));
    }
  }

  /** The content and everything after the blocks, as `common_chat_parse_content_only` puts them together. */
  function Shown(input: string, partial: bool, syn: Syntax, tags: Tags, b: Blocks): string
    requires b.Within(|input|)
  {
    PosWithin(b, |input|);
    ShownContent(input, partial, syn, tags, b) + input[b.Pos()..]
  }

  lemma Cut(x: string, y: string, from: nat, to: nat, to': nat)
    requires x <= y && from <= to <= |x| && to <= to' <= |y|
    ensures x[from..to] <= y[from..to'] && x[from..] <= y[from..]
  {
  }

  lemma {:induction false} ShownGrows(x: string, y: string, partial: bool, syn: Syntax, tags: Tags, b: Blocks, b': Blocks)
    requires x <= y && b.Within(|x|) && b'.Within(|y|) && GoesOn(b, b', |x|)
    ensures Shown(x, true, syn, tags, b) <= Shown(y, partial, syn, tags, b')
    ensures ShownReasoning(x, syn, tags, b) <= ShownReasoning(y, syn, tags, b')
    decreases b
  {
    hide BlockContent, BlockReasoning;
    match b
    case Stop(at) =>
      Cut(x, y, at, at, at);
    case Open(begin, end, tagged, _, _) =>
      Cut(x, y, begin, end, b'.end);
      OpenShowsItself(x, syn, tags, b);
      var closed := b'.Closed? || (!b'.maybeClosing && !partial);
      OpenBlockGrows(syn, tags, tagged, x[begin..end], y[begin..b'.end], closed);
      StartsWithBlock(y, partial, syn, tags, b', closed);
    case Closed(begin, end, tagged, rest) =>
      assert x[begin..end] == y[begin..end];
      ShownGrows(x, y, partial, syn, tags, rest, b'.rest);
      JoinShown(x, true, syn, tags, b);
      JoinShown(y, partial, syn, tags, b');
      PrefixJoin(BlockContent(syn, tags, x[begin..end], true), Shown(x, true, syn, tags, rest), Shown(y, partial, syn, tags, b'.rest));
      PrefixJoin(BlockReasoning(syn, tags, tagged, x[begin..end]), ShownReasoning(x, syn, tags, rest), ShownReasoning(y, syn, tags, b'.rest));
  }

  lemma OpenShowsItself(x: string, syn: Syntax, tags: Tags, b: Blocks)
    requires b.Open? && b.Within(|x|)
    ensures Shown(x, true, syn, tags, b) == BlockContent(syn, tags, x[b.begin..b.end], false)
  {
    hide BlockContent;
  }

  lemma StartsWithBlock(y: string, partial: bool, syn: Syntax, tags: Tags, b: Blocks, closed: bool)
    requires !b.Stop? && b.Within(|y|)
    requires closed == (b.Closed? || (!b.maybeClosing && !partial))
    ensures BlockContent(syn, tags, y[b.begin..b.end], closed) <= Shown(y, partial, syn, tags, b)
    ensures BlockReasoning(syn, tags, b.tagged, y[b.begin..b.end]) <= ShownReasoning(y, syn, tags, b)
  {
    hide BlockContent, BlockReasoning;
  }

  lemma JoinShown(x: string, partial: bool, syn: Syntax, tags: Tags, b: Blocks)
    requires b.Closed? && b.Within(|x|)
    ensures Shown(x, partial, syn, tags, b)
         == BlockContent(syn, tags, x[b.begin..b.end], true) + Shown(x, partial, syn, tags, b.rest)
  {
    hide BlockContent;
    PosWithin(b, |x|);
    Concat3(BlockContent(syn, tags, x[b.begin..b.end], true), ShownContent(x, partial, syn, tags, b.rest), x[b.Pos()..]);
  }

  // ------------------------------------------------------------------------ the whole text

  ghost predicate Grown(m: Msg, m': Msg) {
    m.content <= m'.content && m.reasoning <= m'.reasoning
  }

  lemma ContentOnlyPlanned(x: string, partial: bool, syn: Syntax, tags: Tags)
    requires tags.start != "" || tags.end != ""
    ensures var plan := Plan(x, syn, tags, 0);
            ContentOnly(x, partial, syn, tags) ==
              if plan.None? then Msg(x, "", [])
              else Msg(x[..plan.value.0] + Shown(x, partial, syn, tags, plan.value.1), ShownReasoning(x, syn, tags, plan.value.1), [])
  {
    hide Plan, ShownContent, ShownReasoning;
    match Plan(x, syn, tags, 0)
    case None => assert x[0..] == x;
    case Some((lead, b)) =>
      assert x[0..lead] == x[..lead];
      PosWithin(b, |x|);
      Concat3(x[..lead], ShownContent(x, partial, syn, tags, b), x[b.Pos()..]);
  }

  lemma StopShows(x: string, partial: bool, syn: Syntax, tags: Tags, b: Blocks)
    requires b == Stop(|x|)
    ensures Shown(x, partial, syn, tags, b) == "" == ShownReasoning(x, syn, tags, b)
  {
  }

  /** Text that is all blanks so far, or none at all. */
  lemma BlankGrows(x: string, y: string, partial: bool, syn: Syntax, tags: Tags)
    requires x <= y && SkipSpaces(x, 0) == |x|
    requires tags.start != "" || tags.end != ""
    requires !Withdraws(x, y, syn, tags)
    ensures Grown(ContentOnly(x, true, syn, tags), ContentOnly(y, partial, syn, tags))
  {
    hide ContentOnly, SkipSpaces, Scan, MeetsTag, Shown, ShownReasoning, AllSpace;
    ContentOnlyPlanned(x, true, syn, tags);
    ContentOnlyPlanned(y, partial, syn, tags);
    if syn.thinkingForcedOpen && !syn.reasoningFormat.FormatNone? {
      StopShows(x, true, syn, tags, Stop(|x|));
    } else {
      BlankReach(x, y);
      match Plan(y, syn, tags, 0)
      case None =>
      case Some((lead, b)) =>
        if x != "" {
          assert lead == SkipSpaces(y, 0);
          PrefixMore(x, y[..lead], Shown(y, partial, syn, tags, b));
        }
    }
  }

  lemma BlankReach(x: string, y: string)
    requires x <= y && SkipSpaces(x, 0) == |x|
    ensures AllSpace(x) && |x| <= SkipSpaces(y, 0)
  {
    hide SkipSpaces;
    SkipSpacesSpec(x, 0);
    SkipSpacesSpec(y, 0);
  }

  /** The plans for a text whose first non-blank character is known, and for a longer one. */
  lemma StartedPlan(x: string, y: string, syn: Syntax, tags: Tags) returns (lead: nat, cursor: nat, tagged: bool)
    requires x <= y && SkipSpaces(x, 0) < |x|
    requires tags.start != "" || tags.end != ""
    ensures lead <= |x| && cursor <= |x|
    ensures var (p, q) := (Plan(x, syn, tags, 0), Plan(y, syn, tags, 0));
            || (p.None? && q.None?)
            || p == Some((0, Stop(|x|)))
            || (p == Some((lead, Scan(x, tags, cursor, tagged))) && q == Some((lead, Scan(y, tags, cursor, tagged))))
  {
    hide SkipSpaces, Scan, MeetsTag;
    var first := SkipSpaces(x, 0);
    SkipSpacesExtends(x, y, 0);
    MeetsExtends(x, y, first, tags.start);
    tagged := MeetsTag(x, first, tags.start);
    lead := if tagged then first else 0;
    cursor := if tagged && !MeetsPartOf(x, first, tags.start) then first + |tags.start| else first;
  }

  /** Text whose first non-blank character is known. */
  lemma StartedGrows(x: string, y: string, partial: bool, syn: Syntax, tags: Tags)
    requires x <= y && SkipSpaces(x, 0) < |x|
    requires tags.start != "" || tags.end != ""
    ensures Grown(ContentOnly(x, true, syn, tags), ContentOnly(y, partial, syn, tags))
  {
    hide ContentOnly, SkipSpaces, Scan, Plan, Shown, ShownReasoning;
    ContentOnlyPlanned(x, true, syn, tags);
    ContentOnlyPlanned(y, partial, syn, tags);
    var lead, cursor, tagged := StartedPlan(x, y, syn, tags);
    StopShows(x, true, syn, tags, Stop(|x|));
    BlocksShownGrow(x, y, partial, syn, tags, lead, cursor, tagged);
  }

  lemma BlocksShownGrow(x: string, y: string, partial: bool, syn: Syntax, tags: Tags, lead: nat, cursor: nat, tagged: bool)
    requires x <= y && lead <= |x| && cursor <= |x|
    requires tags.start != "" || tags.end != ""
    ensures x[..lead] + Shown(x, true, syn, tags, Scan(x, tags, cursor, tagged))
         <= y[..lead] + Shown(y, partial, syn, tags, Scan(y, tags, cursor, tagged))
    ensures ShownReasoning(x, syn, tags, Scan(x, tags, cursor, tagged)) <= ShownReasoning(y, syn, tags, Scan(y, tags, cursor, tagged))
  {
    hide Scan, Shown, ShownReasoning;
    var b, b' := Scan(x, tags, cursor, tagged), Scan(y, tags, cursor, tagged);
    ScanGoesOn(x, y, tags, cursor, tagged);
    ShownGrows(x, y, partial, syn, tags, b, b');
    assert x[..lead] == y[..lead];
    PrefixJoin(x[..lead], Shown(x, true, syn, tags, b), Shown(y, partial, syn, tags, b'));
  }

  /** In the excepted case the longer text really shows nothing at all. */
  lemma WithdrawnIsEmpty(x: string, y: string, partial: bool, syn: Syntax, tags: Tags)
    requires tags.start != "" || tags.end != ""
    requires x <= y && Withdraws(x, y, syn, tags)
    ensures ContentOnly(y, partial, syn, tags) == EMPTY_MSG
    ensures ContentOnly(x, true, syn, tags).content == x
  {
    hide ContentOnly, SkipSpaces, Scan, MeetsTag, Shown, ShownReasoning;
    SkipSpacesIs(x, 0, |x|);
    ContentOnlyPlanned(x, true, syn, tags);
    ContentOnlyPlanned(y, partial, syn, tags);
    StopShows(y, partial, syn, tags, Stop(|y|));
  }

  /** STREAMING MONOTONICITY. For every pair of tags that does not make the source loop forever,
      every option and every extension `y` of a streamed text `x`: the content and the reasoning shown
      for `x` are prefixes of those shown for `y`, except in exactly the case `Withdraws`. */
  lemma StreamingMonotone(x: string, y: string, partial: bool, syn: Syntax, tags: Tags)
    requires tags.start != "" || tags.end != ""
    requires x <= y
    ensures Grown(ContentOnly(x, true, syn, tags), ContentOnly(y, partial, syn, tags)) <==> !Withdraws(x, y, syn, tags)
  {
    hide ContentOnly, SkipSpaces, MeetsTag;
    if Withdraws(x, y, syn, tags) {
      WithdrawnIsEmpty(x, y, partial, syn, tags);
    } else if SkipSpaces(x, 0) == |x| {
      BlankGrows(x, y, partial, syn, tags);
    } else {
      StartedGrows(x, y, partial, syn, tags);
    }
  }
}
