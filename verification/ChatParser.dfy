/** The message parser of `common/chat-parser.cpp`: a cursor over the whole
    text generated so far, re-run on every longer text while the model streams. */
module ChatParser {
  import opened Chars
  import opened Wrappers
  import opened Strings

  datatype ReasoningFormat = FormatNone | Auto | DeepseekLegacy | Deepseek

  datatype Syntax = Syntax(
    reasoningFormat: ReasoningFormat,
    reasoningInContent: bool,
    thinkingForcedOpen: bool)

  datatype ToolCall = ToolCall(name: string, arguments: string, id: string)

  datatype Msg = Msg(content: string, reasoning: string, toolCalls: seq<ToolCall>)

  const EMPTY_MSG := Msg("", "", [])

  datatype Tags = Tags(start: string, end: string)

  const THINK := Tags("<think>", "</think>")

  lemma Concat3(a: string, b: string, c: string)
    ensures a + b + c == a + (b + c)
    ensures c == "" ==> a + c == a
  {
  }

  // ------------------------------------------------- specification of the reasoning parser

  function OpenTag(syn: Syntax, tags: Tags): string {
    if syn.reasoningFormat.Deepseek? then "<think>" else tags.start
  }

  function CloseTag(syn: Syntax, tags: Tags): string {
    if syn.reasoningFormat.Deepseek? then "</think>" else tags.end
  }

  /** The literal that is shown in front of a forced-open block that did carry its tag. */
  function ReasoningPrefix(syn: Syntax, tags: Tags, tagged: bool): string {
    if tagged && syn.thinkingForcedOpen && !syn.reasoningInContent then tags.start else ""
  }

  function BlockContent(syn: Syntax, tags: Tags, text: string, closed: bool): string {
    if Strip(text) == "" || !syn.reasoningInContent then ""
    else OpenTag(syn, tags) + Strip(text) + if closed then CloseTag(syn, tags) else ""
  }

  function BlockReasoning(syn: Syntax, tags: Tags, tagged: bool, text: string): string {
    if Strip(text) == "" || syn.reasoningInContent then ""
    else ReasoningPrefix(syn, tags, tagged) + Strip(text)
  }

  lemma NothingShown(syn: Syntax, tags: Tags, tagged: bool, text: string, closed: bool)
    ensures text == "" ==> BlockContent(syn, tags, text, closed) == "" == BlockReasoning(syn, tags, tagged, text)
    ensures text == "" ==> forall s: string :: s + "" == s
  {
  }

  function Min(a: nat, b: nat): nat { if a < b then a else b }

  /** The text at `at` agrees with `tag` as far as both go. */
  predicate MeetsTag(input: string, at: nat, tag: string)
    requires at <= |input|
  {
    var k := Min(|tag|, |input| - at);
    input[at..at + k] == tag[..k]
  }

  predicate MeetsPartOf(input: string, at: nat, tag: string)
    requires at <= |input|
  {
    MeetsTag(input, at, tag) && |input| - at < |tag|
  }

  /** Where the reasoning blocks of a text lie. `tagged` says that the start tag was in the text.
      `Stop(pos)`: no further block, parsing stops at `pos`. `Open(begin, end, ..)`: a block still open
      at the end of the text, of which `end` on may be the beginning of the end tag (`maybeClosing`). */
  datatype Blocks =
    | Stop(at: nat)
    | Open(begin: nat, end: nat, tagged: bool, maybeClosing: bool, size: nat)
    | Closed(begin: nat, end: nat, tagged: bool, rest: Blocks)
  {
    function Pos(): nat {
      match this
      case Stop(at) => at
      case Open(_, _, _, _, size) => size
      case Closed(_, _, _, rest) => rest.Pos()
    }

    predicate Within(n: nat) {
      match this
      case Stop(at) => at <= n
      case Open(begin, end, _, _, size) => begin <= end <= n && size == n
      case Closed(begin, end, _, rest) => begin <= end <= n && rest.Within(n)
    }
  }

  /** The blocks from `cursor` on, which stands inside a block. */
  function Scan(input: string, tags: Tags, cursor: nat, tagged: bool): (r: Blocks)
    requires cursor <= |input|
    requires tags.start != "" || tags.end != ""
    ensures r.Within(|input|)
    decreases |input| - cursor, if tags.start == "" then 0 else 1
  {
    if cursor == |input| then Stop(|input|)
    else
      match Find(input, tags.end, cursor)
      case None =>
        Open(cursor, cursor + StopIndex(input[cursor..], tags.end), tagged,
             PartialStop(input[cursor..], tags.end).Some?, |input|)
      case Some(end) =>
        Closed(cursor, end, tagged, ScanAfter(input, tags, SkipSpaces(input, end + |tags.end|)))
  }

  /** What follows a closed block, blanks skipped: nothing yet, part of a tag, another block, or content. */
  function ScanAfter(input: string, tags: Tags, next: nat): (r: Blocks)
    requires next <= |input|
    requires tags.start != "" || tags.end != ""
    ensures r.Within(|input|)
    decreases |input| - next, if tags.start == "" then 1 else 0
  {
    if next == |input| then Stop(next)
    else if MeetsPartOf(input, next, tags.start) then Stop(|input|)
    else if MeetsTag(input, next, tags.start) then Scan(input, tags, next + |tags.start|, true)
    else Stop(next)
  }

  function ShownContent(input: string, partial: bool, syn: Syntax, tags: Tags, b: Blocks): string
    requires b.Within(|input|)
    decreases b
  {
    match b
    case Stop(_) => ""
    case Open(begin, end, _, maybeClosing, _) =>
      BlockContent(syn, tags, input[begin..end], !maybeClosing && !partial)
    case Closed(begin, end, _, rest) =>
      BlockContent(syn, tags, input[begin..end], true) + ShownContent(input, partial, syn, tags, rest)
  }

  function ShownReasoning(input: string, syn: Syntax, tags: Tags, b: Blocks): string
    requires b.Within(|input|)
    decreases b
  {
    match b
    case Stop(_) => ""
    case Open(begin, end, tagged, _, _) => BlockReasoning(syn, tags, tagged, input[begin..end])
    case Closed(begin, end, tagged, rest) =>
      BlockReasoning(syn, tags, tagged, input[begin..end]) + ShownReasoning(input, syn, tags, rest)
  }

  /** Taking a closed block over from what is still to be shown to what has been shown. */
  lemma TakesBlock(input: string, partial: bool, syn: Syntax, tags: Tags, b: Blocks, content: string, reasoning: string)
    requires b.Closed? && b.Within(|input|)
    ensures content + ShownContent(input, partial, syn, tags, b) ==
              content + BlockContent(syn, tags, input[b.begin..b.end], true) + ShownContent(input, partial, syn, tags, b.rest)
    ensures reasoning + ShownReasoning(input, syn, tags, b) ==
              reasoning + BlockReasoning(syn, tags, b.tagged, input[b.begin..b.end]) + ShownReasoning(input, syn, tags, b.rest)
  {
    hide BlockContent, BlockReasoning;
    var text := input[b.begin..b.end];
    Concat3(content, BlockContent(syn, tags, text, true), ShownContent(input, partial, syn, tags, b.rest));
    Concat3(reasoning, BlockReasoning(syn, tags, b.tagged, text), ShownReasoning(input, syn, tags, b.rest));
  }

  lemma StopShowsNothing(input: string, partial: bool, syn: Syntax, tags: Tags)
    ensures forall at: nat :: at <= |input| ==> ShownContent(input, partial, syn, tags, Stop(at)) == ""
    ensures forall at: nat :: at <= |input| ==> ShownReasoning(input, syn, tags, Stop(at)) == ""
    ensures forall s: string :: s + "" == s
    ensures forall i :: 0 <= i <= |input| ==> input[i..i] == ""
  {
  }

  /** How a parse that starts at `pos` goes. `None`: not handled, the cursor and the message stay as they are;
      otherwise the end of the leading blanks that become content, and the blocks. */
  function Plan(input: string, syn: Syntax, tags: Tags, pos: nat): (r: Option<(nat, Blocks)>)
    requires pos <= |input|
    requires tags.start != "" || tags.end != ""
    ensures r.Some? ==> pos <= r.value.0 <= |input| && r.value.1.Within(|input|)
  {
    if syn.reasoningFormat.FormatNone? then None
    else
      var first := SkipSpaces(input, pos);
      if first == |input| then
        if syn.thinkingForcedOpen then Some((pos, Stop(|input|))) else None
      else if MeetsPartOf(input, first, tags.start) then Some((pos, Stop(|input|)))
      else if MeetsTag(input, first, tags.start) then Some((first, Scan(input, tags, first + |tags.start|, true)))
      else if syn.thinkingForcedOpen then Some((pos, Scan(input, tags, first, false)))
      else None
  }

  /** What the parse adds to the message, and the cursor it ends on. */
  datatype Parsed = Parsed(ok: bool, content: string, reasoning: string, pos: nat)

  function Reasoning(input: string, partial: bool, syn: Syntax, tags: Tags, pos: nat): (r: Parsed)
    requires pos <= |input|
    requires tags.start != "" || tags.end != ""
    ensures r.pos <= |input|
  {
    match Plan(input, syn, tags, pos)
    case None => Parsed(false, "", "", pos)
    case Some((lead, b)) =>
      PosWithin(b, |input|);
      Parsed(true, input[pos..lead] + ShownContent(input, partial, syn, tags, b),
             ShownReasoning(input, syn, tags, b), b.Pos())
  }

  lemma PosWithin(b: Blocks, n: nat)
    requires b.Within(n)
    ensures b.Pos() <= n
  {
  }

  /** `common_chat_parse_content_only` for arbitrary think tags. */
  function ContentOnly(input: string, partial: bool, syn: Syntax, tags: Tags): Msg
    requires tags.start != "" || tags.end != ""
  {
    var p := Reasoning(input, partial, syn, tags, 0);
    Msg(p.content + input[p.pos..], p.reasoning, [])
  }

  // ------------------------------------------------------------------------ the parser

  datatype Found = Found(prelude: string, begin: nat, end: nat)

  /** A place in the text at or after `pos`, and the text from `pos` up to it. */
  predicate FoundFrom(input: string, pos: nat, f: Found) {
    pos <= f.begin <= f.end <= |input| && f.prelude == input[pos..f.begin]
  }

  /** `try_find_literal` as a function of the text and the cursor: the first occurrence,
      or in partial mode the beginning of an unfinished one at the end of the text. */
  function FindLiteral(input: string, partial: bool, pos: nat, literal: string): (r: Option<Found>)
    requires pos <= |input|
    ensures r.Some? ==> FoundFrom(input, pos, r.value)
  {
    match Find(input, literal, pos)
    case Some(i) => Some(Found(input[pos..i], i, i + |literal|))
    case None =>
      match PartialStop(input, literal)
      case Some(i) =>
        if partial && i >= pos then Some(Found(input[pos..i], i, |input|)) else None
      case None => None
  }

  class ChatMsgParser {
    const input: string
    const isPartial: bool
    const syntax: Syntax
    var pos: nat
    var result: Msg

    ghost predicate Valid()
      reads this
    {
      pos <= |input|
    }

    constructor (input: string, isPartial: bool, syntax: Syntax)
      ensures Valid() && pos == 0 && result == EMPTY_MSG
      ensures this.input == input && this.isPartial == isPartial && this.syntax == syntax
    {
      this.input, this.isPartial, this.syntax := input, isPartial, syntax;
      pos, result := 0, EMPTY_MSG;
    }

    method MoveTo(p: nat) returns (ok: bool)
      requires Valid()
      modifies this`pos
      ensures Valid()
      ensures ok == (p <= |input|) && pos == if ok then p else old(pos)
    {
      ok := p <= |input|;
      if ok { pos := p; }
    }

    method AddContent(s: string)
      modifies this`result
      ensures result == old(result).(content := old(result.content) + s)
    {
      result := result.(content := result.content + s);
    }

    method AddReasoningContent(s: string)
      modifies this`result
      ensures result == old(result).(reasoning := old(result.reasoning) + s)
    {
      result := result.(reasoning := result.reasoning + s);
    }

    method AddToolCall(name: string, id: string, arguments: string) returns (ok: bool)
      modifies this`result
      ensures ok == (name != "")
      ensures result == if ok then old(result).(toolCalls := old(result.toolCalls) + [ToolCall(name, arguments, id)])
                        else old(result)
    {
      if name == "" { return false; }
      result := result.(toolCalls := result.toolCalls + [ToolCall(name, arguments, id)]);
      ok := true;
    }

    method ConsumeSpaces() returns (consumed: bool)
      requires Valid()
      modifies this`pos
      ensures Valid() && pos == SkipSpaces(input, old(pos))
      ensures consumed == (pos != old(pos))
    {
      consumed := false;
      while pos < |input| && IsSpace(input[pos])
        invariant old(pos) <= pos <= |input| && consumed == (pos != old(pos))
        invariant forall k :: old(pos) <= k < pos ==> IsSpace(input[k])
      {
        pos := pos + 1;
        consumed := true;
      }
      SkipSpacesIs(input, old(pos), pos);
    }

    method ConsumeRest() returns (rest: string)
      requires Valid()
      modifies this`pos
      ensures Valid() && rest == input[old(pos)..] && pos == |input|
    {
      rest := input[pos..];
      pos := |input|;
    }

    method TryFindLiteral(literal: string) returns (r: Option<Found>)
      requires Valid()
      modifies this`pos
      ensures Valid()
      ensures r == FindLiteral(input, isPartial, old(pos), literal)
      ensures pos == match r case Some(f) => f.end case None => old(pos)
    {
      var idx := Find(input, literal, pos);
      if idx.Some? {
        r := Some(Found(input[pos..idx.value], idx.value, idx.value + |literal|));
        pos := idx.value + |literal|;
        return;
      }
      if isPartial {
        idx := FindPartialStop(input, literal);
        if idx.Some? && idx.value >= pos {
          r := Some(Found(input[pos..idx.value], idx.value, |input|));
          pos := |input|;
          return;
        }
      }
      r := None;
    }

    /** The two whitespace loops of `try_parse_reasoning`, which do not move the cursor. */
    method SkipBlanks(from: nat) returns (at: nat)
      requires from <= |input|
      ensures at == SkipSpaces(input, from)
    {
      at := from;
      while at < |input| && IsSpace(input[at])
        invariant from <= at <= |input|
        invariant forall k :: from <= k < at ==> IsSpace(input[k])
      {
        at := at + 1;
      }
      SkipSpacesIs(input, from, at);
    }

    /** The lambda `handle_reasoning`; `pending` is the captured prefix still to be shown. */
    method HandleReasoning(tags: Tags, pending: string, ghost tagged: bool, reasoning: string, closed: bool)
      returns (pending': string)
      requires pending == ReasoningPrefix(syntax, tags, tagged)
      modifies this`result
      ensures result.content == old(result.content) + BlockContent(syntax, tags, reasoning, closed)
      ensures result.reasoning == old(result.reasoning) + BlockReasoning(syntax, tags, tagged, reasoning)
      ensures result.toolCalls == old(result.toolCalls)
      ensures pending' in {pending, ""}
    {
      pending' := pending;
      var stripped := StringStrip(reasoning);
      if stripped == "" { return; }
      if syntax.reasoningInContent {
        AddContent(OpenTag(syntax, tags));
        AddContent(stripped);
        Concat3(old(result.content), OpenTag(syntax, tags), stripped);
        if closed {
          AddContent(CloseTag(syntax, tags));
          Concat3(old(result.content), OpenTag(syntax, tags) + stripped, CloseTag(syntax, tags));
        }
        Concat3(old(result.content), OpenTag(syntax, tags) + stripped, "");
      } else {
        if pending != "" {
          AddReasoningContent(pending);
          pending' := "";
        }
        AddReasoningContent(stripped);
        Concat3(old(result.reasoning), pending, stripped);
      }
    }

    /** The lambda `set_reasoning_prefix`. */
    function SetReasoningPrefix(tags: Tags, pending: string, prefixPos: nat): (r: string)
      ensures pending in {"", ReasoningPrefix(syntax, tags, true)} &&
              prefixPos <= |input| && MeetsTag(input, prefixPos, tags.start) && !MeetsPartOf(input, prefixPos, tags.start) ==>
                r == ReasoningPrefix(syntax, tags, true)
    {
      if !syntax.thinkingForcedOpen || syntax.reasoningInContent then pending
      else if prefixPos + |tags.start| > |input| then ""
      else input[prefixPos..prefixPos + |tags.start|]
    }

    method TryParseReasoning(tags: Tags) returns (ok: bool)
      requires Valid()
      requires tags.start != "" || tags.end != ""
      modifies this
      ensures Valid()
      ensures var p := Reasoning(input, isPartial, syntax, tags, old(pos));
              && ok == p.ok && pos == p.pos
              && result.content == old(result.content) + p.content
              && result.reasoning == old(result.reasoning) + p.reasoning
              && result.toolCalls == old(result.toolCalls)
    {
      hide Strings.Find, Strings.SkipSpaces, Strings.PartialFrom, IsSpace, Scan, MeetsTag, ShownContent, ShownReasoning;
      StopShowsNothing(input, isPartial, syntax, tags);
      if syntax.reasoningFormat.FormatNone? { return false; }
      var pending := "";
      var savedPos := pos;
      var savedContent, savedReasoning := |result.content|, |result.reasoning|;

      var whitespaceEnd := SkipBlanks(pos);

      if whitespaceEnd >= |input| {
        RestoreState(savedPos, savedContent, savedReasoning);
        ok := ParseBlank(tags, savedPos);
        return;
      }

      var cursor := whitespaceEnd;
      var hasStartTag := MeetsTag(input, cursor, tags.start);
      if hasStartTag && |input| - cursor < |tags.start| {
        pos := |input|;
        return true;
      }
      if hasStartTag {
        if whitespaceEnd > pos { AddContent(input[pos..whitespaceEnd]); }
        assert result.content == old(result.content) + input[pos..whitespaceEnd];
        pending := SetReasoningPrefix(tags, pending, cursor);
        cursor := cursor + |tags.start|;
      } else if !syntax.thinkingForcedOpen {
        RestoreState(savedPos, savedContent, savedReasoning);
        return false;
      }

      ghost var lead := if hasStartTag then input[pos..whitespaceEnd] else "";
      ghost var blocks := Scan(input, tags, cursor, hasStartTag);
      Concat3(old(result.content), lead, ShownContent(input, isPartial, syntax, tags, blocks));
      ParseBlocks(tags, cursor, pending, hasStartTag, blocks);
      ok := true;
    }

    /** The case of a text that is all whitespace from the cursor on. */
    method ParseBlank(tags: Tags, savedPos: nat) returns (ok: bool)
      requires Valid() && pos == savedPos && SkipSpaces(input, pos) == |input|
      requires !syntax.reasoningFormat.FormatNone?
      modifies this
      ensures Valid() && result == old(result)
      ensures ok == syntax.thinkingForcedOpen && pos == if ok then |input| else savedPos
    {
      if syntax.thinkingForcedOpen {
        var rest := input[savedPos..];
        if rest != "" {
          StripOfBlank(input, savedPos);
          var _ := HandleReasoning(tags, "", false, rest, !isPartial);
        }
        pos := |input|;
        return true;
      }
      ok := false;
    }

    /** What follows a closed block, blanks skipped: another block, or the end of the loop with its cursor. */
    method NextBlock(tags: Tags, prefix: string, next: nat) returns (goesOn: bool, cursor: nat, pending: string)
      requires Valid() && next <= |input| && (tags.start != "" || tags.end != "")
      requires prefix in {"", ReasoningPrefix(syntax, tags, true)}
      modifies this`pos
      ensures Valid() && cursor <= |input|
      ensures goesOn ==>
                && pos == old(pos) && cursor == next + |tags.start| && pending == ReasoningPrefix(syntax, tags, true)
                && ScanAfter(input, tags, next) == Scan(input, tags, cursor, true)
      ensures !goesOn ==> ScanAfter(input, tags, next) == Stop(pos)
    {
      hide MeetsTag, Scan, Strings.Find, Strings.SkipSpaces;
      goesOn, cursor, pending := false, next, prefix;
      var nextRemaining := |input| - next;
      if nextRemaining == 0 {
        pos := next;
        return;
      }
      if MeetsTag(input, next, tags.start) {
        if nextRemaining < |tags.start| {
          pos := |input|;
          return;
        }
        pending := SetReasoningPrefix(tags, prefix, next);
        cursor := next + |tags.start|;
        goesOn := true;
        return;
      }
      pos := next;
    }

    /** The `while (true)` loop of `try_parse_reasoning`, entered inside a block. */
    method ParseBlocks(tags: Tags, start: nat, prefix: string, ghost startTagged: bool, ghost blocks: Blocks)
      requires Valid() && start <= |input|
      requires tags.start != "" || tags.end != ""
      requires prefix == ReasoningPrefix(syntax, tags, startTagged)
      requires blocks == Scan(input, tags, start, startTagged)
      modifies this
      ensures Valid()
      ensures pos == blocks.Pos()
      ensures result.content == old(result.content) + ShownContent(input, isPartial, syntax, tags, blocks)
      ensures result.reasoning == old(result.reasoning) + ShownReasoning(input, syntax, tags, blocks)
      ensures result.toolCalls == old(result.toolCalls)
    {
      hide Strings.Find, Strings.SkipSpaces, Strings.PartialFrom, IsSpace, BlockContent, BlockReasoning, MeetsTag, ShownContent,
        ShownReasoning;
      StopShowsNothing(input, isPartial, syntax, tags);
      var cursor, pending := start, prefix;
      ghost var tagged, todo := startTagged, blocks;
      ghost var content, reasoning := "", "";
      while true
        invariant cursor <= |input| && pos == old(pos)
        invariant pending == ReasoningPrefix(syntax, tags, tagged)
        invariant todo == Scan(input, tags, cursor, tagged) && todo.Pos() == blocks.Pos()
        invariant result.content == old(result.content) + content
        invariant result.reasoning == old(result.reasoning) + reasoning
        invariant result.toolCalls == old(result.toolCalls)
        invariant ShownContent(input, isPartial, syntax, tags, blocks) == content + ShownContent(input, isPartial, syntax, tags, todo)
        invariant ShownReasoning(input, syntax, tags, blocks) == reasoning + ShownReasoning(input, syntax, tags, todo)
        decreases |input| - cursor
      {
        if cursor >= |input| {
          pos := |input|;
          return;
        }
        var endPos := Find(input, tags.end, cursor);
        if endPos.None? {
          Concat3(old(result.content), content, ShownContent(input, isPartial, syntax, tags, todo));
          Concat3(old(result.reasoning), reasoning, ShownReasoning(input, syntax, tags, todo));
          ParseOpenBlock(tags, cursor, pending, tagged, todo);
          return;
        }
        ghost var text := input[cursor..endPos.value];
        pending := HandleClosed(tags, cursor, endPos.value, pending, tagged);
        Concat3(old(result.content), content, BlockContent(syntax, tags, text, true));
        Concat3(old(result.reasoning), reasoning, BlockReasoning(syntax, tags, tagged, text));
        TakesBlock(input, isPartial, syntax, tags, todo, content, reasoning);
        content := content + BlockContent(syntax, tags, text, true);
        reasoning := reasoning + BlockReasoning(syntax, tags, tagged, text);
        todo := todo.rest;
        cursor := SkipBlanks(endPos.value + |tags.end|);

        var goesOn: bool;
        goesOn, cursor, pending := NextBlock(tags, pending, cursor);
        if !goesOn { return; }
        tagged := true;
      }
    }

    /** The closed block `input[cursor..end]`. */
    method HandleClosed(tags: Tags, cursor: nat, end: nat, prefix: string, ghost tagged: bool) returns (pending: string)
      requires cursor <= end <= |input|
      requires prefix == ReasoningPrefix(syntax, tags, tagged)
      modifies this`result
      ensures result.content == old(result.content) + BlockContent(syntax, tags, input[cursor..end], true)
      ensures result.reasoning == old(result.reasoning) + BlockReasoning(syntax, tags, tagged, input[cursor..end])
      ensures result.toolCalls == old(result.toolCalls)
      ensures pending in {prefix, ""}
    {
      hide BlockContent, BlockReasoning;
      if end > cursor {
        pending := HandleReasoning(tags, prefix, tagged, input[cursor..end], true);
      } else {
        assert input[cursor..end] == "";
        pending := HandleReasoning(tags, prefix, tagged, "", true);
      }
    }

    /** The turn that finds no end tag. */
    method ParseOpenBlock(tags: Tags, cursor: nat, prefix: string, ghost tagged: bool, ghost todo: Blocks)
      requires Valid() && cursor < |input| && Find(input, tags.end, cursor).None?
      requires tags.start != "" || tags.end != ""
      requires prefix == ReasoningPrefix(syntax, tags, tagged)
      requires todo == Scan(input, tags, cursor, tagged)
      modifies this
      ensures pos == |input| == todo.Pos()
      ensures result.content == old(result.content) + ShownContent(input, isPartial, syntax, tags, todo)
      ensures result.reasoning == old(result.reasoning) + ShownReasoning(input, syntax, tags, todo)
      ensures result.toolCalls == old(result.toolCalls)
    {
      hide Strings.Find, Strings.SkipSpaces, Strings.PartialFrom, IsSpace, BlockContent, BlockReasoning;
      var remaining := input[cursor..];
      var partialOff := FindPartialStop(remaining, tags.end);
      var reasoningEnd := if partialOff.None? then |input| else cursor + partialOff.value;
      NothingShown(syntax, tags, tagged, input[cursor..reasoningEnd], partialOff.None? && !isPartial);
      if reasoningEnd > cursor {
        var _ := HandleReasoning(tags, prefix, tagged, input[cursor..reasoningEnd], partialOff.None? && !isPartial);
      }
      pos := |input|;
    }

    /** The lambda `restore_state`: nothing has been added when it runs. */
    method RestoreState(savedPos: nat, savedContent: nat, savedReasoning: nat)
      requires savedPos <= |input| && savedContent == |result.content| && savedReasoning == |result.reasoning|
      modifies this
      ensures pos == savedPos && result == old(result)
    {
      pos := savedPos;
      result := result.(content := result.content[..savedContent], reasoning := result.reasoning[..savedReasoning]);
    }

    /** `common_chat_parse_content_only`. */
    method ParseContentOnly()
      requires Valid() && pos == 0 && result == EMPTY_MSG
      modifies this
      ensures result == ContentOnly(input, isPartial, syntax, THINK)
      ensures pos == |input|
    {
      hide Reasoning;
      var _ := TryParseReasoning(THINK);
      assert forall s: string :: "" + s == s;
      var rest := ConsumeRest();
      AddContent(rest);
    }
  }
}
