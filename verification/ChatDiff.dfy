/** Deltas between successive snapshots of a message (`common/chat.cpp`), what a client
    makes of them, and the server loop that produces them (`tools/server/server-task.cpp`). */
module ChatDiff {
  import opened Chars
  import opened Wrappers
  import opened Strings
  import opened ChatParser
  import Streaming

  /** `common_chat_msg_diff`; `toolIndex` is `None` for npos. */
  datatype Diff = Diff(reasoning: string, content: string, toolIndex: Option<nat>, tool: ToolCall)

  const NO_TOOL := ToolCall("", "", "")

  datatype DiffError = NotAtStart | FewerToolCalls | ToolCallMismatch

  function StringDiff(last: string, current: string): Result<string, DiffError> {
    if last == "" then Ok(current)
    else if last <= current then Ok(current[|last|..])
    else if current <= last then Ok("")
    else Err(NotAtStart)
  }

  function ReasoningDiff(prev: Msg, next: Msg): Result<seq<Diff>, DiffError> {
    if prev.reasoning == next.reasoning then Ok([])
    else
      match StringDiff(prev.reasoning, next.reasoning)
      case Ok(s) => Ok([Diff(s, "", None, NO_TOOL)])
      case Err(e) => Err(e)
  }

  function ContentDiff(prev: Msg, next: Msg): Result<seq<Diff>, DiffError> {
    if prev.content == next.content then Ok([])
    else
      match StringDiff(prev.content, next.content)
      case Ok(s) => Ok([Diff("", s, None, NO_TOOL)])
      case Err(e) => Err(e)
  }

  /** The last tool call of the previous snapshot may still have been incomplete. */
  function LastToolDiff(prev: Msg, next: Msg): Result<seq<Diff>, DiffError> {
    if |next.toolCalls| < |prev.toolCalls| then Err(FewerToolCalls)
    else if prev.toolCalls == [] then Ok([])
    else
      var idx := |prev.toolCalls| - 1;
      var pref, newf := prev.toolCalls[idx], next.toolCalls[idx];
      if pref.name != newf.name then Err(ToolCallMismatch)
      else
        match StringDiff(pref.arguments, newf.arguments)
        case Err(e) => Err(e)
        case Ok(args) =>
          if args == "" && pref.id == newf.id then Ok([])
          else if pref.id == newf.id then Ok([Diff("", "", Some(idx), ToolCall("", args, ""))])
          else Ok([Diff("", "", Some(idx), ToolCall(newf.name, args, newf.id))])
  }

  /** One delta for each tool call from `from` on. */
  function NewToolDiffs(calls: seq<ToolCall>, from: nat): seq<Diff>
    decreases |calls| - from
  {
    if from >= |calls| then []
    else [Diff("", "", Some(from), calls[from])] + NewToolDiffs(calls, from + 1)
  }

  function Diffs(prev: Msg, next: Msg): Result<seq<Diff>, DiffError> {
    match ReasoningDiff(prev, next)
    case Err(e) => Err(e)
    case Ok(r) =>
      match ContentDiff(prev, next)
      case Err(e) => Err(e)
      case Ok(c) =>
        match LastToolDiff(prev, next)
        case Err(e) => Err(e)
        case Ok(t) => Ok(r + c + t + NewToolDiffs(next.toolCalls, |prev.toolCalls|))
  }

  method ComputeDiffs(prev: Msg, next: Msg) returns (r: Result<seq<Diff>, DiffError>)
    ensures r == Diffs(prev, next)
  {
    var diffs: seq<Diff> := [];
    if prev.reasoning != next.reasoning {
      var d := StringDiff(prev.reasoning, next.reasoning);
      if d.Err? { return Err(d.error); }
      diffs := diffs + [Diff(d.value, "", None, NO_TOOL)];
    }
    if prev.content != next.content {
      var d := StringDiff(prev.content, next.content);
      if d.Err? { return Err(d.error); }
      diffs := diffs + [Diff("", d.value, None, NO_TOOL)];
    }
    if |next.toolCalls| < |prev.toolCalls| { return Err(FewerToolCalls); }
    if prev.toolCalls != [] {
      var idx := |prev.toolCalls| - 1;
      var pref, newf := prev.toolCalls[idx], next.toolCalls[idx];
      if pref.name != newf.name { return Err(ToolCallMismatch); }
      var args := StringDiff(pref.arguments, newf.arguments);
      if args.Err? { return Err(args.error); }
      if args.value != "" || pref.id != newf.id {
        var delta := ToolCall("", args.value, "");
        if pref.id != newf.id {
          delta := delta.(id := newf.id, name := newf.name);
        }
        diffs := diffs + [Diff("", "", Some(idx), delta)];
      }
    }
    ghost var before := diffs;
    assert before == ReasoningDiff(prev, next).value + ContentDiff(prev, next).value + LastToolDiff(prev, next).value;
    var idx := |prev.toolCalls|;
    while idx < |next.toolCalls|
      invariant |prev.toolCalls| <= idx <= |next.toolCalls|
      invariant diffs + NewToolDiffs(next.toolCalls, idx) == before + NewToolDiffs(next.toolCalls, |prev.toolCalls|)
    {
      diffs := diffs + [Diff("", "", Some(idx), next.toolCalls[idx])];
      idx := idx + 1;
    }
    assert diffs + [] == diffs;
    r := Ok(diffs);
  }

  // ------------------------------------------------------------------------- the client

  /** What a client does with a delta: texts are appended, a tool call is created by the first
      delta for its index, and later ones append arguments and set the fields they carry
      (empty fields are not sent at all, `common_chat_msg_diff_to_json_oaicompat`). */
  function Apply(m: Msg, d: Diff): Msg {
    var calls :=
      match d.toolIndex
      case None => m.toolCalls
      case Some(i) =>
        if i == |m.toolCalls| then m.toolCalls + [d.tool]
        else if i < |m.toolCalls| then m.toolCalls[i := Merge(m.toolCalls[i], d.tool)]
        else m.toolCalls;
    Msg(m.content + d.content, m.reasoning + d.reasoning, calls)
  }

  function Merge(t: ToolCall, d: ToolCall): ToolCall {
    ToolCall(if d.name == "" then t.name else d.name, t.arguments + d.arguments, if d.id == "" then t.id else d.id)
  }

  function ApplyAll(m: Msg, ds: seq<Diff>): Msg
    decreases |ds|
  {
    if ds == [] then m else ApplyAll(Apply(m, ds[0]), ds[1..])
  }

  lemma {:induction false} ApplyAllConcat(m: Msg, a: seq<Diff>, b: seq<Diff>)
    ensures ApplyAll(m, a + b) == ApplyAll(ApplyAll(m, a), b)
    decreases |a|
  {
    if a == [] {
      assert a + b == b;
    } else {
      assert (a + b)[1..] == a[1..] + b;
      ApplyAllConcat(Apply(m, a[0]), a[1..], b);
    }
  }

  // -------------------------------------------------------------------- one step rebuilds

  /** `next` is a later snapshot of the same growing message. */
  ghost predicate Grows(prev: Msg, next: Msg) {
    && prev.content <= next.content
    && prev.reasoning <= next.reasoning
    && |prev.toolCalls| <= |next.toolCalls|
    && (forall i :: 0 <= i < |prev.toolCalls| - 1 ==> next.toolCalls[i] == prev.toolCalls[i])
    && (prev.toolCalls != [] ==> GrowsCall(prev.toolCalls[|prev.toolCalls| - 1], next.toolCalls[|prev.toolCalls| - 1]))
  }

  ghost predicate GrowsCall(t: ToolCall, t': ToolCall) {
    && t'.name == t.name
    && t.arguments <= t'.arguments
    && (t'.id == "" ==> t.id == "")
  }

  lemma StringDiffRebuilds(a: string, b: string)
    ensures a <= b ==> StringDiff(a, b).Ok? && a + StringDiff(a, b).value == b
    ensures StringDiff(a, b).Ok? && a + StringDiff(a, b).value == b ==> a <= b
  {
  }

  lemma ApplyText(m: Msg, ds: seq<Diff>)
    requires |ds| <= 1
    requires forall d :: d in ds ==> d.toolIndex == None
    ensures ApplyAll(m, ds) == if ds == [] then m
                               else Msg(m.content + ds[0].content, m.reasoning + ds[0].reasoning, m.toolCalls)
  {
    if ds != [] {
      assert ds[1..] == [];
      assert ds[0] in ds;
    }
  }

  lemma {:induction false} NewToolsRebuild(m: Msg, calls: seq<ToolCall>)
    requires |m.toolCalls| <= |calls|
    ensures ApplyAll(m, NewToolDiffs(calls, |m.toolCalls|)) == m.(toolCalls := m.toolCalls + calls[|m.toolCalls|..])
    decreases |calls| - |m.toolCalls|
  {
    var n := |m.toolCalls|;
    if n < |calls| {
      var ds := NewToolDiffs(calls, n);
      assert ds[1..] == NewToolDiffs(calls, n + 1);
      var m' := Apply(m, ds[0]);
      assert m' == m.(toolCalls := m.toolCalls + [calls[n]]) by {
        assert m.content + "" == m.content && m.reasoning + "" == m.reasoning;
      }
      NewToolsRebuild(m', calls);
      assert m'.toolCalls + calls[n + 1..] == m.toolCalls + calls[n..];
    } else {
      assert m.toolCalls + calls[n..] == m.toolCalls;
    }
  }

  /** The tool calls a client ends up with after the delta for the last known call. */
  lemma LastToolRebuilds(m: Msg, prev: Msg, next: Msg)
    requires m.toolCalls == prev.toolCalls && LastToolDiff(prev, next).Ok?
    ensures var idx := |prev.toolCalls| - 1;
            var done := ApplyAll(m, LastToolDiff(prev, next).value);
            && done.content == m.content && done.reasoning == m.reasoning
            && |done.toolCalls| == |prev.toolCalls| <= |next.toolCalls|
            && (forall i :: 0 <= i < idx ==> done.toolCalls[i] == prev.toolCalls[i])
            && (prev.toolCalls != [] ==>
                  (done.toolCalls[idx] == next.toolCalls[idx] <==> GrowsCall(prev.toolCalls[idx], next.toolCalls[idx])))
  {
    var ds := LastToolDiff(prev, next).value;
    if prev.toolCalls != [] {
      var idx := |prev.toolCalls| - 1;
      StringDiffRebuilds(prev.toolCalls[idx].arguments, next.toolCalls[idx].arguments);
      assert prev.toolCalls[idx].arguments + "" == prev.toolCalls[idx].arguments;
      if ds != [] {
        assert ds[1..] == [];
        assert ApplyAll(m, ds) == Apply(m, ds[0]);
        assert m.content + "" == m.content && m.reasoning + "" == m.reasoning;
      }
    }
  }

  /** Where a client that holds `prev` ends up after the deltas for `next`. */
  lemma DiffsLeadTo(prev: Msg, next: Msg) returns (mid: Msg)
    requires Diffs(prev, next).Ok?
    ensures mid == ApplyAll(prev, LastToolDiff(prev, next).value)
    ensures |mid.toolCalls| == |prev.toolCalls| <= |next.toolCalls|
    ensures var done := ApplyAll(prev, Diffs(prev, next).value);
            && done.reasoning == prev.reasoning + (if prev.reasoning == next.reasoning then "" else StringDiff(prev.reasoning, next.reasoning).value)
            && done.content == prev.content + (if prev.content == next.content then "" else StringDiff(prev.content, next.content).value)
            && done.toolCalls == mid.toolCalls + next.toolCalls[|prev.toolCalls|..]
  {
    hide LastToolDiff, NewToolDiffs, StringDiff, ApplyAll;
    var r, c := ReasoningDiff(prev, next).value, ContentDiff(prev, next).value;
    var t, n := LastToolDiff(prev, next).value, NewToolDiffs(next.toolCalls, |prev.toolCalls|);
    ApplyAllConcat(prev, r + c + t, n);
    ApplyAllConcat(prev, r + c, t);
    ApplyAllConcat(prev, r, c);
    ApplyText(prev, r);
    ApplyText(ApplyAll(prev, r), c);
    var shown := ApplyAll(prev, r + c);
    LastToolRebuilds(shown, prev, next);
    LastToolRebuilds(prev, prev, next);
    LastToolIgnoresText(shown, prev, prev, next);
    NewToolsRebuild(ApplyAll(shown, t), next.toolCalls);
    mid := ApplyAll(prev, t);
    assert forall s: string :: s + "" == s;
  }

  lemma LastToolIgnoresText(m: Msg, m': Msg, prev: Msg, next: Msg)
    requires m.toolCalls == m'.toolCalls && LastToolDiff(prev, next).Ok?
    ensures ApplyAll(m, LastToolDiff(prev, next).value).toolCalls == ApplyAll(m', LastToolDiff(prev, next).value).toolCalls
  {
    var ds := LastToolDiff(prev, next).value;
    if ds != [] {
      assert ds[1..] == [];
      assert ApplyAll(m, ds) == Apply(m, ds[0]) && ApplyAll(m', ds) == Apply(m', ds[0]);
    }
  }

  /** `compute_diffs` succeeds and a client that holds `prev` and applies the result holds `next`,
      if and only if `next` grows `prev`. */
  lemma RebuildsIffGrows(prev: Msg, next: Msg)
    ensures Diffs(prev, next).Ok? && ApplyAll(prev, Diffs(prev, next).value) == next <==> Grows(prev, next)
  {
    hide ApplyAll, NewToolDiffs;
    StringDiffRebuilds(prev.reasoning, next.reasoning);
    StringDiffRebuilds(prev.content, next.content);
    assert forall s: string :: s + "" == s;
    if Grows(prev, next) {
      GrowsSucceeds(prev, next);
    }
    if Diffs(prev, next).Ok? {
      var mid := DiffsLeadTo(prev, next);
      LastToolRebuilds(prev, prev, next);
      CallsMeet(mid.toolCalls, prev.toolCalls, next.toolCalls);
    }
  }

  lemma GrowsSucceeds(prev: Msg, next: Msg)
    requires Grows(prev, next)
    ensures Diffs(prev, next).Ok?
  {
    hide NewToolDiffs;
    if prev.toolCalls != [] {
      var idx := |prev.toolCalls| - 1;
      StringDiffRebuilds(prev.toolCalls[idx].arguments, next.toolCalls[idx].arguments);
    }
    StringDiffRebuilds(prev.reasoning, next.reasoning);
    StringDiffRebuilds(prev.content, next.content);
  }

  lemma CallsMeet(mid: seq<ToolCall>, prev: seq<ToolCall>, next: seq<ToolCall>)
    requires |mid| == |prev| <= |next|
    requires forall i :: 0 <= i < |prev| - 1 ==> mid[i] == prev[i]
    requires prev != [] ==> (mid[|prev| - 1] == next[|prev| - 1] <==> GrowsCall(prev[|prev| - 1], next[|prev| - 1]))
    ensures mid + next[|prev|..] == next <==>
              && (forall i :: 0 <= i < |prev| - 1 ==> next[i] == prev[i])
              && (prev != [] ==> GrowsCall(prev[|prev| - 1], next[|prev| - 1]))
  {
    var all := mid + next[|prev|..];
    if forall i :: 0 <= i < |prev| ==> mid[i] == next[i] {
      assert all == next;
    } else {
      var i :| 0 <= i < |prev| && mid[i] != next[i];
      assert all[i] != next[i];
    }
  }

  // ------------------------------------------------------------------------ whole runs

  /** All deltas of a run of snapshots, or the error of the first step that fails. */
  function RunDiffs(first: Msg, later: seq<Msg>): Result<seq<Diff>, DiffError>
    decreases |later|
  {
    if later == [] then Ok([])
    else
      match Diffs(first, later[0])
      case Err(e) => Err(e)
      case Ok(ds) =>
        match RunDiffs(later[0], later[1..])
        case Err(e) => Err(e)
        case Ok(rest) => Ok(ds + rest)
  }

  ghost predicate GrowingRun(first: Msg, later: seq<Msg>)
    decreases |later|
  {
    later == [] || (Grows(first, later[0]) && GrowingRun(later[0], later[1..]))
  }

  /** DIFFS TELESCOPE. Along every run of growing snapshots no step throws, and a client that starts
      with the first snapshot and applies every delta in order holds the last one. */
  lemma {:induction false} DiffsTelescope(first: Msg, later: seq<Msg>)
    requires GrowingRun(first, later)
    ensures RunDiffs(first, later).Ok?
    ensures ApplyAll(first, RunDiffs(first, later).value) == if later == [] then first else later[|later| - 1]
    decreases |later|
  {
    hide Diffs, Grows;
    if later != [] {
      RebuildsIffGrows(first, later[0]);
      DiffsTelescope(later[0], later[1..]);
      ApplyAllConcat(first, Diffs(first, later[0]).value, RunDiffs(later[0], later[1..]).value);
    }
  }

  // ------------------------------------------------------------------- the server's loop

  /** `task_result_state`: the text generated so far and the last message that was not empty. */
  class TaskResultState {
    const syntax: Syntax
    var generatedText: string
    var chatMsg: Msg
    ghost var sent: seq<Diff>
    ghost var parsed: string   // the part of the text that `chatMsg` was parsed from

    /** A client that applied everything sent so far holds `chatMsg`. */
    ghost predicate Valid()
      reads this
    {
      && ApplyAll(EMPTY_MSG, sent) == chatMsg
      && parsed <= generatedText
      && (chatMsg == EMPTY_MSG || chatMsg == ContentOnly(parsed, true, syntax, THINK))
    }

    constructor (syntax: Syntax)
      ensures Valid() && generatedText == "" && chatMsg == EMPTY_MSG && this.syntax == syntax && sent == []
    {
      this.syntax := syntax;
      generatedText, chatMsg, sent, parsed := "", EMPTY_MSG, [], "";
    }

    /** `update_chat_msg` for a content-only format: never throws, and keeps the client's copy exact,
        whatever the text is and however it is cut into pieces. */
    method UpdateChatMsg(textAdded: string, isPartial: bool) returns (diffs: Result<seq<Diff>, DiffError>)
      requires Valid()
      modifies this
      ensures isPartial ==> Valid()
      ensures generatedText == old(generatedText) + textAdded
      ensures diffs.Ok? && sent == old(sent) + diffs.value
      ensures ApplyAll(EMPTY_MSG, sent) == chatMsg
      ensures var now := ContentOnly(generatedText, isPartial, syntax, THINK);
              chatMsg == if now == EMPTY_MSG then old(chatMsg) else now
    {
      hide ContentOnly, ApplyAll, Diffs;
      generatedText := generatedText + textAdded;
      var msgPrv := chatMsg;
      var parser := new ChatMsgParser(generatedText, isPartial, syntax);
      parser.ParseContentOnly();
      var newMsg := parser.result;
      diffs := Ok([]);
      if newMsg != EMPTY_MSG {
        chatMsg := newMsg;
        diffs := ComputeDiffs(msgPrv, newMsg);
        SnapshotGrows(parsed, generatedText, isPartial, syntax, msgPrv);
        RebuildsIffGrows(msgPrv, newMsg);
        ApplyAllConcat(EMPTY_MSG, sent, diffs.value);
        sent, parsed := sent + diffs.value, generatedText;
      } else {
        assert sent + [] == sent;
      }
    }
  }

  /** Skipping empty messages is what makes the snapshots grow without exception: the only step that
      takes text back (`Streaming.Withdraws`) leads to an empty message. */
  lemma SnapshotGrows(x: string, y: string, partial: bool, syn: Syntax, prev: Msg)
    requires x <= y
    requires prev == EMPTY_MSG || prev == ContentOnly(x, true, syn, THINK)
    requires ContentOnly(y, partial, syn, THINK) != EMPTY_MSG
    ensures Grows(prev, ContentOnly(y, partial, syn, THINK))
  {
    hide Reasoning, Streaming.Withdraws;
    if prev != EMPTY_MSG {
      Streaming.StreamingMonotone(x, y, partial, syn, THINK);
      if Streaming.Withdraws(x, y, syn, THINK) {
        Streaming.WithdrawnIsEmpty(x, y, partial, syn, THINK);
      }
    }
  }

  /** Without that skip the stream is wrong: the snapshots of the texts " ", " <" and " <think>" are
      content " ", nothing, and content " " again; no step throws, and the client ends up with two blanks. */
  lemma WithdrawnBlankIsSentTwice()
    ensures var syn := Syntax(Auto, false, false);
            var a, b, c := ContentOnly(" ", true, syn, THINK), ContentOnly(" <", true, syn, THINK), ContentOnly(" <think>", true, syn, THINK);
            && " " <= " <" <= " <think>"
            && RunDiffs(EMPTY_MSG, [a, b, c]).Ok?
            && c.content == " "
            && ApplyAll(EMPTY_MSG, RunDiffs(EMPTY_MSG, [a, b, c]).value).content == "  "
  {
    hide ContentOnly, RunDiffs, ApplyAll;
    SnapshotsOfBlank(Syntax(Auto, false, false));
    BlankRun(Msg(" ", "", []));
  }

  lemma BlankRun(m: Msg)
    requires m == Msg(" ", "", [])
    ensures var ds := RunDiffs(EMPTY_MSG, [m, EMPTY_MSG, m]);
            ds.Ok? && ApplyAll(EMPTY_MSG, ds.value).content == "  "
  {
    hide Diffs, ApplyAll;
    BlankSteps(m);
    var shown, none := Diff("", " ", None, NO_TOOL), Diff("", "", None, NO_TOOL);
    assert [m, EMPTY_MSG, m][1..] == [EMPTY_MSG, m] && [EMPTY_MSG, m][1..] == [m] && [m][1..] == [];
    assert RunDiffs(m, []) == Ok([]);
    assert RunDiffs(EMPTY_MSG, [m]) == Ok([shown] + []);
    assert RunDiffs(m, [EMPTY_MSG, m]) == Ok([none] + ([shown] + []));
    assert RunDiffs(EMPTY_MSG, [m, EMPTY_MSG, m]) == Ok([shown] + ([none] + ([shown] + [])));
    BlankDeltas(m, shown, none);
  }

  lemma BlankDeltas(m: Msg, shown: Diff, none: Diff)
    requires m == Msg(" ", "", []) && shown == Diff("", " ", None, NO_TOOL) && none == Diff("", "", None, NO_TOOL)
    ensures ApplyAll(EMPTY_MSG, [shown] + ([none] + ([shown] + []))).content == "  "
  {
    hide ApplyAll;
    ApplyAllConcat(EMPTY_MSG, [shown], [none] + ([shown] + []));
    ApplyText(EMPTY_MSG, [shown]);
    assert ApplyAll(EMPTY_MSG, [shown]) == m;
    ApplyAllConcat(m, [none], [shown] + []);
    ApplyText(m, [none]);
    assert ApplyAll(m, [none]) == m;
    assert [shown] + [] == [shown];
    ApplyText(m, [shown]);
    assert " " + " " == "  ";
  }

  lemma BlankSteps(m: Msg)
    requires m == Msg(" ", "", [])
    ensures Diffs(EMPTY_MSG, m) == Ok([Diff("", " ", None, NO_TOOL)])
    ensures Diffs(m, EMPTY_MSG) == Ok([Diff("", "", None, NO_TOOL)])
  {
    hide NewToolDiffs;
    assert NewToolDiffs([], 0) == [] by { NoNewTools(); }
    assert [] + [Diff("", " ", None, NO_TOOL)] + [] + [] == [Diff("", " ", None, NO_TOOL)];
    assert [] + [Diff("", "", None, NO_TOOL)] + [] + [] == [Diff("", "", None, NO_TOOL)];
  }

  lemma NoNewTools()
    ensures NewToolDiffs([], 0) == []
  {
  }

  lemma SnapshotsOfBlank(syn: Syntax)
    requires syn == Syntax(Auto, false, false)
    ensures ContentOnly(" ", true, syn, THINK) == Msg(" ", "", [])
    ensures ContentOnly(" <", true, syn, THINK) == EMPTY_MSG
    ensures ContentOnly(" <think>", true, syn, THINK) == Msg(" ", "", [])
  {
    hide ContentOnly;
    BlankAlone(syn);
    BlankBeforePart(syn);
    BlankBeforeTag(syn);
  }

  lemma BlankAlone(syn: Syntax)
    requires syn == Syntax(Auto, false, false)
    ensures ContentOnly(" ", true, syn, THINK) == Msg(" ", "", [])
  {
    hide ContentOnly, SkipSpaces, MeetsTag, Scan, Streaming.Shown, ShownReasoning;
    SkipSpacesIs(" ", 0, 1);
    Streaming.ContentOnlyPlanned(" ", true, syn, THINK);
  }

  lemma BlankBeforePart(syn: Syntax)
    requires syn == Syntax(Auto, false, false)
    ensures ContentOnly(" <", true, syn, THINK) == EMPTY_MSG
  {
    hide ContentOnly, SkipSpaces, MeetsTag, Scan, Streaming.Shown, ShownReasoning;
    SkipSpacesIs(" <", 0, 1);
    Streaming.ContentOnlyPlanned(" <", true, syn, THINK);
    TagMet(" <", " ", "<", "<think>");
    assert " <"[..0] == "";
    Streaming.StopShows(" <", true, syn, THINK, Stop(2));
  }

  lemma BlankBeforeTag(syn: Syntax)
    requires syn == Syntax(Auto, false, false)
    ensures ContentOnly(" <think>", true, syn, THINK) == Msg(" ", "", [])
  {
    hide ContentOnly, SkipSpaces, MeetsTag, Streaming.Shown, ShownReasoning;
    SkipSpacesIs(" <think>", 0, 1);
    Streaming.ContentOnlyPlanned(" <think>", true, syn, THINK);
    TagMet(" <think>", " ", "<think>", "<think>");
    assert " <think>"[..1] == " ";
    Streaming.StopShows(" <think>", true, syn, THINK, Stop(8));
  }

  lemma TagMet(input: string, before: string, part: string, tag: string)
    requires input == before + part && part <= tag
    ensures MeetsTag(input, |before|, tag)
  {
    assert input[|before|..|input|] == part;
  }
}
