/** The imperative form of the tool-call parser: it moves the cursor of the message parser and adds tool calls to
    its message. Exceptions are answers of type `Halt` and `Outcome`. */
module XmlParser {
  import opened Chars
  import opened Wrappers
  import opened Strings
  import opened ChatParser
  import opened XmlToolCalls
  import Utf8

  ghost predicate Fits(b: ChatMsgParser, env: Env)
    reads b
  {
    b.Valid() && env.Valid() && env.input == b.input && env.partial == b.isPartial
  }

  /** The tool calls that a turn has added before it halted. */
  function Added(h: Halt): seq<ToolCall> {
    if h.Unfinished? then h.added else []
  }

  function AddedBy(step: ArgStep): seq<ToolCall> {
    if step.Halted? then Added(step.halt) else []
  }

  /** Nothing but the tool calls has changed, and those by `added`. */
  twostate predicate OnlyAdds(b: ChatMsgParser, added: seq<ToolCall>)
    reads b
  {
    && b.result.content == old(b.result.content) && b.result.reasoning == old(b.result.reasoning)
    && b.result.toolCalls == old(b.result.toolCalls) + added
  }

  // --------------------------------------------------------------------------- closing literals

  lemma FindTwoTurn(env: Env, saved: nat, pos: nat, first: string, second: string)
    requires saved <= pos <= |env.input| && first != ""
    ensures var f := FindIn(env, pos, first);
            FindTwoFrom(env, saved, pos, first, second) ==
              if f.None? then None
              else
                var at := SkipSpaces(env.input, f.value.end);
                if MeetsTag(env.input, at, second) then
                  Some(Found(env.input[saved..f.value.begin], f.value.begin, at + Min(|second|, |env.input| - at)))
                else FindTwoFrom(env, saved, f.value.begin + 1, first, second)
  {
    hide FindIn, MeetsTag, SkipSpaces, Find;
  }

  /** The search for a literal, in the terms of the functions. */
  method SearchLiteral(b: ChatMsgParser, env: Env, literal: string) returns (r: Option<Found>)
    requires Fits(b, env)
    modifies b`pos
    ensures Fits(b, env)
    ensures r == FindIn(env, old(b.pos), literal)
    ensures b.pos == if r.Some? then r.value.end else old(b.pos)
  {
    r := b.TryFindLiteral(literal);
  }

  /** Behind blanks the second literal, or its beginning at the end of the text. */
  method MeetSecond(b: ChatMsgParser, env: Env, second: string) returns (met: bool)
    requires Fits(b, env)
    modifies b`pos
    ensures Fits(b, env)
    ensures var at := SkipSpaces(env.input, old(b.pos));
            && met == MeetsTag(env.input, at, second)
            && (met ==> b.pos == at + Min(|second|, |env.input| - at))
  {
    hide Find, SkipSpaces;
    var _ := b.ConsumeSpaces();
    var matchLen := Min(|second|, |b.input| - b.pos);
    met := b.input[b.pos..b.pos + matchLen] == second[..matchLen];
    if met { var _ := b.MoveTo(b.pos + matchLen); }
  }

  method TryFindTwo(b: ChatMsgParser, env: Env, first: string, second: string) returns (r: Option<Found>)
    requires Fits(b, env)
    modifies b`pos
    ensures Fits(b, env)
    ensures r == FindTwo(env, old(b.pos), first, second)
    ensures b.pos == if r.Some? then r.value.end else old(b.pos)
  {
    hide Find, FindIn, SkipSpaces, FindTwoFrom, MeetsTag;
    if |first| == 0 {
      r := SearchLiteral(b, env, second);
      return;
    }
    var saved := b.pos;
    while true
      invariant Fits(b, env) && saved <= b.pos
      invariant FindTwo(env, saved, first, second) == FindTwoFrom(env, saved, b.pos, first, second)
      decreases |b.input| - b.pos
    {
      FindTwoTurn(env, saved, b.pos, first, second);
      var res := SearchLiteral(b, env, first);
      if res.None? { break; }
      var f := res.value;
      var met := MeetSecond(b, env, second);
      if met {
        if |f.prelude| != f.begin - saved { f := f.(prelude := b.input[saved..f.begin]); }
        return Some(f.(end := b.pos));
      }
      var _ := b.MoveTo(f.begin + 1);
    }
    var _ := b.MoveTo(saved);
    r := None;
  }

  /** The alternative closing literal before what may follow it; the nearer one of two. */
  method TryAlternative(b: ChatMsgParser, env: Env, altEnd: string, endNext: string, altEndNext: Option<string>)
    returns (tc2: Option<Found>)
    requires Fits(b, env)
    modifies b`pos
    ensures Fits(b, env)
    ensures tc2 == (var tc := FindTwo(env, old(b.pos), altEnd, endNext);
                    if altEndNext.Some? then Nearer(tc, FindTwo(env, old(b.pos), altEnd, altEndNext.value)) else tc)
  {
    hide FindTwo;
    var saved := b.pos;
    tc2 := TryFindTwo(b, env, altEnd, endNext);
    if altEndNext.Some? {
      var _ := b.MoveTo(saved);
      var tc3 := TryFindTwo(b, env, altEnd, altEndNext.value);
      if tc3.Some? && (tc2.None? || |tc2.value.prelude| > |tc3.value.prelude|) { tc2 := tc3; }
    }
  }

  method TryFindClose(b: ChatMsgParser, env: Env, end: string, altEnd: Option<string>, endNext: string, altEndNext: Option<string>)
    returns (size: nat, tc: Option<Found>)
    requires Fits(b, env)
    modifies b`pos
    ensures Fits(b, env)
    ensures Close(size, tc) == FindClose(env, old(b.pos), end, altEnd, endNext, altEndNext)
    ensures b.pos == if tc.Some? then tc.value.end else old(b.pos)
  {
    hide Find, FindIn, FindTwo;
    var saved := b.pos;
    tc := SearchLiteral(b, env, end);
    size := |end|;
    if altEnd.Some? {
      var pos1 := b.pos;
      var _ := b.MoveTo(saved);
      var tc2 := TryAlternative(b, env, altEnd.value, endNext, altEndNext);
      if tc2.Some? && (tc.None? || |tc.value.prelude| > |tc2.value.prelude|) {
        tc := Some(tc2.value.(end := Min(|b.input|, tc2.value.begin + |altEnd.value|)));
        var _ := b.MoveTo(tc.value.end);
        size := |altEnd.value|;
      } else {
        var _ := b.MoveTo(pos1);
      }
    }
  }

  // --------------------------------------------------------------------------------- arguments

  /** The lambda `gen_partial_json`, after the partial argument has been set. */
  method GenPartialJson(b: ChatMsgParser, name: string, args: seq<Arg>) returns (h: Halt)
    requires b.Valid()
    modifies b
    ensures b.Valid() && h == GenPartial(name, args) && OnlyAdds(b, Added(h))
  {
    hide CutAtFlag, Dump;
    var _ := b.ConsumeRest();
    h := Unfinished([]);
    var cut := CutAtFlag(Dump(args));
    if cut.Some? {
      var ok := b.AddToolCall(name, "", cut.value);
      if ok { h := Unfinished([ToolCall(name, cut.value, "")]); }
    }
  }

  method ParsePlainValue(b: ChatMsgParser, env: Env, form: Form, name: string, args: seq<Arg>, key: string) returns (r: ArgStep)
    requires Fits(b, env)
    modifies b
    ensures Fits(b, env) && r == PlainValue(env, form, name, args, key, old(b.pos))
    ensures OnlyAdds(b, AddedBy(r)) && (r.Next? ==> b.pos == r.pos)
  {
    hide Find, FindClose, Strip, SetArg, GenPartial, Utf8.TruncateSafe;
    var size, tc := TryFindClose(b, env, form.valEnd, form.lastValEnd, form.toolEnd, form.lastToolEnd);
    if tc.Some? {
      var text := tc.value.prelude;
      if form.trimRawArgval { text := StringStrip(text); }
      if tc.value.end - tc.value.begin != size {
        var h := GenPartialJson(b, name, SetArg(args, key, Text(text + FLAG)));
        return Halted(h);
      }
      r := Next(b.pos, SetArg(args, key, Text(text)));
    } else {
      var rest := b.ConsumeRest();
      var cut := Utf8.Utf8TruncateSafe(rest);
      rest := rest[..cut];
      if form.trimRawArgval { rest := StringStrip(rest); }
      var h := GenPartialJson(b, name, SetArg(args, key, Text(rest + FLAG)));
      r := Halted(h);
    }
  }

  method ParseJsonToTheEnd(b: ChatMsgParser, form: Form, name: string, args: seq<Arg>, key: string, v: JsonTry) returns (h: Halt)
    requires b.Valid() && v.Json?
    modifies b
    ensures b.Valid() && h == JsonToTheEnd(form, name, args, key, v) && OnlyAdds(b, Added(h))
  {
    hide SetArg, Dump, GenPartial, FindLast;
    if form.rawArgval == Some(false) && v.structured {
      var text := Dump(SetArg(args, key, Raw(v.dump)));
      if v.dumpMarker != "" {
        var p := FindLast(text, v.dumpMarker, |text|);
        if p.None? { return Abort; }
        text := text[..p.value];
      } else {
        text := text[..|text| - 1];
      }
      var _ := b.AddToolCall(name, "", text);
      h := Unfinished(Call(name, text));
    } else {
      h := GenPartialJson(b, name, SetArg(args, key, Text(FLAG)));
    }
  }

  method ParseJsonValue(b: ChatMsgParser, env: Env, form: Form, name: string, args: seq<Arg>, key: string, valStart: nat, v: JsonTry)
    returns (r: ArgStep)
    requires Fits(b, env) && v.Json? && valStart <= v.end == b.pos
    modifies b
    ensures Fits(b, env) && r == JsonValue(env, form, name, args, key, valStart, v)
    ensures OnlyAdds(b, AddedBy(r)) && (r.Next? ==> b.pos == r.pos)
  {
    hide Find, FindClose, SetArg, GenPartial, PlainValue, JsonToTheEnd, SkipSpaces;
    var jsonEnd := b.pos;
    var _ := b.ConsumeSpaces();
    if b.pos == |b.input| {
      var h := ParseJsonToTheEnd(b, form, name, args, key, v);
      return Halted(h);
    }
    var _ := b.MoveTo(jsonEnd);
    var size, tc := TryFindClose(b, env, form.valEnd, form.lastValEnd, form.toolEnd, form.lastToolEnd);
    if tc.Some? && AllSpace(tc.value.prelude) && !v.healed {
      if tc.value.end - tc.value.begin != size {
        var h := GenPartialJson(b, name, SetArg(args, key, Text(FLAG)));
        return Halted(h);
      }
      return Next(b.pos, SetArg(args, key, Raw(v.dump)));
    }
    var _ := b.MoveTo(valStart);
    r := ParsePlainValue(b, env, form, name, args, key);
  }

  method ParseArgValue(b: ChatMsgParser, env: Env, form: Form, name: string, args: seq<Arg>, key: string) returns (r: ArgStep)
    requires Fits(b, env)
    modifies b
    ensures Fits(b, env) && r == ArgValue(env, form, name, args, key, old(b.pos))
    ensures OnlyAdds(b, AddedBy(r)) && (r.Next? ==> b.pos == r.pos)
  {
    hide PlainValue, JsonValue, SkipSpaces, Utf8.TruncateSafe, MaybeNumber;
    var valStart := b.pos;
    if form.rawArgval != Some(true) {
      var v := env.json(valStart);
      if v.Json? {
        var _ := b.MoveTo(v.end);
      } else if v.JsonFails? {
        return Halted(JsonError);
      } else {
        var _ := b.ConsumeSpaces();
        var cut := Utf8.Utf8TruncateSafe(b.input);
        if b.pos > cut { return Halted(Abort); }
        var view := b.input[b.pos..cut];
        var rest := "a";
        if |view| < 6 { rest := view; }
        if rest <= "null" || rest <= "true" || rest <= "false" || MaybeNumber(view) {
          v := Json("123", false, |b.input|, true, "123");
          var _ := b.ConsumeRest();
        } else {
          var _ := b.MoveTo(valStart);
        }
      }
      if v.Json? {
        r := ParseJsonValue(b, env, form, name, args, key, valStart, v);
        return;
      }
    }
    r := ParsePlainValue(b, env, form, name, args, key);
  }

  method ParseAfterKey(b: ChatMsgParser, env: Env, form: Form, name: string, args: seq<Arg>, key: string) returns (r: ArgStep)
    requires Fits(b, env)
    modifies b
    ensures Fits(b, env) && r == ArgAfterKey(env, form, name, args, key, old(b.pos))
    ensures OnlyAdds(b, AddedBy(r)) && (r.Next? ==> b.pos == r.pos)
  {
    hide Find, ArgValue, SetArg, GenPartial;
    if form.keyValSep2.Some? {
      var tc := b.TryFindLiteral(form.keyValSep2.value);
      if tc.Some? {
        if !AllSpace(tc.value.prelude) { return Halted(BadSyntax); }
        if tc.value.end - tc.value.begin != |form.keyValSep2.value| {
          var h := GenPartialJson(b, name, SetArg(args, key, Text(FLAG)));
          return Halted(h);
        }
      } else {
        var h := GenPartialJson(b, name, SetArg(args, key, Text(FLAG)));
        return Halted(h);
      }
    }
    r := ParseArgValue(b, env, form, name, args, key);
  }

  /** The body of the loop over key/value pairs. */
  method ParseOneArg(b: ChatMsgParser, env: Env, form: Form, name: string, args: seq<Arg>) returns (r: ArgStep)
    requires Fits(b, env) && form.Valid()
    modifies b
    ensures Fits(b, env) && r == ParseArg(env, form, name, args, old(b.pos))
    ensures OnlyAdds(b, AddedBy(r)) && (r.Next? ==> b.pos == r.pos) && (r.NoMore? ==> b.pos == old(b.pos))
  {
    hide Find, ArgAfterKey, SetArg, GenPartial, Dump, OpenDump, Utf8.TruncateSafe;
    var tc := b.TryFindLiteral(form.keyStart);
    if tc.None? { return NoMore; }
    if !AllSpace(tc.value.prelude) {
      var _ := b.MoveTo(tc.value.begin - |tc.value.prelude|);
      return NoMore;
    }
    if tc.value.end - tc.value.begin != |form.keyStart| {
      var _ := b.AddToolCall(name, "", OpenDump(args));
      return Halted(Unfinished(Call(name, OpenDump(args))));
    }
    var keyRes := b.TryFindLiteral(form.keyValSep);
    if keyRes.None? {
      var rest := b.ConsumeRest();
      var cut := Utf8.Utf8TruncateSafe(rest);
      var h := GenPartialJson(b, name, SetArg(args, rest[..cut] + FLAG, Text("")));
      return Halted(h);
    }
    var key := keyRes.value.prelude;
    if keyRes.value.end - keyRes.value.begin != |form.keyValSep| {
      var h := GenPartialJson(b, name, SetArg(args, key + FLAG, Text("")));
      return Halted(h);
    }
    r := ParseAfterKey(b, env, form, name, args, key);
  }

  /** The loop over key/value pairs; `keys` says that there was one. */
  method ParseAllArgs(b: ChatMsgParser, env: Env, form: Form, name: string) returns (r: ArgStep, keys: bool)
    requires Fits(b, env) && form.Valid()
    modifies b
    ensures Fits(b, env) && r == ParseArgs(env, form, name, [], old(b.pos))
    ensures OnlyAdds(b, AddedBy(r)) && (r.Next? ==> b.pos == r.pos && keys == (b.pos != old(b.pos)))
  {
    hide ParseArg;
    var args: seq<Arg> := [];
    keys := false;
    while true
      invariant Fits(b, env) && old(b.pos) <= b.pos && b.result == old(b.result)
      invariant keys == (b.pos != old(b.pos))
      invariant ParseArgs(env, form, name, [], old(b.pos)) == ParseArgs(env, form, name, args, b.pos)
      decreases |b.input| - b.pos
    {
      var step := ParseOneArg(b, env, form, name, args);
      match step
      case NoMore => return Next(b.pos, args), keys;
      case Next(_, args') => args, keys := args', true;
      case Halted(h) => return step, keys;
    }
  }

  // -------------------------------------------------------------------------------- tool calls

  method ParseName(b: ChatMsgParser, env: Env, form: Form) returns (r: NameStep)
    requires Fits(b, env)
    modifies b`pos
    ensures Fits(b, env) && r == FindName(env, form, old(b.pos))
  {
    hide Find, FindClose;
    var pos := b.pos;
    var found := b.TryFindLiteral(if AllSpace(form.toolSep) then form.keyStart else form.toolSep);
    if found.None? {
      var _, tc := TryFindClose(b, env, form.toolEnd, form.lastToolEnd, form.scopeEnd, None);
      found := tc;
    }
    if found.None? { return NoName(Unfinished([])); }
    if Find(found.value.prelude, form.toolEnd, 0).Some? ||
       (form.lastToolEnd.Some? && Find(found.value.prelude, form.lastToolEnd.value, 0).Some?) {
      var _ := b.MoveTo(found.value.begin - |found.value.prelude|);
      var _, tc := TryFindClose(b, env, form.toolEnd, form.lastToolEnd, form.scopeEnd, None);
      if tc.None? { return NoName(Abort); }
      found := tc;
    }
    r := NameAt(found.value);
  }

  /** The end of a tool call: the complete call is added, or a partial one. */
  method EndTool(b: ChatMsgParser, env: Env, form: Form, name: string, args: seq<Arg>, keys: bool) returns (r: ToolStep)
    requires Fits(b, env) && form.Valid()
    modifies b
    ensures Fits(b, env) && r == ParseToolEnd(env, form, name, args, old(b.pos), keys)
    ensures OnlyAdds(b, match r case Tool(_, call) => [call] case ToolHalted(h) => Added(h) case _ => [])
    ensures r.Tool? ==> b.pos == r.end
  {
    hide Find, FindClose, Dump, OpenDump;
    var size, tc := TryFindClose(b, env, form.toolEnd, form.lastToolEnd, form.scopeEnd, None);
    if tc.Some? {
      if !AllSpace(tc.value.prelude) { return BadEnd(keys); }
      if tc.value.end - tc.value.begin == size {
        var ok := b.AddToolCall(name, "", Dump(args));
        if !ok { return ToolHalted(Unfinished([])); }
        return Tool(b.pos, ToolCall(name, Dump(args), ""));
      }
    }
    var _ := b.AddToolCall(name, "", OpenDump(args));
    r := ToolHalted(Unfinished(Call(name, OpenDump(args))));
  }

  /** The body of the loop over tool calls, after the literal that begins one; a complete call is added. */
  method ParseOneTool(b: ChatMsgParser, env: Env, form: Form) returns (r: ToolStep)
    requires Fits(b, env) && form.Valid()
    modifies b
    ensures Fits(b, env) && r == ParseTool(env, form, old(b.pos))
    ensures OnlyAdds(b, match r case Tool(_, call) => [call] case ToolHalted(h) => Added(h) case _ => [])
    ensures r.Tool? ==> b.pos == r.end
  {
    hide Find, FindName, ParseArgs, ParseToolEnd, KimiName, Strip;
    var found := ParseName(b, env, form);
    if found.NoName? { return ToolHalted(found.why); }
    var f := found.found;
    var _ := b.MoveTo(if AllSpace(form.toolSep) then f.begin else f.end);
    var name := StringStrip(f.prelude);
    if env.kimi { name := KimiName(name); }
    var step, keys := ParseAllArgs(b, env, form, name);
    if step.Halted? { return ToolHalted(step.halt); }
    var args := step.args;
    r := EndTool(b, env, form, name, args, keys);
  }

  method ParseEndOfScope(b: ChatMsgParser, env: Env, form: Form, start: nat, recovery: bool) returns (r: Outcome)
    requires Fits(b, env) && start <= b.pos
    modifies b`pos
    ensures Fits(b, env) && r == ParseScopeEnd(env, form, start, old(b.pos), b.result.toolCalls, recovery)
    ensures r.Returns? ==> b.pos == r.pos
  {
    hide Find, SkipSpaces;
    var calls := b.result.toolCalls;
    var tc := b.TryFindLiteral(form.scopeEnd);
    if tc.Some? {
      if AllSpace(tc.value.prelude) { return Returns(true, b.pos, calls); }
    } else {
      if AllSpace(form.scopeEnd) { return Returns(true, b.pos, calls); }
      var _ := b.ConsumeSpaces();
      if b.pos == |b.input| { return ThrowsPartial(calls); }
    }
    if recovery { var _ := b.MoveTo(start); }
    r := ReturnError(start, calls, recovery);
  }

  lemma ToolsTurn(env: Env, form: Form, start: nat, pos: nat, calls: seq<ToolCall>, recovery: bool)
    requires env.Valid() && form.Valid() && start <= pos <= |env.input|
    ensures var f := FindIn(env, pos, form.toolStart);
            ParseTools(env, form, start, pos, calls, recovery) ==
              if f.None? || !AllSpace(f.value.prelude) then ParseScopeEnd(env, form, start, pos, calls, recovery)
              else
                match ParseTool(env, form, f.value.end)
                case Tool(end, call) => ParseTools(env, form, start, end, calls + [call], false)
                case BadEnd(keys) => ReturnError(start, calls, recovery && !keys)
                case ToolHalted(h) => EndWith(calls, h)
  {
    hide FindIn, ParseTool, ParseScopeEnd, ReturnError, EndWith, AllSpace;
  }

  method ParseXmlToolCalls(b: ChatMsgParser, env: Env, form: Form) returns (r: Outcome)
    requires Fits(b, env) && form.Valid()
    modifies b
    ensures Fits(b, env) && r == ParseXml(env, form, old(b.pos), old(b.result.toolCalls))
    ensures b.result == old(b.result).(toolCalls := r.calls)
    ensures r.Returns? ==> b.pos == r.pos
  {
    hide Find, FindIn, ParseTool, ParseTools, ParseScopeEnd;
    var recovery := true;
    var start := b.pos;
    if !AllSpace(form.scopeStart) {
      var tc := SearchLiteral(b, env, form.scopeStart);
      if tc.None? { return Returns(false, start, b.result.toolCalls); }
      if !AllSpace(tc.value.prelude) {
        var _ := b.MoveTo(start);
        return Returns(false, start, b.result.toolCalls);
      }
      if |form.scopeStart| != tc.value.end - tc.value.begin { return ThrowsPartial(b.result.toolCalls); }
    }
    while true
      invariant Fits(b, env) && start <= b.pos
      invariant b.result == old(b.result).(toolCalls := b.result.toolCalls)
      invariant ParseXml(env, form, start, old(b.result.toolCalls)) == ParseTools(env, form, start, b.pos, b.result.toolCalls, recovery)
      decreases |b.input| - b.pos
    {
      ToolsTurn(env, form, start, b.pos, b.result.toolCalls, recovery);
      var tc := SearchLiteral(b, env, form.toolStart);
      if tc.None? { break; }
      if !AllSpace(tc.value.prelude) {
        var _ := b.MoveTo(tc.value.begin - |tc.value.prelude|);
        break;
      }
      var step := ParseOneTool(b, env, form);
      match step
      case Tool(_, _) => recovery := false;
      case BadEnd(keys) =>
        recovery := recovery && !keys;
        if recovery { var _ := b.MoveTo(start); }
        return ReturnError(start, b.result.toolCalls, recovery);
      case ToolHalted(h) =>
        return match h
          case BadSyntax => ThrowsSyntax(b.result.toolCalls)
          case Unfinished(_) => ThrowsPartial(b.result.toolCalls)
          case JsonError => ThrowsJson(b.result.toolCalls)
          case Abort => Aborts(b.result.toolCalls);
    }
    r := ParseEndOfScope(b, env, form, start, recovery);
  }

  /** When the answer is false the message parser is as it was: cursor, content, reasoning and tool calls. */
  method TryConsumeXmlToolCalls(b: ChatMsgParser, env: Env, form: Form) returns (r: Outcome)
    requires Fits(b, env) && form.Valid()
    modifies b
    ensures Fits(b, env) && r == TryConsume(env, form, old(b.pos), old(b.result.toolCalls))
    ensures b.result == old(b.result).(toolCalls := r.calls)
    ensures r.Returns? ==> b.pos == r.pos
    ensures r.Returns? && !r.ok ==> b.pos == old(b.pos) && b.result == old(b.result)
  {
    hide ParseXml;
    var pos, size := b.pos, |b.result.toolCalls|;
    r := ParseXmlToolCalls(b, env, form);
    if r.ThrowsSyntax? {
      var _ := b.MoveTo(pos);
      b.result := b.result.(toolCalls := b.result.toolCalls[..size]);
      r := Returns(false, pos, b.result.toolCalls);
    }
    Transactional(env, form, pos, old(b.result.toolCalls));
  }
}
