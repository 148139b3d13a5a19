/** The backtracking parser for XML-style tool calls (`parse_xml_tool_calls` and
    `try_consume_xml_tool_calls` in `common/chat-parser-xml-toolcall.cpp`) as functions of the text,
    the cursor and the tool calls added so far. */
module XmlToolCalls {
  import opened Chars
  import opened Wrappers
  import opened Strings
  import opened ChatParser
  import Utf8

  /** `xml_tool_call_format`. */
  datatype Form = Form(
    scopeStart: string, toolStart: string, toolSep: string, keyStart: string, keyValSep: string,
    valEnd: string, toolEnd: string, scopeEnd: string,
    keyValSep2: Option<string>, rawArgval: Option<bool>,
    lastValEnd: Option<string>, lastToolEnd: Option<string>, trimRawArgval: bool)
  {
    /** The assertions at the head of the parser. */
    predicate Valid() {
      toolStart != "" && keyStart != "" && keyValSep != "" && valEnd != "" && toolEnd != ""
    }
  }

  /** What `try_consume_json` finds at a position: nothing (an exception of the healer is caught and counts as
      nothing), an exception of the library, which is not caught, or a value with its dump, the position after it, and
      the marker when it was truncated and healed. */
  datatype JsonTry =
    | NoJson
    | JsonFails
    | Json(dump: string, structured: bool, end: nat, healed: bool, dumpMarker: string)

  datatype Env = Env(input: string, partial: bool, kimi: bool, json: nat -> JsonTry) {
    ghost predicate Valid() {
      forall p: nat :: p <= |input| && json(p).Json? ==> p < json(p).end <= |input|
    }
  }

  /** `try_find_literal` at a position. */
  function FindIn(env: Env, pos: nat, literal: string): (r: Option<Found>)
    requires pos <= |env.input|
    ensures r.Some? ==> FoundFrom(env.input, pos, r.value)
    ensures r.Some? && literal != "" ==> r.value.begin < r.value.end
  {
    FindLiteral(env.input, env.partial, pos, literal)
  }

  // ------------------------------------------------------------------------- arguments

  /** A JSON string, or a JSON value known by its dump. */
  datatype Value = Text(text: string) | Raw(dump: string)

  datatype Arg = Arg(key: string, value: Value)

  /** `arguments[key] = value` on an object that keeps its keys in the order of insertion. */
  function SetArg(args: seq<Arg>, key: string, value: Value): seq<Arg> {
    if args == [] then [Arg(key, value)]
    else if args[0].key == key then [Arg(key, value)] + args[1..]
    else [args[0]] + SetArg(args[1..], key, value)
  }

  const HEX := "0123456789abcdef"

  function EscapeChar(c: char): (r: string)
    ensures r != ""
  {
    if c == '"' then "\\\""
    else if c == '\\' then "\\\\"
    else if c as int == 8 then "\\b"
    else if c as int == 9 then "\\t"
    else if c as int == 10 then "\\n"
    else if c as int == 12 then "\\f"
    else if c as int == 13 then "\\r"
    else if c as int < 32 then "\\u00" + [HEX[c as int / 16], HEX[c as int % 16]]
    else [c]
  }

  function Escape(s: string): string {
    if s == "" then "" else EscapeChar(s[0]) + Escape(s[1..])
  }

  function DumpValue(v: Value): string {
    match v case Text(s) => "\"" + Escape(s) + "\"" case Raw(dump) => dump
  }

  function DumpArg(a: Arg): string {
    "\"" + Escape(a.key) + "\":" + DumpValue(a.value)
  }

  function DumpMembers(args: seq<Arg>): string
    decreases |args|
  {
    if args == [] then ""
    else if |args| == 1 then DumpArg(args[0])
    else DumpMembers(args[..|args| - 1]) + "," + DumpArg(args[|args| - 1])
  }

  /** `arguments.dump()`. */
  function Dump(args: seq<Arg>): (r: string)
    ensures r != "" && r[|r| - 1] == '}'
  {
    "{" + DumpMembers(args) + "}"
  }

  /** The dump without its closing brace. */
  function OpenDump(args: seq<Arg>): string {
    var d := Dump(args);
    d[..|d| - 1]
  }

  const FLAG := "XML_TOOL_CALL_PARTIAL_FLAG"

  /** `rfind`: the last occurrence that begins at or before `from`. */
  function FindLast(s: string, pat: string, from: nat): (r: Option<nat>)
    ensures r.Some? ==> r.value <= from && OccursAt(s, pat, r.value)
    decreases from
  {
    if OccursAt(s, pat, from) then Some(from) else if from == 0 then None else FindLast(s, pat, from - 1)
  }

  predicate ClosingOnly(s: string) {
    forall i :: 0 <= i < |s| ==> s[i] in {'\'', '"', '}', ':'} || IsSpace(s[i])
  }

  /** The lambda `partial_json`. */
  function CutAtFlag(json: string): (r: Option<string>) {
    match FindLast(json, FLAG, |json|)
    case None => None
    case Some(p) =>
      if !ClosingOnly(json[p + |FLAG|..]) then None
      else Some(json[..if p != 0 && json[p - 1] == '"' then p - 1 else p])
  }

  // -------------------------------------------------------------------------- the steps

  /** Why a parse ends early: the syntax exception, the exception for a text that may still go on, after it has
      `added` a partial call, an exception of the JSON library, or a failed assertion (an empty optional is
      dereferenced, or a slice is out of range). */
  datatype Halt = BadSyntax | Unfinished(added: seq<ToolCall>) | JsonError | Abort

  function Call(name: string, arguments: string): (r: seq<ToolCall>)
    ensures |r| <= 1
  {
    if name == "" then [] else [ToolCall(name, arguments, "")]
  }

  /** `gen_partial_json`. */
  function GenPartial(name: string, args: seq<Arg>): Halt {
    match CutAtFlag(Dump(args))
    case None => Unfinished([])
    case Some(text) => Unfinished(Call(name, text))
  }

  /** `try_find_2_literal_splited_by_spaces` for a non-empty first literal. */
  function FindTwoFrom(env: Env, saved: nat, pos: nat, first: string, second: string): (r: Option<Found>)
    requires saved <= pos <= |env.input| && first != ""
    ensures r.Some? ==> FoundFrom(env.input, saved, r.value) && r.value.begin < r.value.end
    decreases |env.input| - pos
  {
    match FindIn(env, pos, first)
    case None => None
    case Some(f) =>
      var at := SkipSpaces(env.input, f.end);
      if MeetsTag(env.input, at, second) then
        Some(Found(env.input[saved..f.begin], f.begin, at + Min(|second|, |env.input| - at)))
      else FindTwoFrom(env, saved, f.begin + 1, first, second)
  }

  function FindTwo(env: Env, pos: nat, first: string, second: string): (r: Option<Found>)
    requires pos <= |env.input|
    ensures r.Some? ==> FoundFrom(env.input, pos, r.value)
  {
    if first == "" then FindIn(env, pos, second) else FindTwoFrom(env, pos, pos, first, second)
  }

  function Nearer(a: Option<Found>, b: Option<Found>): Option<Found> {
    if b.Some? && (a.None? || |a.value.prelude| > |b.value.prelude|) then b else a
  }

  datatype Close = Close(size: nat, found: Option<Found>)

  /** `try_find_close`: the closing literal, or the alternative one when it comes first and is followed by
      the next closing literal. */
  function FindClose(env: Env, pos: nat, end: string, altEnd: Option<string>, endNext: string, altEndNext: Option<string>): (r: Close)
    requires pos <= |env.input|
    ensures r.found.Some? ==> FoundFrom(env.input, pos, r.found.value)
  {
    var tc := FindIn(env, pos, end);
    if altEnd.None? then Close(|end|, tc)
    else
      var tc2 := FindTwo(env, pos, altEnd.value, endNext);
      var tc3 := if altEndNext.Some? then Nearer(tc2, FindTwo(env, pos, altEnd.value, altEndNext.value)) else tc2;
      if tc3.Some? && (tc.None? || |tc.value.prelude| > |tc3.value.prelude|) then
        var f := tc3.value;
        Close(|altEnd.value|, Some(Found(f.prelude, f.begin, Min(|env.input|, f.begin + |altEnd.value|))))
      else Close(|end|, tc)
  }

  function FindValEnd(env: Env, form: Form, pos: nat): (r: Close)
    requires pos <= |env.input|
    ensures r.found.Some? ==> FoundFrom(env.input, pos, r.found.value)
  {
    FindClose(env, pos, form.valEnd, form.lastValEnd, form.toolEnd, form.lastToolEnd)
  }

  function FindToolEnd(env: Env, form: Form, pos: nat): (r: Close)
    requires pos <= |env.input|
    ensures r.found.Some? ==> FoundFrom(env.input, pos, r.found.value)
  {
    FindClose(env, pos, form.toolEnd, form.lastToolEnd, form.scopeEnd, None)
  }

  /** One turn of a loop over arguments or tool calls. */
  datatype ArgStep = NoMore | Next(pos: nat, args: seq<Arg>) | Halted(halt: Halt)

  predicate Whole(f: Found, size: nat)
    requires f.begin <= f.end
  {
    f.end - f.begin == size
  }

  /** The characters that `[0-9-][0-9]*(\.\d*)?([eE][+-]?\d*)?` matches. */
  predicate MaybeNumber(s: string) {
    && s != "" && (s[0] == '-' || IsDigit(s[0]))
    && var i := SkipDigits(s, 1);
       var j := if i < |s| && s[i] == '.' then SkipDigits(s, i + 1) else i;
       var k := if j < |s| && s[j] in {'e', 'E'} then
                  SkipDigits(s, if j + 1 < |s| && s[j + 1] in {'+', '-'} then j + 2 else j + 1)
                else j;
       k == |s|
  }

  function SkipDigits(s: string, i: nat): (r: nat)
    requires i <= |s|
    ensures i <= r <= |s|
    decreases |s| - i
  {
    if i < |s| && IsDigit(s[i]) then SkipDigits(s, i + 1) else i
  }

  /** A value that may be the beginning of a top-level literal or number; `None` when the view is out of range. */
  function MaybePrimitive(env: Env, valStart: nat): Option<bool>
    requires valStart <= |env.input|
  {
    var at := SkipSpaces(env.input, valStart);
    var cut := Utf8.TruncateSafe(env.input);
    if at > cut then None
    else
      var view := env.input[at..cut];
      var rest := if |view| < 6 then view else "a";
      Some(rest <= "null" || rest <= "true" || rest <= "false" || MaybeNumber(view))
  }

  /** The value that begins at `valStart`, read as plain text. */
  function PlainValue(env: Env, form: Form, name: string, args: seq<Arg>, key: string, valStart: nat): (r: ArgStep)
    requires valStart <= |env.input|
    ensures !r.NoMore? && (r.Next? ==> valStart <= r.pos <= |env.input|)
  {
    var close := FindValEnd(env, form, valStart);
    match close.found
    case Some(f) =>
      var text := if form.trimRawArgval then Strip(f.prelude) else f.prelude;
      if !Whole(f, close.size) then Halted(GenPartial(name, SetArg(args, key, Text(text + FLAG))))
      else Next(f.end, SetArg(args, key, Text(text)))
    case None =>
      var rest := env.input[valStart..];
      var cut := rest[..Utf8.TruncateSafe(rest)];
      Halted(GenPartial(name, SetArg(args, key, Text((if form.trimRawArgval then Strip(cut) else cut) + FLAG))))
  }

  /** A JSON value that the text may still continue. */
  function JsonToTheEnd(form: Form, name: string, args: seq<Arg>, key: string, v: JsonTry): Halt
    requires v.Json?
  {
    if form.rawArgval == Some(false) && v.structured then
      var text := Dump(SetArg(args, key, Raw(v.dump)));
      if v.dumpMarker == "" then Unfinished(Call(name, text[..|text| - 1]))
      else
        match FindLast(text, v.dumpMarker, |text|)
        case None => Abort
        case Some(p) => Unfinished(Call(name, text[..p]))
    else GenPartial(name, SetArg(args, key, Text(FLAG)))
  }

  /** The value that begins at `valStart`, when `v` was found there as JSON. */
  function JsonValue(env: Env, form: Form, name: string, args: seq<Arg>, key: string, valStart: nat, v: JsonTry): (r: ArgStep)
    requires v.Json? && valStart <= v.end <= |env.input|
    ensures !r.NoMore? && (r.Next? ==> valStart <= r.pos <= |env.input|)
  {
    if SkipSpaces(env.input, v.end) == |env.input| then Halted(JsonToTheEnd(form, name, args, key, v))
    else
      var close := FindValEnd(env, form, v.end);
      if close.found.Some? && AllSpace(close.found.value.prelude) && !v.healed then
        if !Whole(close.found.value, close.size) then Halted(GenPartial(name, SetArg(args, key, Text(FLAG))))
        else Next(close.found.value.end, SetArg(args, key, Raw(v.dump)))
      else PlainValue(env, form, name, args, key, valStart)
  }

  function ArgValue(env: Env, form: Form, name: string, args: seq<Arg>, key: string, valStart: nat): (r: ArgStep)
    requires env.Valid() && valStart <= |env.input|
    ensures !r.NoMore? && (r.Next? ==> valStart <= r.pos <= |env.input|)
  {
    if form.rawArgval == Some(true) then PlainValue(env, form, name, args, key, valStart)
    else
      var v := env.json(valStart);
      if v.Json? then JsonValue(env, form, name, args, key, valStart, v)
      else if v.JsonFails? then Halted(JsonError)
      else
        match MaybePrimitive(env, valStart)
        case None => Halted(Abort)
        case Some(true) => JsonValue(env, form, name, args, key, valStart, Json("123", false, |env.input|, true, "123"))
        case Some(false) => PlainValue(env, form, name, args, key, valStart)
  }

  /** Between the key and the value there may be a second separator. */
  function ArgAfterKey(env: Env, form: Form, name: string, args: seq<Arg>, key: string, pos: nat): (r: ArgStep)
    requires env.Valid() && pos <= |env.input|
    ensures !r.NoMore? && (r.Next? ==> pos <= r.pos <= |env.input|)
  {
    if form.keyValSep2.None? then ArgValue(env, form, name, args, key, pos)
    else
      match FindIn(env, pos, form.keyValSep2.value)
      case None => Halted(GenPartial(name, SetArg(args, key, Text(FLAG))))
      case Some(f) =>
        if !AllSpace(f.prelude) then Halted(BadSyntax)
        else if !Whole(f, |form.keyValSep2.value|) then Halted(GenPartial(name, SetArg(args, key, Text(FLAG))))
        else ArgValue(env, form, name, args, key, f.end)
  }

  /** One turn of the loop over key/value pairs. */
  function ParseArg(env: Env, form: Form, name: string, args: seq<Arg>, pos: nat): (r: ArgStep)
    requires env.Valid() && form.Valid() && pos <= |env.input|
    ensures r.Next? ==> pos < r.pos <= |env.input|
  {
    match FindIn(env, pos, form.keyStart)
    case None => NoMore
    case Some(f) =>
      if !AllSpace(f.prelude) then NoMore
      else if !Whole(f, |form.keyStart|) then Halted(Unfinished(Call(name, OpenDump(args))))
      else
        match FindIn(env, f.end, form.keyValSep)
        case None =>
          var rest := env.input[f.end..];
          Halted(GenPartial(name, SetArg(args, rest[..Utf8.TruncateSafe(rest)] + FLAG, Text(""))))
        case Some(k) =>
          if !Whole(k, |form.keyValSep|) then Halted(GenPartial(name, SetArg(args, k.prelude + FLAG, Text(""))))
          else ArgAfterKey(env, form, name, args, k.prelude, k.end)
  }

  /** The loop over key/value pairs. A halt with the syntax exception comes only after a key was read. */
  function ParseArgs(env: Env, form: Form, name: string, args: seq<Arg>, pos: nat): (r: ArgStep)
    requires env.Valid() && form.Valid() && pos <= |env.input|
    ensures !r.NoMore? && (r.Next? ==> pos <= r.pos <= |env.input|)
    decreases |env.input| - pos
  {
    match ParseArg(env, form, name, args, pos)
    case NoMore => Next(pos, args)
    case Next(p, a) => ParseArgs(env, form, name, a, p)
    case Halted(h) => Halted(h)
  }

  // ---------------------------------------------------------------------------- one tool call

  /** The name of a Kimi-K2 call is written `functions.NAME:INDEX`. */
  function KimiName(name: string): string {
    if "functions." <= name then
      match FindLast(name, ":", |name|)
      case Some(c) => if c >= 10 && c + 1 < |name| && SkipDigits(name, c + 1) == |name| then name[10..c] else name
      case None => name
    else name
  }

  datatype NameStep = NameAt(found: Found) | NoName(why: Halt)

  /** Where the name ends: at the separator (or the first key, when the separator is blank), or else at the closing
      literal. A text before that literal which holds a closing literal means a call without arguments. */
  function FindName(env: Env, form: Form, pos: nat): (r: NameStep)
    requires pos <= |env.input|
    ensures r.NameAt? ==> FoundFrom(env.input, pos, r.found)
    ensures r.NoName? ==> r.why.Abort? || r.why == Unfinished([])
  {
    var first := FindIn(env, pos, if AllSpace(form.toolSep) then form.keyStart else form.toolSep);
    var found := if first.Some? then first else FindToolEnd(env, form, pos).found;
    if found.None? then NoName(Unfinished([]))
    else if Find(found.value.prelude, form.toolEnd, 0).Some? ||
            (form.lastToolEnd.Some? && Find(found.value.prelude, form.lastToolEnd.value, 0).Some?) then
      match FindToolEnd(env, form, pos).found
      case None => NoName(Abort)
      case Some(f) => NameAt(f)
    else NameAt(found.value)
  }

  function NameOf(env: Env, prelude: string): string {
    if env.kimi then KimiName(Strip(prelude)) else Strip(prelude)
  }

  /** `keys` says that an argument was read, after which the state can no longer be recovered. */
  datatype ToolStep =
    | NoTool
    | Tool(end: nat, call: ToolCall)
    | BadEnd(keys: bool)
    | ToolHalted(why: Halt)

  /** The rest of a turn of the loop over tool calls, after the literal that begins a call. */
  function ParseTool(env: Env, form: Form, pos: nat): (r: ToolStep)
    requires env.Valid() && form.Valid() && pos <= |env.input|
    ensures !r.NoTool? && (r.Tool? ==> pos <= r.end <= |env.input|)
  {
    match FindName(env, form, pos)
    case NoName(h) => ToolHalted(h)
    case NameAt(f) =>
      var name := NameOf(env, f.prelude);
      var from := if AllSpace(form.toolSep) then f.begin else f.end;
      match ParseArgs(env, form, name, [], from)
      case Halted(h) => ToolHalted(h)
      case Next(p, args) => ParseToolEnd(env, form, name, args, p, p != from)
  }

  function ParseToolEnd(env: Env, form: Form, name: string, args: seq<Arg>, pos: nat, keys: bool): (r: ToolStep)
    requires pos <= |env.input|
    ensures !r.NoTool? && (r.Tool? ==> pos <= r.end <= |env.input|)
  {
    var close := FindToolEnd(env, form, pos);
    if close.found.Some? && !AllSpace(close.found.value.prelude) then BadEnd(keys)
    else if close.found.Some? && Whole(close.found.value, close.size) then
      if name == "" then ToolHalted(Unfinished([]))
      else Tool(close.found.value.end, ToolCall(name, Dump(args), ""))
    else ToolHalted(Unfinished(Call(name, OpenDump(args))))
  }

  // ---------------------------------------------------------------------------- the whole

  /** How `parse_xml_tool_calls` ends: it returns true or false with a cursor, throws one of its two exceptions or
      passes on one of the JSON library, or fails an assertion; each with the tool calls of the message at that point. */
  datatype Outcome =
    | Returns(ok: bool, pos: nat, calls: seq<ToolCall>)
    | ThrowsSyntax(calls: seq<ToolCall>)
    | ThrowsPartial(calls: seq<ToolCall>)
    | ThrowsJson(calls: seq<ToolCall>)
    | Aborts(calls: seq<ToolCall>)

  /** `return_error`. */
  function ReturnError(start: nat, calls: seq<ToolCall>, recovery: bool): Outcome {
    if recovery then Returns(false, start, calls) else ThrowsSyntax(calls)
  }

  function EndWith(calls: seq<ToolCall>, h: Halt): (r: Outcome)
    ensures calls <= r.calls && !r.Returns?
  {
    match h
    case BadSyntax => ThrowsSyntax(calls)
    case Unfinished(added) => ThrowsPartial(calls + added)
    case JsonError => ThrowsJson(calls)
    case Abort => Aborts(calls)
  }

  function ParseScopeEnd(env: Env, form: Form, start: nat, pos: nat, calls: seq<ToolCall>, recovery: bool): (r: Outcome)
    requires start <= pos <= |env.input|
    ensures calls == r.calls
    ensures r.Returns? ==> start <= r.pos <= |env.input|
  {
    match FindIn(env, pos, form.scopeEnd)
    case Some(f) => if AllSpace(f.prelude) then Returns(true, f.end, calls) else ReturnError(start, calls, recovery)
    case None =>
      if AllSpace(form.scopeEnd) then Returns(true, pos, calls)
      else if SkipSpaces(env.input, pos) == |env.input| then ThrowsPartial(calls)
      else ReturnError(start, calls, recovery)
  }

  /** The loop over tool calls. `recovery` is still set only if no call has been added. */
  function ParseTools(env: Env, form: Form, start: nat, pos: nat, calls: seq<ToolCall>, recovery: bool): (r: Outcome)
    requires env.Valid() && form.Valid() && start <= pos <= |env.input|
    ensures calls <= r.calls
    ensures r.Returns? ==> start <= r.pos <= |env.input|
    decreases |env.input| - pos
  {
    match FindIn(env, pos, form.toolStart)
    case None => ParseScopeEnd(env, form, start, pos, calls, recovery)
    case Some(f) =>
      if !AllSpace(f.prelude) then ParseScopeEnd(env, form, start, pos, calls, recovery)
      else
        match ParseTool(env, form, f.end)
        case Tool(end, call) => ParseTools(env, form, start, end, calls + [call], false)
        case BadEnd(keys) => ReturnError(start, calls, recovery && !keys)
        case ToolHalted(h) => EndWith(calls, h)
  }

  /** `false` is answered only while the state can be recovered, and then nothing has been added. */
  lemma {:induction false} FalseOnlyWhenRecoverable(env: Env, form: Form, start: nat, pos: nat, calls: seq<ToolCall>, recovery: bool)
    requires env.Valid() && form.Valid() && start <= pos <= |env.input|
    ensures var r := ParseTools(env, form, start, pos, calls, recovery);
            r.Returns? && !r.ok ==> recovery && r.pos == start && r.calls == calls
    decreases |env.input| - pos
  {
    hide ParseTool;
    match FindIn(env, pos, form.toolStart)
    case None =>
    case Some(f) =>
      if AllSpace(f.prelude) {
        match ParseTool(env, form, f.end)
        case Tool(end, call) => FalseOnlyWhenRecoverable(env, form, start, end, calls + [call], false);
        case _ =>
      }
  }

  function ParseXml(env: Env, form: Form, start: nat, calls: seq<ToolCall>): (r: Outcome)
    requires env.Valid() && form.Valid() && start <= |env.input|
    ensures calls <= r.calls
    ensures r.Returns? ==> start <= r.pos <= |env.input|
  {
    if AllSpace(form.scopeStart) then ParseTools(env, form, start, start, calls, true)
    else
      match FindIn(env, start, form.scopeStart)
      case None => Returns(false, start, calls)
      case Some(f) =>
        if !AllSpace(f.prelude) then Returns(false, start, calls)
        else if !Whole(f, |form.scopeStart|) then ThrowsPartial(calls)
        else ParseTools(env, form, start, f.end, calls, true)
  }

  /** `try_consume_xml_tool_calls` catches the syntax exception, moves the cursor back and drops the added calls. */
  function TryConsume(env: Env, form: Form, start: nat, calls: seq<ToolCall>): (r: Outcome)
    requires env.Valid() && form.Valid() && start <= |env.input|
  {
    match ParseXml(env, form, start, calls)
    case ThrowsSyntax(c) => Returns(false, start, c[..|calls|])
    case other => other
  }

  /** TOOL-CALL PARSING IS TRANSACTIONAL. When it answers false, the cursor and the tool calls are those on entry;
      in every other case what was there on entry is kept, and only calls are added. */
  lemma Transactional(env: Env, form: Form, start: nat, calls: seq<ToolCall>)
    requires env.Valid() && form.Valid() && start <= |env.input|
    ensures var r := TryConsume(env, form, start, calls);
            && !r.ThrowsSyntax?
            && (r.Returns? && !r.ok ==> r.pos == start && r.calls == calls)
            && (r.Returns? ==> start <= r.pos <= |env.input|)
            && calls <= r.calls
  {
    hide ParseTools;
    if AllSpace(form.scopeStart) {
      FalseOnlyWhenRecoverable(env, form, start, start, calls, true);
    } else {
      match FindIn(env, start, form.scopeStart)
      case None =>
      case Some(f) => FalseOnlyWhenRecoverable(env, form, start, f.end, calls, true);
    }
  }
}
