/** When the tool-call parser fails an assertion: an empty optional is dereferenced, a view is cut out of range, or a
    marker is not found in the dump it was put into. */
module XmlAborts {
  import opened Chars
  import opened Wrappers
  import opened Strings
  import opened ChatParser
  import opened XmlToolCalls
  import opened XmlArguments
  import opened XmlRoundTrip
  import opened XmlForms
  import Utf8

  // ------------------------------------------------------------------------ the end of a name

  /** The literal that ends the name of a call, when there is no call without arguments before it. */
  function NameSearch(env: Env, form: Form, pos: nat): Option<Found>
    requires pos <= |env.input|
  {
    FindIn(env, pos, if AllSpace(form.toolSep) then form.keyStart else form.toolSep)
  }

  /** A closing literal inside the text that is searched is found there. */
  lemma FoundInside(env: Env, pos: nat, end: nat, d: string)
    requires pos <= end <= |env.input| && Find(env.input[pos..end], d, 0).Some?
    ensures FindIn(env, pos, d).Some?
  {
    hide Find;
    FindSpec(env.input[pos..end], d, 0);
    var i := Find(env.input[pos..end], d, 0).value;
    assert env.input[pos + i..pos + i + |d|] == env.input[pos..end][i..i + |d|];
    assert OccursAt(env.input, d, pos + i);
    FindSpec(env.input, d, pos);
  }

  /** THE EMPTY OPTIONAL, EXACTLY. It is dereferenced if and only if the text before the end of the name holds the
      alternative closing literal while no closing literal can be found. */
  lemma FindNameAborts(env: Env, form: Form, pos: nat)
    requires pos <= |env.input|
    ensures var first := NameSearch(env, form, pos);
            FindName(env, form, pos) == NoName(Abort) <==>
              && first.Some? && form.lastToolEnd.Some?
              && Find(first.value.prelude, form.lastToolEnd.value, 0).Some?
              && FindToolEnd(env, form, pos).found.None?
  {
    hide Find, FindTwoFrom, FindIn;
    var first := NameSearch(env, form, pos);
    if first.Some? && Find(first.value.prelude, form.toolEnd, 0).Some? {
      FoundInside(env, pos, first.value.begin, form.toolEnd);
    }
  }

  // -------------------------------------------------------------------------- the view of a value

  /** What is cut off at the end of a text is neither blank nor ASCII. */
  lemma {:induction false} CutIsHigh(s: string, back: nat)
    requires back <= 4 && back <= |s| && forall i :: |s| - back <= i < |s| ==> s[i] as int >= 0x80
    ensures forall i :: Utf8.Truncated(s, back) <= i < |s| ==> s[i] as int >= 0x80
    decreases 4 - back
  {
    if back < 4 && back < |s| && 0x80 <= s[|s| - 1 - back] as int < 0xC0 { CutIsHigh(s, back + 1); }
  }

  /** THE VIEW, EXACTLY. It is out of range if and only if the value begins behind the last whole character. */
  lemma ViewOutOfRange(env: Env, valStart: nat)
    requires valStart <= |env.input|
    ensures MaybePrimitive(env, valStart).None? <==> Utf8.TruncateSafe(env.input) < valStart
  {
    hide Utf8.Truncated, MaybeNumber;
    var s, cut := env.input, Utf8.TruncateSafe(env.input);
    SkipSpacesSpec(s, valStart);
    CutIsHigh(s, 0);
    if valStart <= cut < |s| { assert s[cut] as int >= 0x80; }
  }

  /** So it cannot be when the separator before the value ends with an ASCII character. */
  lemma ViewInRange(env: Env, valStart: nat)
    requires 0 < valStart <= |env.input| && env.input[valStart - 1] as int < 0x80
    ensures MaybePrimitive(env, valStart).Some?
  {
    ViewOutOfRange(env, valStart);
    hide Utf8.Truncated;
    CutIsHigh(env.input, 0);
  }

  // ------------------------------------------------------------------------------- the marker

  lemma {:induction false} FindLastSpec(s: string, pat: string, from: nat)
    ensures FindLast(s, pat, from).None? ==> forall j :: 0 <= j <= from ==> !OccursAt(s, pat, j)
    decreases from
  {
    hide OccursAt;
    if !OccursAt(s, pat, from) && from > 0 { FindLastSpec(s, pat, from - 1); }
  }

  /** THE MARKER, EXACTLY. The assertion fails if and only if the dump of the arguments does not hold the marker. */
  lemma MarkerLost(form: Form, name: string, args: seq<Arg>, key: string, v: JsonTry)
    requires v.Json?
    ensures JsonToTheEnd(form, name, args, key, v) == Abort <==>
              && form.rawArgval == Some(false) && v.structured && v.dumpMarker != ""
              && !Contains(Dump(SetArg(args, key, Raw(v.dump))), v.dumpMarker)
  {
    hide Dump, SetArg, FindLast, CutAtFlag;
    var text := Dump(SetArg(args, key, Raw(v.dump)));
    FindLastSpec(text, v.dumpMarker, |text|);
  }

  lemma ContainsWithin(a: string, s: string, b: string, pat: string)
    requires Contains(s, pat)
    ensures Contains(a + s + b, pat)
  {
    var i :| 0 <= i <= |s| && OccursAt(s, pat, i);
    assert (a + s + b)[|a| + i..|a| + i + |pat|] == s[i..i + |pat|];
    assert OccursAt(a + s + b, pat, |a| + i);
  }

  lemma {:induction false} MembersAround(args: seq<Arg>, i: nat) returns (a: string, b: string)
    requires i < |args|
    ensures DumpMembers(args) == a + DumpArg(args[i]) + b
    decreases |args|
  {
    hide DumpArg;
    var n := |args| - 1;
    if n == 0 {
      a, b := "", "";
    } else if i == n {
      a, b := DumpMembers(args[..n]) + ",", "";
    } else {
      a, b := MembersAround(args[..n], i);
      b := b + "," + DumpArg(args[n]);
    }
  }

  lemma {:induction false} SetArgHolds(args: seq<Arg>, key: string, value: Value) returns (i: nat)
    ensures i < |SetArg(args, key, value)| && SetArg(args, key, value)[i] == Arg(key, value)
  {
    if args == [] || args[0].key == key {
      i := 0;
    } else {
      var k := SetArgHolds(args[1..], key, value);
      i := k + 1;
    }
  }

  /** The dump of a value stands in the dump of the arguments. */
  lemma DumpAround(args: seq<Arg>, key: string, dump: string) returns (a: string, b: string)
    ensures Dump(SetArg(args, key, Raw(dump))) == a + dump + b
  {
    hide SetArg, Escape, DumpMembers;
    var all := SetArg(args, key, Raw(dump));
    var i := SetArgHolds(args, key, Raw(dump));
    a, b := MembersAround(all, i);
    a, b := "{" + a + ("\"" + Escape(key) + "\":"), b + "}";
  }

  /** A marker inside the dump of a value is inside the dump of the arguments. */
  lemma MarkerFound(args: seq<Arg>, key: string, dump: string, marker: string)
    requires Contains(dump, marker)
    ensures var text := Dump(SetArg(args, key, Raw(dump))); FindLast(text, marker, |text|).Some?
  {
    hide Contains, SetArg, FindLast, Dump;
    var a, b := DumpAround(args, key, dump);
    ContainsWithin(a, dump, b, marker);
    var text := Dump(SetArg(args, key, Raw(dump)));
    FindLastSpec(text, marker, |text|);
    OccursSomewhere(text, marker);
  }

  lemma OccursSomewhere(s: string, pat: string)
    requires Contains(s, pat)
    ensures exists j :: 0 <= j <= |s| && OccursAt(s, pat, j)
  {
  }

  // -------------------------------------------------------------------------------- the whole

  /** The literal that stands directly before a value. */
  function Separator(form: Form): string {
    if form.keyValSep2.Some? && form.keyValSep2.value != "" then form.keyValSep2.value else form.keyValSep
  }

  predicate AsciiEnd(s: string) {
    s != "" && s[|s| - 1] as int < 0x80
  }

  /** The value that begins at `p` reaches to the end of the text and does not hold its marker. */
  ghost predicate LosesMarker(env: Env, p: nat)
    requires env.Valid() && p <= |env.input|
  {
    && env.json(p).Json? && SkipSpaces(env.input, env.json(p).end) == |env.input|
    && env.json(p).structured && !Contains(env.json(p).dump, env.json(p).dumpMarker)
  }

  /** A healed value holds the marker that says where it was healed. */
  ghost predicate MarkersKept(env: Env)
    requires env.Valid()
  {
    forall p: nat :: p <= |env.input| ==> !LosesMarker(env, p)
  }

  /** What rules the failures out that have to do with values. */
  ghost predicate ValuesSafe(env: Env, form: Form)
    requires env.Valid()
  {
    form.rawArgval == Some(true) ||
    (AsciiEnd(Separator(form)) && (form.rawArgval == Some(false) ==> MarkersKept(env)))
  }

  lemma PlainHalts(env: Env, form: Form, name: string, args: seq<Arg>, key: string, valStart: nat)
    requires valStart <= |env.input|
    ensures PlainValue(env, form, name, args, key, valStart) != Halted(Abort)
  {
    hide FindValEnd, SetArg, Strip, Dump, CutAtFlag, Utf8.TruncateSafe;
  }

  lemma JsonHalts(env: Env, form: Form, name: string, args: seq<Arg>, key: string, valStart: nat, v: JsonTry)
    requires v.Json? && valStart <= v.end <= |env.input|
    requires form.rawArgval == Some(false) && v.structured && SkipSpaces(env.input, v.end) == |env.input| ==>
               Contains(v.dump, v.dumpMarker)
    ensures JsonValue(env, form, name, args, key, valStart, v) != Halted(Abort)
  {
    hide FindValEnd, SetArg, Dump, CutAtFlag, PlainValue, FindLast, Contains, SkipSpaces;
    PlainHalts(env, form, name, args, key, valStart);
    if form.rawArgval == Some(false) && v.structured && SkipSpaces(env.input, v.end) == |env.input| {
      MarkerFound(args, key, v.dump, v.dumpMarker);
    }
  }

  lemma ValueHalts(env: Env, form: Form, name: string, args: seq<Arg>, key: string, valStart: nat)
    requires env.Valid() && ValuesSafe(env, form) && 0 < valStart <= |env.input|
    requires AsciiEnd(Separator(form)) ==> env.input[valStart - 1] as int < 0x80
    ensures ArgValue(env, form, name, args, key, valStart) != Halted(Abort)
  {
    hide PlainValue, JsonValue, MaybePrimitive, Contains, SkipSpaces;
    PlainHalts(env, form, name, args, key, valStart);
    if form.rawArgval != Some(true) {
      ViewInRange(env, valStart);
      var v := env.json(valStart);
      assert form.rawArgval == Some(false) ==> !LosesMarker(env, valStart);
      JsonHalts(env, form, name, args, key, valStart, if v.Json? then v else Json("123", false, |env.input|, true, "123"));
    }
  }

  /** Behind a whole separator stands its last character. */
  lemma BehindLiteral(env: Env, pos: nat, d: string)
    requires pos <= |env.input| && d != ""
    ensures var f := FindIn(env, pos, d);
            f.Some? && Whole(f.value, |d|) ==> f.value.end > 0 && env.input[f.value.end - 1] == d[|d| - 1]
  {
    hide Find, FindIn, OccursAt;
    WholeOccurs(env, pos, d);
    var f := FindIn(env, pos, d);
    if f.Some? && Whole(f.value, |d|) { LastOfOccurrence(env.input, d, f.value.begin); }
  }

  lemma LastOfOccurrence(s: string, d: string, i: nat)
    requires OccursAt(s, d, i) && d != ""
    ensures s[i + |d| - 1] == d[|d| - 1]
  {
    assert s[i..i + |d|][|d| - 1] == s[i + |d| - 1];
  }

  lemma KeyHalts(env: Env, form: Form, name: string, args: seq<Arg>, key: string, pos: nat)
    requires env.Valid() && form.Valid() && ValuesSafe(env, form) && 0 < pos <= |env.input|
    requires env.input[pos - 1] == form.keyValSep[|form.keyValSep| - 1]
    ensures ArgAfterKey(env, form, name, args, key, pos) != Halted(Abort)
  {
    hide ArgValue, ValuesSafe, Find, SetArg, CutAtFlag, Dump;
    if form.keyValSep2.None? {
      ValueHalts(env, form, name, args, key, pos);
    } else {
      var d := form.keyValSep2.value;
      var f := FindIn(env, pos, d);
      if f.Some? && Whole(f.value, |d|) {
        if d == "" { EmptyIsHere(env, pos); } else { BehindLiteral(env, pos, d); }
        ValueHalts(env, form, name, args, key, f.value.end);
      }
    }
  }

  lemma EmptyIsHere(env: Env, pos: nat)
    requires pos <= |env.input|
    ensures FindIn(env, pos, "") == Some(Found("", pos, pos))
  {
    assert env.input[pos..pos + 0] == "";
  }

  lemma ArgHalts(env: Env, form: Form, name: string, args: seq<Arg>, pos: nat)
    requires env.Valid() && form.Valid() && ValuesSafe(env, form) && pos <= |env.input|
    ensures ParseArg(env, form, name, args, pos) != Halted(Abort)
  {
    hide ArgAfterKey, ValuesSafe, Find, FindIn, SetArg, CutAtFlag, Dump, OpenDump, Utf8.TruncateSafe;
    var f := FindIn(env, pos, form.keyStart);
    if f.Some? {
      BehindLiteral(env, f.value.end, form.keyValSep);
      var k := FindIn(env, f.value.end, form.keyValSep);
      if k.Some? && Whole(k.value, |form.keyValSep|) { KeyHalts(env, form, name, args, k.value.prelude, k.value.end); }
    }
  }

  lemma {:induction false} ArgsHalt(env: Env, form: Form, name: string, args: seq<Arg>, pos: nat)
    requires env.Valid() && form.Valid() && ValuesSafe(env, form) && pos <= |env.input|
    ensures ParseArgs(env, form, name, args, pos) != Halted(Abort)
    decreases |env.input| - pos
  {
    hide ParseArg, ValuesSafe;
    ArgHalts(env, form, name, args, pos);
    match ParseArg(env, form, name, args, pos)
    case Next(p, a) => ArgsHalt(env, form, name, a, p);
    case _ =>
  }

  lemma ToolHalts(env: Env, form: Form, pos: nat)
    requires env.Valid() && form.Valid() && ValuesSafe(env, form) && pos <= |env.input|
    ensures ParseTool(env, form, pos) == ToolHalted(Abort) ==> FindName(env, form, pos) == NoName(Abort)
  {
    hide FindName, ParseArgs, ValuesSafe, FindToolEnd, Dump, OpenDump, NameOf;
    match FindName(env, form, pos)
    case NoName(_) =>
    case NameAt(f) => ArgsHalt(env, form, NameOf(env, f.prelude), [], if AllSpace(form.toolSep) then f.begin else f.end);
  }

  lemma {:induction false} ToolsHalt(env: Env, form: Form, start: nat, pos: nat, calls: seq<ToolCall>, recovery: bool)
    requires env.Valid() && form.Valid() && ValuesSafe(env, form) && start <= pos <= |env.input|
    ensures ParseTools(env, form, start, pos, calls, recovery).Aborts? ==>
              exists at: nat :: at <= |env.input| && FindName(env, form, at) == NoName(Abort)
    decreases |env.input| - pos
  {
    hide ParseTool, FindName, ValuesSafe, FindIn;
    match FindIn(env, pos, form.toolStart)
    case None =>
    case Some(f) =>
      if AllSpace(f.prelude) {
        ToolHalts(env, form, f.end);
        match ParseTool(env, form, f.end)
        case Tool(end, call) => ToolsHalt(env, form, start, end, calls + [call], false);
        case _ =>
      }
  }

  /** WHEN THE PARSER CAN FAIL AT ALL. With raw values, or a separator that ends with an ASCII character and markers
      that are kept, it fails only where a name ends with an empty optional; so not without an alternative literal for
      the end of the last call. */
  lemma AbortsOnlyAtName(env: Env, form: Form, start: nat, calls: seq<ToolCall>)
    requires env.Valid() && form.Valid() && ValuesSafe(env, form) && start <= |env.input|
    ensures TryConsume(env, form, start, calls).Aborts? ==>
              exists at: nat :: at <= |env.input| && FindName(env, form, at) == NoName(Abort)
    ensures form.lastToolEnd.None? ==> !TryConsume(env, form, start, calls).Aborts?
  {
    hide ParseTools, FindName, ValuesSafe, FindIn;
    if AllSpace(form.scopeStart) {
      ToolsHalt(env, form, start, start, calls, true);
    } else {
      match FindIn(env, start, form.scopeStart)
      case None =>
      case Some(f) => ToolsHalt(env, form, start, f.end, calls, true);
    }
    if at: nat :| at <= |env.input| && FindName(env, form, at) == NoName(Abort) { FindNameAborts(env, form, at); }
  }

  // ------------------------------------------------------------------------------- a text that fails

  const HEAD := "<tool_calls>[{\"name\": \""

  const REST := "f}g\", \"arguments\": {"

  /** A name with a closing brace in it, and no other brace behind it: the whole text fails. */
  lemma BraceInName(env: Env, calls: seq<ToolCall>)
    requires env.Valid() && !env.partial && env.input == HEAD + REST
    ensures TryConsume(env, APRIEL, 0, calls) == Aborts(calls)
  {
    hide Find, FindIn, ParseTool, FindTwoFrom, First;
    var a, b := APRIEL.scopeStart, APRIEL.toolStart;
    assert HEAD == a + b;
    HeadRead(env, a, b, REST);
    BlankStarts();
    NameAborts(env, |a| + |b|);
    HaltsInTool(env, APRIEL, 0, |a|, |a| + |b|, calls, Abort);
  }

  /** Two delimiters at the beginning of the text. */
  lemma HeadRead(env: Env, a: string, b: string, rest: string)
    requires env.input == a + b + rest
    ensures |a| + |b| <= |env.input| && env.input[|a| + |b|..] == rest
    ensures FindIn(env, 0, a) == Some(Found("", 0, |a|)) && FindIn(env, |a|, b) == Some(Found("", |a|, |a| + |b|))
  {
    hide FindIn, First;
    EmptyFirst(a);
    EmptyFirst(b);
    assert env.input[0..] == "" + a + (b + rest);
    FindsAt(env, 0, "", a, b + rest);
    assert env.input[|a|..] == "" + b + rest;
    FindsAt(env, |a|, "", b, rest);
  }

  /** When the first call halts, so does everything. */
  lemma HaltsInTool(env: Env, form: Form, start: nat, scope: nat, tool: nat, calls: seq<ToolCall>, why: Halt)
    requires env.Valid() && form.Valid() && start <= scope <= tool <= |env.input| && !AllSpace(form.scopeStart)
    requires FindIn(env, start, form.scopeStart) == Some(Found("", start, scope)) && scope - start == |form.scopeStart|
    requires FindIn(env, scope, form.toolStart) == Some(Found("", scope, tool))
    requires !why.BadSyntax? && ParseTool(env, form, tool) == ToolHalted(why)
    ensures TryConsume(env, form, start, calls) == EndWith(calls, why)
  {
    hide FindIn, ParseTool;
    assert AllSpace("");
  }

  lemma BlankStarts()
    ensures AllSpace("") && !AllSpace(APRIEL.scopeStart) && !AllSpace(APRIEL.toolSep)
  {
    assert APRIEL.scopeStart[0] == '<' && APRIEL.toolSep[0] == '"';
  }

  lemma NameAborts(env: Env, pos: nat)
    requires env.Valid() && !env.partial && pos <= |env.input| && env.input[pos..] == REST
    ensures ParseTool(env, APRIEL, pos) == ToolHalted(Abort)
  {
    hide Find, FindTwoFrom, First, FindIn, ParseArgs, FindName;
    var sep := APRIEL.toolSep;
    assert REST == "f}g" + sep + "";
    FreshFirst("f}g", sep);
    FindsAt(env, pos, "f}g", sep, "");
    BraceAt();
    NoClosing(env, pos);
    BlankStarts();
    FindNameAborts(env, APRIEL, pos);
  }

  lemma BraceAt()
    ensures Find("f}g", "}", 0) == Some(1)
  {
    hide Find;
    assert "f}g"[0..1][0] == 'f' && "f}g"[1..2] == "}";
    assert OccursAt("f}g", "}", 1) && !OccursAt("f}g", "}", 0);
    FindIs("f}g", "}", 0, 1);
  }

  lemma NoClosing(env: Env, pos: nat)
    requires !env.partial && pos <= |env.input| && env.input[pos..] == REST
    ensures FindToolEnd(env, APRIEL, pos).found.None?
  {
    hide Find, FindIn, FindTwoFrom, OccursAt, SkipSpaces, MeetsTag;
    NotFoundBehind(env, pos, 0, "}, ");
    NotFoundBehind(env, pos, 2, "}");
    BraceFound(env, pos);
    NotMet(env.input, pos + 2);
    SearchTwice(env, pos, Found("f", pos + 1, pos + 2));
  }

  lemma BraceFound(env: Env, pos: nat)
    requires !env.partial && pos <= |env.input| && env.input[pos..] == REST
    ensures pos + 2 < |env.input| && env.input[pos + 2] == 'g'
    ensures FindIn(env, pos, "}") == Some(Found("f", pos + 1, pos + 2))
  {
    assert REST == "f" + "}" + REST[2..] && REST[2] == 'g';
    FoundBehindOne(env, pos, 'f', '}', REST[2..]);
  }

  lemma FoundBehindOne(env: Env, pos: nat, x: char, d: char, rest: string)
    requires pos <= |env.input| && env.input[pos..] == [x] + [d] + rest && x != d && rest != ""
    ensures pos + 2 < |env.input| && env.input[pos + 2] == rest[0]
    ensures FindIn(env, pos, [d]) == Some(Found([x], pos + 1, pos + 2))
  {
    hide Find, FindIn, First;
    FreshFirst([x], [d]);
    FindsAt(env, pos, [x], [d], rest);
    assert env.input[pos + 2] == env.input[pos..][2];
  }

  lemma NotMet(s: string, at: nat)
    requires at < |s| && s[at] == 'g'
    ensures SkipSpaces(s, at) == at && !MeetsTag(s, at, "]</tool_calls>")
  {
    var tag := "]</tool_calls>";
    var k := Min(|tag|, |s| - at);
    assert s[at..at + k][0] == 'g' && tag[..k][0] == ']';
  }

  lemma SearchTwice(env: Env, pos: nat, f: Found)
    requires pos <= |env.input| && f.begin + 1 <= |env.input| && f.end <= |env.input| && pos <= f.begin
    requires FindIn(env, pos, "}") == Some(f) && FindIn(env, f.begin + 1, "}").None?
    requires !MeetsTag(env.input, SkipSpaces(env.input, f.end), "]</tool_calls>")
    ensures FindTwoFrom(env, pos, pos, "}", "]</tool_calls>").None?
  {
    hide FindIn, SkipSpaces, MeetsTag;
    assert FindTwoFrom(env, pos, f.begin + 1, "}", "]</tool_calls>") == None;
  }

  /** No brace from `skip` on that a literal which begins with one could meet. */
  lemma NotFoundBehind(env: Env, pos: nat, skip: nat, d: string)
    requires !env.partial && pos <= |env.input| && env.input[pos..] == REST && skip <= |REST|
    requires d in {"}, ", "}"} && (d == "}" ==> skip == 2)
    ensures FindIn(env, pos + skip, d).None?
  {
    hide Find, OccursAt;
    FindSpec(env.input, d, pos + skip);
    forall i: nat | pos + skip <= i ensures !OccursAt(env.input, d, i) {
      NotMetAt(env.input, pos, d, i);
    }
  }

  lemma NotMetAt(s: string, pos: nat, d: string, i: nat)
    requires pos <= |s| && s[pos..] == REST && d in {"}, ", "}"} && pos <= i && (d == "}" ==> pos + 2 <= i)
    ensures !OccursAt(s, d, i)
  {
    hide OccursAt;
    if OccursAt(s, d, i) {
      BeginsWithBrace(s, d, i);
      OneBrace(s, pos, i);
      NoCommaBehind(s, pos);
    }
  }

  lemma BeginsWithBrace(s: string, d: string, i: int)
    requires d in {"}, ", "}"} && OccursAt(s, d, i)
    ensures 0 <= i < |s| && s[i] == '}'
  {
    assert s[i..i + |d|][0] == s[i];
  }

  lemma OneBrace(s: string, pos: nat, i: nat)
    requires pos <= i < |s| && s[pos..] == REST && s[i] == '}'
    ensures i == pos + 1
  {
    assert s[pos..][i - pos] == s[i];
  }

  lemma NoCommaBehind(s: string, pos: nat)
    requires pos <= |s| && s[pos..] == REST
    ensures !OccursAt(s, "}, ", pos + 1)
  {
    assert s[pos..][2] == s[pos + 2] == 'g';
    if pos + 4 <= |s| { assert s[pos + 1..pos + 4][1] == s[pos + 2]; }
  }
}
