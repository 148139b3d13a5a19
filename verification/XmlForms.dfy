/** The forms of common/chat-parser.cpp, and the texts that are read back with those whose delimiters are tags. */
module XmlForms {
  import opened Chars
  import opened Wrappers
  import opened Strings
  import opened ChatParser
  import opened XmlToolCalls
  import opened XmlRoundTrip
  import Utf8

  const MINIMAX := Form(
    "<minimax:tool_call>", "<invoke name=\"", "\">", "<parameter name=\"", "\">", "</parameter>", "</invoke>",
    "</minimax:tool_call>", None, None, None, None, false)

  const QWEN3_CODER := Form(
    "<tool_call>", "<function=", ">", "<parameter=", ">", "</parameter>", "</function>", "</tool_call>",
    None, None, None, None, true)

  const SEED_OSS := Form(
    "<seed:tool_call>", "<function=", ">", "<parameter=", ">", "</parameter>", "</function>", "</seed:tool_call>",
    None, None, None, None, false)

  const GLM_4_5 := Form(
    "", "<tool_call>", "", "<arg_key>", "</arg_key>", "</arg_value>", "</tool_call>", "",
    Some("<arg_value>"), None, None, None, false)

  const KIMI_K2 := Form(
    "<|tool_calls_section_begin|>", "<|tool_call_begin|>", "<|tool_call_argument_begin|>{", "\"", "\":", ",",
    "}<|tool_call_end|>", "<|tool_calls_section_end|>", None, Some(false), Some(""), None, false)

  const APRIEL := Form(
    "<tool_calls>[", "{\"name\": \"", "\", \"arguments\": {", "\"", "\": ", ", ", "}, ", "]</tool_calls>",
    None, Some(false), Some(""), Some("}"), false)

  const MIMO := Form(
    "", "<tool_call>\n{\"name\": \"", "\", \"arguments\": {", "\"", "\": ", ", ", "}\n</tool_call>", "",
    None, Some(false), Some(""), None, false)

  predicate Tag(d: string) {
    d != "" && d[0] == '<'
  }

  /** Neither tag begins the other. */
  predicate Apart(d: string, e: string) {
    !(d <= e) && !(e <= d)
  }

  /** Delimiters that are tags, but for the ends of names and keys, which need not be. */
  predicate Tagged(form: Form) {
    && Tag(form.toolStart) && Tag(form.keyStart) && Tag(form.valEnd) && Tag(form.toolEnd) && |form.valEnd| >= 10
    && (form.scopeStart == "" || Tag(form.scopeStart))
    && (form.scopeEnd == "" || (Tag(form.scopeEnd) && Apart(form.toolStart, form.scopeEnd)))
    && (form.toolSep == "" || !IsSpace(form.toolSep[0])) && form.keyValSep != ""
    && (form.keyValSep2.Some? ==> Tag(form.keyValSep2.value))
    && Apart(form.keyStart, form.toolEnd) && (forall i :: 1 <= i < |form.toolEnd| ==> form.toolEnd[i] != '<')
    && form.lastValEnd.None? && form.lastToolEnd.None?
  }

  lemma ApartAt(d: string, e: string, i: nat)
    requires i < |d| && i < |e| && d[i] != e[i]
    ensures Apart(d, e)
  {
  }

  lemma MinimaxIsTagged()
    ensures Tagged(MINIMAX)
  {
    hide Apart;
    ApartAt(MINIMAX.toolStart, MINIMAX.scopeEnd, 1);
    ApartAt(MINIMAX.keyStart, MINIMAX.toolEnd, 1);
  }

  lemma Qwen3CoderIsTagged()
    ensures Tagged(QWEN3_CODER)
  {
    hide Apart;
    ApartAt(QWEN3_CODER.toolStart, QWEN3_CODER.scopeEnd, 1);
    ApartAt(QWEN3_CODER.keyStart, QWEN3_CODER.toolEnd, 1);
  }

  lemma SeedOssIsTagged()
    ensures Tagged(SEED_OSS)
  {
    hide Apart;
    ApartAt(SEED_OSS.toolStart, SEED_OSS.scopeEnd, 1);
    ApartAt(SEED_OSS.keyStart, SEED_OSS.toolEnd, 1);
  }

  lemma Glm45IsTagged()
    ensures Tagged(GLM_4_5)
  {
    hide Apart;
    ApartAt(GLM_4_5.keyStart, GLM_4_5.toolEnd, 1);
  }

  // ------------------------------------------------------------------------------- tidy texts

  predicate TidyArg(form: Form, a: PrintedArg)
    requires form.keyValSep != ""
  {
    AllSpace(a.gap) && AllSpace(a.gap2) && form.keyValSep[0] !in a.key && '<' !in a.value
  }

  predicate TidyName(form: Form, name: string) {
    name != "" && Strip(name) == name && '<' !in name && (form.toolSep != "" ==> form.toolSep[0] !in name)
  }

  /** Blank gaps, and names, keys and values without the characters that end them. */
  predicate TidyCall(form: Form, c: PrintedCall)
    requires form.keyValSep != ""
  {
    && AllSpace(c.gap) && AllSpace(c.gapEnd) && TidyName(form, c.name)
    && forall i :: 0 <= i < |c.args| ==> TidyArg(form, c.args[i])
  }

  lemma NoTagInBlanks(s: string)
    requires AllSpace(s)
    ensures '<' !in s
  {
  }

  /** A tag is found where it was printed behind a text without tags. */
  lemma TagFirst(x: string, d: string)
    requires '<' !in x && Tag(d)
    ensures First(x, d) && Find(x, d, 0).None?
  {
    hide Find, First;
    FreshFirst(x, d);
    FindSpec(x, d, 0);
    if Find(x, d, 0).Some? { BeginsWith(x, d, Find(x, d, 0).value); }
  }

  lemma BeginsWith(s: string, d: string, i: int)
    requires d != "" && OccursAt(s, d, i)
    ensures 0 <= i < |s| && s[i] == d[0]
  {
    assert s[i..i + |d|][0] == s[i];
  }

  lemma ArgIsOk(form: Form, a: PrintedArg)
    requires Tagged(form) && TidyArg(form, a)
    ensures ArgOk(form, a)
  {
    hide Find, First;
    NoTagInBlanks(a.gap);
    NoTagInBlanks(a.gap2);
    TagFirst(a.gap, form.keyStart);
    FreshFirst(a.key, form.keyValSep);
    if form.keyValSep2.Some? { TagFirst(a.gap2, form.keyValSep2.value); }
    TagFirst(a.value, form.valEnd);
  }

  lemma ArgsAreOk(form: Form, args: seq<PrintedArg>)
    requires Tagged(form) && forall i :: 0 <= i < |args| ==> TidyArg(form, args[i])
    ensures ArgsOk(form, args)
  {
    hide ArgOk, TidyArg;
    forall i | 0 <= i < |args| ensures ArgOk(form, args[i]) {
      ArgIsOk(form, args[i]);
    }
  }

  /** No key begins before the end of a call without arguments. */
  lemma KeyBehindEnd(form: Form, x: string, following: string)
    requires Tagged(form) && '<' !in x
    ensures var k := Find(x + form.toolEnd + following, form.keyStart, 0);
            k.Some? ==> |x + form.toolEnd| <= k.value
  {
    hide Find;
    var e, d := form.toolEnd, form.keyStart;
    var text := x + e + following;
    FindSpec(text, d, 0);
    var k := Find(text, d, 0);
    if k.Some? && k.value < |x + e| {
      BeginsWith(text, d, k.value);
      assert text[k.value] == '<';
      OneTagBefore(x, e, following, k.value);
      assert text[..k.value] == x;
      KeyAtEnd(x, e, following, d);
    }
  }

  lemma OneTagBefore(x: string, e: string, following: string, i: nat)
    requires '<' !in x && e != "" && (forall i :: 1 <= i < |e| ==> e[i] != '<') && i < |x + e| && (x + e + following)[i] == '<'
    ensures i == |x|
  {
    var text := x + e + following;
    assert forall k :: 0 <= k < |x| ==> text[k] == x[k];
    assert forall k :: |x| < k < |x + e| ==> text[k] == e[k - |x|];
  }

  /** Two tags that neither begins the other do not begin at the same place. */
  lemma KeyAtEnd(x: string, e: string, following: string, d: string)
    requires Apart(d, e)
    ensures !OccursAt(x + e + following, d, |x|)
  {
    var text := x + e + following;
    if |x| + |d| <= |text| {
      var n := Min(|d|, |e|);
      assert text[|x|..|x| + |d|][..n] == text[|x|..|x| + n] == e[..n];
    }
  }

  lemma NameIsOk(form: Form, c: PrintedCall, following: string)
    requires Tagged(form) && TidyCall(form, c)
    ensures NameOk(form, c, following)
  {
    hide Find, First;
    NoTagInBlanks(c.gapEnd);
    if form.toolSep != "" {
      assert !AllSpace(form.toolSep) by { assert !IsSpace(form.toolSep[0]); }
      FreshFirst(c.name, form.toolSep);
      TagFirst(c.name, form.toolEnd);
    } else if c.args != [] {
      assert TidyArg(form, c.args[0]);
      NoTagInBlanks(c.args[0].gap);
      var x := c.name + form.toolSep + c.args[0].gap;
      TagFirst(x, form.keyStart);
      TagFirst(x, form.toolEnd);
    } else {
      var x := c.name + form.toolSep + c.gapEnd;
      TagFirst(x, form.toolEnd);
      KeyBehindEnd(form, x, following);
    }
  }

  lemma CallIsOk(env: Env, form: Form, c: PrintedCall, following: string)
    requires Tagged(form) && TidyCall(form, c) && !env.kimi
    ensures CallOk(env, form, c, following)
  {
    hide Find, First, Opens, Strip;
    NoTagInBlanks(c.gap);
    NoTagInBlanks(c.gapEnd);
    TagFirst(c.gap, form.toolStart);
    TagFirst(c.gapEnd, form.toolEnd);
    NameIsOk(form, c, following);
    ArgsAreOk(form, c.args);
    ApartStops(c.gapEnd, form.toolEnd, following, form.keyStart);
  }

  lemma {:induction false} CallsAreOk(env: Env, form: Form, calls: seq<PrintedCall>, tail: string)
    requires Tagged(form) && !env.kimi && forall i :: 0 <= i < |calls| ==> TidyCall(form, calls[i])
    ensures CallsOk(env, form, calls, tail)
    decreases |calls|
  {
    hide CallOk, TidyCall, Tagged;
    if calls != [] {
      CallIsOk(env, form, calls[0], CallsText(form, calls[1..], tail));
      assert forall i :: 0 <= i < |calls| - 1 ==> calls[1..][i] == calls[i + 1];
      CallsAreOk(env, form, calls[1..], tail);
    }
  }

  lemma TailIsOk(form: Form, gap: string, suffix: string)
    requires Tagged(form) && AllSpace(gap)
    requires form.scopeEnd == "" ==> gap == "" && !Opens(suffix, form.toolStart)
    ensures TailOk(form, gap, suffix)
  {
    hide Find, First, Opens;
    if form.scopeEnd == "" {
      assert gap + form.scopeEnd + suffix == suffix;
      EmptyFirst("");
    } else {
      NoTagInBlanks(gap);
      TagFirst(gap, form.scopeEnd);
      ApartStops(gap, form.scopeEnd, suffix, form.toolStart);
    }
  }

  // ---------------------------------------------------------------- values that are not numbers

  /** The value and its closing literal stand where the place says. */
  ghost predicate Stands(env: Env, form: Form, p: Placed) {
    var q := p.pos + |p.arg.value|;
    q + |form.valEnd| <= |env.input| && env.input[q..q + |form.valEnd|] == form.valEnd
  }

  ghost predicate AllStand(env: Env, form: Form, ps: seq<Placed>) {
    forall i :: 0 <= i < |ps| ==> Stands(env, form, ps[i])
  }

  lemma StandBoth(env: Env, form: Form, a: seq<Placed>, b: seq<Placed>)
    requires AllStand(env, form, a) && AllStand(env, form, b)
    ensures AllStand(env, form, a + b)
  {
    hide Stands;
  }

  lemma {:induction false} ArgsStand(env: Env, form: Form, pos: nat, args: seq<PrintedArg>, rest: string)
    requires pos <= |env.input| && env.input[pos..] == ArgsText(form, args) + rest
    ensures AllStand(env, form, ArgPlaces(form, pos, args))
    decreases |args|
  {
    hide Stands, ArgText, ArgsText, ValuePos, Sep2Text, AllStand;
    if args == [] {
      NothingStands(env, form);
    } else {
      var a := args[0];
      var more := ArgsText(form, args[1..]) + rest;
      FirstArgText(form, args, rest);
      RestOf(env.input, pos, ArgText(form, a), more);
      ArgsStand(env, form, pos + |ArgText(form, a)|, args[1..], rest);
      ArgStands(env, form, pos, a, more);
      OneStands(env, form, Placed(ValuePos(form, pos, a), a));
      StandBoth(env, form, [Placed(ValuePos(form, pos, a), a)], ArgPlaces(form, pos + |ArgText(form, a)|, args[1..]));
    }
  }

  lemma FirstArgText(form: Form, args: seq<PrintedArg>, rest: string)
    requires args != []
    ensures ArgsText(form, args) + rest == ArgText(form, args[0]) + (ArgsText(form, args[1..]) + rest)
  {
    hide ArgText;
  }

  lemma OneStands(env: Env, form: Form, p: Placed)
    requires Stands(env, form, p)
    ensures AllStand(env, form, [p])
  {
    hide Stands;
  }

  lemma ArgStands(env: Env, form: Form, pos: nat, a: PrintedArg, more: string)
    requires pos <= |env.input| && env.input[pos..] == ArgText(form, a) + more
    ensures Stands(env, form, Placed(ValuePos(form, pos, a), a))
  {
    hide Sep2Text;
    var front := a.gap + form.keyStart + a.key + form.keyValSep + Sep2Text(form, a) + a.value;
    assert env.input[pos..] == front + form.valEnd + more;
    assert |front| == ValuePos(form, pos, a) - pos + |a.value|;
    InMiddle(env.input, pos, front, form.valEnd, more);
  }

  lemma InMiddle(s: string, pos: nat, a: string, b: string, c: string)
    requires pos <= |s| && s[pos..] == a + b + c
    ensures pos + |a| + |b| <= |s| && s[pos + |a|..pos + |a| + |b|] == b
  {
    assert s[pos..][|a|..|a| + |b|] == b;
  }

  /** The text of the calls from the first one on, up to its arguments and from them on. */
  lemma CallText(form: Form, calls: seq<PrintedCall>, tail: string)
    requires calls != []
    ensures var c, following := calls[0], CallsText(form, calls[1..], tail);
            var front := c.gap + form.toolStart + c.name + form.toolSep;
            && CallsText(form, calls, tail) == front + (ArgsText(form, c.args) + (c.gapEnd + form.toolEnd + following))
            && CallsText(form, calls, tail) == c.gap + form.toolStart + BodyText(form, c) + following
  {
    hide ArgsText;
    var c, following := calls[0], CallsText(form, calls[1..], tail);
    Regrouped(c.gap + form.toolStart, c.name, form.toolSep, ArgsText(form, c.args), c.gapEnd + form.toolEnd, following);
  }

  lemma Regrouped(a: string, name: string, sep: string, args: string, end: string, following: string)
    ensures a + (name + sep + (args + end) + following) == a + name + sep + (args + (end + following))
    ensures a + (name + sep + (args + end) + following) == a + (name + sep + (args + end)) + following
  {
  }

  lemma {:induction false} CallsStand(env: Env, form: Form, pos: nat, calls: seq<PrintedCall>, tail: string)
    requires pos <= |env.input| && env.input[pos..] == CallsText(form, calls, tail)
    ensures AllStand(env, form, CallPlaces(form, pos, calls))
    decreases |calls|
  {
    hide Stands, ArgsText, ArgPlaces, AllStand, BodyText, CallsText;
    if calls == [] {
      NothingStands(env, form);
    } else {
      var c := calls[0];
      var following := CallsText(form, calls[1..], tail);
      var front := c.gap + form.toolStart + c.name + form.toolSep;
      var after := c.gapEnd + form.toolEnd + following;
      CallText(form, calls, tail);
      RestOf(env.input, pos, front, ArgsText(form, c.args) + after);
      ArgsStand(env, form, pos + |front|, c.args, after);
      var whole := c.gap + form.toolStart + BodyText(form, c);
      RestOf(env.input, pos, whole, following);
      CallsStand(env, form, pos + |whole|, calls[1..], tail);
      StandBoth(env, form, ArgPlaces(form, pos + |front|, c.args), CallPlaces(form, pos + |whole|, calls[1..]));
    }
  }

  lemma RestOf(s: string, pos: nat, a: string, b: string)
    requires pos <= |s| && s[pos..] == a + b
    ensures pos + |a| <= |s| && s[pos + |a|..] == b
  {
    assert s[pos..][|a|..] == b;
  }

  lemma NothingStands(env: Env, form: Form)
    ensures AllStand(env, form, [])
  {
  }

  /** A text with a tag behind it is neither a number nor the beginning of a literal. */
  lemma NotPrimitive(env: Env, p: nat, q: nat)
    requires p <= q && q + 10 <= |env.input| && env.input[q] == '<'
    ensures MaybePrimitive(env, p) == Some(false)
  {
    hide Utf8.TruncateSafe, SkipSpaces, MaybeNumber;
    var at, cut := SkipSpaces(env.input, p), Utf8.TruncateSafe(env.input);
    StopsBefore(env.input, p, q);
    CutsLittle(env.input);
    var view := env.input[at..cut];
    assert view[q - at] == '<';
    NotNumber(view, q - at);
    assert "a"[0] != "null"[0] && "a"[0] != "true"[0] && "a"[0] != "false"[0];
  }

  lemma CutsLittle(s: string)
    ensures |s| <= Utf8.TruncateSafe(s) + 4
  {
    if s != "" { CutsFrom(s, 0); }
  }

  lemma {:induction false} CutsFrom(s: string, back: nat)
    requires back <= 4
    ensures |s| <= Utf8.Truncated(s, back) + 4
    decreases 4 - back
  {
    if back < 4 && back < |s| { CutsFrom(s, back + 1); }
  }

  lemma {:induction false} SkipsDigits(s: string, i: nat)
    requires i <= |s|
    ensures forall k :: i <= k < SkipDigits(s, i) ==> IsDigit(s[k])
    decreases |s| - i
  {
    if i < |s| && IsDigit(s[i]) { SkipsDigits(s, i + 1); }
  }

  /** A number holds no tag. */
  lemma NotNumber(s: string, i: nat)
    requires i < |s| && s[i] == '<'
    ensures !MaybeNumber(s)
  {
    hide SkipDigits;
    forall k: nat | k <= |s| ensures !(k <= i < SkipDigits(s, k)) { SkipsDigits(s, k); }
  }

  // ------------------------------------------------------------------------------ the round trip

  ghost predicate AllFit(env: Env, form: Form, ps: seq<Placed>)
    requires env.Valid()
  {
    forall i :: 0 <= i < |ps| ==> JsonFits(env, form, ps[i])
  }

  lemma FittingIsRead(env: Env, form: Form, ps: seq<Placed>)
    requires env.Valid() && Tagged(form) && form.rawArgval != Some(true)
    requires AllFit(env, form, ps) && AllStand(env, form, ps)
    ensures AllRead(env, form, ps)
  {
    hide JsonFits, MaybePrimitive;
    forall i | 0 <= i < |ps| ensures ReadsAs(env, form, ps[i]) {
      var q := ps[i].pos + |ps[i].arg.value|;
      assert Stands(env, form, ps[i]);
      assert env.input[q] == env.input[q..q + |form.valEnd|][0];
      NotPrimitive(env, ps[i].pos, q);
    }
  }

  lemma TidyIsRead(env: Env, form: Form, pre: string, head: string, calls: seq<PrintedCall>, gap: string, suffix: string)
    requires env.Valid() && !env.partial && !env.kimi && form.Valid() && Tagged(form) && form.rawArgval != Some(true)
    requires env.input == pre + (HeadText(form, head) + CallsText(form, calls, gap + form.scopeEnd + suffix))
    requires AllSpace(head) && AllSpace(gap) && forall i :: 0 <= i < |calls| ==> TidyCall(form, calls[i])
    requires form.scopeEnd == "" ==> gap == "" && !Opens(suffix, form.toolStart)
    requires AllFit(env, form, CallPlaces(form, |pre| + |HeadText(form, head)|, calls))
    ensures Plain(env, form) && (!AllSpace(form.scopeStart) ==> First(head, form.scopeStart))
    ensures CallsOk(env, form, calls, gap + form.scopeEnd + suffix) && TailOk(form, gap, suffix)
    ensures AllRead(env, form, CallPlaces(form, |pre| + |HeadText(form, head)|, calls))
  {
    hide *;
    var tail := gap + form.scopeEnd + suffix;
    var lead, text := HeadText(form, head), CallsText(form, calls, tail);
    HeadIsOk(form, head);
    CallsAreOk(env, form, calls, tail);
    TailIsOk(form, gap, suffix);
    Behind(env.input, pre, lead, text);
    CallsStand(env, form, |pre| + |lead|, calls, tail);
    FittingIsRead(env, form, CallPlaces(form, |pre| + |lead|, calls));
    TaggedIsPlain(env, form);
  }

  /** TAGGED FORMS READ BACK. With a form of tags whose values are not raw, every list of tidy calls is parsed to exactly
      those calls, wherever it stands, when the JSON reader fits the values. */
  lemma TidyReadBack(env: Env, form: Form, pre: string, head: string, calls: seq<PrintedCall>, gap: string, suffix: string,
                     before: seq<ToolCall>)
    requires env.Valid() && !env.partial && !env.kimi && form.Valid() && Tagged(form) && form.rawArgval != Some(true)
    requires env.input == pre + (HeadText(form, head) + CallsText(form, calls, gap + form.scopeEnd + suffix))
    requires AllSpace(head) && AllSpace(gap) && forall i :: 0 <= i < |calls| ==> TidyCall(form, calls[i])
    requires form.scopeEnd == "" ==> gap == "" && !Opens(suffix, form.toolStart)
    requires AllFit(env, form, CallPlaces(form, |pre| + |HeadText(form, head)|, calls))
    ensures |suffix| <= |env.input|
    ensures TryConsume(env, form, |pre|, before) == Returns(true, |env.input| - |suffix|, before + CallsOf(env, form, calls))
  {
    hide *;
    TidyIsRead(env, form, pre, head, calls, gap, suffix);
    ParserUndoesPrinter(env, form, pre, head, calls, gap, suffix, before);
  }

  lemma HeadIsOk(form: Form, head: string)
    requires Tagged(form) && AllSpace(head)
    ensures !AllSpace(form.scopeStart) ==> First(head, form.scopeStart)
  {
    hide First;
    NoTagInBlanks(head);
    if form.scopeStart != "" { TagFirst(head, form.scopeStart); }
  }

  lemma Behind(s: string, a: string, b: string, c: string)
    requires s == a + (b + c)
    ensures |a| + |b| <= |s| && s[|a| + |b|..] == c
  {
  }

  lemma TaggedIsPlain(env: Env, form: Form)
    requires env.Valid() && form.Valid() && !env.partial && Tagged(form)
    ensures Plain(env, form)
  {
  }
}
