/** The tool-call parser undoes the printing of tool calls. */
module XmlRoundTrip {
  import opened Chars
  import opened Wrappers
  import opened Strings
  import opened ChatParser
  import opened XmlToolCalls
  import opened XmlArguments

  // --------------------------------------------------------------------------- the printer

  /** A key and a value as they stand in a text; the gaps are blank. The value is meant as text, or as JSON with the
      dump that is given. */
  datatype PrintedArg = PrintedArg(gap: string, key: string, gap2: string, value: string, json: Option<string>)

  datatype PrintedCall = PrintedCall(gap: string, name: string, args: seq<PrintedArg>, gapEnd: string)

  function Sep2Text(form: Form, a: PrintedArg): string {
    match form.keyValSep2 case None => "" case Some(sep) => a.gap2 + sep
  }

  function ArgText(form: Form, a: PrintedArg): string {
    a.gap + form.keyStart + (a.key + form.keyValSep + (Sep2Text(form, a) + (a.value + form.valEnd)))
  }

  function ArgsText(form: Form, args: seq<PrintedArg>): string {
    if args == [] then "" else ArgText(form, args[0]) + ArgsText(form, args[1..])
  }

  function BodyText(form: Form, c: PrintedCall): string {
    c.name + form.toolSep + (ArgsText(form, c.args) + (c.gapEnd + form.toolEnd))
  }

  /** The calls one after the other, and then `tail`. */
  function CallsText(form: Form, calls: seq<PrintedCall>, tail: string): string {
    if calls == [] then tail
    else calls[0].gap + form.toolStart + (BodyText(form, calls[0]) + CallsText(form, calls[1..], tail))
  }

  /** The start of the scope is looked for only when it is not blank. */
  function HeadText(form: Form, gap: string): string {
    if AllSpace(form.scopeStart) then "" else gap + form.scopeStart
  }

  // ------------------------------------------------------------------- what can be told apart

  /** In `x + d`, the delimiter `d` first occurs after `x`. */
  predicate First(x: string, d: string) {
    Find(x + d, d, 0) == Some(|x|)
  }

  /** Only blanks before the first `d` in `text`: a loop that looks for `d` there takes another turn. */
  predicate Opens(text: string, d: string) {
    var f := Find(text, d, 0);
    f.Some? && AllSpace(text[..f.value])
  }

  predicate ArgOk(form: Form, a: PrintedArg) {
    && AllSpace(a.gap) && First(a.gap, form.keyStart)
    && First(a.key, form.keyValSep)
    && (form.keyValSep2.Some? ==> AllSpace(a.gap2) && First(a.gap2, form.keyValSep2.value))
    && First(a.value, form.valEnd)
  }

  predicate ArgsOk(form: Form, args: seq<PrintedArg>) {
    forall i :: 0 <= i < |args| ==> ArgOk(form, args[i])
  }

  /** The name ends at the separator, or when that is blank, at the first key or the end of the call. */
  predicate NameOk(form: Form, c: PrintedCall, following: string) {
    if !AllSpace(form.toolSep) then
      First(c.name, form.toolSep) && Find(c.name, form.toolEnd, 0).None?
    else if c.args != [] then
      && First(c.name + form.toolSep + c.args[0].gap, form.keyStart)
      && Find(c.name + form.toolSep + c.args[0].gap, form.toolEnd, 0).None?
    else
      && First(c.name + form.toolSep + c.gapEnd, form.toolEnd)
      && var k := Find(c.name + form.toolSep + c.gapEnd + form.toolEnd + following, form.keyStart, 0);
         k.Some? ==> |c.name + form.toolSep + c.gapEnd + form.toolEnd| <= k.value
  }

  predicate CallOk(env: Env, form: Form, c: PrintedCall, following: string) {
    && AllSpace(c.gap) && First(c.gap, form.toolStart)
    && Strip(c.name) == c.name && c.name != "" && NameOf(env, c.name) != ""
    && NameOk(form, c, following)
    && ArgsOk(form, c.args)
    && !Opens(c.gapEnd + form.toolEnd + following, form.keyStart)
    && AllSpace(c.gapEnd) && First(c.gapEnd, form.toolEnd)
  }

  predicate CallsOk(env: Env, form: Form, calls: seq<PrintedCall>, tail: string) {
    calls != [] ==> CallOk(env, form, calls[0], CallsText(form, calls[1..], tail)) && CallsOk(env, form, calls[1..], tail)
  }

  // ------------------------------------------------------------------------- what is parsed

  function ValueOf(form: Form, a: PrintedArg): Value {
    match a.json
    case Some(dump) => Raw(dump)
    case None => Text(if form.trimRawArgval then Strip(a.value) else a.value)
  }

  function ArgsOf(form: Form, acc: seq<Arg>, args: seq<PrintedArg>): seq<Arg>
    decreases |args|
  {
    if args == [] then acc else ArgsOf(form, SetArg(acc, args[0].key, ValueOf(form, args[0])), args[1..])
  }

  function CallOf(env: Env, form: Form, c: PrintedCall): ToolCall {
    ToolCall(NameOf(env, c.name), Dump(ArgsOf(form, [], c.args)), "")
  }

  function CallsOf(env: Env, form: Form, calls: seq<PrintedCall>): seq<ToolCall> {
    if calls == [] then [] else [CallOf(env, form, calls[0])] + CallsOf(env, form, calls[1..])
  }

  // ------------------------------------------------------------------------ finding literals

  /** There are no alternative closing literals. */
  ghost predicate Single(env: Env, form: Form) {
    env.Valid() && form.Valid() && form.lastValEnd.None? && form.lastToolEnd.None?
  }

  /** ... and the whole text is there. */
  ghost predicate Plain(env: Env, form: Form) {
    Single(env, form) && !env.partial
  }

  /** The loop that looks for `d` takes no turn here. */
  ghost predicate StopsAt(env: Env, pos: nat, d: string)
    requires pos <= |env.input|
  {
    FindIn(env, pos, d).Some? ==> !AllSpace(FindIn(env, pos, d).value.prelude)
  }

  // --------------------------------------------------------------------- how values are read

  /** A printed argument, and where its value begins. */
  datatype Placed = Placed(pos: nat, arg: PrintedArg)

  function ArgPlaces(form: Form, pos: nat, args: seq<PrintedArg>): seq<Placed>
    decreases |args|
  {
    if args == [] then []
    else [Placed(ValuePos(form, pos, args[0]), args[0])] + ArgPlaces(form, pos + |ArgText(form, args[0])|, args[1..])
  }

  function ValuePos(form: Form, pos: nat, a: PrintedArg): nat {
    pos + |a.gap| + |form.keyStart| + |a.key| + |form.keyValSep| + |Sep2Text(form, a)|
  }

  function CallPlaces(form: Form, pos: nat, calls: seq<PrintedCall>): seq<Placed>
    decreases |calls|
  {
    if calls == [] then []
    else
      var c, body := calls[0], pos + |calls[0].gap| + |form.toolStart|;
      ArgPlaces(form, body + |c.name| + |form.toolSep|, c.args) + CallPlaces(form, body + |BodyText(form, c)|, calls[1..])
  }

  /** What the JSON reader finds where a value begins fits the meaning of the value: a JSON value fills it but for
      blanks; text is no JSON, or goes on behind it. */
  ghost predicate JsonFits(env: Env, form: Form, p: Placed)
    requires env.Valid()
  {
    p.pos + |p.arg.value| <= |env.input| && !AllSpace(form.valEnd) &&
    match env.json(p.pos)
    case NoJson => p.arg.json.None?
    case JsonFails => false
    case Json(dump, _, end, healed, _) =>
      && end <= p.pos + |p.arg.value|
      && match p.arg.json
         case Some(meant) => !healed && dump == meant && AllSpace(env.input[end..p.pos + |p.arg.value|])
         case None => healed || !AllSpace(env.input[end..p.pos + |p.arg.value|])
  }

  /** The value is read as it is meant. Raw values are text; otherwise the JSON reader has to fit, and a text that it
      does not take must not look like the beginning of a literal or a number. */
  ghost predicate ReadsAs(env: Env, form: Form, p: Placed)
    requires env.Valid()
  {
    if form.rawArgval == Some(true) then p.arg.json.None?
    else JsonFits(env, form, p) && (env.json(p.pos).NoJson? ==> MaybePrimitive(env, p.pos) == Some(false))
  }

  ghost predicate AllRead(env: Env, form: Form, ps: seq<Placed>)
    requires env.Valid()
  {
    forall i :: 0 <= i < |ps| ==> ReadsAs(env, form, ps[i])
  }

  lemma ReadBoth(env: Env, form: Form, a: seq<Placed>, b: seq<Placed>)
    requires env.Valid()
    ensures AllRead(env, form, a + b) <==> AllRead(env, form, a) && AllRead(env, form, b)
  {
    hide ReadsAs;
    assert forall i :: 0 <= i < |a| ==> (a + b)[i] == a[i];
    assert forall i :: 0 <= i < |b| ==> (a + b)[|a| + i] == b[i];
  }

  lemma ReadFirst(env: Env, form: Form, p: Placed, ps: seq<Placed>)
    requires env.Valid()
    ensures AllRead(env, form, [p] + ps) <==> ReadsAs(env, form, p) && AllRead(env, form, ps)
  {
    hide ReadsAs;
    ReadBoth(env, form, [p], ps);
    assert [p][0] == p;
  }

  lemma OccursInRest(s: string, pos: nat, d: string, i: nat)
    requires pos <= i && OccursAt(s, d, i)
    ensures OccursAt(s[pos..], d, i - pos)
  {
    assert s[pos..][i - pos..i - pos + |d|] == s[i..i + |d|];
  }

  lemma FindShift(s: string, pos: nat, d: string)
    requires pos <= |s|
    ensures Find(s[pos..], d, 0).Some? ==> Find(s, d, pos) == Some(pos + Find(s[pos..], d, 0).value)
    ensures Find(s[pos..], d, 0).None? ==> Find(s, d, pos).None?
  {
    hide Find;
    var rest := s[pos..];
    FindSpec(rest, d, 0);
    FindSpec(s, d, pos);
    forall j | 0 <= j && j + |d| <= |rest| ensures OccursAt(rest, d, j) <==> OccursAt(s, d, pos + j) {
      assert rest[j..j + |d|] == s[pos + j..pos + j + |d|];
    }
    var r := Find(rest, d, 0);
    if r.Some? {
      forall j | pos <= j < pos + r.value ensures !OccursAt(s, d, j) {
        assert !OccursAt(rest, d, j - pos);
      }
      FindIs(s, d, pos, pos + r.value);
    } else if Find(s, d, pos).Some? {
      OccursInRest(s, pos, d, Find(s, d, pos).value);
    }
  }

  /** What follows `x + d` does not matter for the first `d` in it. */
  lemma FindInFront(x: string, d: string, rest: string)
    requires First(x, d)
    ensures Find(x + d + rest, d, 0) == Some(|x|)
  {
    hide Find;
    FindSpec(x + d, d, 0);
    var t := x + d + rest;
    assert t[|x|..|x| + |d|] == d;
    forall j | 0 <= j < |x| ensures !OccursAt(t, d, j) {
      assert t[j..j + |d|] == (x + d)[j..j + |d|];
      assert !OccursAt(x + d, d, j);
    }
    FindIs(t, d, 0, |x|);
  }

  lemma FindsAt(env: Env, pos: nat, x: string, d: string, rest: string)
    requires pos <= |env.input| && env.input[pos..] == x + d + rest && First(x, d)
    ensures pos + |x| + |d| <= |env.input|
    ensures FindIn(env, pos, d) == Some(Found(x, pos + |x|, pos + |x| + |d|))
    ensures env.input[pos + |x| + |d|..] == rest
  {
    hide Find, First;
    FindInFront(x, d, rest);
    FindShift(env.input, pos, d);
    assert FindLiteral(env.input, env.partial, pos, d) == Some(Found(env.input[pos..pos + |x|], pos + |x|, pos + |x| + |d|));
    assert env.input[pos..pos + |x|] == env.input[pos..][..|x|] == x;
    assert env.input[pos + |x| + |d|..] == env.input[pos..][|x| + |d|..];
  }

  lemma NotOpening(env: Env, pos: nat, d: string)
    requires !env.partial && pos <= |env.input| && !Opens(env.input[pos..], d)
    ensures StopsAt(env, pos, d)
  {
    hide Find;
    FindShift(env.input, pos, d);
    var f := Find(env.input[pos..], d, 0);
    if f.Some? {
      assert env.input[pos..pos + f.value] == env.input[pos..][..f.value];
    }
  }

  lemma ClosesAt(env: Env, form: Form, pos: nat, x: string, rest: string)
    requires Single(env, form) && pos <= |env.input|
    ensures env.input[pos..] == x + form.valEnd + rest && First(x, form.valEnd) ==>
              FindValEnd(env, form, pos) == Close(|form.valEnd|, Some(Found(x, pos + |x|, pos + |x| + |form.valEnd|)))
    ensures env.input[pos..] == x + form.toolEnd + rest && First(x, form.toolEnd) ==>
              FindToolEnd(env, form, pos) == Close(|form.toolEnd|, Some(Found(x, pos + |x|, pos + |x| + |form.toolEnd|)))
  {
    hide First;
    if env.input[pos..] == x + form.valEnd + rest && First(x, form.valEnd) { FindsAt(env, pos, x, form.valEnd, rest); }
    if env.input[pos..] == x + form.toolEnd + rest && First(x, form.toolEnd) { FindsAt(env, pos, x, form.toolEnd, rest); }
  }

  // ------------------------------------------------------------------------------- arguments

  lemma ReadsText(env: Env, form: Form, name: string, args: seq<Arg>, key: string, pos: nat, value: string, rest: string)
    requires Single(env, form) && pos <= |env.input|
    requires env.input[pos..] == value + form.valEnd + rest && First(value, form.valEnd)
    ensures PlainValue(env, form, name, args, key, pos) ==
            Next(pos + |value| + |form.valEnd|, SetArg(args, key, Text(if form.trimRawArgval then Strip(value) else value)))
    ensures pos + |value| + |form.valEnd| <= |env.input| && env.input[pos + |value| + |form.valEnd|..] == rest
  {
    hide First, SetArg, Strip;
    ClosesAt(env, form, pos, value, rest);
    FindsAt(env, pos, value, form.valEnd, rest);
  }

  lemma OccursBehind(s: string, k: nat, d: string, j: nat)
    requires k <= |s| && OccursAt(s[k..], d, j)
    ensures OccursAt(s, d, k + j)
  {
    assert s[k + j..k + j + |d|] == s[k..][j..j + |d|];
  }

  lemma FirstInRest(x: string, d: string, k: nat)
    requires First(x, d) && k <= |x|
    ensures First(x[k..], d)
  {
    hide Find, OccursAt;
    var t := x + d;
    assert t[k..] == x[k..] + d;
    FindSpec(t, d, 0);
    forall j | 0 <= j < |x| - k ensures !OccursAt(t[k..], d, j) {
      if OccursAt(t[k..], d, j) { OccursBehind(t, k, d, j); }
    }
    EndsWithIt(x[k..], d);
    FindIs(t[k..], d, 0, |x| - k);
  }

  lemma EndsWithIt(x: string, d: string)
    ensures OccursAt(x + d, d, |x|)
  {
  }

  lemma StopsBefore(s: string, i: nat, j: nat)
    requires i <= j < |s| && !IsSpace(s[j])
    ensures SkipSpaces(s, i) <= j
  {
    hide SkipSpaces;
    SkipSpacesSpec(s, i);
  }

  /** What follows a JSON value in its place: the rest of the value, and then the closing literal. */
  lemma BehindJson(env: Env, form: Form, pos: nat, value: string, rest: string, end: nat)
    requires Single(env, form) && pos <= end <= pos + |value| <= |env.input| && !AllSpace(form.valEnd)
    requires env.input[pos..] == value + form.valEnd + rest && First(value, form.valEnd)
    ensures SkipSpaces(env.input, end) < |env.input|
    ensures var tail := env.input[end..pos + |value|];
            FindValEnd(env, form, end) == Close(|form.valEnd|, Some(Found(tail, pos + |value|, pos + |value| + |form.valEnd|)))
  {
    hide Find, First, IsSpace;
    var k := end - pos;
    var tail := value[k..];
    FirstInRest(value, form.valEnd, k);
    assert env.input[pos..] == value + (form.valEnd + rest);
    RestAt(env.input, pos, value, form.valEnd + rest, k);
    assert tail + (form.valEnd + rest) == tail + form.valEnd + rest;
    var i :| 0 <= i < |form.valEnd| && !IsSpace(form.valEnd[i]);
    CharBehind(env.input, end, tail, form.valEnd, rest, i);
    StopsBefore(env.input, end, end + |tail| + i);
    ClosesAt(env, form, end, tail, rest);
  }

  lemma RestAt(s: string, pos: nat, x: string, y: string, k: nat)
    requires pos <= |s| && s[pos..] == x + y && k <= |x|
    ensures pos + |x| <= |s| && s[pos + k..] == x[k..] + y && s[pos + k..pos + |x|] == x[k..]
  {
    var t := s[pos..];
    assert t[k..] == s[pos + k..] && t[k..] == x[k..] + y;
    assert t[k..|x|] == s[pos + k..pos + |x|] && t[k..|x|] == x[k..];
  }

  lemma CharBehind(s: string, pos: nat, x: string, d: string, rest: string, i: nat)
    requires pos <= |s| && s[pos..] == x + d + rest && i < |d|
    ensures pos + |x| + i < |s| && s[pos + |x| + i] == d[i]
  {
    assert s[pos..][|x| + i] == d[i];
  }

  lemma ParsesValue(env: Env, form: Form, name: string, args: seq<Arg>, pos: nat, a: PrintedArg, rest: string)
    requires Single(env, form) && pos <= |env.input| && ReadsAs(env, form, Placed(pos, a))
    requires env.input[pos..] == a.value + form.valEnd + rest && First(a.value, form.valEnd)
    ensures ArgValue(env, form, name, args, a.key, pos) ==
            Next(pos + |a.value| + |form.valEnd|, SetArg(args, a.key, ValueOf(form, a)))
    ensures pos + |a.value| + |form.valEnd| <= |env.input| && env.input[pos + |a.value| + |form.valEnd|..] == rest
  {
    hide First, SetArg, Strip, PlainValue, SkipSpaces, FindValEnd, MaybePrimitive;
    ReadsText(env, form, name, args, a.key, pos, a.value, rest);
    if form.rawArgval != Some(true) && env.json(pos).Json? {
      BehindJson(env, form, pos, a.value, rest, env.json(pos).end);
    }
  }

  lemma ParsesSep2(env: Env, form: Form, name: string, args: seq<Arg>, a: PrintedArg, pos: nat, rest: string)
    requires Single(env, form) && pos <= |env.input| && ArgOk(form, a)
    requires ReadsAs(env, form, Placed(pos + |Sep2Text(form, a)|, a))
    requires env.input[pos..] == Sep2Text(form, a) + (a.value + form.valEnd) + rest
    ensures var end := pos + |Sep2Text(form, a)| + |a.value + form.valEnd|;
            && ArgAfterKey(env, form, name, args, a.key, pos) ==
                 Next(end, SetArg(args, a.key, ValueOf(form, a)))
            && end <= |env.input| && env.input[end..] == rest
  {
    hide First, SetArg, ValueOf, ArgValue, ReadsAs;
    match form.keyValSep2
    case None =>
      assert env.input[pos..] == a.value + form.valEnd + rest;
      ParsesValue(env, form, name, args, pos, a, rest);
    case Some(sep) =>
      assert env.input[pos..] == a.gap2 + sep + (a.value + form.valEnd + rest);
      FindsAt(env, pos, a.gap2, sep, a.value + form.valEnd + rest);
      ParsesValue(env, form, name, args, pos + |a.gap2| + |sep|, a, rest);
  }

  lemma ParsesArg(env: Env, form: Form, name: string, args: seq<Arg>, a: PrintedArg, pos: nat, rest: string)
    requires Single(env, form) && pos <= |env.input| && ArgOk(form, a) && ReadsAs(env, form, Placed(ValuePos(form, pos, a), a))
    requires env.input[pos..] == ArgText(form, a) + rest
    ensures pos + |ArgText(form, a)| <= |env.input| && env.input[pos + |ArgText(form, a)|..] == rest
    ensures ParseArg(env, form, name, args, pos) ==
            Next(pos + |ArgText(form, a)|, SetArg(args, a.key, ValueOf(form, a)))
  {
    hide First, SetArg, ValueOf, ArgAfterKey, Sep2Text, ParseArg, Find, FindIn, ReadsAs;
    var tail := Sep2Text(form, a) + (a.value + form.valEnd);
    var keyed := a.key + form.keyValSep + (tail + rest);
    Nested(a.gap + form.keyStart, a.key + form.keyValSep, tail, rest);
    FindsAt(env, pos, a.gap, form.keyStart, keyed);
    var p := pos + |a.gap| + |form.keyStart|;
    FindsAt(env, p, a.key, form.keyValSep, tail + rest);
    var q := p + |a.key| + |form.keyValSep|;
    ParsesSep2(env, form, name, args, a, q, rest);
    ArgTurn(env, form, name, args, pos, Found(a.gap, pos + |a.gap|, p), Found(a.key, p + |a.key|, q));
  }

  lemma Nested(a: string, b: string, c: string, rest: string)
    ensures a + (b + c) + rest == a + (b + (c + rest))
  {
  }

  lemma ArgTurn(env: Env, form: Form, name: string, args: seq<Arg>, pos: nat, f: Found, k: Found)
    requires env.Valid() && form.Valid() && pos <= |env.input| && f.begin <= f.end <= |env.input| && k.begin <= k.end <= |env.input|
    requires FindIn(env, pos, form.keyStart) == Some(f) && AllSpace(f.prelude) && Whole(f, |form.keyStart|)
    requires FindIn(env, f.end, form.keyValSep) == Some(k) && Whole(k, |form.keyValSep|)
    ensures ParseArg(env, form, name, args, pos) == ArgAfterKey(env, form, name, args, k.prelude, k.end)
  {
  }

  lemma {:induction false} ParsesArgs(env: Env, form: Form, name: string, acc: seq<Arg>, args: seq<PrintedArg>, pos: nat, rest: string)
    requires Single(env, form) && pos + |ArgsText(form, args)| <= |env.input| && ArgsOk(form, args)
    requires env.input[pos..] == ArgsText(form, args) + rest && StopsAt(env, pos + |ArgsText(form, args)|, form.keyStart)
    requires AllRead(env, form, ArgPlaces(form, pos, args))
    ensures env.input[pos + |ArgsText(form, args)|..] == rest
    ensures ParseArgs(env, form, name, acc, pos) == Next(pos + |ArgsText(form, args)|, ArgsOf(form, acc, args))
    decreases |args|
  {
    hide ParseArg, StopsAt, ArgOk, SetArg, ValueOf, ArgText, AllRead, ReadsAs, ValuePos;
    if args == [] {
      assert env.input[pos..] == rest;
      NoMoreArgs(env, form, name, acc, pos);
    } else {
      var a := args[0];
      assert env.input[pos..] == ArgText(form, a) + (ArgsText(form, args[1..]) + rest);
      ReadFirst(env, form, Placed(ValuePos(form, pos, a), a), ArgPlaces(form, pos + |ArgText(form, a)|, args[1..]));
      ParsesArg(env, form, name, acc, a, pos, ArgsText(form, args[1..]) + rest);
      ParsesArgs(env, form, name, SetArg(acc, a.key, ValueOf(form, a)),
                 args[1..], pos + |ArgText(form, a)|, rest);
    }
  }

  lemma NoMoreArgs(env: Env, form: Form, name: string, acc: seq<Arg>, pos: nat)
    requires env.Valid() && form.Valid() && pos <= |env.input|
    requires StopsAt(env, pos, form.keyStart)
    ensures ParseArg(env, form, name, acc, pos) == NoMore
  {
  }

  // ------------------------------------------------------------------------------- tool calls

  /** A stripped name followed by blanks is stripped to the name. */
  lemma StripsToName(name: string, blanks: string)
    requires Strip(name) == name && name != "" && AllSpace(blanks)
    ensures Strip(name + blanks) == name
  {
    hide Strip;
    var lo, hi := StripSpec(name);
    assert name == name[lo..hi];
    assert |name| == hi - lo;
    assert (name + blanks)[0..|name|] == name;
    StripIs(name + blanks, name, 0, |name|);
  }

  /** Blanks in front do not make a text open. */
  lemma OpensAfterBlanks(gap: string, text: string, d: string)
    requires AllSpace(gap) && !Opens(gap + text, d)
    ensures !Opens(text, d)
  {
    hide Find;
    FindSpec(text, d, 0);
    FindSpec(gap + text, d, 0);
    var f, g := Find(text, d, 0), Find(gap + text, d, 0);
    if f.Some? && AllSpace(text[..f.value]) {
      assert (gap + text)[|gap| + f.value..|gap| + f.value + |d|] == text[f.value..f.value + |d|];
      assert OccursAt(gap + text, d, |gap| + f.value);
      assert g.Some? && g.value <= |gap| + f.value;
      forall k | 0 <= k < g.value ensures IsSpace((gap + text)[..g.value][k]) {
        if k >= |gap| { assert text[..f.value][k - |gap|] == (gap + text)[k]; }
      }
    }
  }

  /** The arguments as they stand once the cursor has been moved to the first key. */
  function AtFirstKey(args: seq<PrintedArg>): seq<PrintedArg> {
    if args == [] then [] else [args[0].(gap := "")] + args[1..]
  }

  lemma WithoutGap(form: Form, a: PrintedArg)
    requires ArgOk(form, a)
    ensures ArgOk(form, a.(gap := "")) && ArgText(form, a) == a.gap + ArgText(form, a.(gap := ""))
  {
    hide First, Sep2Text;
    EmptyFirst(form.keyStart);
    var rest := a.key + form.keyValSep + (Sep2Text(form, a) + (a.value + form.valEnd));
    assert Sep2Text(form, a.(gap := "")) == Sep2Text(form, a) by { SameSep2(form, a); }
    assert "" + form.keyStart == form.keyStart;
    assert a.gap + form.keyStart + rest == a.gap + (form.keyStart + rest);
  }

  lemma SameSep2(form: Form, a: PrintedArg)
    ensures Sep2Text(form, a.(gap := "")) == Sep2Text(form, a)
  {
  }

  lemma FirstKeyKeepsArgs(form: Form, args: seq<PrintedArg>)
    requires ArgsOk(form, args)
    ensures ArgsOk(form, AtFirstKey(args))
    ensures ArgsOf(form, [], AtFirstKey(args)) == ArgsOf(form, [], args)
    ensures args != [] ==> ArgsText(form, args) == args[0].gap + ArgsText(form, AtFirstKey(args))
  {
    hide SetArg, ArgText, ArgOk;
    if args != [] {
      var a := args[0];
      var a' := a.(gap := "");
      assert ArgOk(form, a') by { assert ArgOk(form, a); WithoutGap(form, a); }
      assert AtFirstKey(args)[1..] == args[1..];
      WithoutGap(form, a);
    }
  }

  lemma FirstKeyKeepsPlaces(env: Env, form: Form, pos: nat, args: seq<PrintedArg>)
    requires env.Valid() && args != []
    ensures AllRead(env, form, ArgPlaces(form, pos + |args[0].gap|, AtFirstKey(args))) <==> AllRead(env, form, ArgPlaces(form, pos, args))
  {
    hide AllRead, ReadsAs;
    var a := args[0];
    var a' := a.(gap := "");
    SameSep2(form, a);
    var p := ValuePos(form, pos, a);
    var tail := ArgPlaces(form, pos + |ArgText(form, a)|, args[1..]);
    assert AtFirstKey(args)[1..] == args[1..];
    assert |ArgText(form, a)| == |a.gap| + |ArgText(form, a')|;
    ReadFirst(env, form, Placed(p, a), tail);
    ReadFirst(env, form, Placed(p, a'), tail);
    assert ReadsAs(env, form, Placed(p, a)) <==> ReadsAs(env, form, Placed(p, a')) by { GapUnread(env, form, p, a); }
  }

  lemma GapUnread(env: Env, form: Form, pos: nat, a: PrintedArg)
    requires env.Valid()
    ensures ReadsAs(env, form, Placed(pos, a)) <==> ReadsAs(env, form, Placed(pos, a.(gap := "")))
  {
  }

  /** What follows the name: the arguments that are still to be read, and the gap before the end of the call. */
  ghost predicate ArgsFrom(env: Env, form: Form, c: PrintedCall, following: string, from: nat, args: seq<PrintedArg>, gapEnd: string) {
    && from <= |env.input|
    && env.input[from..] == ArgsText(form, args) + (gapEnd + form.toolEnd + following)
    && ArgsOk(form, args) && ArgsOf(form, [], args) == ArgsOf(form, [], c.args)
    && !Opens(gapEnd + form.toolEnd + following, form.keyStart)
    && AllSpace(gapEnd) && First(gapEnd, form.toolEnd)
    && env.Valid() && AllRead(env, form, ArgPlaces(form, from, args))
  }

  lemma NameBeforeSeparator(env: Env, form: Form, c: PrintedCall, following: string, pos: nat) returns (f: Found)
    requires Plain(env, form) && pos <= |env.input| && CallOk(env, form, c, following) && !AllSpace(form.toolSep)
    requires env.input[pos..] == BodyText(form, c) + following
    requires AllRead(env, form, ArgPlaces(form, pos + |c.name| + |form.toolSep|, c.args))
    ensures FindName(env, form, pos) == NameAt(f) && f.prelude == c.name && f.begin <= f.end
    ensures ArgsFrom(env, form, c, following, f.end, c.args, c.gapEnd)
  {
    hide Find, Strip, ArgsText, First, Opens, ArgsOk, ArgsOf, AllSpace, AllRead, ArgPlaces;
    var rest := ArgsText(form, c.args) + (c.gapEnd + form.toolEnd + following);
    assert BodyText(form, c) + following == c.name + form.toolSep + rest;
    FindsAt(env, pos, c.name, form.toolSep, rest);
    f := Found(c.name, pos + |c.name|, pos + |c.name| + |form.toolSep|);
  }

  /** The text of a call with a blank separator, up to its first key and from there on. */
  lemma UpToKey(form: Form, c: PrintedCall, following: string) returns (rest: string)
    requires c.args != [] && ArgsOk(form, c.args)
    ensures var x := c.name + form.toolSep + c.args[0].gap;
            var after := c.gapEnd + form.toolEnd + following;
            && BodyText(form, c) + following == x + (ArgsText(form, AtFirstKey(c.args)) + after)
            && BodyText(form, c) + following == x + form.keyStart + rest
  {
    hide ArgsText, ArgText, ArgsOk, ArgsOf;
    var after := c.gapEnd + form.toolEnd + following;
    FirstKeyKeepsArgs(form, c.args);
    rest := StartsWithKey(form, AtFirstKey(c.args), after);
    Regroup(c.name + form.toolSep, c.args[0].gap, ArgsText(form, AtFirstKey(c.args)), c.gapEnd + form.toolEnd, following);
    Associate(c.name + form.toolSep + c.args[0].gap, form.keyStart, rest);
  }

  lemma Regroup(x: string, gap: string, text: string, end: string, following: string)
    ensures x + (gap + text + end) + following == x + gap + (text + (end + following))
  {
  }

  lemma Associate(a: string, b: string, c: string)
    ensures a + (b + c) == a + b + c
  {
  }

  lemma NameBeforeKey(env: Env, form: Form, c: PrintedCall, following: string, pos: nat) returns (f: Found)
    requires Plain(env, form) && pos <= |env.input| && CallOk(env, form, c, following) && AllSpace(form.toolSep)
    requires env.input[pos..] == BodyText(form, c) + following && c.args != []
    requires AllRead(env, form, ArgPlaces(form, pos + |c.name| + |form.toolSep|, c.args))
    ensures FindName(env, form, pos) == NameAt(f) && Strip(f.prelude) == c.name && f.begin <= f.end
    ensures ArgsFrom(env, form, c, following, f.begin, AtFirstKey(c.args), c.gapEnd)
  {
    hide Find, Strip, ArgsText, First, Opens, ArgsOf, AllRead, ArgPlaces, BodyText;
    FirstKeyKeepsPlaces(env, form, pos + |c.name| + |form.toolSep|, c.args);
    FirstKeyKeepsArgs(form, c.args);
    var x := c.name + form.toolSep + c.args[0].gap;
    var rest := UpToKey(form, c, following);
    FindsAt(env, pos, x, form.keyStart, rest);
    f := Found(x, pos + |x|, pos + |x| + |form.keyStart|);
    assert env.input[f.begin..] == env.input[pos..][|x|..];
    assert ArgOk(form, c.args[0]);
    assert x == c.name + (form.toolSep + c.args[0].gap);
    StripsToName(c.name, form.toolSep + c.args[0].gap);
  }

  lemma StartsWithKey(form: Form, args: seq<PrintedArg>, after: string) returns (rest: string)
    requires args != [] && args[0].gap == ""
    ensures ArgsText(form, args) + after == form.keyStart + rest
  {
    var a := args[0];
    var tail := a.key + form.keyValSep + (Sep2Text(form, a) + (a.value + form.valEnd));
    assert ArgText(form, a) == form.keyStart + tail;
    rest := tail + ArgsText(form, args[1..]) + after;
  }

  lemma NameBeforeEnd(env: Env, form: Form, c: PrintedCall, following: string, pos: nat) returns (f: Found)
    requires Plain(env, form) && pos <= |env.input| && CallOk(env, form, c, following) && AllSpace(form.toolSep)
    requires env.input[pos..] == BodyText(form, c) + following && c.args == []
    ensures FindName(env, form, pos) == NameAt(f) && Strip(f.prelude) == c.name && f.begin <= f.end
    ensures ArgsFrom(env, form, c, following, f.begin, [], "")
  {
    hide Find, FindIn, FindToolEnd, Strip, First, Opens, ArgsOf, AllSpace, ArgsFrom;
    var x := c.name + form.toolSep + c.gapEnd;
    f := Found(x, pos + |x|, pos + |x| + |form.toolEnd|);
    assert env.input[pos..] == x + form.toolEnd + following;
    FindsAt(env, pos, x, form.toolEnd, following);
    ClosesAt(env, form, pos, x, following);
    KeyOnlyBehind(env, form, pos, x, following);
    assert x == c.name + (form.toolSep + c.gapEnd);
    BlankGap(form, c);
    StripsToName(c.name, form.toolSep + c.gapEnd);
    NoArgsHere(env, form, c, following, pos, x);
  }

  lemma BlankGap(form: Form, c: PrintedCall)
    requires AllSpace(form.toolSep) && AllSpace(c.gapEnd)
    ensures AllSpace(form.toolSep + c.gapEnd)
  {
    hide IsSpace;
  }

  /** When no key begins before the end of the call, what precedes it holds the end. */
  lemma KeyOnlyBehind(env: Env, form: Form, pos: nat, x: string, following: string)
    requires !env.partial && pos <= |env.input| && env.input[pos..] == x + form.toolEnd + following
    requires var k := Find(x + form.toolEnd + following, form.keyStart, 0);
             k.Some? ==> k.value >= |x + form.toolEnd|
    ensures var k := FindIn(env, pos, form.keyStart);
            k.Some? ==> Find(k.value.prelude, form.toolEnd, 0).Some?
  {
    hide Find;
    FindShift(env.input, pos, form.keyStart);
    var k := Find(env.input[pos..], form.keyStart, 0);
    if k.Some? {
      assert env.input[pos..pos + k.value] == env.input[pos..][..k.value];
      HoldsEnd(x, form.toolEnd, following, k.value);
    }
  }

  /** The end of a call without arguments is where its arguments would begin. */
  lemma NoArgsHere(env: Env, form: Form, c: PrintedCall, following: string, pos: nat, x: string)
    requires Plain(env, form) && pos <= |env.input| && CallOk(env, form, c, following) && AllSpace(form.toolSep)
    requires env.input[pos..] == x + form.toolEnd + following && c.args == []
    ensures pos + |x| <= |env.input| && ArgsFrom(env, form, c, following, pos + |x|, [], "")
  {
    hide Find, FindIn, Strip, First, Opens, ArgsOf;
    assert env.input[pos + |x|..] == env.input[pos..][|x|..] == "" + (form.toolEnd + following);
    assert c.gapEnd + form.toolEnd + following == c.gapEnd + (form.toolEnd + following);
    OpensAfterBlanks(c.gapEnd, form.toolEnd + following, form.keyStart);
    assert "" + form.toolEnd + following == form.toolEnd + following;
    EmptyFirst(form.toolEnd);
  }

  lemma EmptyFirst(d: string)
    ensures First("", d)
  {
    assert "" + d == d;
  }

  lemma HoldsEnd(x: string, d: string, following: string, n: nat)
    requires |x + d| <= n <= |x + d + following|
    ensures Find((x + d + following)[..n], d, 0).Some?
  {
    hide Find;
    var t := (x + d + following)[..n];
    FindSpec(t, d, 0);
    assert t[|x|..|x| + |d|] == d;
    assert OccursAt(t, d, |x|);
  }

  lemma ParsesRest(env: Env, form: Form, c: PrintedCall, following: string, name: string, from: nat, args: seq<PrintedArg>, gapEnd: string)
    requires Plain(env, form) && name != "" && ArgsFrom(env, form, c, following, from, args, gapEnd)
    ensures var p := from + |ArgsText(form, args)|;
            && p + |gapEnd| + |form.toolEnd| <= |env.input|
            && ParseArgs(env, form, name, [], from) == Next(p, ArgsOf(form, [], c.args))
            && ParseToolEnd(env, form, name, ArgsOf(form, [], c.args), p, p != from) ==
                 Tool(p + |gapEnd| + |form.toolEnd|, ToolCall(name, Dump(ArgsOf(form, [], c.args)), ""))
            && env.input[p + |gapEnd| + |form.toolEnd|..] == following
  {
    hide Find, Opens, First, ArgsText, ArgsOf, ParseArgs, Dump, ArgsOk, AllRead, ArgPlaces;
    var after := gapEnd + form.toolEnd + following;
    var p := from + |ArgsText(form, args)|;
    assert |env.input[from..]| == |ArgsText(form, args)| + |after|;
    assert env.input[p..] == env.input[from..][|ArgsText(form, args)|..] == after;
    NotOpening(env, p, form.keyStart);
    ParsesArgs(env, form, name, [], args, from, after);
    ClosesAt(env, form, p, gapEnd, following);
    FindsAt(env, p, gapEnd, form.toolEnd, following);
  }

  lemma ParsesTool(env: Env, form: Form, c: PrintedCall, following: string, pos: nat)
    requires Plain(env, form) && pos <= |env.input| && CallOk(env, form, c, following)
    requires env.input[pos..] == BodyText(form, c) + following
    requires AllRead(env, form, ArgPlaces(form, pos + |c.name| + |form.toolSep|, c.args))
    ensures ParseTool(env, form, pos) == Tool(|env.input| - |following|, CallOf(env, form, c))
    ensures |following| <= |env.input| && env.input[|env.input| - |following|..] == following
  {
    hide Find, Strip, FindName, ParseArgs, ParseToolEnd, ArgsFrom, ArgsText, Dump, AllRead, ArgPlaces;
    var f: Found, from, args, gapEnd := Found("", 0, 0), 0, c.args, c.gapEnd;
    if !AllSpace(form.toolSep) {
      f := NameBeforeSeparator(env, form, c, following, pos);
      from := f.end;
    } else if c.args != [] {
      f := NameBeforeKey(env, form, c, following, pos);
      from, args := f.begin, AtFirstKey(c.args);
    } else {
      f := NameBeforeEnd(env, form, c, following, pos);
      from, args, gapEnd := f.begin, [], "";
    }
    ParsesRest(env, form, c, following, NameOf(env, c.name), from, args, gapEnd);
    assert Strip(f.prelude) == Strip(c.name);
    var end := from + |ArgsText(form, args)| + |gapEnd| + |form.toolEnd|;
    assert |env.input[end..]| == |following|;
  }

  // --------------------------------------------------------------------------------- the whole

  ghost predicate TailOk(form: Form, gap: string, suffix: string) {
    AllSpace(gap) && First(gap, form.scopeEnd) && !Opens(gap + form.scopeEnd + suffix, form.toolStart)
  }

  lemma ParsesScopeEnd(env: Env, form: Form, start: nat, pos: nat, calls: seq<ToolCall>, recovery: bool, gap: string, suffix: string)
    requires env.Valid() && form.Valid() && !env.partial && start <= pos <= |env.input| && TailOk(form, gap, suffix)
    requires env.input[pos..] == gap + form.scopeEnd + suffix
    ensures |suffix| <= |env.input|
    ensures ParseTools(env, form, start, pos, calls, recovery) == Returns(true, |env.input| - |suffix|, calls)
  {
    hide Find, First, Opens;
    NotOpening(env, pos, form.toolStart);
    FindsAt(env, pos, gap, form.scopeEnd, suffix);
    assert |env.input[pos..]| == |gap| + |form.scopeEnd| + |suffix|;
  }

  lemma GapOk(env: Env, form: Form, c: PrintedCall, following: string)
    requires CallOk(env, form, c, following)
    ensures AllSpace(c.gap) && First(c.gap, form.toolStart)
  {
    hide First;
  }

  lemma ToolTurn(env: Env, form: Form, start: nat, pos: nat, calls: seq<ToolCall>, recovery: bool, f: Found, end: nat, call: ToolCall)
    requires env.Valid() && form.Valid() && start <= pos <= |env.input| && f.end <= end <= |env.input|
    requires FindIn(env, pos, form.toolStart) == Some(f) && AllSpace(f.prelude)
    requires ParseTool(env, form, f.end) == Tool(end, call)
    ensures ParseTools(env, form, start, pos, calls, recovery) == ParseTools(env, form, start, end, calls + [call], false)
  {
    hide FindIn, ParseTool, ParseScopeEnd, ReturnError, EndWith, AllSpace;
  }

  lemma {:induction false} ParsesCalls(env: Env, form: Form, start: nat, pos: nat, before: seq<ToolCall>, recovery: bool,
                                       calls: seq<PrintedCall>, gap: string, suffix: string)
    requires Plain(env, form) && start <= pos <= |env.input|
    requires TailOk(form, gap, suffix) && CallsOk(env, form, calls, gap + form.scopeEnd + suffix)
    requires env.input[pos..] == CallsText(form, calls, gap + form.scopeEnd + suffix)
    requires AllRead(env, form, CallPlaces(form, pos, calls))
    ensures |suffix| <= |env.input|
    ensures ParseTools(env, form, start, pos, before, recovery) ==
            Returns(true, |env.input| - |suffix|, before + CallsOf(env, form, calls))
    decreases |calls|
  {
    hide Find, First, Opens, BodyText, ParseTool, ParseTools, NameOk, CallOf, NameOf, ArgsOk, Strip, FindIn, TailOk, CallOk, AllRead, ArgPlaces;
    var tail := gap + form.scopeEnd + suffix;
    if calls == [] {
      ParsesScopeEnd(env, form, start, pos, before, recovery, gap, suffix);
      assert before + [] == before;
    } else {
      var c := calls[0];
      var following := CallsText(form, calls[1..], tail);
      assert CallOk(env, form, c, following);
      assert AllSpace(c.gap) && First(c.gap, form.toolStart) by { GapOk(env, form, c, following); }
      FindsAt(env, pos, c.gap, form.toolStart, BodyText(form, c) + following);
      var p := pos + |c.gap| + |form.toolStart|;
      var end := p + |BodyText(form, c)|;
      ReadBoth(env, form, ArgPlaces(form, p + |c.name| + |form.toolSep|, c.args), CallPlaces(form, end, calls[1..]));
      ParsesTool(env, form, c, following, p);
      assert end == |env.input| - |following|;
      var call := CallOf(env, form, c);
      ToolTurn(env, form, start, pos, before, recovery, Found(c.gap, pos + |c.gap|, p), end, call);
      ParsesCalls(env, form, start, end, before + [call], false, calls[1..], gap, suffix);
      assert before + [call] + CallsOf(env, form, calls[1..]) == before + ([call] + CallsOf(env, form, calls[1..]));
    }
  }

  /** THE PARSER UNDOES THE PRINTER. Any list of calls, printed anywhere in a text with any blanks between the parts,
      is parsed to exactly those calls with their arguments in order, and the cursor ends behind them. */
  lemma ParserUndoesPrinter(env: Env, form: Form, pre: string, head: string, calls: seq<PrintedCall>, gap: string, suffix: string,
                            before: seq<ToolCall>)
    requires Plain(env, form)
    requires env.input == pre + (HeadText(form, head) + CallsText(form, calls, gap + form.scopeEnd + suffix))
    requires !AllSpace(form.scopeStart) ==> AllSpace(head) && First(head, form.scopeStart)
    requires CallsOk(env, form, calls, gap + form.scopeEnd + suffix) && TailOk(form, gap, suffix)
    requires AllRead(env, form, CallPlaces(form, |pre| + |HeadText(form, head)|, calls))
    ensures |suffix| <= |env.input|
    ensures TryConsume(env, form, |pre|, before) == Returns(true, |env.input| - |suffix|, before + CallsOf(env, form, calls))
  {
    hide Find, First, CallsOk, TailOk, CallsText, CallsOf, CallPlaces, AllRead, ParseTools, FindIn;
    var text := CallsText(form, calls, gap + form.scopeEnd + suffix);
    assert env.input[|pre|..] == HeadText(form, head) + text;
    if AllSpace(form.scopeStart) {
      assert env.input[|pre|..] == text;
      ParsesCalls(env, form, |pre|, |pre|, before, true, calls, gap, suffix);
    } else {
      FindsAt(env, |pre|, head, form.scopeStart, text);
      ParsesCalls(env, form, |pre|, |pre| + |head| + |form.scopeStart|, before, true, calls, gap, suffix);
    }
    ParsesFrom(env, form, |pre|, before, if AllSpace(form.scopeStart) then |pre| else |pre| + |head| + |form.scopeStart|,
               Found(head, |pre| + |head|, |pre| + |head| + |form.scopeStart|));
  }

  lemma ParsesFrom(env: Env, form: Form, start: nat, before: seq<ToolCall>, pos: nat, f: Found)
    requires env.Valid() && form.Valid() && start <= pos <= |env.input|
    requires if AllSpace(form.scopeStart) then pos == start
             else f.begin <= f.end == pos && FindIn(env, start, form.scopeStart) == Some(f) && AllSpace(f.prelude) && Whole(f, |form.scopeStart|)
    requires ParseTools(env, form, start, pos, before, true).Returns?
    ensures TryConsume(env, form, start, before) == ParseTools(env, form, start, pos, before, true)
  {
    hide ParseTools, FindIn;
  }

  // ------------------------------------------------------- when delimiters can be told apart

  /** A delimiter is found where it was written when its first character does not occur before it. */
  lemma FreshFirst(x: string, d: string)
    requires d != "" && d[0] !in x
    ensures First(x, d)
  {
    hide Find;
    forall j | 0 <= j < |x| ensures !OccursAt(x + d, d, j) {
      if OccursAt(x + d, d, j) { EarlyBeginning(x, d, j); }
    }
    assert OccursAt(x + d, d, |x|);
    FindIs(x + d, d, 0, |x|);
  }

  lemma EarlyBeginning(x: string, d: string, j: nat)
    requires d != "" && j < |x| && OccursAt(x + d, d, j)
    ensures d[0] in x
  {
    assert (x + d)[j..j + |d|][0] == x[j];
  }

  /** A loop that looks for `d` stops at `e` when neither is blank at its beginning or begins the other. */
  lemma ApartStops(gap: string, e: string, following: string, d: string)
    requires AllSpace(gap) && d != "" && e != "" && !IsSpace(d[0]) && !IsSpace(e[0]) && !(d <= e) && !(e <= d)
    ensures !Opens(gap + e + following, d)
  {
    hide Find, IsSpace;
    var text := gap + e + following;
    FindSpec(text, d, 0);
    var f := Find(text, d, 0);
    if f.Some? && AllSpace(text[..f.value]) { MeetsBeginning(gap, e, following, d, f.value); }
  }

  /** An occurrence behind nothing but blanks stands where the text begins. */
  lemma MeetsBeginning(gap: string, e: string, following: string, d: string, i: nat)
    requires AllSpace(gap) && d != "" && e != "" && !IsSpace(d[0]) && !IsSpace(e[0])
    requires OccursAt(gap + e + following, d, i) && AllSpace((gap + e + following)[..i])
    ensures d <= e || e <= d
  {
    hide IsSpace, SkipSpaces;
    var text := gap + e + following;
    assert text[i..i + |d|][0] == text[i] == d[0];
    assert text[|gap|] == e[0];
    assert forall k :: 0 <= k < |gap| ==> text[k] == gap[k];
    assert forall k :: 0 <= k < i ==> text[k] == text[..i][k];
    SkipSpacesIs(text, 0, |gap|);
    SkipSpacesIs(text, 0, i);
    assert i == |gap|;
    var n := Min(|d|, |e|);
    assert text[i..i + |e|] == e;
    Taken(text, i, |d|, n);
    Taken(text, i, |e|, n);
    SharedBeginning(d, e, n);
  }

  lemma Taken(s: string, i: nat, m: nat, n: nat)
    requires n <= m && i + m <= |s|
    ensures s[i..i + m][..n] == s[i..i + n]
  {
  }

  lemma SharedBeginning(d: string, e: string, n: nat)
    requires n == Min(|d|, |e|) && d[..n] == e[..n]
    ensures d <= e || e <= d
  {
  }

  // ------------------------------------------------------------- what the arguments say

  function AsArgs(form: Form, args: seq<PrintedArg>): (r: seq<Arg>)
    ensures |r| == |args|
  {
    seq(|args|, i requires 0 <= i < |args| =>
      Arg(args[i].key, ValueOf(form, args[i])))
  }

  /** With distinct keys, the arguments are the printed ones in the printed order. */
  lemma {:induction false} DistinctKeysKeepOrder(form: Form, acc: seq<Arg>, args: seq<PrintedArg>)
    requires forall i, j :: 0 <= i < j < |args| ==> args[i].key != args[j].key
    requires forall i, j :: 0 <= i < |acc| && 0 <= j < |args| ==> acc[i].key != args[j].key
    ensures ArgsOf(form, acc, args) == acc + AsArgs(form, args)
    decreases |args|
  {
    hide ValueOf, SetArg;
    if args == [] {
      assert acc + AsArgs(form, args) == acc;
    } else {
      var a := AsArgs(form, args)[0];
      SetArgAppends(acc, a.key, a.value);
      DistinctKeysKeepOrder(form, acc + [a], args[1..]);
      assert acc + [a] + AsArgs(form, args[1..]) == acc + AsArgs(form, args);
    }
  }
}
