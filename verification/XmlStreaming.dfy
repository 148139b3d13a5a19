/** Tool calls of a text that is still being written: what is parsed of a beginning of printed calls, and when it only
    grows. */
module XmlStreaming {
  import opened Chars
  import opened Wrappers
  import opened Strings
  import opened ChatParser
  import opened XmlToolCalls
  import opened XmlArguments
  import opened XmlRoundTrip
  import opened XmlForms
  import ChatDiff
  import Utf8

  // ------------------------------------------------------------------------- what can be streamed

  /** The first character of a delimiter does not come again in it. */
  predicate Fresh(d: string) {
    d != "" && forall i :: 1 <= i < |d| ==> d[i] != d[0]
  }

  /** Forms of tags; there may be no scope, and no separator behind the name. */
  predicate Streamable(form: Form) {
    && Tagged(form) && form.Valid() && (form.toolSep == "" || Fresh(form.toolSep)) && Fresh(form.keyValSep)
    && (form.scopeStart == "" || Fresh(form.scopeStart)) && (form.scopeEnd == "" || Fresh(form.scopeEnd))
    && Fresh(form.toolStart) && Fresh(form.toolEnd)
    && Fresh(form.keyStart) && Fresh(form.valEnd) && (form.keyValSep2.Some? ==> Fresh(form.keyValSep2.value))
  }

  lemma MinimaxStreams()
    ensures Streamable(MINIMAX)
  {
    hide Tagged;
    MinimaxIsTagged();
  }

  lemma Qwen3CoderStreams()
    ensures Streamable(QWEN3_CODER)
  {
    hide Tagged;
    Qwen3CoderIsTagged();
  }

  lemma SeedOssStreams()
    ensures Streamable(SEED_OSS)
  {
    hide Tagged;
    SeedOssIsTagged();
  }

  lemma Glm45Streams()
    ensures Streamable(GLM_4_5)
  {
    hide Tagged;
    Glm45IsTagged();
  }

  /** Without a literal for the end of the scope, what follows must not begin another call. */
  predicate ScopeEnds(form: Form, gap: string, suffix: string) {
    AllSpace(gap) && (form.scopeEnd == "" ==> gap == "" && !Opens(suffix, form.toolStart))
  }

  /** Keys and values are UTF-8, and keys do not end with the flag that marks what is cut. */
  predicate CleanArg(form: Form, a: PrintedArg)
    requires form.keyValSep != ""
  {
    && TidyArg(form, a) && Utf8.WellFormed(a.key) && Utf8.WellFormed(a.value)
    && !EndsWith(a.key, FLAG)
  }

  predicate CleanArgs(form: Form, args: seq<PrintedArg>)
    requires form.keyValSep != ""
  {
    && (forall i :: 0 <= i < |args| ==> CleanArg(form, args[i]))
    && forall i, j :: 0 <= i < j < |args| ==> args[i].key != args[j].key
  }

  predicate CleanCall(form: Form, c: PrintedCall)
    requires form.keyValSep != ""
  {
    TidyCall(form, c) && CleanArgs(form, c.args)
  }

  // ------------------------------------------------------------------------ what is shown of a cut

  /** A closing quote is cut off with the flag. */
  function Unquoted(t: string): string {
    if t != "" && t[|t| - 1] == '"' then t[..|t| - 1] else t
  }

  function KeyText(args: seq<Arg>, key: string): string {
    Before(args) + ("\"" + Escape(key))
  }

  /** As much of a text as is complete characters. */
  function Certain(s: string, m: nat): string {
    if m >= |s| then s else s[..Utf8.TruncateSafe(s[..m])]
  }

  function Trimmed(form: Form, s: string): string {
    if form.trimRawArgval then Strip(s) else s
  }

  /** The argument text shown when `m` characters of one more argument are there; nothing of a value that `waits`. */
  function ArgShown(form: Form, args: seq<Arg>, a: PrintedArg, m: nat, waits: bool): string {
    var k := |a.gap| + |form.keyStart|;
    var v := k + |a.key| + |form.keyValSep|;
    if m < k then OpenDump(args)
    else if m < v then Unquoted(KeyText(args, Certain(a.key, m - k)))
    else if m < v + |Sep2Text(form, a)| then Unquoted(UpToValue(args, a.key, ""))
    else Unquoted(UpToValue(args, a.key, ValueShown(form, a.value, m - v - |Sep2Text(form, a)|, waits)))
  }

  /** What is shown of a value of which `m` characters are there. */
  function ValueShown(form: Form, value: string, m: nat, waits: bool): string {
    if waits then "" else Trimmed(form, Certain(value, m))
  }

  function ArgsShown(form: Form, acc: seq<Arg>, args: seq<PrintedArg>, m: nat, waits: bool): string
    decreases |args|
  {
    if args == [] then OpenDump(acc)
    else if m < |ArgText(form, args[0])| then ArgShown(form, acc, args[0], m, waits)
    else ArgsShown(form, SetArg(acc, args[0].key, ValueOf(form, args[0])), args[1..], m - |ArgText(form, args[0])|, waits)
  }

  function Minus(m: nat, n: nat): nat {
    if m < n then 0 else m - n
  }

  /** Without a separator the name ends where the first key or the end of the call begins. */
  function NameGap(form: Form, c: PrintedCall): string {
    if form.toolSep != "" then "" else if c.args != [] then c.args[0].gap else c.gapEnd
  }

  /** The calls shown when `m` characters of their text are there; a call is shown once its name is complete. */
  function CallsShown(env: Env, form: Form, calls: seq<PrintedCall>, m: nat, waits: bool): seq<ToolCall>
    decreases |calls|
  {
    if calls == [] || m < |calls[0].gap| + |form.toolStart| then []
    else
      var c, n := calls[0], m - |calls[0].gap| - |form.toolStart|;
      if n >= |BodyText(form, c)| then [CallOf(env, form, c)] + CallsShown(env, form, calls[1..], n - |BodyText(form, c)|, waits)
      else if n <= |c.name| + |NameGap(form, c)| then []
      else [ToolCall(c.name, ArgsShown(form, [], c.args, Minus(n, |c.name| + |form.toolSep|), waits), "")]
  }

  // ------------------------------------------------------------------------------ cut searches

  /** The text from `pos` on is a beginning of `text`. */
  ghost predicate Begins(env: Env, pos: nat, text: string) {
    pos <= |env.input| && env.input[pos..] <= text
  }

  lemma Advance(env: Env, pos: nat, a: string, b: string)
    requires Begins(env, pos, a + b)
    ensures |env.input| - pos >= |a| ==>
              && pos + |a| <= |env.input|
              && env.input[pos..] == a + env.input[pos + |a|..] && Begins(env, pos + |a|, b)
    ensures |env.input| - pos <= |a| ==> env.input[pos..] <= a
  {
    var t := env.input[pos..];
    if |t| >= |a| {
      assert t[..|a|] == a && t[|a|..] == env.input[pos + |a|..];
      assert (a + b)[|a|..] == b;
    } else {
      assert t == (a + b)[..|t|] == a[..|t|];
    }
  }

  lemma Unmet(s: string, d: string, i: nat)
    requires d != "" && (i < |s| ==> s[i] != d[0])
    ensures !OccursAt(s, d, i)
  {
    if i + |d| <= |s| { assert s[i..i + |d|][0] == s[i]; }
  }

  lemma NoneInside(s: string, d: string, from: nat)
    requires d != "" && from <= |s| && d[0] !in s[from..]
    ensures Find(s, d, from).None?
    ensures forall i: nat :: from <= i < |s| ==> !(s[i..] <= d)
  {
    hide Find;
    assert forall k :: from <= k < |s| ==> s[k] == s[from..][k - from];
    FindSpec(s, d, from);
    forall i: nat | from <= i && i + |d| <= |s| ensures !OccursAt(s, d, i) { Unmet(s, d, i); }
    assert forall i: nat :: from <= i < |s| ==> s[i..][0] == s[i];
  }

  /** No delimiter in what is there: nothing is found. */
  lemma SearchNothing(env: Env, pos: nat, d: string)
    requires pos <= |env.input| && d != "" && d[0] !in env.input[pos..]
    ensures FindIn(env, pos, d).None?
  {
    hide Find, PartialFrom;
    NoneInside(env.input, d, pos);
    PartialFromSpec(env.input, d, 0);
  }

  /** A delimiter that is there in part is found in part. */
  lemma SearchPart(env: Env, pos: nat, w: string, d: string)
    requires env.partial && pos <= |env.input| && Fresh(d) && d[0] !in w
    requires |w| < |env.input| - pos < |w| + |d| && env.input[pos..] <= w + d
    ensures FindIn(env, pos, d) == Some(Found(w, pos + |w|, |env.input|))
  {
    hide Find, PartialFrom;
    var s, i := env.input, pos + |w|;
    assert s[pos..][..|w|] == w == s[pos..i] && s[pos..][|w|..] == s[i..];
    assert s[i..] == (w + d)[|w|..|s| - pos] == d[..|s| - i];
    assert forall k :: pos <= k < i ==> s[k] == s[pos..i][k - pos];
    FindSpec(s, d, pos);
    forall j: nat | pos <= j && j + |d| <= |s| ensures !OccursAt(s, d, j) { Unmet(s, d, j); }
    NoEarlierPart(s, d, i);
  }

  /** The beginning of a fresh delimiter at the end of a text begins nowhere earlier. */
  lemma NoEarlierPart(s: string, d: string, i: nat)
    requires Fresh(d) && i < |s| && s[i..] <= d
    ensures PartialFrom(s, d, 0) == Some(i)
  {
    hide PartialFrom;
    PartialFromSpec(s, d, 0);
    assert s[i..][0] == s[i];
    forall j: nat | j < i ensures !(s[j..] <= d) { NotFromHere(s, d, j, i); }
  }

  lemma NotFromHere(s: string, d: string, j: nat, i: nat)
    requires Fresh(d) && j < i < |s| && s[i] == d[0]
    ensures !(s[j..] <= d)
  {
    assert s[j..][i - j] == s[i];
  }

  /** The three ways in which a text is cut before, inside and behind a delimiter. */
  lemma SearchCut(env: Env, pos: nat, w: string, d: string, rest: string)
    requires env.partial && Fresh(d) && d[0] !in w && Begins(env, pos, w + d + rest)
    ensures var m := |env.input| - pos;
            && (m <= |w| ==> FindIn(env, pos, d).None?)
            && (|w| < m ==> FindIn(env, pos, d) == Some(Found(w, pos + |w|, Min(|env.input|, pos + |w| + |d|))))
  {
    hide Find, FindIn, First;
    var m := |env.input| - pos;
    Advance(env, pos, w + d, rest);
    if m <= |w| {
      assert w + d + rest == w + (d + rest);
      Advance(env, pos, w, d + rest);
      SearchNothing(env, pos, d);
    } else if m < |w| + |d| {
      SearchPart(env, pos, w, d);
    } else {
      FreshFirst(w, d);
      FindsAt(env, pos, w, d, env.input[pos + |w + d|..]);
    }
  }

  /** Where another tag follows the blanks, the tag `d` is found in part at most, and only while the other one is cut. */
  lemma SearchApart(env: Env, pos: nat, w: string, e: string, rest: string, d: string)
    requires Tag(d) && Tag(e) && Apart(d, e) && AllSpace(w) && Begins(env, pos, w + e + rest)
    ensures var f := FindIn(env, pos, d);
            f.Some? && AllSpace(f.value.prelude) ==>
              f.value.end == |env.input| && !Whole(f.value, |d|) && |env.input| - pos < |w| + |e|
  {
    hide FindIn, AllSpace, Apart;
    var f := FindIn(env, pos, d);
    if f.Some? && AllSpace(f.value.prelude) {
      FoundBegins(env, pos, d);
      BehindBlanks(env, pos, w, e, rest, f.value.begin);
      SameBeginning(env, pos, w, e, rest);
      NoWhole(env.input, f.value.begin, d, e);
    }
  }

  /** A text that goes on with `e`, as far as it is there, does not go on with `d`. */
  lemma NoWhole(s: string, i: nat, d: string, e: string)
    requires Apart(d, e) && i <= |s| && var n := Min(|s| - i, |e|); s[i..i + n] == e[..n]
    ensures !(i + |d| <= |s| && s[i..i + |d|] == d)
    ensures |s| - i >= |e| ==> !(s[i..] <= d)
  {
    var n := Min(|s| - i, |e|);
    if i + |d| <= |s| {
      var k := Min(|d|, |e|);
      assert s[i..i + |d|][..k] == s[i..i + k] == s[i..i + n][..k] == e[..k];
    }
    if |s| - i >= |e| { assert s[i..][..|e|] == s[i..i + n] == e; }
  }

  lemma FoundBegins(env: Env, pos: nat, d: string)
    requires pos <= |env.input| && Tag(d) && FindIn(env, pos, d).Some?
    ensures var f := FindIn(env, pos, d).value;
            && pos <= f.begin < |env.input| && env.input[f.begin] == '<' && f.prelude == env.input[pos..f.begin]
            && ((f.begin + |d| <= |env.input| && env.input[f.begin..f.begin + |d|] == d && f.end == f.begin + |d|)
                || (env.input[f.begin..] <= d && f.end == |env.input|))
  {
    hide Find, PartialFrom;
    FindSpec(env.input, d, pos);
    PartialFromSpec(env.input, d, 0);
    var f := FindIn(env, pos, d).value;
    if Find(env.input, d, pos).Some? {
      BeginsWith(env.input, d, f.begin);
    } else {
      assert env.input[f.begin..][0] == d[0];
    }
  }

  /** Behind nothing but blanks the first tag is the one that was printed. */
  lemma BehindBlanks(env: Env, pos: nat, w: string, e: string, rest: string, i: nat)
    requires Tag(e) && AllSpace(w) && Begins(env, pos, w + e + rest)
    requires pos <= i < |env.input| && env.input[i] == '<' && AllSpace(env.input[pos..i])
    ensures i == pos + |w|
  {
    var t := env.input[pos..];
    assert t[i - pos] == '<';
    assert forall k :: 0 <= k < |w| && k < |t| ==> t[k] == w[k];
    assert |w| < |t| ==> t[|w|] == e[0];
    assert forall k :: 0 <= k < i - pos ==> t[k] == env.input[pos..i][k];
  }

  lemma SameBeginning(env: Env, pos: nat, w: string, e: string, rest: string)
    requires Begins(env, pos, w + e + rest) && pos + |w| <= |env.input|
    ensures var n := Min(|env.input| - pos - |w|, |e|); env.input[pos + |w|..pos + |w| + n] == e[..n]
  {
    var t := env.input[pos..];
    var n := Min(|env.input| - pos - |w|, |e|);
    assert t[|w|..|w| + n] == (w + e + rest)[|w|..|w| + n] == e[..n];
  }

  // --------------------------------------------------------------------------- a cut argument

  lemma KeyFlagCut(args: seq<Arg>, key: string)
    ensures CutAtFlag(Dump(args + [Arg(key + FLAG, Text(""))])) == Some(Unquoted(KeyText(args, key)))
  {
    hide CutAtFlag, Escape, Before, Dump;
    FlaggedKey(args, key);
    CutsAtLastFlag(KeyText(args, key), "\":\"\"}");
  }

  lemma ValueFlagCut(args: seq<Arg>, key: string, text: string)
    ensures CutAtFlag(Dump(args + [Arg(key, Text(text + FLAG))])) == Some(Unquoted(UpToValue(args, key, text)))
  {
    hide CutAtFlag, Dump, UpToValue;
    PartialValueText(args, key, text);
  }

  ghost predicate NewKey(args: seq<Arg>, key: string) {
    forall i :: 0 <= i < |args| ==> args[i].key != key
  }

  ghost predicate NoFlags(args: seq<Arg>) {
    forall i :: 0 <= i < |args| ==> !EndsWith(args[i].key, FLAG)
  }

  lemma CutKeyShows(name: string, args: seq<Arg>, key: string)
    requires NoFlags(args)
    ensures GenPartial(name, SetArg(args, key + FLAG, Text(""))) == Unfinished(Call(name, Unquoted(KeyText(args, key))))
  {
    hide CutAtFlag, Dump, Unquoted, KeyText, SetArg;
    assert (key + FLAG)[|key|..] == FLAG;
    assert NewKey(args, key + FLAG);
    SetArgAppends(args, key + FLAG, Text(""));
    KeyFlagCut(args, key);
  }

  lemma CutValueShows(name: string, args: seq<Arg>, key: string, text: string)
    requires NewKey(args, key)
    ensures GenPartial(name, SetArg(args, key, Text(text + FLAG))) == Unfinished(Call(name, Unquoted(UpToValue(args, key, text))))
  {
    hide CutAtFlag, Dump, Unquoted, UpToValue, SetArg;
    SetArgAppends(args, key, Text(text + FLAG));
    ValueFlagCut(args, key, text);
  }

  lemma WholeIsSafe(s: string)
    requires Utf8.WellFormed(s)
    ensures Utf8.TruncateSafe(s) == |s|
  {
    hide Utf8.TruncateSafe, Utf8.WellFormed;
    Utf8.TruncationIsMaximal(s, |s|);
    assert s[..|s|][..|s|] == s[..|s|] == s;
  }

  /** What is there of a text, cut to complete characters. */
  lemma CertainIs(s: string, t: string)
    requires Utf8.WellFormed(s) && t <= s
    ensures t[..Utf8.TruncateSafe(t)] == Certain(s, |t|)
  {
    hide Utf8.TruncateSafe, Utf8.WellFormed;
    assert s[..|t|] == t;
    if |t| == |s| {
      assert t == s;
      WholeIsSafe(s);
      assert s[..|s|] == s;
    }
  }

  /** Nothing of the value at `pos` is shown yet: it may be a literal or a number, or it is JSON up to the end of the text
      or to the beginning of the closing literal. */
  ghost predicate Waits(env: Env, form: Form, pos: nat)
    requires env.Valid() && pos <= |env.input|
  {
    form.rawArgval != Some(true) &&
    match env.json(pos)
    case NoJson => MaybePrimitive(env, pos) == Some(true)
    case JsonFails => false
    case Json(_, _, end, healed, _) => WaitsBehind(env, form, end, healed)
  }

  ghost predicate WaitsBehind(env: Env, form: Form, end: nat, healed: bool)
    requires end <= |env.input|
  {
    SkipSpaces(env.input, end) == |env.input| ||
    (!healed && var f := FindValEnd(env, form, end).found; f.Some? && AllSpace(f.value.prelude))
  }

  /** A value that is cut can be read: the reader throws nothing, the view of it is in range, and JSON that ends before the
      end of the text ends in the value. */
  ghost predicate MayBeCut(env: Env, form: Form, p: Placed)
    requires env.Valid() && p.pos <= |env.input|
  {
    form.rawArgval == Some(true) ||
    match env.json(p.pos)
    case NoJson => MaybePrimitive(env, p.pos).Some?
    case JsonFails => false
    case Json(_, _, end, _, _) => SkipSpaces(env.input, end) == |env.input| || end <= p.pos + |p.arg.value|
  }

  /** As far as it is there, the value is read as it is meant, and `waits` says whether it waits when it is cut. */
  ghost predicate Settles(env: Env, form: Form, p: Placed, waits: bool)
    requires env.Valid()
  {
    p.pos <= |env.input| ==>
      if p.pos + |p.arg.value| + |form.valEnd| <= |env.input| then ReadsAs(env, form, p)
      else MayBeCut(env, form, p) && waits == Waits(env, form, p.pos)
  }

  /** A value that is read as text. */
  lemma PlainCut(env: Env, form: Form, name: string, args: seq<Arg>, a: PrintedArg, pos: nat, rest: string)
    requires Single(env, form) && env.partial && Streamable(form) && CleanArg(form, a) && NewKey(args, a.key)
    requires Begins(env, pos, a.value + form.valEnd + rest) && |env.input| - pos < |a.value| + |form.valEnd|
    ensures PlainValue(env, form, name, args, a.key, pos) ==
            Halted(Unfinished(Call(name, Unquoted(UpToValue(args, a.key, ValueShown(form, a.value, |env.input| - pos, false))))))
  {
    hide FindIn, SetArg, GenPartial, Strip, Certain, UpToValue, Unquoted, NewKey, Utf8.TruncateSafe, Utf8.WellFormed;
    var m := |env.input| - pos;
    SearchCut(env, pos, a.value, form.valEnd, rest);
    var shown := Trimmed(form, Certain(a.value, m));
    if m <= |a.value| {
      assert a.value + form.valEnd + rest == a.value + (form.valEnd + rest);
      Advance(env, pos, a.value, form.valEnd + rest);
      CertainIs(a.value, env.input[pos..]);
    } else {
      assert Certain(a.value, m) == a.value by { CertainWhole(a.value, m); }
    }
    CutValueShows(name, args, a.key, shown);
  }

  /** JSON is not followed by a whole closing literal when that is cut. */
  lemma EndNotWhole(env: Env, form: Form, a: PrintedArg, pos: nat, rest: string, end: nat)
    requires Single(env, form) && env.partial && Streamable(form) && CleanArg(form, a) && pos <= end <= pos + |a.value|
    requires Begins(env, pos, a.value + form.valEnd + rest) && |env.input| - pos < |a.value| + |form.valEnd| && end <= |env.input|
    ensures var c := FindValEnd(env, form, end);
            c.size == |form.valEnd| && (c.found.Some? ==> !Whole(c.found.value, c.size))
  {
    hide FindIn, Utf8.WellFormed;
    var front, back := a.value[..end - pos], a.value[end - pos..];
    assert a.value + form.valEnd + rest == front + (back + form.valEnd + rest) by { assert a.value == front + back; }
    Advance(env, pos, front, back + form.valEnd + rest);
    SearchCut(env, end, back, form.valEnd, rest);
  }

  /** A value that waits. */
  lemma WaitCut(env: Env, form: Form, name: string, args: seq<Arg>, a: PrintedArg, pos: nat, rest: string, v: JsonTry)
    requires Single(env, form) && env.partial && Streamable(form) && CleanArg(form, a) && NewKey(args, a.key)
    requires Begins(env, pos, a.value + form.valEnd + rest) && |env.input| - pos < |a.value| + |form.valEnd|
    requires v.Json? && pos <= v.end <= |env.input| && form.rawArgval != Some(false)
    requires SkipSpaces(env.input, v.end) == |env.input| || v.end <= pos + |a.value|
    ensures JsonValue(env, form, name, args, a.key, pos, v) ==
            if WaitsBehind(env, form, v.end, v.healed) then
              Halted(Unfinished(Call(name, Unquoted(UpToValue(args, a.key, ValueShown(form, a.value, |env.input| - pos, true))))))
            else PlainValue(env, form, name, args, a.key, pos)
  {
    hide FindIn, SetArg, GenPartial, UpToValue, Unquoted, NewKey, PlainValue, SkipSpaces, FindValEnd, Utf8.WellFormed, AllSpace, CleanArg;
    CutValueShows(name, args, a.key, "");
    assert "" + FLAG == FLAG;
    if SkipSpaces(env.input, v.end) != |env.input| { EndNotWhole(env, form, a, pos, rest, v.end); }
  }

  lemma ValueCut(env: Env, form: Form, name: string, args: seq<Arg>, a: PrintedArg, pos: nat, rest: string)
    requires Single(env, form) && env.partial && Streamable(form) && CleanArg(form, a) && NewKey(args, a.key)
    requires Begins(env, pos, a.value + form.valEnd + rest) && |env.input| - pos < |a.value| + |form.valEnd|
    requires MayBeCut(env, form, Placed(pos, a)) && form.rawArgval != Some(false)
    ensures ArgValue(env, form, name, args, a.key, pos) ==
            Halted(Unfinished(Call(name, Unquoted(UpToValue(args, a.key,
              ValueShown(form, a.value, |env.input| - pos, Waits(env, form, pos)))))))
  {
    hide FindIn, UpToValue, Unquoted, NewKey, PlainValue, JsonValue, SkipSpaces, FindValEnd, MaybePrimitive, ValueShown, CleanArg, WaitsBehind,
      Streamable;
    PlainCut(env, form, name, args, a, pos, rest);
    if form.rawArgval != Some(true) {
      var v := env.json(pos);
      if v.Json? {
        WaitCut(env, form, name, args, a, pos, rest, v);
      } else if MaybePrimitive(env, pos) == Some(true) {
        SkipAtEnd(env.input);
        assert WaitsBehind(env, form, |env.input|, true) by { EndWaits(env, form); }
        WaitCut(env, form, name, args, a, pos, rest, Json("123", false, |env.input|, true, "123"));
      }
    }
  }

  lemma EndWaits(env: Env, form: Form)
    ensures WaitsBehind(env, form, |env.input|, true)
  {
    SkipAtEnd(env.input);
  }

  lemma CertainWhole(s: string, m: nat)
    requires m >= |s|
    ensures Certain(s, m) == s
  {
  }

  lemma AfterKeyCut(env: Env, form: Form, name: string, args: seq<Arg>, a: PrintedArg, pos: nat, rest: string,
                    waits: bool)
    requires Single(env, form) && env.partial && Streamable(form) && CleanArg(form, a) && NewKey(args, a.key)
    requires Begins(env, pos, Sep2Text(form, a) + (a.value + form.valEnd) + rest)
    requires |env.input| - pos < |Sep2Text(form, a)| + |a.value| + |form.valEnd|
    requires Settles(env, form, Placed(pos + |Sep2Text(form, a)|, a), waits) && form.rawArgval != Some(false)
    ensures var m, n := |env.input| - pos, |Sep2Text(form, a)|;
            ArgAfterKey(env, form, name, args, a.key, pos) ==
            Halted(Unfinished(Call(name, Unquoted(UpToValue(args, a.key, if m < n then "" else ValueShown(form, a.value, m - n, waits))))))
  {
    hide FindIn, SetArg, GenPartial, ValueShown, UpToValue, Unquoted, MayBeCut, Waits, ReadsAs, NewKey, ArgValue, Utf8.WellFormed, Fresh, Apart;
    match form.keyValSep2
    case None =>
      assert "" + (a.value + form.valEnd) + rest == a.value + form.valEnd + rest;
      ValueCut(env, form, name, args, a, pos, rest);
    case Some(sep) =>
      var more := a.value + form.valEnd + rest;
      SeparatorFirst(a.gap2, sep, a.value + form.valEnd, rest);
      SeparatorCut(env, pos, a.gap2, sep, more);
      CutValueShows(name, args, a.key, "");
      assert "" + FLAG == FLAG;
      if |env.input| - pos >= |a.gap2 + sep| {
        Advance(env, pos, a.gap2 + sep, more);
        ValueCut(env, form, name, args, a, pos + |a.gap2 + sep|, rest);
      }
  }

  lemma SeparatorFirst(gap: string, sep: string, value: string, rest: string)
    ensures gap + sep + value + rest == gap + sep + (value + rest)
  {
  }

  lemma SeparatorCut(env: Env, pos: nat, gap: string, sep: string, more: string)
    requires env.partial && Tag(sep) && Fresh(sep) && AllSpace(gap) && Begins(env, pos, gap + sep + more)
    ensures var m, f := |env.input| - pos, FindIn(env, pos, sep);
            && (m <= |gap| ==> f.None?)
            && (|gap| < m ==> f == Some(Found(gap, pos + |gap|, Min(|env.input|, pos + |gap| + |sep|))))
  {
    hide FindIn, Fresh;
    NoTagInBlanks(gap);
    SearchCut(env, pos, gap, sep, more);
  }

  lemma KeyCut(env: Env, form: Form, name: string, args: seq<Arg>, a: PrintedArg, pos: nat, f: Found, rest: string)
    requires Single(env, form) && env.partial && Streamable(form) && CleanArg(form, a) && NoFlags(args)
    requires f.begin <= f.end <= |env.input| && pos <= |env.input|
    requires FindIn(env, pos, form.keyStart) == Some(f) && AllSpace(f.prelude) && Whole(f, |form.keyStart|)
    requires Begins(env, f.end, a.key + form.keyValSep + rest) && |env.input| - f.end < |a.key| + |form.keyValSep|
    ensures ParseArg(env, form, name, args, pos) ==
            Halted(Unfinished(Call(name, Unquoted(KeyText(args, Certain(a.key, |env.input| - f.end))))))
  {
    hide FindIn, SetArg, GenPartial, Certain, KeyText, Unquoted, NoFlags, Utf8.TruncateSafe, Utf8.WellFormed, AllSpace;
    var m := |env.input| - f.end;
    SearchCut(env, f.end, a.key, form.keyValSep, rest);
    if m <= |a.key| {
      assert a.key + form.keyValSep + rest == a.key + (form.keyValSep + rest);
      Advance(env, f.end, a.key, form.keyValSep + rest);
      CertainIs(a.key, env.input[f.end..]);
    } else {
      CertainWhole(a.key, m);
    }
    CutKeyShows(name, args, Certain(a.key, m));
  }

  /** The argument is cut behind the literal that begins it, which ends at `f.end`. */
  lemma CutBehindStart(env: Env, form: Form, name: string, args: seq<Arg>, a: PrintedArg, pos: nat, f: Found, rest: string,
                       waits: bool)
    requires Single(env, form) && env.partial && Streamable(form) && CleanArg(form, a) && NewKey(args, a.key) && NoFlags(args)
    requires f.begin <= f.end && pos <= |env.input| && f.end == pos + |a.gap| + |form.keyStart|
    requires FindIn(env, pos, form.keyStart) == Some(f) && AllSpace(f.prelude) && Whole(f, |form.keyStart|)
    requires Begins(env, f.end, a.key + form.keyValSep + (Sep2Text(form, a) + (a.value + form.valEnd) + rest))
    requires |env.input| - pos < |ArgText(form, a)|
    requires Settles(env, form, Placed(ValuePos(form, pos, a), a), waits)
    requires form.rawArgval != Some(false)
    ensures ParseArg(env, form, name, args, pos) == Halted(Unfinished(Call(name, ArgShown(form, args, a, |env.input| - pos, waits))))
  {
    hide Find, FindIn, Sep2Text, SetArg, GenPartial, Certain, Trimmed, KeyText, UpToValue, Unquoted, Settles, NewKey, NoFlags, ArgAfterKey,
      ParseArg, Tagged, AllSpace, Utf8.WellFormed, OpenDump;
    var m := |env.input| - f.end;
    var tail := Sep2Text(form, a) + (a.value + form.valEnd);
    if m < |a.key| + |form.keyValSep| {
      KeyCut(env, form, name, args, a, pos, f, tail + rest);
    } else {
      SearchCut(env, f.end, a.key, form.keyValSep, tail + rest);
      Advance(env, f.end, a.key + form.keyValSep, tail + rest);
      var q := f.end + |a.key| + |form.keyValSep|;
      ArgTurn(env, form, name, args, pos, f, Found(a.key, f.end + |a.key|, q));
      AfterKeyCut(env, form, name, args, a, q, rest, waits);
    }
  }

  /** An argument that is cut behind its gap shows what it says. */
  lemma ArgCut(env: Env, form: Form, name: string, args: seq<Arg>, a: PrintedArg, pos: nat, rest: string, waits: bool)
    requires Single(env, form) && env.partial && Streamable(form) && CleanArg(form, a) && NewKey(args, a.key) && NoFlags(args)
    requires Begins(env, pos, ArgText(form, a) + rest)
    requires |a.gap| < |env.input| - pos < |ArgText(form, a)|
    requires Settles(env, form, Placed(ValuePos(form, pos, a), a), waits)
    requires form.rawArgval != Some(false)
    ensures ParseArg(env, form, name, args, pos) == Halted(Unfinished(Call(name, ArgShown(form, args, a, |env.input| - pos, waits))))
  {
    hide Find, FindIn, Sep2Text, Certain, Trimmed, KeyText, UpToValue, Unquoted, Settles, NewKey, NoFlags, ParseArg, AllSpace,
      Utf8.WellFormed, OpenDump, ValuePos;
    var tail := Sep2Text(form, a) + (a.value + form.valEnd);
    var keyed := a.key + form.keyValSep + (tail + rest);
    Nested(a.gap + form.keyStart, a.key + form.keyValSep, tail, rest);
    NoTagInBlanks(a.gap);
    SearchCut(env, pos, a.gap, form.keyStart, keyed);
    var k := |a.gap| + |form.keyStart|;
    if |env.input| - pos < k {
      PartOfKeyStart(env, form, name, args, pos);
    } else {
      Advance(env, pos, a.gap + form.keyStart, keyed);
      CutBehindStart(env, form, name, args, a, pos, Found(a.gap, pos + |a.gap|, pos + k), rest, waits);
    }
  }

  // -------------------------------------------------------------------------- the arguments of a call

  ghost predicate AllSettle(env: Env, form: Form, ps: seq<Placed>, waits: bool)
    requires env.Valid()
  {
    forall i :: 0 <= i < |ps| ==> Settles(env, form, ps[i], waits)
  }

  lemma SettleBoth(env: Env, form: Form, a: seq<Placed>, b: seq<Placed>, waits: bool)
    requires env.Valid()
    ensures AllSettle(env, form, a + b, waits) ==> AllSettle(env, form, a, waits) && AllSettle(env, form, b, waits)
  {
    hide Settles;
    assert forall i :: 0 <= i < |a| ==> (a + b)[i] == a[i];
    assert forall i :: 0 <= i < |b| ==> (a + b)[|a| + i] == b[i];
  }

  ghost predicate EndsWithPart(env: Env, form: Form, name: string, args: seq<Arg>, pos: nat, t: string)
    requires pos <= |env.input|
  {
    forall keys: bool :: ParseToolEnd(env, form, name, args, pos, keys) == ToolHalted(Unfinished(Call(name, t)))
  }

  /** The arguments and the end of the call are not all there, and `t` is the argument text that is added. */
  ghost predicate CutHere(env: Env, form: Form, name: string, acc: seq<Arg>, pos: nat, t: string)
    requires env.Valid() && form.Valid() && pos <= |env.input|
  {
    match ParseArgs(env, form, name, acc, pos)
    case Halted(h) => h == Unfinished(Call(name, t))
    case Next(p, args) => EndsWithPart(env, form, name, args, p, t)
    case NoMore => false
  }

  lemma StepOfArgs(env: Env, form: Form, name: string, acc: seq<Arg>, pos: nat)
    requires env.Valid() && form.Valid() && pos <= |env.input|
    ensures var step := ParseArg(env, form, name, acc, pos);
            ParseArgs(env, form, name, acc, pos) ==
              if step.NoMore? then Next(pos, acc)
              else if step.Next? then ParseArgs(env, form, name, step.args, step.pos)
              else step
  {
    hide ParseArg;
  }

  lemma EndCut(env: Env, form: Form, name: string, acc: seq<Arg>, pos: nat, w: string, rest: string, keys: bool)
    requires Single(env, form) && env.partial && Streamable(form) && AllSpace(w)
    requires Begins(env, pos, w + form.toolEnd + rest) && |env.input| - pos < |w| + |form.toolEnd|
    ensures ParseToolEnd(env, form, name, acc, pos, keys) == ToolHalted(Unfinished(Call(name, OpenDump(acc))))
  {
    hide FindIn, OpenDump;
    NoTagInBlanks(w);
    SearchCut(env, pos, w, form.toolEnd, rest);
  }

  lemma PartOfKeyStart(env: Env, form: Form, name: string, acc: seq<Arg>, pos: nat)
    requires env.Valid() && form.Valid() && pos <= |env.input|
    requires var f := FindIn(env, pos, form.keyStart); f.Some? && AllSpace(f.value.prelude) && !Whole(f.value, |form.keyStart|)
    ensures ParseArg(env, form, name, acc, pos) == Halted(Unfinished(Call(name, OpenDump(acc))))
  {
    hide FindIn, OpenDump;
  }

  lemma NoArgsCut(env: Env, form: Form, name: string, acc: seq<Arg>, gapEnd: string, following: string, pos: nat)
    requires Single(env, form) && env.partial && Streamable(form) && AllSpace(gapEnd)
    requires Begins(env, pos, gapEnd + form.toolEnd + following) && |env.input| - pos < |gapEnd| + |form.toolEnd|
    ensures CutHere(env, form, name, acc, pos, OpenDump(acc))
  {
    hide FindIn, OpenDump, ParseArg, ParseArgs, ParseToolEnd, AllSpace;
    StepOfArgs(env, form, name, acc, pos);
    SearchApart(env, pos, gapEnd, form.toolEnd, following, form.keyStart);
    if StopsAt(env, pos, form.keyStart) {
      NoMoreArgs(env, form, name, acc, pos);
      forall keys ensures ParseToolEnd(env, form, name, acc, pos, keys) == ToolHalted(Unfinished(Call(name, OpenDump(acc)))) {
        EndCut(env, form, name, acc, pos, gapEnd, following, keys);
      }
    } else {
      PartOfKeyStart(env, form, name, acc, pos);
    }
  }

  /** Nothing but blanks behind the arguments so far. */
  lemma BlanksCut(env: Env, form: Form, name: string, acc: seq<Arg>, pos: nat)
    requires Single(env, form) && env.partial && Streamable(form) && pos <= |env.input| && AllSpace(env.input[pos..])
    ensures CutHere(env, form, name, acc, pos, OpenDump(acc))
  {
    hide CutHere;
    var w := env.input[pos..];
    assert w <= w + form.toolEnd + "";
    NoArgsCut(env, form, name, acc, w, "", pos);
  }

  /** Everything about the arguments read so far that reading more of them needs. */
  ghost predicate Room(form: Form, acc: seq<Arg>, args: seq<PrintedArg>)
    requires form.keyValSep != ""
  {
    CleanArgs(form, args) && NoFlags(acc) && forall i :: 0 <= i < |args| ==> NewKey(acc, args[i].key)
  }

  lemma RoomForMore(form: Form, acc: seq<Arg>, args: seq<PrintedArg>)
    requires form.keyValSep != "" && Room(form, acc, args) && args != []
    ensures var a := args[0];
            && CleanArg(form, a) && NewKey(acc, a.key) && NoFlags(acc)
            && SetArg(acc, a.key, ValueOf(form, a)) == acc + [Arg(a.key, ValueOf(form, a))]
            && Room(form, SetArg(acc, a.key, ValueOf(form, a)), args[1..])
  {
    hide TidyArg, EndsWith, Utf8.WellFormed, SetArg, ValueOf;
    var a := args[0];
    SetArgAppends(acc, a.key, ValueOf(form, a));
    assert forall i :: 0 <= i < |args| - 1 ==> args[1..][i] == args[i + 1];
  }

  lemma {:induction false} ArgsCut(env: Env, form: Form, name: string, acc: seq<Arg>, args: seq<PrintedArg>, gapEnd: string,
                                   following: string, pos: nat, waits: bool)
    requires Single(env, form) && env.partial && Streamable(form) && form.rawArgval != Some(false)
    requires Room(form, acc, args) && AllSpace(gapEnd)
    requires Begins(env, pos, ArgsText(form, args) + (gapEnd + form.toolEnd + following))
    requires |env.input| - pos < |ArgsText(form, args)| + |gapEnd| + |form.toolEnd|
    requires AllSettle(env, form, ArgPlaces(form, pos, args), waits)
    ensures CutHere(env, form, name, acc, pos, ArgsShown(form, acc, args, |env.input| - pos, waits))
    decreases |args|
  {
    hide ParseArg, ParseArgs, ParseToolEnd, CutHere, ArgText, ArgShown, Room, Settles, ValuePos, SetArg, ValueOf, OpenDump, Streamable,
      CleanArg, NewKey, NoFlags, FindIn, AllSpace, ReadsAs, AllSettle;
    var m := |env.input| - pos;
    var after := gapEnd + form.toolEnd + following;
    if args == [] {
      assert "" + after == after;
      NoArgsCut(env, form, name, acc, gapEnd, following, pos);
    } else {
      var a, more := args[0], args[1..];
      var rest := ArgsText(form, more) + after;
      assert ArgsText(form, args) + after == ArgText(form, a) + rest;
      RoomForMore(form, acc, args);
      FirstSettles(env, form, pos, args, waits);
      if m < |ArgText(form, a)| {
        OneArgCut(env, form, name, acc, a, pos, rest, waits);
      } else {
        Advance(env, pos, ArgText(form, a), rest);
        var q := pos + |ArgText(form, a)|;
        OneArgWhole(env, form, name, acc, a, pos, waits);
        ArgsCut(env, form, name, SetArg(acc, a.key, ValueOf(form, a)), more, gapEnd, following, q, waits);
        StepOver(env, form, name, acc, SetArg(acc, a.key, ValueOf(form, a)), pos, q,
                 ArgsShown(form, SetArg(acc, a.key, ValueOf(form, a)), more, |env.input| - q, waits));
      }
    }
  }

  lemma FirstSettles(env: Env, form: Form, pos: nat, args: seq<PrintedArg>, waits: bool)
    requires env.Valid() && args != [] && AllSettle(env, form, ArgPlaces(form, pos, args), waits)
    ensures Settles(env, form, Placed(ValuePos(form, pos, args[0]), args[0]), waits)
    ensures AllSettle(env, form, ArgPlaces(form, pos + |ArgText(form, args[0])|, args[1..]), waits)
  {
    hide Settles, ValuePos, ArgText;
    var ps := ArgPlaces(form, pos, args);
    assert ps[0] == Placed(ValuePos(form, pos, args[0]), args[0]);
    SettleBoth(env, form, [ps[0]], ArgPlaces(form, pos + |ArgText(form, args[0])|, args[1..]), waits);
  }

  lemma StepOver(env: Env, form: Form, name: string, acc: seq<Arg>, acc': seq<Arg>, pos: nat, q: nat, t: string)
    requires env.Valid() && form.Valid() && pos <= |env.input| && q <= |env.input|
    requires ParseArg(env, form, name, acc, pos) == Next(q, acc') && CutHere(env, form, name, acc', q, t)
    ensures CutHere(env, form, name, acc, pos, t)
  {
    hide ParseArg, ParseToolEnd;
    StepOfArgs(env, form, name, acc, pos);
  }

  lemma OneArgCut(env: Env, form: Form, name: string, acc: seq<Arg>, a: PrintedArg, pos: nat, rest: string, waits: bool)
    requires Single(env, form) && env.partial && Streamable(form) && form.rawArgval != Some(false)
    requires CleanArg(form, a) && NewKey(acc, a.key) && NoFlags(acc)
    requires Begins(env, pos, ArgText(form, a) + rest) && |env.input| - pos < |ArgText(form, a)|
    requires Settles(env, form, Placed(ValuePos(form, pos, a), a), waits)
    ensures CutHere(env, form, name, acc, pos, ArgShown(form, acc, a, |env.input| - pos, waits))
  {
    hide ParseArg, ParseArgs, ParseToolEnd, Settles, NewKey, NoFlags, OpenDump, FindIn, Unquoted, KeyText, UpToValue, Utf8.WellFormed;
    var m := |env.input| - pos;
    if m <= |a.gap| {
      Advance(env, pos, a.gap, form.keyStart + (a.key + form.keyValSep + (Sep2Text(form, a) + (a.value + form.valEnd))) + rest);
      BlankPart(env.input[pos..], a.gap);
      BlanksCut(env, form, name, acc, pos);
    } else {
      ArgCut(env, form, name, acc, a, pos, rest, waits);
      StepOfArgs(env, form, name, acc, pos);
    }
  }

  lemma BlankPart(t: string, gap: string)
    requires AllSpace(gap) && t <= gap
    ensures AllSpace(t)
  {
    hide IsSpace;
  }

  lemma OneArgWhole(env: Env, form: Form, name: string, acc: seq<Arg>, a: PrintedArg, pos: nat, waits: bool)
    requires Single(env, form) && Streamable(form) && CleanArg(form, a)
    requires pos + |ArgText(form, a)| <= |env.input| && env.input[pos..] == ArgText(form, a) + env.input[pos + |ArgText(form, a)|..]
    requires Settles(env, form, Placed(ValuePos(form, pos, a), a), waits)
    ensures ParseArg(env, form, name, acc, pos) == Next(pos + |ArgText(form, a)|, SetArg(acc, a.key, ValueOf(form, a)))
  {
    hide ParseArg, SetArg, ValueOf, ReadsAs, ArgOk, Utf8.WellFormed;
    ArgIsOk(form, a);
    ParsesArg(env, form, name, acc, a, pos, env.input[pos + |ArgText(form, a)|..]);
  }

  // -------------------------------------------------------------------------------- a cut call

  lemma {:induction false} ArgsWhole(env: Env, form: Form, name: string, acc: seq<Arg>, args: seq<PrintedArg>, gapEnd: string,
                                     following: string, pos: nat, waits: bool)
    requires Single(env, form) && Streamable(form) && Room(form, acc, args) && AllSpace(gapEnd)
    requires Begins(env, pos, ArgsText(form, args) + (gapEnd + form.toolEnd + following))
    requires |env.input| - pos >= |ArgsText(form, args)| + |gapEnd| + |form.toolEnd|
    requires AllSettle(env, form, ArgPlaces(form, pos, args), waits)
    ensures ParseArgs(env, form, name, acc, pos) == Next(pos + |ArgsText(form, args)|, ArgsOf(form, acc, args))
    ensures Begins(env, pos + |ArgsText(form, args)|, gapEnd + form.toolEnd + following)
    decreases |args|
  {
    hide ParseArg, ParseArgs, ArgText, Room, Settles, ValuePos, SetArg, ValueOf, Streamable, CleanArg, NewKey, NoFlags, FindIn,
      AllSpace, AllSettle, StopsAt;
    StepOfArgs(env, form, name, acc, pos);
    var after := gapEnd + form.toolEnd + following;
    if args == [] {
      assert "" + after == after;
      StopsAtEnd(env, form, gapEnd, following, pos);
      NoMoreArgs(env, form, name, acc, pos);
    } else {
      var a, more := args[0], args[1..];
      var rest := ArgsText(form, more) + after;
      assert ArgsText(form, args) + after == ArgText(form, a) + rest;
      RoomForMore(form, acc, args);
      FirstSettles(env, form, pos, args, waits);
      Advance(env, pos, ArgText(form, a), rest);
      OneArgWhole(env, form, name, acc, a, pos, waits);
      ArgsWhole(env, form, name, SetArg(acc, a.key, ValueOf(form, a)), more, gapEnd, following, pos + |ArgText(form, a)|, waits);
    }
  }

  lemma StopsAtEnd(env: Env, form: Form, gapEnd: string, following: string, pos: nat)
    requires Streamable(form) && AllSpace(gapEnd)
    requires Begins(env, pos, gapEnd + form.toolEnd + following) && |env.input| - pos >= |gapEnd| + |form.toolEnd|
    ensures StopsAt(env, pos, form.keyStart)
  {
    hide FindIn, AllSpace;
    SearchApart(env, pos, gapEnd, form.toolEnd, following, form.keyStart);
  }

  lemma NewRoom(form: Form, c: PrintedCall)
    requires form.keyValSep != "" && CleanCall(form, c)
    ensures Room(form, [], c.args)
  {
    hide CleanArgs, TidyCall;
  }

  lemma EndWhole(env: Env, form: Form, name: string, args: seq<Arg>, gapEnd: string, following: string, pos: nat, keys: bool)
    requires Single(env, form) && env.partial && Streamable(form) && AllSpace(gapEnd) && name != ""
    requires Begins(env, pos, gapEnd + form.toolEnd + following) && |env.input| - pos >= |gapEnd| + |form.toolEnd|
    ensures ParseToolEnd(env, form, name, args, pos, keys) == Tool(pos + |gapEnd| + |form.toolEnd|, ToolCall(name, Dump(args), ""))
  {
    hide FindIn, Dump;
    NoTagInBlanks(gapEnd);
    SearchCut(env, pos, gapEnd, form.toolEnd, following);
  }

  /** The name is found once something of its separator is there. */
  lemma NameCut(env: Env, form: Form, c: PrintedCall, following: string, pos: nat)
    requires Single(env, form) && env.partial && Streamable(form) && TidyName(form, c.name) && form.toolSep != ""
    requires Begins(env, pos, c.name + form.toolSep + following)
    ensures var m := |env.input| - pos;
            FindName(env, form, pos) ==
              if m <= |c.name| then NoName(Unfinished([]))
              else NameAt(Found(c.name, pos + |c.name|, Min(|env.input|, pos + |c.name| + |form.toolSep|)))
  {
    hide Find, FindIn, First, Strip;
    var m := |env.input| - pos;
    SearchCut(env, pos, c.name, form.toolSep, following);
    assert !AllSpace(form.toolSep) by { assert !IsSpace(form.toolSep[0]); }
    if m <= |c.name| {
      assert c.name + form.toolSep + following == c.name + (form.toolSep + following);
      Advance(env, pos, c.name, form.toolSep + following);
      SearchNothing(env, pos, form.toolEnd);
    } else {
      TagFirst(c.name, form.toolEnd);
    }
  }

  /** Found behind `w`, whatever is there of it. */
  predicate FoundAt(r: Option<Found>, pos: nat, w: string) {
    r.Some? && r.value.prelude == w && r.value.begin == pos + |w|
  }

  lemma NameAtFirst(env: Env, form: Form, pos: nat, w: string)
    requires Single(env, form) && form.toolSep == "" && pos <= |env.input| && Find(w, form.toolEnd, 0).None?
    requires FoundAt(FindIn(env, pos, form.keyStart), pos, w) ||
             (FindIn(env, pos, form.keyStart).None? && FoundAt(FindIn(env, pos, form.toolEnd), pos, w))
    ensures var r := FindName(env, form, pos); r.NameAt? && FoundAt(Some(r.found), pos, w)
  {
    hide FindIn, Find;
  }

  lemma NameBeforeLater(env: Env, form: Form, pos: nat, w: string)
    requires Single(env, form) && form.toolSep == "" && pos <= |env.input|
    requires FoundAt(FindIn(env, pos, form.toolEnd), pos, w)
    requires var k := FindIn(env, pos, form.keyStart); k.Some? && Find(k.value.prelude, form.toolEnd, 0).Some?
    ensures var r := FindName(env, form, pos); r.NameAt? && FoundAt(Some(r.found), pos, w)
  {
    hide FindIn, Find;
  }

  lemma NameNowhere(env: Env, form: Form, pos: nat)
    requires Single(env, form) && form.toolSep == "" && pos <= |env.input|
    requires FindIn(env, pos, form.keyStart).None? && FindIn(env, pos, form.toolEnd).None?
    ensures FindName(env, form, pos) == NoName(Unfinished([]))
  {
    hide FindIn, Find;
  }

  /** Without a separator the name is found once something of the first key is there, ... */
  lemma NameCutByKey(env: Env, form: Form, w: string, rest: string, pos: nat)
    requires Single(env, form) && env.partial && Streamable(form) && form.toolSep == "" && '<' !in w
    requires Begins(env, pos, w + form.keyStart + rest)
    ensures var m, r := |env.input| - pos, FindName(env, form, pos);
            if m <= |w| then r == NoName(Unfinished([])) else r.NameAt? && FoundAt(Some(r.found), pos, w)
  {
    hide Find, FindIn, First, FindName;
    SearchCut(env, pos, w, form.keyStart, rest);
    TagFirst(w, form.toolEnd);
    if |env.input| - pos <= |w| {
      NoTagThere(env, pos, w, form.keyStart, rest, form.toolEnd);
      NameNowhere(env, form, pos);
    } else {
      NameAtFirst(env, form, pos, w);
    }
  }

  lemma NoTagThere(env: Env, pos: nat, w: string, e: string, rest: string, d: string)
    requires Tag(d) && '<' !in w && Begins(env, pos, w + e + rest) && |env.input| - pos <= |w|
    ensures FindIn(env, pos, d).None?
  {
    hide FindIn;
    assert w + e + rest == w + (e + rest);
    Advance(env, pos, w, e + rest);
    SearchNothing(env, pos, d);
  }

  /** ... or of the end of the call. */
  lemma NameCutByEnd(env: Env, form: Form, w: string, following: string, pos: nat)
    requires Single(env, form) && env.partial && Streamable(form) && form.toolSep == "" && '<' !in w
    requires Begins(env, pos, w + form.toolEnd + following)
    ensures var m, r := |env.input| - pos, FindName(env, form, pos);
            if m <= |w| then r == NoName(Unfinished([])) else r.NameAt? && FoundAt(Some(r.found), pos, w)
  {
    hide Find, FindIn, First, FindName;
    var m := |env.input| - pos;
    SearchCut(env, pos, w, form.toolEnd, following);
    TagFirst(w, form.toolEnd);
    if m <= |w| {
      NoTagThere(env, pos, w, form.toolEnd, following, form.keyStart);
      NameNowhere(env, form, pos);
    } else {
      KeyBehindName(env, form, w, following, pos);
      if FindIn(env, pos, form.keyStart).Some? && Find(FindIn(env, pos, form.keyStart).value.prelude, form.toolEnd, 0).Some? {
        NameBeforeLater(env, form, pos, w);
      } else {
        NameAtFirst(env, form, pos, w);
      }
    }
  }

  /** A key that is found behind a call without arguments is part of its end, or stands behind it. */
  lemma KeyBehindName(env: Env, form: Form, w: string, following: string, pos: nat)
    requires Single(env, form) && Streamable(form) && '<' !in w
    requires Begins(env, pos, w + form.toolEnd + following) && |env.input| - pos > |w|
    ensures var k := FindIn(env, pos, form.keyStart);
            k.Some? ==> FoundAt(k, pos, w) || Find(k.value.prelude, form.toolEnd, 0).Some?
  {
    hide Find, FindIn, Apart;
    var k := FindIn(env, pos, form.keyStart);
    if k.Some? {
      FoundBegins(env, pos, form.keyStart);
      var t, e := env.input[pos..], form.toolEnd;
      var i := k.value.begin - pos;
      assert t[i] == '<' && t[i] == (w + e + following)[i];
      if i < |w + e| {
        OneTagBefore(w, e, following, i);
        assert t[..|w|] == w;
      } else {
        assert k.value.prelude == (w + e + following)[..i];
        HoldsEnd(w, e, following, i);
      }
    }
  }

  lemma SplitBody(form: Form, c: PrintedCall, following: string)
    ensures BodyText(form, c) + following ==
            c.name + form.toolSep + (ArgsText(form, c.args) + (c.gapEnd + form.toolEnd + following))
    ensures |BodyText(form, c)| == |c.name| + |form.toolSep| + |ArgsText(form, c.args)| + |c.gapEnd| + |form.toolEnd|
  {
    hide ArgsText;
    Regrouped("", c.name, form.toolSep, ArgsText(form, c.args), c.gapEnd + form.toolEnd, following);
  }

  /** Where the arguments are read from once the name is found. */
  function ArgsStart(form: Form, f: Found): nat {
    if form.toolSep == "" then f.begin else f.end
  }

  lemma ParseToolFrom(env: Env, form: Form, name: string, pos: nat, f: Found)
    requires Single(env, form) && Streamable(form) && !env.kimi && pos <= |env.input|
    requires FindName(env, form, pos) == NameAt(f) && TidyName(form, name) && Strip(f.prelude) == name
    ensures ArgsStart(form, f) <= |env.input| && name != ""
    ensures var from := ArgsStart(form, f);
            var args := ParseArgs(env, form, name, [], from);
            && (args.Halted? ==> ParseTool(env, form, pos) == ToolHalted(args.halt))
            && (args.Next? ==> ParseTool(env, form, pos) == ParseToolEnd(env, form, name, args.args, args.pos, args.pos != from))
  {
    hide FindName, ParseArgs, ParseToolEnd, Strip;
    assert AllSpace(form.toolSep) <==> form.toolSep == "" by { if form.toolSep != "" { assert !IsSpace(form.toolSep[0]); } }
  }

  /** The arguments as they are still to be read, and the gap before the end of the call, when the name has been found. */
  function ArgsLeft(form: Form, c: PrintedCall): seq<PrintedArg> {
    if form.toolSep == "" then AtFirstKey(c.args) else c.args
  }

  function GapLeft(form: Form, c: PrintedCall): string {
    if form.toolSep == "" && c.args == [] then "" else c.gapEnd
  }

  lemma LeftText(form: Form, c: PrintedCall, following: string)
    ensures BodyText(form, c) + following ==
            c.name + (form.toolSep + NameGap(form, c)) + (ArgsText(form, ArgsLeft(form, c)) + (GapLeft(form, c) + form.toolEnd + following))
    ensures |BodyText(form, c)| ==
            |c.name| + |form.toolSep| + |NameGap(form, c)| + |ArgsText(form, ArgsLeft(form, c))| + |GapLeft(form, c)| + |form.toolEnd|
    ensures ArgsOf(form, [], ArgsLeft(form, c)) == ArgsOf(form, [], c.args)
  {
    hide ArgsText, ArgsOf;
    SplitBody(form, c, following);
    if form.toolSep != "" {
      assert form.toolSep + "" == form.toolSep;
    } else if c.args != [] {
      GapOut(form, c.args);
      Regrouped2(c.name, c.args[0].gap, ArgsText(form, AtFirstKey(c.args)), c.gapEnd + form.toolEnd + following);
    } else {
      NoArgsText(form);
      Regrouped3(c.name, c.gapEnd, form.toolEnd, following);
    }
  }

  lemma NoArgsText(form: Form)
    ensures ArgsText(form, []) == ""
  {
  }

  lemma Regrouped2(name: string, gap: string, text: string, rest: string)
    ensures name + "" + (gap + text + rest) == name + ("" + gap) + (text + rest)
  {
  }

  lemma Regrouped3(name: string, gap: string, end: string, rest: string)
    ensures name + "" + ("" + (gap + end + rest)) == name + ("" + gap) + ("" + ("" + end + rest))
  {
  }

  lemma GapOut(form: Form, args: seq<PrintedArg>)
    requires args != []
    ensures ArgsText(form, args) == args[0].gap + ArgsText(form, AtFirstKey(args))
    ensures ArgsOf(form, [], AtFirstKey(args)) == ArgsOf(form, [], args)
  {
    hide SetArg, ArgText, ValueOf;
    GapOfArg(form, args[0]);
    SameValue(form, args[0]);
    assert AtFirstKey(args)[1..] == args[1..];
    assert AtFirstKey(args)[0] == args[0].(gap := "");
    Associate(args[0].gap, ArgText(form, args[0].(gap := "")), ArgsText(form, args[1..]));
  }

  lemma GapOfArg(form: Form, a: PrintedArg)
    ensures ArgText(form, a) == a.gap + ArgText(form, a.(gap := ""))
  {
    hide Sep2Text;
    SameSep2(form, a);
    var rest := a.key + form.keyValSep + (Sep2Text(form, a) + (a.value + form.valEnd));
    assert "" + form.keyStart == form.keyStart;
    assert a.gap + form.keyStart + rest == a.gap + (form.keyStart + rest);
  }

  /** The gap before the first key shows nothing. */
  lemma GapShowsNothing(form: Form, args: seq<PrintedArg>, m: nat, waits: bool)
    requires args != [] && m >= |args[0].gap|
    ensures ArgsShown(form, [], AtFirstKey(args), m - |args[0].gap|, waits) == ArgsShown(form, [], args, m, waits)
  {
    hide ArgText, SetArg, ValueOf, ArgShown;
    GapOfArg(form, args[0]);
    GapOfShown(form, args[0], m, waits);
    SameValue(form, args[0]);
    assert AtFirstKey(args)[1..] == args[1..];
  }

  lemma SameValue(form: Form, a: PrintedArg)
    ensures ValueOf(form, a.(gap := "")) == ValueOf(form, a)
  {
  }

  lemma GapOfShown(form: Form, a: PrintedArg, m: nat, waits: bool)
    requires m >= |a.gap|
    ensures ArgShown(form, [], a.(gap := ""), m - |a.gap|, waits) == ArgShown(form, [], a, m, waits)
  {
    hide Sep2Text, Certain, KeyText, UpToValue, Unquoted, OpenDump, ValueShown;
    SameSep2(form, a);
  }

  lemma GapSettles(env: Env, form: Form, pos: nat, args: seq<PrintedArg>, waits: bool)
    requires env.Valid() && args != [] && AllSettle(env, form, ArgPlaces(form, pos, args), waits)
    ensures AllSettle(env, form, ArgPlaces(form, pos + |args[0].gap|, AtFirstKey(args)), waits)
  {
    hide AllSettle, Settles, ArgText;
    var a := args[0];
    var a' := a.(gap := "");
    SameSep2(form, a);
    GapOfArg(form, a);
    FirstSettles(env, form, pos, args, waits);
    var p := ValuePos(form, pos, a);
    assert Settles(env, form, Placed(p, a'), waits) by { GapUnsettled(env, form, p, a, waits); }
    assert AtFirstKey(args)[1..] == args[1..];
    SettleFirst(env, form, Placed(p, a'), ArgPlaces(form, pos + |ArgText(form, a)|, args[1..]), waits);
  }

  lemma GapUnsettled(env: Env, form: Form, pos: nat, a: PrintedArg, waits: bool)
    requires env.Valid()
    ensures Settles(env, form, Placed(pos, a), waits) <==> Settles(env, form, Placed(pos, a.(gap := "")), waits)
  {
    hide Waits;
    if pos <= |env.input| { GapUnread(env, form, pos, a); }
  }

  lemma SettleFirst(env: Env, form: Form, p: Placed, ps: seq<Placed>, waits: bool)
    requires env.Valid() && Settles(env, form, p, waits) && AllSettle(env, form, ps, waits)
    ensures AllSettle(env, form, [p] + ps, waits)
  {
    hide Settles;
  }

  lemma LeftRoom(form: Form, c: PrintedCall)
    requires form.keyValSep != "" && CleanCall(form, c)
    ensures Room(form, [], ArgsLeft(form, c)) && AllSpace(GapLeft(form, c)) && AllSpace(NameGap(form, c))
  {
    hide Utf8.WellFormed, EndsWith;
    if c.args != [] { assert CleanArg(form, c.args[0]); }
    assert AllSpace("");
  }

  lemma LeftShown(form: Form, c: PrintedCall, m: nat, waits: bool)
    requires m > |c.name| + |NameGap(form, c)|
    ensures var left := Minus(m, |c.name| + |form.toolSep| + |NameGap(form, c)|);
            ArgsShown(form, [], ArgsLeft(form, c), left, waits) == ArgsShown(form, [], c.args, Minus(m, |c.name| + |form.toolSep|), waits)
  {
    hide ArgsShown;
    if form.toolSep == "" {
      if c.args != [] {
        GapShowsNothing(form, c.args, m - |c.name|, waits);
      } else {
        NoArgsShown(form, [], m - |c.name| - |c.gapEnd|, waits);
        NoArgsShown(form, [], m - |c.name|, waits);
      }
    }
  }

  lemma LeftSettles(env: Env, form: Form, c: PrintedCall, pos: nat, waits: bool)
    requires env.Valid() && AllSettle(env, form, ArgPlaces(form, pos + |c.name| + |form.toolSep|, c.args), waits)
    ensures AllSettle(env, form, ArgPlaces(form, pos + |c.name| + |form.toolSep| + |NameGap(form, c)|, ArgsLeft(form, c)), waits)
  {
    hide AllSettle, ArgPlaces;
    if form.toolSep == "" {
      if c.args != [] { GapSettles(env, form, pos + |c.name|, c.args, waits); } else { NothingSettles(env, form, pos + |c.name| + |c.gapEnd|, waits); }
    }
  }

  lemma NothingSettles(env: Env, form: Form, pos: nat, waits: bool)
    requires env.Valid()
    ensures AllSettle(env, form, ArgPlaces(form, pos, []), waits)
  {
  }

  /** The name of a call is found once something of what ends it is there, and the arguments are read from there on. */
  lemma CallName(env: Env, form: Form, c: PrintedCall, following: string, pos: nat)
    requires Single(env, form) && env.partial && Streamable(form) && CleanCall(form, c)
    requires Begins(env, pos, BodyText(form, c) + following)
    ensures var m, r := |env.input| - pos, FindName(env, form, pos);
            if m <= |c.name| + |NameGap(form, c)| then r == NoName(Unfinished([]))
            else r.NameAt? && Strip(r.found.prelude) == c.name
                 && ArgsStart(form, r.found) == Min(|env.input|, pos + |c.name| + |form.toolSep| + |NameGap(form, c)|)
  {
    hide Find, FindIn, FindName, Strip, ArgsText, CleanArgs, Sep2Text;
    var w := c.name + NameGap(form, c);
    NameIsTidy(form, c);
    if form.toolSep != "" {
      SplitBody(form, c, following);
      NameCut(env, form, c, ArgsText(form, c.args) + (c.gapEnd + form.toolEnd + following), pos);
    } else if c.args != [] {
      var rest := KeyBehindGap(form, c, following);
      NameCutByKey(env, form, w, rest, pos);
    } else {
      LeftText(form, c, following);
      NoArgsText(form);
      EndBehindGap(c.name, c.gapEnd, form.toolEnd, following);
      NameCutByEnd(env, form, w, following, pos);
    }
  }

  lemma EndBehindGap(name: string, gap: string, end: string, rest: string)
    ensures name + ("" + gap) + ("" + ("" + end + rest)) == name + gap + end + rest
  {
  }

  lemma NameIsTidy(form: Form, c: PrintedCall)
    requires form.keyValSep != "" && CleanCall(form, c)
    ensures TidyName(form, c.name) && Strip(c.name) == c.name && Strip(c.name + NameGap(form, c)) == c.name
    ensures '<' !in c.name + NameGap(form, c)
  {
    hide Strip, Utf8.WellFormed, EndsWith;
    LeftRoom(form, c);
    StripsToName(c.name, NameGap(form, c));
    NoTagInBlanks(NameGap(form, c));
  }

  lemma KeyBehindGap(form: Form, c: PrintedCall, following: string) returns (rest: string)
    requires form.toolSep == "" && c.args != []
    ensures BodyText(form, c) + following == c.name + NameGap(form, c) + form.keyStart + rest
  {
    hide ArgsText, AtFirstKey;
    LeftText(form, c, following);
    var after := c.gapEnd + form.toolEnd + following;
    FirstHasNoGap(c.args);
    rest := StartsWithKey(form, AtFirstKey(c.args), after);
    Associate(c.name + ("" + c.args[0].gap), form.keyStart, rest);
    assert c.name + ("" + c.args[0].gap) == c.name + c.args[0].gap;
  }

  lemma FirstHasNoGap(args: seq<PrintedArg>)
    requires args != []
    ensures AtFirstKey(args) != [] && AtFirstKey(args)[0].gap == ""
  {
  }

  /** A call that is cut shows nothing before its name is complete, and then the arguments that are there. */
  lemma ToolCut(env: Env, form: Form, c: PrintedCall, following: string, pos: nat, waits: bool)
    requires Single(env, form) && env.partial && Streamable(form) && form.rawArgval != Some(false) && !env.kimi
    requires CleanCall(form, c) && Begins(env, pos, BodyText(form, c) + following) && |env.input| - pos < |BodyText(form, c)|
    requires AllSettle(env, form, ArgPlaces(form, pos + |c.name| + |form.toolSep|, c.args), waits)
    ensures var m := |env.input| - pos;
            ParseTool(env, form, pos) == ToolHalted(Unfinished(
              if m <= |c.name| + |NameGap(form, c)| then []
              else [ToolCall(c.name, ArgsShown(form, [], c.args, Minus(m, |c.name| + |form.toolSep|), waits), "")]))
  {
    hide FindName, ParseArgs, ParseTool, ParseToolEnd, ArgsText, ArgsShown, BodyText, AllSettle, ArgPlaces, CleanArgs, Strip, NameGap, ArgsLeft,
      GapLeft, Room, Tagged, AllSpace, ArgsOf;
    var m := |env.input| - pos;
    CallName(env, form, c, following, pos);
    if m <= |c.name| + |NameGap(form, c)| {
      NoNameNoTool(env, form, pos);
    } else {
      var f := FindName(env, form, pos).found;
      var from := ArgsStart(form, f);
      ParseToolFrom(env, form, c.name, pos, f);
      LeftText(form, c, following);
      LeftIsThere(env, form, c, following, pos, waits);
      LeftShown(form, c, m, waits);
      ArgsCut(env, form, c.name, [], ArgsLeft(form, c), GapLeft(form, c), following, from, waits);
    }
  }

  /** The text from the arguments on. */
  lemma LeftIsThere(env: Env, form: Form, c: PrintedCall, following: string, pos: nat, waits: bool)
    requires Single(env, form) && env.partial && Streamable(form) && CleanCall(form, c)
    requires Begins(env, pos, BodyText(form, c) + following)
    requires AllSettle(env, form, ArgPlaces(form, pos + |c.name| + |form.toolSep|, c.args), waits)
    ensures var from := Min(|env.input|, pos + |c.name| + |form.toolSep| + |NameGap(form, c)|);
            && Begins(env, from, ArgsText(form, ArgsLeft(form, c)) + (GapLeft(form, c) + form.toolEnd + following))
            && Room(form, [], ArgsLeft(form, c)) && AllSpace(GapLeft(form, c)) && TidyName(form, c.name)
            && AllSettle(env, form, ArgPlaces(form, from, ArgsLeft(form, c)), waits)
            && |env.input| - from == Minus(|env.input| - pos, |c.name| + |form.toolSep| + |NameGap(form, c)|)
  {
    hide ArgsText, BodyText, AllSettle, ArgPlaces, CleanArgs, Strip, NameGap, ArgsLeft, GapLeft, Room, AllSpace, ArgsOf;
    var from := Min(|env.input|, pos + |c.name| + |form.toolSep| + |NameGap(form, c)|);
    var rest := ArgsText(form, ArgsLeft(form, c)) + (GapLeft(form, c) + form.toolEnd + following);
    LeftText(form, c, following);
    Advance(env, pos, c.name + (form.toolSep + NameGap(form, c)), rest);
    LeftRoom(form, c);
    LeftSettles(env, form, c, pos, waits);
    PlacesMoved(env, form, pos + |c.name| + |form.toolSep| + |NameGap(form, c)|, from, ArgsLeft(form, c), waits);
  }

  lemma NoNameNoTool(env: Env, form: Form, pos: nat)
    requires env.Valid() && form.Valid() && pos <= |env.input| && FindName(env, form, pos) == NoName(Unfinished([]))
    ensures ParseTool(env, form, pos) == ToolHalted(Unfinished([]))
  {
    hide FindName;
  }

  /** Places behind the end of the text do not matter. */
  lemma PlacesMoved(env: Env, form: Form, pos: nat, pos': nat, args: seq<PrintedArg>, waits: bool)
    requires env.Valid() && Streamable(form) && (pos' == pos || |env.input| <= pos') && AllSettle(env, form, ArgPlaces(form, pos, args), waits)
    ensures AllSettle(env, form, ArgPlaces(form, pos', args), waits)
  {
    hide ReadsAs, MayBeCut, Waits, ArgPlaces;
    if pos' != pos { PlacesBehind(form, pos', args); }
  }

  lemma {:induction false} PlacesBehind(form: Form, pos: nat, args: seq<PrintedArg>)
    requires form.keyStart != ""
    ensures forall i :: 0 <= i < |ArgPlaces(form, pos, args)| ==> ArgPlaces(form, pos, args)[i].pos > pos
    decreases |args|
  {
    hide ArgText, Sep2Text;
    if args != [] { PlacesBehind(form, pos + |ArgText(form, args[0])|, args[1..]); }
  }

  lemma ToolWhole(env: Env, form: Form, c: PrintedCall, following: string, pos: nat, waits: bool)
    requires Single(env, form) && env.partial && Streamable(form) && !env.kimi
    requires CleanCall(form, c) && Begins(env, pos, BodyText(form, c) + following) && |env.input| - pos >= |BodyText(form, c)|
    requires AllSettle(env, form, ArgPlaces(form, pos + |c.name| + |form.toolSep|, c.args), waits)
    ensures ParseTool(env, form, pos) == Tool(pos + |BodyText(form, c)|, CallOf(env, form, c))
    ensures Begins(env, pos + |BodyText(form, c)|, following)
  {
    hide FindName, ParseArgs, ParseTool, ParseToolEnd, ArgsText, BodyText, AllSettle, ArgPlaces, CleanArgs, Dump, ArgsOf, Strip, NameGap,
      ArgsLeft, GapLeft, Room, AllSpace, Tagged;
    LeftText(form, c, following);
    CallName(env, form, c, following, pos);
    var f := FindName(env, form, pos).found;
    var from := ArgsStart(form, f);
    ParseToolFrom(env, form, c.name, pos, f);
    LeftIsThere(env, form, c, following, pos, waits);
    var args, gapEnd := ArgsLeft(form, c), GapLeft(form, c);
    ArgsWhole(env, form, c.name, [], args, gapEnd, following, from, waits);
    var q := from + |ArgsText(form, args)|;
    EndWhole(env, form, c.name, ArgsOf(form, [], args), gapEnd, following, q, q != from);
    Advance(env, pos, BodyText(form, c), following);
    assert NameOf(env, c.name) == c.name by { KnownName(env, form, c.name); }
  }

  lemma KnownName(env: Env, form: Form, name: string)
    requires !env.kimi && TidyName(form, name)
    ensures NameOf(env, name) == name
  {
    hide Strip;
  }

  // ---------------------------------------------------------------------------------- all calls

  /** Nothing is there behind the literal that begins a call. */
  lemma NothingThere(env: Env, form: Form)
    requires Single(env, form) && Streamable(form)
    ensures ParseTool(env, form, |env.input|) == ToolHalted(Unfinished([]))
  {
    hide FindIn, FindName, Find;
    var pos := |env.input|;
    assert env.input[pos..] == "";
    if form.toolSep != "" {
      SearchNothing(env, pos, form.toolSep);
      assert !AllSpace(form.toolSep) by { assert !IsSpace(form.toolSep[0]); }
    }
    SearchNothing(env, pos, form.keyStart);
    SearchNothing(env, pos, form.toolEnd);
    NameOfNothing(env, form);
    NoNameNoTool(env, form, pos);
  }

  lemma NameOfNothing(env: Env, form: Form)
    requires Single(env, form)
    requires FindIn(env, |env.input|, if AllSpace(form.toolSep) then form.keyStart else form.toolSep).None?
    requires FindIn(env, |env.input|, form.toolEnd).None?
    ensures FindName(env, form, |env.input|) == NoName(Unfinished([]))
  {
    hide FindIn, Find;
  }

  lemma StepOfTools(env: Env, form: Form, start: nat, pos: nat, before: seq<ToolCall>, recovery: bool)
    requires env.Valid() && form.Valid() && start <= pos <= |env.input|
    ensures var f := FindIn(env, pos, form.toolStart);
            var r := ParseTools(env, form, start, pos, before, recovery);
            if f.None? || !AllSpace(f.value.prelude) then r == ParseScopeEnd(env, form, start, pos, before, recovery)
            else
              var step := ParseTool(env, form, f.value.end);
              && (step.Tool? ==> r == ParseTools(env, form, start, step.end, before + [step.call], false))
              && (step.ToolHalted? ==> r == EndWith(before, step.why))
  {
    hide FindIn, ParseTool, ParseScopeEnd;
  }

  lemma ScopeEndCut(env: Env, form: Form, start: nat, pos: nat, before: seq<ToolCall>, recovery: bool, w: string, rest: string)
    requires Single(env, form) && env.partial && Streamable(form) && start <= pos && AllSpace(w)
    requires Begins(env, pos, w + form.scopeEnd + rest)
    ensures !ParseScopeEnd(env, form, start, pos, before, recovery).ThrowsSyntax?
  {
    hide FindIn, IsSpace;
    if form.scopeEnd == "" {
      EmptyIsFound(env, pos);
    } else {
      NoTagInBlanks(w);
      SearchCut(env, pos, w, form.scopeEnd, rest);
      if |env.input| - pos <= |w| {
        assert w + form.scopeEnd + rest == w + (form.scopeEnd + rest);
        Advance(env, pos, w, form.scopeEnd + rest);
        assert forall k :: pos <= k < |env.input| ==> env.input[k] == env.input[pos..][k - pos] == w[k - pos];
        SkipSpacesIs(env.input, pos, |env.input|);
      }
    }
  }

  lemma EmptyIsFound(env: Env, pos: nat)
    requires pos <= |env.input|
    ensures FindIn(env, pos, "") == Some(Found("", pos, pos))
  {
    hide Find;
    assert env.input[pos..pos] == "";
    FindIs(env.input, "", pos, pos);
  }

  /** What follows a text without an end of its scope begins no call, or is cut in the literal that begins one. */
  lemma NoCallBehind(env: Env, pos: nat, suffix: string, d: string)
    requires Begins(env, pos, suffix) && Tag(d) && !Opens(suffix, d)
    ensures var f := FindIn(env, pos, d); f.Some? && AllSpace(f.value.prelude) ==> f.value.end == |env.input|
  {
    hide Find, FindIn, AllSpace;
    var f := FindIn(env, pos, d);
    if f.Some? && AllSpace(f.value.prelude) {
      FoundBegins(env, pos, d);
      var t, i := env.input[pos..], f.value.begin - pos;
      if i + |d| <= |t| && env.input[f.value.begin..f.value.begin + |d|] == d {
        assert t[i..i + |d|] == d && t[..i] == f.value.prelude;
        OpensThere(suffix, t, d, i);
      }
    }
  }

  lemma OpensThere(suffix: string, t: string, d: string, i: nat)
    requires t <= suffix && OccursAt(t, d, i) && AllSpace(t[..i])
    ensures Opens(suffix, d)
  {
    hide Find, IsSpace;
    assert suffix[i..i + |d|] == t[i..i + |d|];
    assert OccursAt(suffix, d, i);
    FindSpec(suffix, d, 0);
    var k := Find(suffix, d, 0);
    assert k.Some? && k.value <= i;
    assert forall j :: 0 <= j < k.value ==> suffix[..k.value][j] == t[..i][j];
  }

  /** Behind the last call: nothing is added, and nothing is dropped. */
  lemma TailCut(env: Env, form: Form, start: nat, pos: nat, before: seq<ToolCall>, recovery: bool, gap: string, suffix: string)
    requires Single(env, form) && env.partial && Streamable(form) && start <= pos && ScopeEnds(form, gap, suffix)
    requires Begins(env, pos, gap + form.scopeEnd + suffix)
    ensures var r := ParseTools(env, form, start, pos, before, recovery); r.calls == before && !r.ThrowsSyntax?
  {
    hide FindIn, ParseTool, ParseTools, ParseScopeEnd, AllSpace, Opens;
    StepOfTools(env, form, start, pos, before, recovery);
    if form.scopeEnd == "" {
      assert gap + form.scopeEnd + suffix == suffix;
      NoCallBehind(env, pos, suffix, form.toolStart);
    } else {
      SearchApart(env, pos, gap, form.scopeEnd, suffix, form.toolStart);
    }
    ScopeEndCut(env, form, start, pos, before, recovery, gap, suffix);
    NothingThere(env, form);
    assert before + [] == before;
  }

  lemma {:induction false} CallsCut(env: Env, form: Form, start: nat, pos: nat, before: seq<ToolCall>, recovery: bool,
                                    calls: seq<PrintedCall>, gap: string, suffix: string, waits: bool)
    requires env.Valid() && Single(env, form) && env.partial && Streamable(form) && form.rawArgval != Some(false) && !env.kimi
    requires start <= pos && ScopeEnds(form, gap, suffix) && forall i :: 0 <= i < |calls| ==> CleanCall(form, calls[i])
    requires Begins(env, pos, CallsText(form, calls, gap + form.scopeEnd + suffix))
    requires AllSettle(env, form, CallPlaces(form, pos, calls), waits)
    ensures var r := ParseTools(env, form, start, pos, before, recovery);
            r.calls == before + CallsShown(env, form, calls, |env.input| - pos, waits) && !r.ThrowsSyntax?
    decreases |calls|
  {
    hide FindIn, ParseTool, ParseTools, ParseScopeEnd, AllSpace, BodyText, AllSettle, ArgPlaces, CallPlaces, CleanCall, Streamable,
      CallOf, ArgsShown, CallsShown, Single, ScopeEnds, NameGap;
    var tail := gap + form.scopeEnd + suffix;
    if calls == [] {
      TailCut(env, form, start, pos, before, recovery, gap, suffix);
      NoCallsShown(env, form, |env.input| - pos, waits);
      assert before + [] == before;
    } else {
      var c, following := calls[0], CallsText(form, calls[1..], tail);
      var p := pos + |c.gap| + |form.toolStart|;
      var more := BodyText(form, c) + following;
      assert CallsText(form, calls, tail) == c.gap + form.toolStart + more;
      FirstShown(env, form, calls, |env.input| - pos, waits);
      assert before + [] == before;
      if |env.input| < p {
        StartCut(env, form, start, pos, before, recovery, c, more);
      } else {
        FirstCallSettles(env, form, pos, calls, waits);
        StartWhole(env, form, start, pos, before, recovery, c, more);
        if |env.input| - p < |BodyText(form, c)| {
          ToolCut(env, form, c, following, p, waits);
        } else {
          ToolWhole(env, form, c, following, p, waits);
          var call := CallOf(env, form, c);
          var end := p + |BodyText(form, c)|;
          assert forall i :: 0 <= i < |calls| - 1 ==> calls[1..][i] == calls[i + 1];
          CallsCut(env, form, start, end, before + [call], false, calls[1..], gap, suffix, waits);
          OneMoreCall(before, call, CallsShown(env, form, calls[1..], |env.input| - end, waits));
        }
      }
    }
  }

  lemma OneMoreCall(before: seq<ToolCall>, call: ToolCall, shown: seq<ToolCall>)
    ensures before + [call] + shown == before + ([call] + shown)
  {
  }

  lemma FirstCallSettles(env: Env, form: Form, pos: nat, calls: seq<PrintedCall>, waits: bool)
    requires env.Valid() && calls != [] && AllSettle(env, form, CallPlaces(form, pos, calls), waits)
    ensures var c, p := calls[0], pos + |calls[0].gap| + |form.toolStart|;
            && AllSettle(env, form, ArgPlaces(form, p + |c.name| + |form.toolSep|, c.args), waits)
            && AllSettle(env, form, CallPlaces(form, p + |BodyText(form, c)|, calls[1..]), waits)
  {
    hide AllSettle, ArgPlaces, BodyText;
    var c, p := calls[0], pos + |calls[0].gap| + |form.toolStart|;
    SettleBoth(env, form, ArgPlaces(form, p + |c.name| + |form.toolSep|, c.args), CallPlaces(form, p + |BodyText(form, c)|, calls[1..]),
               waits);
  }

  /** The text is cut before the first call begins, or in the literal that begins it. */
  lemma StartCut(env: Env, form: Form, start: nat, pos: nat, before: seq<ToolCall>, recovery: bool, c: PrintedCall, more: string)
    requires Single(env, form) && env.partial && Streamable(form) && start <= pos && CleanCall(form, c)
    requires Begins(env, pos, c.gap + form.toolStart + more) && |env.input| < pos + |c.gap| + |form.toolStart|
    ensures var r := ParseTools(env, form, start, pos, before, recovery); r.calls == before && !r.ThrowsSyntax?
  {
    hide FindIn, ParseTool, ParseTools, ParseScopeEnd, AllSpace, CleanArgs;
    StepOfTools(env, form, start, pos, before, recovery);
    assert AllSpace(c.gap) by { BlankBefore(form, c); }
    NoTagInBlanks(c.gap);
    SearchCut(env, pos, c.gap, form.toolStart, more);
    NothingThere(env, form);
    assert before + [] == before;
    if |env.input| - pos <= |c.gap| {
      var w := env.input[pos..];
      assert c.gap + form.toolStart + more == c.gap + (form.toolStart + more);
      Advance(env, pos, c.gap, form.toolStart + more);
      BlankPart(w, c.gap);
      assert w <= w + form.scopeEnd + "";
      ScopeEndCut(env, form, start, pos, before, recovery, w, "");
    }
  }

  lemma BlankBefore(form: Form, c: PrintedCall)
    requires form.keyValSep != "" && CleanCall(form, c)
    ensures AllSpace(c.gap) && AllSpace(c.gapEnd)
  {
  }

  lemma StartWhole(env: Env, form: Form, start: nat, pos: nat, before: seq<ToolCall>, recovery: bool, c: PrintedCall, more: string)
    requires Single(env, form) && env.partial && Streamable(form) && start <= pos && CleanCall(form, c)
    requires Begins(env, pos, c.gap + form.toolStart + more) && |env.input| >= pos + |c.gap| + |form.toolStart|
    ensures var p := pos + |c.gap| + |form.toolStart|;
            var step, r := ParseTool(env, form, p), ParseTools(env, form, start, pos, before, recovery);
            && Begins(env, p, more)
            && (step.Tool? ==> r == ParseTools(env, form, start, step.end, before + [step.call], false))
            && (step.ToolHalted? ==> r == EndWith(before, step.why))
  {
    hide FindIn, ParseTool, ParseTools, ParseScopeEnd, AllSpace, CleanArgs;
    StepOfTools(env, form, start, pos, before, recovery);
    assert AllSpace(c.gap) by { BlankBefore(form, c); }
    NoTagInBlanks(c.gap);
    SearchCut(env, pos, c.gap, form.toolStart, more);
    Advance(env, pos, c.gap + form.toolStart, more);
  }

  /** A text of printed calls that is still being written, as far as it is there; `waits` says whether a value that is cut
      waits. */
  ghost predicate Written(env: Env, form: Form, pre: string, head: string, calls: seq<PrintedCall>, gap: string, suffix: string,
                          waits: bool) {
    && env.Valid() && env.partial && !env.kimi && |pre| <= |env.input| && ScopeEnds(form, gap, suffix)
    && env.input <= pre + (HeadText(form, head) + CallsText(form, calls, gap + form.scopeEnd + suffix))
    && AllSettle(env, form, CallPlaces(form, |pre| + |HeadText(form, head)|, calls), waits)
  }

  predicate CleanText(form: Form, head: string, calls: seq<PrintedCall>, gap: string) {
    && Streamable(form) && form.rawArgval != Some(false) && AllSpace(head) && AllSpace(gap)
    && forall i :: 0 <= i < |calls| ==> CleanCall(form, calls[i])
  }

  /** STREAMED CALLS, EXACTLY. Of a beginning of a text of printed calls exactly the complete calls are parsed, and of the call
      that is cut its name and the part of its arguments that is certain, once the name is complete; nothing of a value that
      waits. */
  lemma StreamedCalls(env: Env, form: Form, pre: string, head: string, calls: seq<PrintedCall>, gap: string, suffix: string,
                      before: seq<ToolCall>, waits: bool)
    requires CleanText(form, head, calls, gap) && Written(env, form, pre, head, calls, gap, suffix, waits)
    ensures TryConsume(env, form, |pre|, before).calls ==
            before + CallsShown(env, form, calls, There(env, form, pre, head), waits)
  {
    hide FindIn, ParseTools, CallsText, CallPlaces, CallsShown, AllSettle, CleanCall, AllSpace, IsSpace, Fresh, Apart, There, ScopeEnds, TryConsume;
    ThereIs(env, form, pre, head);
    var text := CallsText(form, calls, gap + form.scopeEnd + suffix);
    var lead := HeadText(form, head);
    var p := |pre| + |lead|;
    TextBehind(env, pre, lead, text);
    ScopeCut(env, form, |pre|, head, text, before);
    if |env.input| < p {
      NothingShown(env, form, calls, waits);
      assert before + [] == before;
    } else {
      CallsCut(env, form, |pre|, p, before, true, calls, gap, suffix, waits);
    }
  }

  lemma TextBehind(env: Env, pre: string, lead: string, text: string)
    requires |pre| <= |env.input| && env.input <= pre + (lead + text)
    ensures Begins(env, |pre|, lead + text) && (|pre| + |lead| <= |env.input| ==> Begins(env, |pre| + |lead|, text))
  {
    Behind(pre, lead + text, env.input);
    Advance(env, |pre|, lead, text);
  }

  /** The calls are read behind the start of the scope, if it is there and there is one. */
  lemma ScopeCut(env: Env, form: Form, start: nat, head: string, text: string, before: seq<ToolCall>)
    requires Single(env, form) && env.partial && Streamable(form) && AllSpace(head) && Begins(env, start, HeadText(form, head) + text)
    ensures var r, p := TryConsume(env, form, start, before), start + |HeadText(form, head)|;
            if |env.input| < p then r.calls == before
            else
              var q := ParseTools(env, form, start, p, before, true);
              !q.ThrowsSyntax? ==> r == q
  {
    hide FindIn, ParseTools, AllSpace, Fresh, Apart;
    BlankScope(form);
    if form.scopeStart != "" {
      NoTagInBlanks(head);
      SearchCut(env, start, head, form.scopeStart, text);
    }
  }

  lemma BlankScope(form: Form)
    requires Tagged(form)
    ensures AllSpace(form.scopeStart) <==> form.scopeStart == ""
  {
    hide Apart;
    if form.scopeStart != "" { NotBlank(form.scopeStart); }
  }

  lemma ThereIs(env: Env, form: Form, pre: string, head: string)
    requires |pre| <= |env.input| && Tagged(form)
    ensures HeadText(form, head) == if form.scopeStart == "" then "" else head + form.scopeStart
    ensures var p := |pre| + |HeadText(form, head)|;
            There(env, form, pre, head) == if |env.input| < p then 0 else |env.input| - p
  {
    hide Apart;
    BlankScope(form);
  }

  lemma NotBlank(d: string)
    requires Tag(d)
    ensures !AllSpace(d)
  {
    assert !IsSpace(d[0]);
  }

  lemma Behind(pre: string, text: string, s: string)
    requires |pre| <= |s| && s <= pre + text
    ensures s[|pre|..] <= text
  {
    assert s[|pre|..] == (pre + text)[|pre|..|s|] == text[..|s| - |pre|];
  }

  lemma NothingShown(env: Env, form: Form, calls: seq<PrintedCall>, waits: bool)
    requires form.toolStart != ""
    ensures CallsShown(env, form, calls, 0, waits) == []
  {
  }

  // -------------------------------------------------------------------------- what is shown only grows

  lemma UnquotedGrows(s: string, t: string)
    requires s <= t
    ensures Unquoted(s) <= Unquoted(t) <= t
    ensures |s| < |t| ==> s <= Unquoted(t)
  {
    assert |s| < |t| ==> s <= t[..|t| - 1];
  }

  lemma CertainGrows(s: string, m: nat, n: nat)
    requires Utf8.WellFormed(s) && m <= n
    ensures Certain(s, m) <= Certain(s, n) <= s
  {
    hide Utf8.WellFormed, Utf8.TruncateSafe;
    if n < |s| {
      Utf8.TruncationIsMaximal(s, m);
      Utf8.TruncationIsMaximal(s, n);
      var t := Utf8.TruncateSafe(s[..m]);
      assert s[..m][..t] == s[..n][..t] == s[..t];
    }
  }

  lemma KeyTextGrows(args: seq<Arg>, s: string, t: string)
    requires s <= t
    ensures KeyText(args, s) <= KeyText(args, t)
  {
    hide Escape, Before;
    EscapeMonotone(s, t);
    assert "\"" + Escape(s) <= "\"" + Escape(t);
  }

  lemma ValueTextGrows(args: seq<Arg>, key: string, s: string, t: string)
    requires s <= t
    ensures UpToValue(args, key, s) <= UpToValue(args, key, t)
    ensures KeyText(args, key) <= UpToValue(args, key, s)
  {
    hide Escape, Before;
    EscapeMonotone(s, t);
    assert "\"" + Escape(key) <= "\"" + Escape(key) + "\":\"";
    FrontGrows(Before(args), "\"" + Escape(key), "\"" + Escape(key) + "\":\"", Escape(s));
  }

  lemma FrontGrows(a: string, b: string, c: string, d: string)
    requires b <= c
    ensures a + b <= a + c + d
  {
  }

  /** The text so far is shorter than that with any part of one more member. */
  lemma OpenBeforeKey(args: seq<Arg>, key: string)
    ensures OpenDump(args) <= Unquoted(KeyText(args, key))
  {
    hide Escape, Before, OpenDump;
    OpenBefore(args);
    UnquotedGrows(Before(args), KeyText(args, key));
  }

  lemma OpenBefore(args: seq<Arg>)
    ensures OpenDump(args) <= Before(args)
  {
    if args == [] { assert "{" + "" == "{"; }
  }

  lemma ShownBeforeWhole(args: seq<Arg>, key: string, text: string)
    ensures Unquoted(UpToValue(args, key, text)) <= OpenDump(args + [Arg(key, Text(text))])
  {
    hide UpToValue, Dump;
    DumpWithValue(args, key, text);
    var t := UpToValue(args, key, text);
    assert OpenDump(args + [Arg(key, Text(text))]) == t + "\"";
  }

  lemma TrimmedGrows(form: Form, s: string, t: string)
    requires s <= t
    ensures Trimmed(form, s) <= Trimmed(form, t)
  {
    hide Strip;
    StripMonotone(s, t);
  }

  // ------------------------------------------------------------------------- values that do not shrink

  /** An argument of which a part of the value is there. */
  datatype Part = Part(arg: PrintedArg, there: nat)

  function PartOfArg(form: Form, a: PrintedArg, m: nat): Option<Part> {
    var v := |a.gap| + |form.keyStart| + |a.key| + |form.keyValSep| + |Sep2Text(form, a)|;
    if m < v then None else Some(Part(a, m - v))
  }

  function PartOfArgs(form: Form, args: seq<PrintedArg>, m: nat): Option<Part>
    decreases |args|
  {
    if args == [] then None
    else if m < |ArgText(form, args[0])| then PartOfArg(form, args[0], m)
    else PartOfArgs(form, args[1..], m - |ArgText(form, args[0])|)
  }

  /** The value that is cut when `m` characters of the calls are there. */
  function PartOfCalls(form: Form, calls: seq<PrintedCall>, m: nat): Option<Part>
    decreases |calls|
  {
    if calls == [] || m < |calls[0].gap| + |form.toolStart| then None
    else
      var c, n := calls[0], m - |calls[0].gap| - |form.toolStart|;
      if n >= |BodyText(form, c)| then PartOfCalls(form, calls[1..], n - |BodyText(form, c)|)
      else if n <= |c.name| then None
      else PartOfArgs(form, c.args, Minus(n, |c.name| + |form.toolSep|))
  }

  /** What is shown of the part stays when the whole value is there. */
  predicate Lasting(form: Form, part: Option<Part>, waits: bool) {
    part.Some? && !waits && ValueShown(form, part.value.arg.value, part.value.there, false) != "" ==> part.value.arg.json.None?
  }

  /** ... and when `ahead` characters more are there, where the value waits if `later`. */
  predicate Steady(form: Form, part: Option<Part>, waits: bool, ahead: nat, later: bool) {
    && Lasting(form, part, waits)
    && (part.Some? && !waits && ValueShown(form, part.value.arg.value, part.value.there, false) != "" && later ==>
          part.value.there + ahead >= |part.value.arg.value| + |form.valEnd|)
  }

  /** The text that is shown of a cut argument, before a closing quote is taken off; `None` before its key begins. */
  function Stage(form: Form, args: seq<Arg>, a: PrintedArg, m: nat, waits: bool): Option<string> {
    var k := |a.gap| + |form.keyStart|;
    var v := k + |a.key| + |form.keyValSep|;
    if m < k then None
    else if m < v then Some(KeyText(args, Certain(a.key, m - k)))
    else if m < v + |Sep2Text(form, a)| then Some(UpToValue(args, a.key, ""))
    else Some(UpToValue(args, a.key, ValueShown(form, a.value, m - v - |Sep2Text(form, a)|, waits)))
  }

  lemma StageIs(form: Form, args: seq<Arg>, a: PrintedArg, m: nat, waits: bool)
    ensures var s := Stage(form, args, a, m, waits);
            ArgShown(form, args, a, m, waits) == if s.None? then OpenDump(args) else Unquoted(s.value)
    ensures OpenDump(args) <= ArgShown(form, args, a, m, waits)
  {
    hide OpenDump, Unquoted, KeyText, UpToValue, Certain, ValueShown, Sep2Text;
    var s := Stage(form, args, a, m, waits);
    if s.Some? {
      var k := |a.gap| + |form.keyStart|;
      if m < k + |a.key| + |form.keyValSep| {
        OpenBeforeKey(args, Certain(a.key, m - k));
      } else {
        OpenBeforeKey(args, a.key);
        KeyBeforeValue(form, args, a, s.value);
        UnquotedGrows(KeyText(args, a.key), s.value);
      }
    }
  }

  lemma KeyBeforeValue(form: Form, args: seq<Arg>, a: PrintedArg, t: string)
    requires exists v :: t == UpToValue(args, a.key, v)
    ensures KeyText(args, a.key) <= t
  {
    hide KeyText, UpToValue;
    var v :| t == UpToValue(args, a.key, v);
    ValueTextGrows(args, a.key, v, v);
  }

  /** What is shown of a value grows, unless it was shown and waits again. */
  lemma ValueShownGrows(form: Form, value: string, m: nat, waits: bool, n: nat, later: bool)
    requires Utf8.WellFormed(value) && m <= n && (waits || ValueShown(form, value, m, false) == "" || !later)
    ensures ValueShown(form, value, m, waits) <= ValueShown(form, value, n, later)
  {
    hide Utf8.WellFormed, Certain, Trimmed;
    CertainGrows(value, m, n);
    TrimmedGrows(form, Certain(value, m), Certain(value, n));
  }

  lemma StageGrows(form: Form, args: seq<Arg>, a: PrintedArg, m: nat, waits: bool, n: nat, later: bool)
    requires Utf8.WellFormed(a.key) && Utf8.WellFormed(a.value) && m <= n
    requires var part := PartOfArg(form, a, m); part.Some? ==> waits || ValueShown(form, a.value, part.value.there, false) == "" || !later
    ensures var (s, t) := (Stage(form, args, a, m, waits), Stage(form, args, a, n, later));
            s.Some? ==> t.Some? && s.value <= t.value
  {
    hide KeyText, UpToValue, Certain, ValueShown, Sep2Text, Utf8.WellFormed;
    var k := |a.gap| + |form.keyStart|;
    var v := k + |a.key| + |form.keyValSep|;
    var w := v + |Sep2Text(form, a)|;
    if m >= k {
      if m < v {
        CertainGrows(a.key, m - k, if n < v then n - k else |a.key| + (m - k));
        if n < v {
          KeyTextGrows(args, Certain(a.key, m - k), Certain(a.key, n - k));
        } else {
          var value := if n < w then "" else ValueShown(form, a.value, n - w, later);
          CertainGrows(a.key, m - k, m - k);
          KeyTextGrows(args, Certain(a.key, m - k), a.key);
          ValueTextGrows(args, a.key, value, value);
        }
      } else if n >= w {
        var value := ValueShown(form, a.value, n - w, later);
        if m < w {
          ValueTextGrows(args, a.key, "", value);
        } else {
          ValueShownGrows(form, a.value, m - w, waits, n - w, later);
          ValueTextGrows(args, a.key, ValueShown(form, a.value, m - w, waits), value);
        }
      }
    }
  }

  lemma ArgShownGrows(form: Form, args: seq<Arg>, a: PrintedArg, m: nat, waits: bool, n: nat, later: bool)
    requires Utf8.WellFormed(a.key) && Utf8.WellFormed(a.value) && m <= n
    requires var part := PartOfArg(form, a, m); part.Some? ==> waits || ValueShown(form, a.value, part.value.there, false) == "" || !later
    ensures ArgShown(form, args, a, m, waits) <= ArgShown(form, args, a, n, later)
  {
    hide Stage, ArgShown, OpenDump, Unquoted, Utf8.WellFormed, ValueShown, PartOfArg;
    StageIs(form, args, a, m, waits);
    StageIs(form, args, a, n, later);
    StageGrows(form, args, a, m, waits, n, later);
    var s, t := Stage(form, args, a, m, waits), Stage(form, args, a, n, later);
    if s.Some? { UnquotedGrows(s.value, t.value); }
  }

  /** A text that is shown with nothing of the value is a beginning of any argument with that key. */
  lemma ShownBeforeAny(args: seq<Arg>, key: string, value: Value)
    ensures Unquoted(UpToValue(args, key, "")) <= OpenDump(args + [Arg(key, value)])
  {
    hide Escape, Before, DumpValue;
    DumpSnoc(args, Arg(key, value));
    assert Escape("") == "" by { EmptyEscape(); }
    var front := Before(args) + ("\"" + Escape(key) + "\":");
    assert UpToValue(args, key, "") == front + "\"";
    assert Dump(args + [Arg(key, value)]) == front + (DumpValue(value) + "}");
    var d := Dump(args + [Arg(key, value)]);
    assert front <= d[..|d| - 1];
  }

  /** How an argument is shown of which all of the value is there, but not its end. */
  lemma AllButEnd(form: Form, args: seq<Arg>, a: PrintedArg, waits: bool)
    ensures var n := |a.gap| + |form.keyStart| + |a.key| + |form.keyValSep| + |Sep2Text(form, a)| + |a.value|;
            ArgShown(form, args, a, n, waits) == Unquoted(UpToValue(args, a.key, if waits then "" else Trimmed(form, a.value)))
  {
    hide Unquoted, UpToValue, Trimmed, Sep2Text, OpenDump, KeyText, Utf8.TruncateSafe;
    CertainWhole(a.value, |a.value|);
  }

  lemma PartIsOf(form: Form, a: PrintedArg, m: nat)
    ensures PartOfArg(form, a, m).Some? ==> PartOfArg(form, a, m).value.arg == a
  {
  }

  /** A value that is not shown might as well wait. */
  lemma NothingIsWaiting(form: Form, args: seq<Arg>, a: PrintedArg, m: nat, waits: bool)
    requires var part := PartOfArg(form, a, m); part.Some? ==> waits || ValueShown(form, a.value, part.value.there, false) == ""
    ensures ArgShown(form, args, a, m, waits) == ArgShown(form, args, a, m, true)
  {
    hide Unquoted, UpToValue, Trimmed, Sep2Text, OpenDump, KeyText, Certain;
  }

  /** What is shown of a cut argument is a beginning of what is shown of the whole one. */
  lemma ArgShownLast(form: Form, args: seq<Arg>, a: PrintedArg, m: nat, waits: bool)
    requires Utf8.WellFormed(a.key) && Utf8.WellFormed(a.value) && m < |ArgText(form, a)| && Lasting(form, PartOfArg(form, a, m), waits)
    ensures ArgShown(form, args, a, m, waits) <= OpenDump(args + [Arg(a.key, ValueOf(form, a))])
  {
    hide OpenDump, Unquoted, Utf8.WellFormed, UpToValue, Strip, Sep2Text, ArgShown, ValueShown, PartOfArg, ArgText;
    var n := |a.gap| + |form.keyStart| + |a.key| + |form.keyValSep| + |Sep2Text(form, a)| + |a.value|;
    var big := if m < n then n else m;
    if a.json.None? {
      ArgShownGrows(form, args, a, m, waits, big, false);
      AllButEnd(form, args, a, false);
      EndShowsNoMore(form, args, a, big);
      ShownBeforeWhole(args, a.key, Trimmed(form, a.value));
    } else {
      PartIsOf(form, a, m);
      NothingIsWaiting(form, args, a, m, waits);
      ArgShownGrows(form, args, a, m, true, big, true);
      AllButEnd(form, args, a, true);
      EndShowsNoMore(form, args, a, big);
      ShownBeforeAny(args, a.key, ValueOf(form, a));
    }
  }

  /** A part of the closing literal shows nothing. */
  lemma EndShowsNoMore(form: Form, args: seq<Arg>, a: PrintedArg, m: nat)
    requires m >= |a.gap| + |form.keyStart| + |a.key| + |form.keyValSep| + |Sep2Text(form, a)| + |a.value|
    ensures var n := |a.gap| + |form.keyStart| + |a.key| + |form.keyValSep| + |Sep2Text(form, a)| + |a.value|;
            forall waits :: ArgShown(form, args, a, m, waits) == ArgShown(form, args, a, n, waits)
  {
    hide OpenDump, Unquoted, UpToValue, Strip, Sep2Text, KeyText, Utf8.TruncateSafe;
  }

  lemma {:induction false} ArgsShownLast(form: Form, acc: seq<Arg>, args: seq<PrintedArg>, m: nat, waits: bool)
    requires form.keyValSep != "" && Room(form, acc, args) && Lasting(form, PartOfArgs(form, args, m), waits)
    ensures OpenDump(acc) <= ArgsShown(form, acc, args, m, waits) <= OpenDump(ArgsOf(form, acc, args))
    decreases |args|
  {
    hide OpenDump, ArgShown, ArgText, SetArg, ValueOf, Room, CleanArg, NewKey, NoFlags, Lasting, PartOfArg, ArgsShown, ArgsOf;
    if args == [] {
      NoArgsShown(form, acc, m, waits);
    } else {
      var a, more := args[0], args[1..];
      var size := |ArgText(form, a)|;
      RoomForMore(form, acc, args);
      FirstArgShown(form, acc, args, m, waits);
      Clean(form, a);
      var acc' := acc + [Arg(a.key, ValueOf(form, a))];
      if m < size {
        StageIs(form, acc, a, m, waits);
        ArgShownLast(form, acc, a, m, waits);
        GrowsBeyond(form, acc', more);
      } else {
        ArgsShownLast(form, acc', more, m - size, waits);
        ShownFromStart(form, acc, a);
      }
    }
  }

  lemma NoArgsShown(form: Form, acc: seq<Arg>, m: nat, waits: bool)
    ensures ArgsShown(form, acc, [], m, waits) == OpenDump(acc) == OpenDump(ArgsOf(form, acc, []))
  {
    hide OpenDump;
  }

  /** What is shown of arguments, by how much of the first one is there. */
  lemma FirstArgShown(form: Form, acc: seq<Arg>, args: seq<PrintedArg>, m: nat, waits: bool)
    requires args != []
    ensures var a, size := args[0], |ArgText(form, args[0])|;
            var acc' := SetArg(acc, a.key, ValueOf(form, a));
            && ArgsOf(form, acc, args) == ArgsOf(form, acc', args[1..])
            && (m < size ==> ArgsShown(form, acc, args, m, waits) == ArgShown(form, acc, a, m, waits)
                             && PartOfArgs(form, args, m) == PartOfArg(form, a, m))
            && (m >= size ==> ArgsShown(form, acc, args, m, waits) == ArgsShown(form, acc', args[1..], m - size, waits)
                              && PartOfArgs(form, args, m) == PartOfArgs(form, args[1..], m - size))
  {
    hide ArgText, ArgShown, SetArg, ValueOf, OpenDump, PartOfArg;
  }

  /** The arguments so far are a beginning of all of them. */
  lemma {:induction false} GrowsBeyond(form: Form, acc: seq<Arg>, args: seq<PrintedArg>)
    requires form.keyValSep != "" && Room(form, acc, args)
    ensures OpenDump(acc) <= OpenDump(ArgsOf(form, acc, args))
    decreases |args|
  {
    hide OpenDump, SetArg, ValueOf, Room, CleanArg, NewKey, NoFlags;
    if args != [] {
      var a := args[0];
      RoomForMore(form, acc, args);
      ShownFromStart(form, acc, a);
      GrowsBeyond(form, acc + [Arg(a.key, ValueOf(form, a))], args[1..]);
    }
  }

  lemma ShownFromStart(form: Form, acc: seq<Arg>, a: PrintedArg)
    ensures OpenDump(acc) <= OpenDump(acc + [Arg(a.key, ValueOf(form, a))])
  {
    hide OpenDump, Before, Escape, ValueOf;
    OpenBefore(acc);
    OpenKey(acc, a.key, ValueOf(form, a));
    assert Before(acc) <= Before(acc) + ("\"" + Escape(a.key));
  }

  lemma {:induction false} ArgsShownGrows(form: Form, acc: seq<Arg>, args: seq<PrintedArg>, m: nat, waits: bool, n: nat, later: bool)
    requires form.keyValSep != "" && Room(form, acc, args) && m <= n
    requires Steady(form, PartOfArgs(form, args, m), waits, n - m, later)
    ensures ArgsShown(form, acc, args, m, waits) <= ArgsShown(form, acc, args, n, later)
    decreases |args|
  {
    hide OpenDump, ArgShown, ArgText, SetArg, ValueOf, Room, CleanArg, NewKey, NoFlags, Steady, PartOfArg;
    if args != [] {
      var a, more := args[0], args[1..];
      var size := |ArgText(form, a)|;
      RoomForMore(form, acc, args);
      Clean(form, a);
      var acc' := acc + [Arg(a.key, ValueOf(form, a))];
      if m >= size {
        ArgsShownGrows(form, acc', more, m - size, waits, n - size, later);
      } else if n < size {
        SteadyInArg(form, a, m, waits, n, later);
        ArgShownGrows(form, acc, a, m, waits, n, later);
      } else {
        SteadyLasts(form, PartOfArg(form, a, m), waits, n - m, later);
        ArgShownLast(form, acc, a, m, waits);
        ShownBeyond(form, acc', more, n - size, later);
      }
    }
  }

  lemma SteadyLasts(form: Form, part: Option<Part>, waits: bool, ahead: nat, later: bool)
    requires Steady(form, part, waits, ahead, later)
    ensures Lasting(form, part, waits)
  {
  }

  lemma SteadyInArg(form: Form, a: PrintedArg, m: nat, waits: bool, n: nat, later: bool)
    requires m <= n < |ArgText(form, a)| && Steady(form, PartOfArg(form, a, m), waits, n - m, later)
    ensures var part := PartOfArg(form, a, m); part.Some? ==> waits || ValueShown(form, a.value, part.value.there, false) == "" || !later
  {
    hide ValueShown, Sep2Text;
  }

  /** Whatever is shown of further arguments, the ones before are shown whole. */
  lemma {:induction false} ShownBeyond(form: Form, acc: seq<Arg>, args: seq<PrintedArg>, m: nat, waits: bool)
    requires form.keyValSep != "" && Room(form, acc, args)
    ensures OpenDump(acc) <= ArgsShown(form, acc, args, m, waits)
    decreases |args|
  {
    hide OpenDump, ArgShown, ArgText, SetArg, ValueOf, Room, CleanArg, NewKey, NoFlags;
    if args != [] {
      var a := args[0];
      RoomForMore(form, acc, args);
      if m < |ArgText(form, a)| {
        StageIs(form, acc, a, m, waits);
      } else {
        ShownFromStart(form, acc, a);
        ShownBeyond(form, acc + [Arg(a.key, ValueOf(form, a))], args[1..], m - |ArgText(form, a)|, waits);
      }
    }
  }

  lemma Clean(form: Form, a: PrintedArg)
    requires form.keyValSep != "" && CleanArg(form, a)
    ensures Utf8.WellFormed(a.key) && Utf8.WellFormed(a.value)
  {
  }

  /** More calls, and more of the last one. */
  ghost predicate CallsGrow(a: seq<ToolCall>, b: seq<ToolCall>) {
    |a| <= |b| && (a != [] ==>
      && a[..|a| - 1] == b[..|a| - 1] && a[|a| - 1].name == b[|a| - 1].name && a[|a| - 1].id == b[|a| - 1].id
      && a[|a| - 1].arguments <= b[|a| - 1].arguments)
  }

  lemma GrowBehind(x: seq<ToolCall>, a: seq<ToolCall>, b: seq<ToolCall>)
    requires CallsGrow(a, b)
    ensures CallsGrow(x + a, x + b)
  {
    if a != [] {
      AllButOne(x, a, |a|);
      AllButOne(x, b, |a|);
    } else if x != [] {
      assert (x + a)[..|x| - 1] == (x + b)[..|x| - 1];
    }
  }

  lemma AllButOne(x: seq<ToolCall>, a: seq<ToolCall>, n: nat)
    requires 0 < n <= |a|
    ensures (x + a)[..|x| + n - 1] == x + a[..n - 1]
  {
  }

  /** What is shown, by how much of the first call is there. */
  lemma FirstShown(env: Env, form: Form, calls: seq<PrintedCall>, m: nat, waits: bool)
    requires calls != []
    ensures var c := calls[0];
            var k := |c.gap| + |form.toolStart|;
            var r := CallsShown(env, form, calls, m, waits);
            && (m < k || (m - k < |BodyText(form, c)| && m - k <= |c.name| + |NameGap(form, c)|) ==> r == [])
            && (m >= k && |c.name| + |NameGap(form, c)| < m - k < |BodyText(form, c)| ==>
                  r == [ToolCall(c.name, ArgsShown(form, [], c.args, Minus(m - k, |c.name| + |form.toolSep|), waits), "")])
            && (m - k >= |BodyText(form, c)| ==>
                  r == [CallOf(env, form, c)] + CallsShown(env, form, calls[1..], m - k - |BodyText(form, c)|, waits))
  {
    hide BodyText, ArgsShown, CallOf;
  }

  /** The value that is cut, by how much of the first call is there. */
  lemma FirstPart(form: Form, calls: seq<PrintedCall>, m: nat)
    requires calls != []
    ensures var c := calls[0];
            var k := |c.gap| + |form.toolStart|;
            && (m >= k && |c.name| < m - k < |BodyText(form, c)| ==>
                  PartOfCalls(form, calls, m) == PartOfArgs(form, c.args, Minus(m - k, |c.name| + |form.toolSep|)))
            && (m - k >= |BodyText(form, c)| ==>
                  PartOfCalls(form, calls, m) == PartOfCalls(form, calls[1..], m - k - |BodyText(form, c)|))
  {
    hide BodyText, PartOfArgs;
  }

  /** WHAT IS SHOWN OF PRINTED CALLS ONLY GROWS with the text, where what is shown of a value is steady. */
  lemma {:induction false} CallsShownGrow(env: Env, form: Form, calls: seq<PrintedCall>, m: nat, waits: bool, n: nat, later: bool)
    requires form.keyValSep != "" && !env.kimi && (forall i :: 0 <= i < |calls| ==> CleanCall(form, calls[i])) && m <= n
    requires form.keyStart != "" && Steady(form, PartOfCalls(form, calls, m), waits, n - m, later)
    ensures CallsGrow(CallsShown(env, form, calls, m, waits), CallsShown(env, form, calls, n, later))
    decreases |calls|
  {
    hide BodyText, ArgsShown, CallOf, CleanCall, CallsShown, CallsGrow, Steady, PartOfCalls, PartOfArgs;
    NothingGrows(CallsShown(env, form, calls, n, later));
    if calls != [] {
      var c := calls[0];
      var k := |c.gap| + |form.toolStart|;
      var size := k + |BodyText(form, c)|;
      FirstShown(env, form, calls, m, waits);
      FirstShown(env, form, calls, n, later);
      FirstPart(form, calls, m);
      if m >= size {
        assert forall i :: 0 <= i < |calls| - 1 ==> calls[1..][i] == calls[i + 1];
        CallsShownGrow(env, form, calls[1..], m - size, waits, n - size, later);
        GrowBehind([CallOf(env, form, c)], CallsShown(env, form, calls[1..], m - size, waits),
                   CallsShown(env, form, calls[1..], n - size, later));
      } else if m >= k && |c.name| + |NameGap(form, c)| < m - k {
        CallGrows(env, form, c, m - k, waits, n - k, later);
        OneGrows(CallsShown(env, form, calls, m, waits), CallsShown(env, form, calls, n, later));
      }
    } else {
      NoCallsShown(env, form, m, waits);
    }
  }

  lemma NoCallsShown(env: Env, form: Form, m: nat, waits: bool)
    ensures CallsShown(env, form, [], m, waits) == []
  {
  }

  lemma NothingGrows(b: seq<ToolCall>)
    ensures CallsGrow([], b)
  {
  }

  lemma OneGrows(a: seq<ToolCall>, b: seq<ToolCall>)
    ensures |a| == 1 && b != [] && a[0].name == b[0].name && a[0].id == b[0].id && a[0].arguments <= b[0].arguments ==> CallsGrow(a, b)
  {
  }

  /** What is shown of a call whose name is there, and of the same call later. */
  lemma CallGrows(env: Env, form: Form, c: PrintedCall, m: nat, waits: bool, n: nat, later: bool)
    requires form.keyValSep != "" && form.keyStart != "" && !env.kimi && CleanCall(form, c) && m <= n
    requires var k := |c.name| + |form.toolSep|; Steady(form, PartOfArgs(form, c.args, Minus(m, k)), waits, n - m, later)
    ensures var k := |c.name| + |form.toolSep|;
            && ArgsShown(form, [], c.args, Minus(m, k), waits) <= ArgsShown(form, [], c.args, Minus(n, k), later)
            && ArgsShown(form, [], c.args, Minus(m, k), waits) <= CallOf(env, form, c).arguments
    ensures CallOf(env, form, c).name == c.name && CallOf(env, form, c).id == ""
  {
    hide ArgsShown, ArgsOf, Dump, CleanArgs, Strip, PartOfArgs, Steady;
    var k := |c.name| + |form.toolSep|;
    NewRoom(form, c);
    SteadyLasts(form, PartOfArgs(form, c.args, Minus(m, k)), waits, n - m, later);
    ArgsShownLast(form, [], c.args, Minus(m, k), waits);
    if m < k {
      NoPartYet(form, c.args);
      assert Steady(form, PartOfArgs(form, c.args, 0), waits, Minus(n, k), later) by { NoPartIsSteady(form, waits, Minus(n, k), later); }
    }
    ArgsShownGrows(form, [], c.args, Minus(m, k), waits, Minus(n, k), later);
    KnownName(env, form, c.name);
  }

  lemma NoPartYet(form: Form, args: seq<PrintedArg>)
    requires form.keyStart != ""
    ensures PartOfArgs(form, args, 0).None?
  {
    hide Sep2Text;
  }

  lemma NoPartIsSteady(form: Form, waits: bool, ahead: nat, later: bool)
    ensures Steady(form, None, waits, ahead, later)
  {
  }

  /** All calls are shown when all of their text is there. */
  lemma {:induction false} AllCallsShown(env: Env, form: Form, calls: seq<PrintedCall>, tail: string, m: nat, waits: bool)
    requires m >= |CallsText(form, calls, tail)|
    ensures CallsShown(env, form, calls, m, waits) == CallsOf(env, form, calls)
    decreases |calls|
  {
    hide BodyText, CallOf;
    if calls != [] {
      var c := calls[0];
      AllCallsShown(env, form, calls[1..], tail, m - |c.gap| - |form.toolStart| - |BodyText(form, c)|, waits);
    }
  }

  // ----------------------------------------------------------------------- within one value, exactly

  /** What is shown of a value is not taken back while it is being written. */
  predicate KeepsShowing(form: Form, part: Part, waits: bool, later: bool) {
    waits || ValueShown(form, part.arg.value, part.there, false) == "" || !later
  }

  lemma UnquotedLength(s: string, t: string)
    requires s != "" && s[|s| - 1] == '"' && t != ""
    ensures !(Unquoted(s + t) <= Unquoted(s))
  {
  }

  lemma UpToIs(args: seq<Arg>, key: string, t: string)
    ensures var u := UpToValue(args, key, "");
            u != "" && u[|u| - 1] == '"' && UpToValue(args, key, t) == u + Escape(t) && (t != "" ==> Escape(t) != "")
  {
    hide Before, EscapeChar;
    EmptyEscape();
    var front := Before(args) + ("\"" + Escape(key) + "\":\"");
    assert UpToValue(args, key, "") == front + "" == front;
  }

  lemma ArgShownExactly(form: Form, args: seq<Arg>, a: PrintedArg, m: nat, waits: bool, n: nat, later: bool)
    requires Utf8.WellFormed(a.key) && Utf8.WellFormed(a.value) && m <= n && PartOfArg(form, a, m).Some?
    ensures ArgShown(form, args, a, m, waits) <= ArgShown(form, args, a, n, later) <==>
            KeepsShowing(form, PartOfArg(form, a, m).value, waits, later)
  {
    hide UpToValue, Unquoted, Utf8.WellFormed, Certain, Trimmed, Sep2Text, OpenDump, KeyText, Escape;
    var part := PartOfArg(form, a, m).value;
    if KeepsShowing(form, part, waits, later) {
      ArgShownGrows(form, args, a, m, waits, n, later);
    } else {
      var t := ValueShown(form, a.value, part.there, false);
      UpToIs(args, a.key, t);
      UnquotedLength(UpToValue(args, a.key, ""), Escape(t));
    }
  }

  lemma {:induction false} ArgsShownExactly(form: Form, acc: seq<Arg>, args: seq<PrintedArg>, m: nat, waits: bool, n: nat, later: bool)
    requires form.keyValSep != "" && Room(form, acc, args) && m <= n
    requires var part := PartOfArgs(form, args, m); part.Some? && part.value.there + (n - m) < |part.value.arg.value| + |form.valEnd|
    ensures ArgsShown(form, acc, args, m, waits) <= ArgsShown(form, acc, args, n, later) <==>
            KeepsShowing(form, PartOfArgs(form, args, m).value, waits, later)
    decreases |args|
  {
    hide OpenDump, ArgShown, ArgText, SetArg, ValueOf, Room, CleanArg, NewKey, NoFlags, KeepsShowing, ArgsShown, PartOfArgs, PartOfArg;
    NoPartOfNothing(form, m);
    var a, more := args[0], args[1..];
    var size := |ArgText(form, a)|;
    RoomForMore(form, acc, args);
    Clean(form, a);
    FirstArgShown(form, acc, args, m, waits);
    FirstArgShown(form, acc, args, n, later);
    var acc' := acc + [Arg(a.key, ValueOf(form, a))];
    if m < size {
      assert n < size by { StaysInArg(form, a, m, n); }
      ArgShownExactly(form, acc, a, m, waits, n, later);
    } else {
      ArgsShownExactly(form, acc', more, m - size, waits, n - size, later);
    }
  }

  lemma NoPartOfNothing(form: Form, m: nat)
    ensures PartOfArgs(form, [], m).None?
  {
  }

  lemma StaysInArg(form: Form, a: PrintedArg, m: nat, n: nat)
    requires m <= n && var part := PartOfArg(form, a, m);
             part.Some? && part.value.there + (n - m) < |part.value.arg.value| + |form.valEnd|
    ensures n < |ArgText(form, a)|
  {
    hide Sep2Text;
  }

  lemma OneGrowsExactly(name: string, s: string, t: string)
    ensures CallsGrow([ToolCall(name, s, "")], [ToolCall(name, t, "")]) <==> s <= t
  {
  }

  lemma GrowBehindExactly(x: seq<ToolCall>, a: seq<ToolCall>, b: seq<ToolCall>)
    requires a != [] && CallsGrow(x + a, x + b)
    ensures CallsGrow(a, b)
  {
    var n := |x| + |a|;
    AllButOne(x, a, |a|);
    assert |a| <= |b|;
    AllButOne(x, b, |a|);
    assert (x + a)[n - 1] == a[|a| - 1] && (x + b)[n - 1] == b[|a| - 1];
    assert (x + a[..|a| - 1])[|x|..] == a[..|a| - 1] && (x + b[..|a| - 1])[|x|..] == b[..|a| - 1];
  }

  /** WITHIN ONE VALUE, EXACTLY. While one value is being written, what is shown of the calls grows if and only if the value
      waits at first, or nothing of it is shown, or it does not wait later. */
  lemma {:induction false} CallsShownExactly(env: Env, form: Form, calls: seq<PrintedCall>, m: nat, waits: bool, n: nat, later: bool)
    requires form.keyValSep != "" && form.keyStart != "" && (forall i :: 0 <= i < |calls| ==> CleanCall(form, calls[i])) && m <= n
    requires var part := PartOfCalls(form, calls, m); part.Some? && part.value.there + (n - m) < |part.value.arg.value| + |form.valEnd|
    ensures CallsShown(env, form, calls, m, waits) != []
    ensures CallsGrow(CallsShown(env, form, calls, m, waits), CallsShown(env, form, calls, n, later)) <==>
            KeepsShowing(form, PartOfCalls(form, calls, m).value, waits, later)
    decreases |calls|
  {
    hide BodyText, ArgsShown, CallOf, CleanCall, CallsShown, CallsGrow, KeepsShowing, PartOfArgs;
    var c := calls[0];
    var k := |c.gap| + |form.toolStart|;
    var size := k + |BodyText(form, c)|;
    FirstShown(env, form, calls, m, waits);
    FirstShown(env, form, calls, n, later);
    if m >= size {
      assert forall i :: 0 <= i < |calls| - 1 ==> calls[1..][i] == calls[i + 1];
      CallsShownExactly(env, form, calls[1..], m - size, waits, n - size, later);
      var x, a, b := [CallOf(env, form, c)], CallsShown(env, form, calls[1..], m - size, waits),
                     CallsShown(env, form, calls[1..], n - size, later);
      if CallsGrow(a, b) { GrowBehind(x, a, b); }
      if CallsGrow(x + a, x + b) { GrowBehindExactly(x, a, b); }
    } else {
      var m', n' := m - k - |c.name| - |form.toolSep|, n - k - |c.name| - |form.toolSep|;
      PartInArgs(form, c, m - k, n - k);
      NewRoom(form, c);
      ArgsShownExactly(form, [], c.args, m', waits, n', later);
      OneGrowsExactly(c.name, ArgsShown(form, [], c.args, m', waits), ArgsShown(form, [], c.args, n', later));
    }
  }

  /** A value that is cut stands in the arguments, and the call is not complete before it is. */
  lemma PartInArgs(form: Form, c: PrintedCall, m: nat, n: nat)
    requires form.keyStart != "" && m <= n
    requires var part := PartOfArgs(form, c.args, Minus(m, |c.name| + |form.toolSep|));
             part.Some? && part.value.there + (n - m) < |part.value.arg.value| + |form.valEnd|
    ensures |c.name| + |form.toolSep| + |NameGap(form, c)| < m && n < |BodyText(form, c)|
  {
    hide ArgsText, PartOfArgs;
    NoPartYet(form, c.args);
    PartBehindGap(form, c.args, Minus(m, |c.name| + |form.toolSep|));
    PartInside(form, c.args, Minus(m, |c.name| + |form.toolSep|), n - m);
  }

  lemma PartBehindGap(form: Form, args: seq<PrintedArg>, m: nat)
    requires form.keyStart != "" && PartOfArgs(form, args, m).Some?
    ensures args != [] && m > |args[0].gap|
  {
    hide Sep2Text;
  }

  lemma {:induction false} PartInside(form: Form, args: seq<PrintedArg>, m: nat, ahead: nat)
    requires var part := PartOfArgs(form, args, m);
             part.Some? && part.value.there + ahead < |part.value.arg.value| + |form.valEnd|
    ensures m + ahead < |ArgsText(form, args)|
    decreases |args|
  {
    hide ArgText, PartOfArg;
    if args != [] {
      if m < |ArgText(form, args[0])| {
        StaysInArg(form, args[0], m, m + ahead);
      } else {
        PartInside(form, args[1..], m - |ArgText(form, args[0])|, ahead);
      }
    }
  }

  /** How many characters of the calls are there. */
  function There(env: Env, form: Form, pre: string, head: string): nat
    requires |pre| <= |env.input|
  {
    Minus(|env.input| - |pre|, |HeadText(form, head)|)
  }

  /** STREAMED CALLS ARE NOT TAKEN BACK. Of two beginnings of a text of printed calls the calls of the longer one grow those of
      the shorter one, so that the deltas between the messages exist and rebuild the later one; provided that what is shown
      of the value that is cut is steady. */
  lemma StreamedCallsGrow(x: Env, y: Env, form: Form, pre: string, head: string, calls: seq<PrintedCall>, gap: string,
                          suffix: string, before: seq<ToolCall>, content: string, reasoning: string, waits: bool, later: bool)
    requires CleanText(form, head, calls, gap) && x.input <= y.input
    requires Written(x, form, pre, head, calls, gap, suffix, waits) && Written(y, form, pre, head, calls, gap, suffix, later)
    requires var m, n := There(x, form, pre, head), There(y, form, pre, head); Steady(form, PartOfCalls(form, calls, m), waits, n - m, later)
    ensures var now := Msg(content, reasoning, TryConsume(x, form, |pre|, before).calls);
            var after := Msg(content, reasoning, TryConsume(y, form, |pre|, before).calls);
            ChatDiff.Diffs(now, after).Ok? && ChatDiff.ApplyAll(now, ChatDiff.Diffs(now, after).value) == after
  {
    hide TryConsume, CallsShown, CleanCall, ChatDiff.Diffs, ChatDiff.ApplyAll, CallPlaces, CallsText, Steady, PartOfCalls, AllSettle, CallsGrow, HeadText, ScopeEnds,
      AllSpace;
    StreamedCalls(x, form, pre, head, calls, gap, suffix, before, waits);
    StreamedCalls(y, form, pre, head, calls, gap, suffix, before, later);
    var m, n := There(x, form, pre, head), There(y, form, pre, head);
    SameShown(x, y, form, calls, n, later);
    CallsShownGrow(x, form, calls, m, waits, n, later);
    GrowBehind(before, CallsShown(x, form, calls, m, waits), CallsShown(x, form, calls, n, later));
    Rebuilt(content, reasoning, before + CallsShown(x, form, calls, m, waits), before + CallsShown(x, form, calls, n, later));
  }

  /** ... and they grow to the printed ones, which are parsed of the whole text. */
  lemma StreamedCallsReachPrinted(x: Env, form: Form, pre: string, head: string, calls: seq<PrintedCall>, gap: string,
                                  suffix: string, before: seq<ToolCall>, waits: bool)
    requires CleanText(form, head, calls, gap) && Written(x, form, pre, head, calls, gap, suffix, waits)
    requires Lasting(form, PartOfCalls(form, calls, There(x, form, pre, head)), waits)
    ensures CallsGrow(TryConsume(x, form, |pre|, before).calls, before + CallsOf(x, form, calls))
  {
    hide TryConsume, CallsShown, CleanCall, CallPlaces, CallsText, CallsOf, CallsGrow, Lasting, PartOfCalls, AllSettle, HeadText, ScopeEnds,
      AllSpace;
    StreamedCalls(x, form, pre, head, calls, gap, suffix, before, waits);
    var m := There(x, form, pre, head);
    var tail := gap + form.scopeEnd + suffix;
    var n := m + |CallsText(form, calls, tail)|;
    AllCallsShown(x, form, calls, tail, n, false);
    LastingIsSteady(form, PartOfCalls(form, calls, m), waits, n - m);
    CallsShownGrow(x, form, calls, m, waits, n, false);
    GrowBehind(before, CallsShown(x, form, calls, m, waits), CallsShown(x, form, calls, n, false));
  }

  lemma LastingIsSteady(form: Form, part: Option<Part>, waits: bool, ahead: nat)
    requires Lasting(form, part, waits)
    ensures Steady(form, part, waits, ahead, false)
  {
  }

  lemma {:induction false} SameShown(x: Env, y: Env, form: Form, calls: seq<PrintedCall>, m: nat, waits: bool)
    requires x.kimi == y.kimi
    ensures CallsShown(x, form, calls, m, waits) == CallsShown(y, form, calls, m, waits)
    decreases |calls|
  {
    hide BodyText, ArgsShown, Dump, ArgsOf;
    if calls != [] && m - |calls[0].gap| - |form.toolStart| >= |BodyText(form, calls[0])| {
      SameShown(x, y, form, calls[1..], m - |calls[0].gap| - |form.toolStart| - |BodyText(form, calls[0])|, waits);
    }
  }

  lemma Rebuilt(content: string, reasoning: string, a: seq<ToolCall>, b: seq<ToolCall>)
    requires CallsGrow(a, b)
    ensures var (now, later) := (Msg(content, reasoning, a), Msg(content, reasoning, b));
            ChatDiff.Diffs(now, later).Ok? && ChatDiff.ApplyAll(now, ChatDiff.Diffs(now, later).value) == later
  {
    hide ChatDiff.Diffs, ChatDiff.ApplyAll;
    ChatDiff.RebuildsIffGrows(Msg(content, reasoning, a), Msg(content, reasoning, b));
  }

  lemma {:induction false} ShownIds(env: Env, form: Form, calls: seq<PrintedCall>, m: nat, waits: bool)
    ensures forall i :: 0 <= i < |CallsShown(env, form, calls, m, waits)| ==> CallsShown(env, form, calls, m, waits)[i].id == ""
    decreases |calls|
  {
    hide BodyText, ArgsShown, ArgsOf, Dump;
    if calls != [] && m - |calls[0].gap| - |form.toolStart| >= |BodyText(form, calls[0])| {
      ShownIds(env, form, calls[1..], m - |calls[0].gap| - |form.toolStart| - |BodyText(form, calls[0])|, waits);
    }
  }

  /** Messages that differ in their calls grow if and only if the calls do. */
  lemma GrowsByCalls(content: string, reasoning: string, a: seq<ToolCall>, b: seq<ToolCall>)
    requires a != [] && a[|a| - 1].id == "" && (|a| <= |b| ==> b[|a| - 1].id == "")
    ensures ChatDiff.Grows(Msg(content, reasoning, a), Msg(content, reasoning, b)) <==> CallsGrow(a, b)
  {
    if |a| <= |b| {
      var n := |a| - 1;
      assert a[..n] == b[..n] <==> forall i :: 0 <= i < n ==> b[i] == a[i] by { SameFront(a, b, n); }
    }
  }

  lemma SameFront(a: seq<ToolCall>, b: seq<ToolCall>, n: nat)
    requires n <= |a| && n <= |b|
    ensures a[..n] == b[..n] <==> forall i :: 0 <= i < n ==> b[i] == a[i]
  {
    if a[..n] == b[..n] {
      forall i | 0 <= i < n ensures b[i] == a[i] {
        assert a[..n][i] == a[i] && b[..n][i] == b[i];
      }
    }
  }

  /** THE DELTAS WITHIN ONE VALUE, EXACTLY. Two messages of a stream between which no value is completed have deltas that
      rebuild the later one if and only if what is shown of the value is not taken back. */
  lemma StreamedValueExactly(x: Env, y: Env, form: Form, pre: string, head: string, calls: seq<PrintedCall>, gap: string,
                             suffix: string, before: seq<ToolCall>, content: string, reasoning: string, waits: bool, later: bool)
    requires CleanText(form, head, calls, gap) && x.input <= y.input
    requires Written(x, form, pre, head, calls, gap, suffix, waits) && Written(y, form, pre, head, calls, gap, suffix, later)
    requires var m, n := There(x, form, pre, head), There(y, form, pre, head);
             var part := PartOfCalls(form, calls, m);
             part.Some? && part.value.there + (n - m) < |part.value.arg.value| + |form.valEnd|
    ensures var now := Msg(content, reasoning, TryConsume(x, form, |pre|, before).calls);
            var after := Msg(content, reasoning, TryConsume(y, form, |pre|, before).calls);
            ChatDiff.Diffs(now, after).Ok? && ChatDiff.ApplyAll(now, ChatDiff.Diffs(now, after).value) == after <==>
              KeepsShowing(form, PartOfCalls(form, calls, There(x, form, pre, head)).value, waits, later)
  {
    hide TryConsume, CallsShown, CleanCall, ChatDiff.Diffs, ChatDiff.ApplyAll, ChatDiff.Grows, CallPlaces, CallsText, PartOfCalls, AllSettle,
      KeepsShowing, CallsGrow, HeadText;
    StreamedCalls(x, form, pre, head, calls, gap, suffix, before, waits);
    StreamedCalls(y, form, pre, head, calls, gap, suffix, before, later);
    var m, n := There(x, form, pre, head), There(y, form, pre, head);
    SameShown(x, y, form, calls, n, later);
    var a, b := CallsShown(x, form, calls, m, waits), CallsShown(x, form, calls, n, later);
    CallsShownExactly(x, form, calls, m, waits, n, later);
    ShownIds(x, form, calls, m, waits);
    ShownIds(x, form, calls, n, later);
    if CallsGrow(a, b) { GrowBehind(before, a, b); }
    if CallsGrow(before + a, before + b) { GrowBehindExactly(before, a, b); }
    GrowsByCalls(content, reasoning, before + a, before + b);
    ChatDiff.RebuildsIffGrows(Msg(content, reasoning, before + a), Msg(content, reasoning, before + b));
  }
}
