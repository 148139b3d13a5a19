/** The argument text of a tool call: it says what the arguments are, and what is streamed of it while a call
    is still being written is never taken back. */
module XmlArguments {
  import opened Chars
  import opened Wrappers
  import opened Strings
  import opened ChatParser
  import opened XmlToolCalls
  import Utf8

  // -------------------------------------------------------------------- the text can be read back

  /** The codes of different characters differ before either ends, and none begins with a quote. */
  lemma CodesApart(a: char, b: char, r: string, r': string)
    requires EscapeChar(a) + r == EscapeChar(b) + r'
    ensures a == b && r == r'
  {
    hide EscapeChar;
    var x, y := EscapeChar(a), EscapeChar(b);
    CodeLength(a);
    CodeLength(b);
    SharedIndex(x, r, y, r', 0);
    if x[0] == '\\' {
      SharedIndex(x, r, y, r', 1);
      if x[1] == 'u' {
        SharedIndex(x, r, y, r', 4);
        SharedIndex(x, r, y, r', 5);
      }
    }
    SameCode(a, b);
    assert r == (x + r)[|x|..] && r' == (y + r')[|y|..];
  }

  lemma SharedIndex(x: string, r: string, y: string, r': string, i: nat)
    requires x + r == y + r' && i < |x| && i < |y|
    ensures x[i] == y[i]
  {
    assert (x + r)[i] == x[i] && (y + r')[i] == y[i];
  }

  /** The number that two hexadecimal digits stand for. */
  function HexNumber(a: char, b: char): int {
    if IsHex(a) && IsHex(b) then HexValue(a) * 16 + HexValue(b) else 0
  }

  /** What a code stands for, from the places that tell codes apart. */
  function CodeNumber(x: string): int
    requires x != "" && (x[0] == '\\' ==> |x| >= 2 && (x[1] == 'u' ==> |x| >= 6))
  {
    if x[0] != '\\' then x[0] as int
    else
      match x[1]
      case 'b' => 8
      case 't' => 9
      case 'n' => 10
      case 'f' => 12
      case 'r' => 13
      case 'u' => HexNumber(x[4], x[5])
      case c => c as int
  }

  lemma HexReadBack(n: nat)
    requires n < 32
    ensures HexNumber(HEX[n / 16], HEX[n % 16]) == n
  {
  }

  lemma CodeReadBack(c: char)
    ensures EscapeChar(c)[0] == '\\' ==> |EscapeChar(c)| >= 2 && (EscapeChar(c)[1] == 'u' ==> |EscapeChar(c)| >= 6)
    ensures CodeNumber(EscapeChar(c)) == c as int
  {
    if c as int < 32 { HexReadBack(c as int); }
  }

  lemma SameCode(a: char, b: char)
    requires var x, y := EscapeChar(a), EscapeChar(b);
             && |x| == |y| && x[0] == y[0]
             && (x[0] == '\\' ==> |x| > 1 && x[1] == y[1] && (x[1] == 'u' ==> |x| > 5 && x[4] == y[4] && x[5] == y[5]))
    ensures a == b
  {
    hide EscapeChar, HexNumber;
    CodeReadBack(a);
    CodeReadBack(b);
  }

  lemma CodeLength(c: char)
    ensures var x := EscapeChar(c);
            && x[0] != '"'
            && (x[0] == '\\' ==> |x| == if x[1] == 'u' then 6 else 2)
            && (x[0] != '\\' ==> x == [c])
  {
  }

  lemma {:induction false} QuotedReadBack(s: string, t: string, r: string, r': string)
    requires Escape(s) + "\"" + r == Escape(t) + "\"" + r'
    ensures s == t && r == r'
    decreases |s|
  {
    hide EscapeChar;
    if s == "" || t == "" {
      QuoteEnds(s, r);
      QuoteEnds(t, r');
      assert r == ("\"" + r)[1..] && r' == ("\"" + r')[1..];
    } else {
      SplitCode(s, r);
      SplitCode(t, r');
      CodesApart(s[0], t[0], Escape(s[1..]) + "\"" + r, Escape(t[1..]) + "\"" + r');
      QuotedReadBack(s[1..], t[1..], r, r');
      assert s == [s[0]] + s[1..] && t == [t[0]] + t[1..];
    }
  }

  lemma SplitCode(s: string, r: string)
    requires s != ""
    ensures Escape(s) + "\"" + r == EscapeChar(s[0]) + (Escape(s[1..]) + "\"" + r)
  {
    hide EscapeChar;
  }

  lemma QuoteEnds(s: string, r: string)
    ensures s == "" <==> (Escape(s) + "\"" + r)[0] == '"'
    ensures s == "" ==> Escape(s) + "\"" + r == "\"" + r
  {
    if s != "" {
      CodeLength(s[0]);
      assert (Escape(s) + "\"" + r)[0] == EscapeChar(s[0])[0];
    }
  }

  /** The members after the first, each behind its comma. */
  function MoreMembers(args: seq<Arg>): string {
    if args == [] then "" else "," + DumpArg(args[0]) + MoreMembers(args[1..])
  }

  lemma {:induction false} MoreMembersSnoc(args: seq<Arg>, a: Arg)
    ensures MoreMembers(args + [a]) == MoreMembers(args) + ("," + DumpArg(a))
  {
    hide DumpArg;
    if args == [] {
      assert [a][1..] == [] && args + [a] == [a];
    } else {
      assert (args + [a])[0] == args[0] && (args + [a])[1..] == args[1..] + [a];
      MoreMembersSnoc(args[1..], a);
    }
  }

  lemma {:induction false} MembersFromFront(args: seq<Arg>)
    requires args != []
    ensures DumpMembers(args) == DumpArg(args[0]) + MoreMembers(args[1..])
    decreases |args|
  {
    hide DumpArg;
    if |args| == 1 {
      assert args[1..] == [];
    } else {
      var n := |args| - 1;
      MembersFromFront(args[..n]);
      MoreMembersSnoc(args[..n][1..], args[n]);
      assert args[..n][1..] + [args[n]] == args[1..];
    }
  }

  predicate AllText(args: seq<Arg>) {
    forall i :: 0 <= i < |args| ==> args[i].value.Text?
  }

  lemma ArgReadBack(a: Arg, b: Arg, r: string, r': string)
    requires a.value.Text? && b.value.Text?
    requires DumpArg(a) + r == DumpArg(b) + r'
    ensures a == b && r == r'
  {
    hide Escape;
    var x, y := ":\"" + (Escape(a.value.text) + "\"" + r), ":\"" + (Escape(b.value.text) + "\"" + r');
    assert DumpArg(a) + r == "\"" + (Escape(a.key) + "\"" + x);
    assert DumpArg(b) + r' == "\"" + (Escape(b.key) + "\"" + y);
    assert Escape(a.key) + "\"" + x == (DumpArg(a) + r)[1..];
    QuotedReadBack(a.key, b.key, x, y);
    assert Escape(a.value.text) + "\"" + r == x[2..];
    QuotedReadBack(a.value.text, b.value.text, r, r');
  }

  lemma {:induction false} MoreReadBack(a: seq<Arg>, b: seq<Arg>)
    requires AllText(a) && AllText(b) && MoreMembers(a) == MoreMembers(b)
    ensures a == b
    decreases |a|
  {
    hide DumpArg;
    if a != [] && b != [] {
      var x, y := DumpArg(a[0]) + MoreMembers(a[1..]), DumpArg(b[0]) + MoreMembers(b[1..]);
      assert MoreMembers(a) == "," + x && MoreMembers(b) == "," + y;
      assert x == ("," + x)[1..] && y == ("," + y)[1..];
      ArgReadBack(a[0], b[0], MoreMembers(a[1..]), MoreMembers(b[1..]));
      MoreReadBack(a[1..], b[1..]);
      assert a == [a[0]] + a[1..] && b == [b[0]] + b[1..];
    }
  }

  /** THE ARGUMENT TEXT DETERMINES THE ARGUMENTS: calls with different string arguments, or with the same ones in
      another order, have different texts. */
  lemma DumpReadBack(a: seq<Arg>, b: seq<Arg>)
    requires AllText(a) && AllText(b) && Dump(a) == Dump(b)
    ensures a == b
  {
    hide DumpArg;
    assert DumpMembers(a) == Dump(a)[1..|Dump(a)| - 1] == DumpMembers(b);
    if a == [] || b == [] {
      MembersEmpty(a);
      MembersEmpty(b);
    } else {
      MembersFromFront(a);
      MembersFromFront(b);
      ArgReadBack(a[0], b[0], MoreMembers(a[1..]), MoreMembers(b[1..]));
      MoreReadBack(a[1..], b[1..]);
      assert a == [a[0]] + a[1..] && b == [b[0]] + b[1..];
    }
  }

  lemma MembersEmpty(a: seq<Arg>)
    ensures DumpMembers(a) == "" <==> a == []
  {
    if a != [] { MembersFromFront(a); }
  }

  // ------------------------------------------------------------------------ streamed arguments

  lemma {:induction false} EscapeConcat(s: string, t: string)
    ensures Escape(s + t) == Escape(s) + Escape(t)
  {
    hide EscapeChar;
    if s == "" {
      assert s + t == t;
    } else {
      assert (s + t)[0] == s[0] && (s + t)[1..] == s[1..] + t;
      EscapeConcat(s[1..], t);
    }
  }

  lemma {:induction false} EscapeUpper(s: string)
    requires forall i :: 0 <= i < |s| ==> 'A' <= s[i] <= 'Z' || s[i] == '_'
    ensures Escape(s) == s
  {
    if s != "" {
      EscapeUpper(s[1..]);
      assert s == [s[0]] + s[1..];
    }
  }

  lemma EscapeMonotone(s: string, t: string)
    requires s <= t
    ensures Escape(s) <= Escape(t)
  {
    EscapeConcat(s, t[|s|..]);
    assert t == s + t[|s|..];
  }

  /** The dump of `args` with one more member, up to the text of that member. */
  function Before(args: seq<Arg>): string {
    if args == [] then "{" else "{" + DumpMembers(args) + ","
  }

  lemma DumpSnoc(args: seq<Arg>, a: Arg)
    ensures Dump(args + [a]) == Before(args) + DumpArg(a) + "}"
  {
    hide DumpArg;
    assert (args + [a])[..|args|] == args;
  }

  /** The flag, once it stands in the last string of a dump, is where the dump is cut. */
  lemma CutsAtLastFlag(front: string, back: string)
    requires back in {"\"}", "\":\"\"}"}
    ensures CutAtFlag(front + FLAG + back) ==
            Some(if front != "" && front[|front| - 1] == '"' then front[..|front| - 1] else front)
  {
    hide IsSpace;
    var json := front + FLAG + back;
    assert json[|front|..|front| + |FLAG|] == FLAG;
    assert OccursAt(json, FLAG, |front|);
    FlagIsLast(front, back, |json|);
    assert json[|front| + |FLAG|..] == back;
    assert front != "" ==> json[|front| - 1] == front[|front| - 1];
    assert json[..|front|] == front;
    assert front != "" ==> json[..|front| - 1] == front[..|front| - 1];
  }

  lemma {:induction false} FlagIsLast(front: string, back: string, from: nat)
    requires back in {"\"}", "\":\"\"}"} && |front| <= from <= |front + FLAG + back|
    requires OccursAt(front + FLAG + back, FLAG, |front|)
    ensures FindLast(front + FLAG + back, FLAG, from) == Some(|front|)
    decreases from
  {
    hide OccursAt;
    if from > |front| {
      NoFlagBehind(front, back, from);
      FlagIsLast(front, back, from - 1);
    }
  }

  lemma NoFlagBehind(front: string, back: string, from: nat)
    requires back in {"\"}", "\":\"\"}"} && from > |front|
    ensures !OccursAt(front + FLAG + back, FLAG, from)
  {
    var json := front + FLAG + back;
    var k := from - |front|;
    NoFlagWithin(back, k);
    assert json == front + (FLAG + back);
    if from + |FLAG| <= |json| { InSecondPart(front, FLAG + back, k, |FLAG|); }
  }

  lemma InSecondPart(a: string, b: string, k: nat, n: nat)
    requires k + n <= |b|
    ensures (a + b)[|a| + k..|a| + k + n] == b[k..k + n]
  {
  }

  lemma NoFlagWithin(back: string, k: nat)
    requires back in {"\"}", "\":\"\"}"} && k > 0
    ensures k + |FLAG| <= |FLAG + back| ==> (FLAG + back)[k..k + |FLAG|] != FLAG
  {
    if k + |FLAG| <= |FLAG + back| {
      assert (FLAG + back)[k..k + |FLAG|][|FLAG| - 1] == back[k - 1];
    }
  }

  /** Everything that is dumped up to a string value that may still grow. */
  function UpToValue(args: seq<Arg>, key: string, text: string): string {
    Before(args) + ("\"" + Escape(key) + "\":\"") + Escape(text)
  }

  lemma DumpWithValue(args: seq<Arg>, key: string, text: string)
    ensures Dump(args + [Arg(key, Text(text))]) == UpToValue(args, key, text) + "\"}"
  {
    DumpSnoc(args, Arg(key, Text(text)));
    Assoc(Before(args), "\"" + Escape(key) + "\":\"", Escape(text), "\"}");
    hide Escape, Before;
    assert DumpArg(Arg(key, Text(text))) + "}" == ("\"" + Escape(key) + "\":\"") + (Escape(text) + "\"}");
  }

  lemma Assoc(a: string, b: string, c: string, d: string)
    ensures a + b + c + d == a + (b + (c + d))
  {
  }

  /** A partial value is cut to the text before its flag, or one quote less. */
  lemma PartialValueText(args: seq<Arg>, key: string, text: string)
    ensures var t := UpToValue(args, key, text);
            t != "" && CutAtFlag(Dump(args + [Arg(key, Text(text + FLAG))])) == Some(if t[|t| - 1] == '"' then t[..|t| - 1] else t)
  {
    hide Escape, CutAtFlag, Before, UpToValue, Dump;
    DumpWithValue(args, key, text + FLAG);
    UpToFlag(args, key, text);
    CutsAtLastFlag(UpToValue(args, key, text), "\"}");
  }

  lemma UpToFlag(args: seq<Arg>, key: string, text: string)
    ensures UpToValue(args, key, text) != ""
    ensures UpToValue(args, key, text + FLAG) == UpToValue(args, key, text) + FLAG
  {
    hide Escape, Before;
    EscapeConcat(text, FLAG);
    assert Escape(FLAG) == FLAG by { EscapeUpper(FLAG); }
    Assoc(Before(args), "\"" + Escape(key) + "\":\"", Escape(text), FLAG);
  }

  /** What is streamed of a value is a prefix of what the argument text will be. */
  lemma PartialValueKept(args: seq<Arg>, key: string, text: string, final: string)
    requires text <= final
    ensures CutAtFlag(Dump(args + [Arg(key, Text(text + FLAG))])).Some?
    ensures CutAtFlag(Dump(args + [Arg(key, Text(text + FLAG))])).value <= OpenDump(args + [Arg(key, Text(final))])
  {
    hide CutAtFlag, Escape, Before, Dump;
    PartialValueText(args, key, text);
    EscapeMonotone(text, final);
    DumpWithValue(args, key, final);
    var d := Dump(args + [Arg(key, Text(final))]);
    assert UpToValue(args, key, text) <= UpToValue(args, key, final) <= d[..|d| - 1];
  }

  /** The same for a key. */
  lemma PartialKeyKept(args: seq<Arg>, key: string, finalKey: string, value: Value)
    requires key <= finalKey
    ensures CutAtFlag(Dump(args + [Arg(key + FLAG, Text(""))])).Some?
    ensures CutAtFlag(Dump(args + [Arg(key + FLAG, Text(""))])).value <= OpenDump(args + [Arg(finalKey, value)])
  {
    hide CutAtFlag, Escape, Before, Dump;
    var t := Before(args) + ("\"" + Escape(key));
    FlaggedKey(args, key);
    CutsAtLastFlag(t, "\":\"\"}");
    EscapeMonotone(key, finalKey);
    OpenKey(args, finalKey, value);
    var t' := Before(args) + ("\"" + Escape(finalKey));
    assert t <= t';
  }

  lemma FlaggedKey(args: seq<Arg>, key: string)
    ensures Dump(args + [Arg(key + FLAG, Text(""))]) == Before(args) + ("\"" + Escape(key)) + FLAG + "\":\"\"}"
  {
    hide Escape, Before, Dump;
    DumpSnoc(args, Arg(key + FLAG, Text("")));
    EscapeConcat(key, FLAG);
    EscapeUpper(FLAG);
    EmptyEscape();
    var b, k := Before(args), Escape(key);
    calc {
      b + ("\"" + (k + FLAG) + "\":" + ("\"" + "" + "\"")) + "}";
      b + ("\"" + k) + FLAG + "\":\"\"}";
    }
  }

  lemma OpenKey(args: seq<Arg>, key: string, value: Value)
    ensures Before(args) + ("\"" + Escape(key)) <= OpenDump(args + [Arg(key, value)])
  {
    hide Escape, Before, Dump, DumpValue;
    DumpSnoc(args, Arg(key, value));
    var d := Dump(args + [Arg(key, value)]);
    var t := Before(args) + ("\"" + Escape(key));
    assert d == t + ("\":" + DumpValue(value) + "}");
    assert t <= d[..|d| - 1];
  }

  lemma EmptyEscape()
    ensures Escape("") == ""
  {
  }

  lemma {:induction false} SetArgAppends(args: seq<Arg>, key: string, value: Value)
    requires forall i :: 0 <= i < |args| ==> args[i].key != key
    ensures SetArg(args, key, value) == args + [Arg(key, value)]
  {
    if args != [] { SetArgAppends(args[1..], key, value); }
  }

  /** The text of the value, as far as it is certain. */
  function Shown(env: Env, form: Form, valStart: nat): string
    requires valStart <= StopIndex(env.input, form.valEnd)
  {
    env.input[valStart..StopIndex(env.input, form.valEnd)]
  }

  /** What a halted value sends out. */
  lemma HaltedValue(env: Env, form: Form, name: string, args: seq<Arg>, key: string, valStart: nat) returns (text: string)
    requires env.partial && valStart <= |env.input| && form.valEnd != "" && form.lastValEnd.None?
    requires valStart <= StopIndex(env.input, form.valEnd)
    requires PlainValue(env, form, name, args, key, valStart).Halted?
    ensures Find(env.input, form.valEnd, valStart).None?
    ensures text <= Shown(env, form, valStart)
    ensures PlainValue(env, form, name, args, key, valStart).halt ==
            GenPartial(name, SetArg(args, key, Text((if form.trimRawArgval then Strip(text) else text) + FLAG)))
  {
    hide Find, Strip, SetArg, GenPartial, PartialFrom;
    match FindIn(env, valStart, form.valEnd)
    case Some(f) => text := f.prelude;
    case None =>
      var rest := env.input[valStart..];
      text := rest[..Utf8.TruncateSafe(rest)];
      assert StopIndex(env.input, form.valEnd) == |env.input|;
  }

  /** What is certain stays in front of the closing literal, wherever it turns up. */
  lemma ShownStays(env: Env, env': Env, form: Form, valStart: nat)
    requires env.input <= env'.input && form.valEnd != "" && valStart <= |env.input|
    requires valStart <= StopIndex(env.input, form.valEnd) && Find(env.input, form.valEnd, valStart).None?
    ensures var f := FindIn(env', valStart, form.valEnd);
            f.Some? && Whole(f.value, |form.valEnd|) ==> Shown(env, form, valStart) <= f.value.prelude
  {
    hide Find, PartialFrom;
    var s, u, d := env.input, env'.input, form.valEnd;
    var f := FindIn(env', valStart, d);
    if f.Some? && Whole(f.value, |d|) {
      var i := f.value.begin;
      WholeOccurs(env', valStart, d);
      FindSpec(s, d, valStart);
      StopIndexSpec(s, d);
      if i + |d| <= |s| {
        OccursInPrefix(s, u, d, i);
      } else if i < |s| {
        assert s[i..] == u[i..i + |d|][..|s| - i];
      }
      assert StopIndex(s, d) <= i;
      SharedPart(s, u, valStart, StopIndex(s, d), i);
    }
  }

  lemma SharedPart(s: string, u: string, a: nat, b: nat, c: nat)
    requires s <= u && a <= b <= |s| && b <= c <= |u|
    ensures s[a..b] <= u[a..c]
  {
    assert u[a..c][..b - a] == u[a..b] == s[a..b];
  }

  lemma WholeOccurs(env: Env, pos: nat, d: string)
    requires pos <= |env.input|
    ensures var f := FindIn(env, pos, d);
            f.Some? && Whole(f.value, |d|) ==> OccursAt(env.input, d, f.value.begin)
  {
    hide Find, PartialFrom;
    FindSpec(env.input, d, pos);
    PartialFromSpec(env.input, d, 0);
  }

  lemma FinishedValue(env: Env, form: Form, name: string, args: seq<Arg>, key: string, valStart: nat)
    requires valStart <= |env.input| && form.lastValEnd.None?
    requires PlainValue(env, form, name, args, key, valStart).Next?
    ensures var f := FindIn(env, valStart, form.valEnd);
            && f.Some? && Whole(f.value, |form.valEnd|)
            && PlainValue(env, form, name, args, key, valStart).args ==
                 SetArg(args, key, Text(if form.trimRawArgval then Strip(f.value.prelude) else f.value.prelude))
  {
    hide Find, Strip, SetArg;
  }

  /** STREAMED ARGUMENTS ARE NEVER TAKEN BACK. While a value is still being written, the argument text that is
      sent out is a prefix of the argument text after the value is complete; provided the closing literal does not
      seem to begin before the value. */
  lemma StreamedValueKept(env: Env, env': Env, form: Form, name: string, args: seq<Arg>, key: string, valStart: nat)
    requires env.partial && env.input <= env'.input && valStart <= |env.input|
    requires form.Valid() && form.lastValEnd.None?
    requires forall i :: 0 <= i < |args| ==> args[i].key != key
    requires valStart <= StopIndex(env.input, form.valEnd)
    requires PlainValue(env, form, name, args, key, valStart).Halted?
    requires PlainValue(env', form, name, args, key, valStart).Next?
    ensures var now, later := PlainValue(env, form, name, args, key, valStart), PlainValue(env', form, name, args, key, valStart);
            exists t :: now.halt == Unfinished(Call(name, t)) && t <= OpenDump(later.args)
  {
    hide Find, PartialFrom, Strip, PlainValue, Dump, OpenDump, CutAtFlag, SetArg, FindIn, Shown;
    var text := HaltedValue(env, form, name, args, key, valStart);
    FinishedValue(env', form, name, args, key, valStart);
    ShownStays(env, env', form, valStart);
    var final := FindIn(env', valStart, form.valEnd).value.prelude;
    StripMonotone(text, final);
    var shown, shown' := if form.trimRawArgval then Strip(text) else text, if form.trimRawArgval then Strip(final) else final;
    SetArgAppends(args, key, Text(shown + FLAG));
    SetArgAppends(args, key, Text(shown'));
    PartialValueKept(args, key, shown, shown');
    var t := CutAtFlag(Dump(args + [Arg(key, Text(shown + FLAG))])).value;
    assert PlainValue(env, form, name, args, key, valStart).halt == Unfinished(Call(name, t));
  }
}
