/** The argument text of a call is a JSON document, and reading it and dumping it again gives the same text. */
module JsonArguments {
  import opened Chars
  import opened JsonAcceptor
  import opened JsonDump
  import JsonMarkers
  import JsonHealing
  import XmlToolCalls
  import XmlArguments

  /** The writer has read `x` and written the same. */
  ghost predicate Copies(w: Writer, x: string, p: Pda, num: string -> string) {
    RunFrom(w.p, x) == p && p.Pda? && Write(w, x, num) == Writer(p, "", w.out + x)
  }

  lemma CopiesBoth(w: Writer, x: string, p: Pda, y: string, q: Pda, num: string -> string)
    requires Copies(w, x, p, num) && Copies(Writer(p, "", w.out + x), y, q, num)
    ensures Copies(w, x + y, q, num)
  {
    hide RunFrom, Write;
    RunConcat(w.p, x, y);
    WriteConcat(w, x, y, num);
    assert w.out + x + y == w.out + (x + y);
  }

  /** Inside a string. */
  predicate InText(p: Pda) {
    p.Pda? && p.mode.InStr? && p.mode.st == Plain
  }

  lemma PlainCopies(w: Writer, c: char, num: string -> string)
    requires InText(w.p) && w.held == "" && XmlToolCalls.EscapeChar(c) == [c] && c >= ' '
    ensures Copies(w, [c], w.p, num)
  {
    hide RunFrom, Write;
    Run1(w.p, c);
    Write1(w, c, num);
    NotSpecial(c);
  }

  lemma NotSpecial(c: char)
    requires XmlToolCalls.EscapeChar(c) == [c]
    ensures c != '"' && c != '\\'
  {
    assert |"\\\""| == 2 && |"\\\\"| == 2;
  }

  lemma ShortCopies(w: Writer, c: char, num: string -> string)
    requires InText(w.p) && w.held == "" && c in {'"', '\\', 'b', 't', 'n', 'f', 'r'}
    requires XmlToolCalls.EscapeChar(Unescaped(c)) == ['\\', c]
    ensures Copies(w, ['\\', c], w.p, num)
  {
    hide RunFrom, Write;
    Run2(w.p, '\\', c);
    Write2(w, '\\', c, num);
    assert w.out + "" == w.out;
  }

  /** The code of a control character by its number. */
  lemma NumberCopies(w: Writer, a: char, b: char, num: string -> string)
    requires InText(w.p) && w.held == "" && (a == '0' || a == '1') && IsHex(b)
    requires CodeOut(HexNumber("00" + [a, b])) == "\\u00" + [a, b]
    ensures Copies(w, "\\u00" + [a, b], w.p, num)
  {
    hide RunFrom, Write, CodeOut, HexNumber, Feed, Step;
    var d := "00" + [a, b];
    assert "\\u00" + [a, b] == "\\u" + d;
    EscapeStarts(w, num);
    var v := Write(w, "\\u", num);
    FourDigitsRun(v.p, w.p, a, b);
    RunConcat(w.p, "\\u", d);
    WriteConcat(w, "\\u", d, num);
    assert "" + d == d;
    JsonMarkers.DigitsWrite(v, "", false, d, num);
    LastHeld(v, d, num);
  }

  lemma EscapeStarts(w: Writer, num: string -> string)
    requires InText(w.p) && w.held == ""
    ensures var p := Pda(InStr(w.p.mode.key, Hex("", false)), w.p.stack);
            RunFrom(w.p, "\\u") == p && Write(w, "\\u", num) == Writer(p, "", w.out)
  {
    hide RunFrom, Write;
    Run2(w.p, '\\', 'u');
    Write2(w, '\\', 'u', num);
  }

  lemma FourDigitsRun(p: Pda, q: Pda, a: char, b: char)
    requires InText(q) && p == Pda(InStr(q.mode.key, Hex("", false)), q.stack) && (a == '0' || a == '1') && IsHex(b)
    ensures RunFrom(p, "00" + [a, b]) == q && !HighPair(("00" + [a, b])[0], ("00" + [a, b])[1])
  {
    hide RunFrom, Step;
    var mid := Pda(InStr(q.mode.key, Hex("00", false)), q.stack);
    RunConcat(p, "00", [a, b]);
    TwoZeros(p, q);
    LastTwoDigits(mid, q, a, b);
    assert ("00" + [a, b])[0] == '0' && ("00" + [a, b])[1] == '0';
  }

  lemma TwoZeros(p: Pda, q: Pda)
    requires InText(q) && p == Pda(InStr(q.mode.key, Hex("", false)), q.stack)
    ensures RunFrom(p, "00") == Pda(InStr(q.mode.key, Hex("00", false)), q.stack)
  {
    hide RunFrom;
    Run2(p, '0', '0');
    assert "" + ['0'] == "0" && "0" + ['0'] == "00";
  }

  lemma LastTwoDigits(p: Pda, q: Pda, a: char, b: char)
    requires InText(q) && p == Pda(InStr(q.mode.key, Hex("00", false)), q.stack) && IsHex(a) && IsHex(b)
    ensures RunFrom(p, [a, b]) == q
  {
    hide RunFrom;
    Run2(p, a, b);
    var x := "00" + [a];
    assert |x| == 3 && x[0] == '0' && x[1] == '0' && (x + [b])[0] == '0' && (x + [b])[1] == '0' && |x + [b]| == 4;
  }

  /** Nothing is held behind a code that is not a surrogate. */
  lemma LastHeld(v: Writer, d: string, num: string -> string)
    requires v.p.Pda? && v.p.mode.InStr? && v.p.mode.st == Hex("", false) && v.held == "" && |d| == 4
    requires RunFrom(v.p, d).Pda? && !HighPair(d[0], d[1])
    ensures Write(v, d, num).held == "" && Write(v, d, num).p == RunFrom(v.p, d)
  {
    hide RunFrom, CodeOut, HexNumber, Write, HighPair, LowPair, IsHex;
    WriteRuns(v, d, num);
    assert d == [d[0], d[1], d[2]] + [d[3]];
    assert "" + [d[0]] == [d[0]] && [d[0]] + [d[1]] == [d[0], d[1]] && [d[0], d[1]] + [d[2]] == [d[0], d[1], d[2]];
    ThreeSteps(v, d, num);
    var u := Write(v, [d[0], d[1], d[2]], num);
    WriteConcat(v, [d[0], d[1], d[2]], [d[3]], num);
    Write1(u, d[3], num);
  }

  lemma ThreeSteps(v: Writer, d: string, num: string -> string)
    requires v.p.Pda? && v.p.mode.InStr? && v.p.mode.st == Hex("", false) && v.held == "" && |d| == 4 && RunFrom(v.p, d).Pda?
    ensures var x := [d[0], d[1], d[2]];
            RunFrom(v.p, x) == Pda(InStr(v.p.mode.key, Hex(x, false)), v.p.stack) && Write(v, x, num).p == RunFrom(v.p, x)
  {
    hide CodeOut, Write, RunFrom;
    var x := [d[0], d[1], d[2]];
    assert d == x + [d[3]];
    RunConcat(v.p, x, [d[3]]);
    if RunFrom(v.p, x).Dead? { DeadStays([d[3]]); }
    Run3(v.p, d[0], d[1], d[2]);
    assert "" + [d[0]] + [d[1]] + [d[2]] == x;
    WriteRuns(v, x, num);
  }

  lemma NumberCode(c: char)
    requires c as int < 32
    ensures var a, b := XmlToolCalls.HEX[c as int / 16], XmlToolCalls.HEX[c as int % 16];
            (a == '0' || a == '1') && IsHex(b) && HexNumber("00" + [a, b]) == c as int
  {
    hide HexNumber;
    var a, b := XmlToolCalls.HEX[c as int / 16], XmlToolCalls.HEX[c as int % 16];
    var d := "00" + [a, b];
    HexTable(c as int);
    assert d[0] == '0' && d[1] == '0' && d[2] == a && d[3] == b;
    JsonMarkers.HexOfFour(d);
  }

  lemma HexTable(n: nat)
    requires n < 32
    ensures var a, b := XmlToolCalls.HEX[n / 16], XmlToolCalls.HEX[n % 16];
            (a == '0' || a == '1') && IsHex(a) && IsHex(b) && HexValue(a) == n / 16 && HexValue(b) == n % 16
  {
  }

  /** The code of any character. */
  lemma CodeCopies(w: Writer, c: char, num: string -> string)
    requires InText(w.p) && w.held == ""
    ensures Copies(w, XmlToolCalls.EscapeChar(c), w.p, num)
  {
    hide Copies, HexNumber;
    if c as int < 32 && c as int !in {8, 9, 10, 12, 13} {
      NumberCode(c);
      NumberCopies(w, XmlToolCalls.HEX[c as int / 16], XmlToolCalls.HEX[c as int % 16], num);
    } else if c == '"' || c == '\\' {
      ShortCopies(w, c, num);
    } else if c as int < 32 {
      var n := if c as int == 8 then 'b' else if c as int == 9 then 't' else if c as int == 10 then 'n' else if c as int == 12 then 'f' else 'r';
      ShortCopies(w, n, num);
    } else {
      PlainCopies(w, c, num);
    }
  }

  lemma {:induction false} TextCopies(w: Writer, s: string, num: string -> string)
    requires InText(w.p) && w.held == ""
    ensures Copies(w, XmlToolCalls.Escape(s), w.p, num)
    decreases |s|
  {
    hide Copies, XmlToolCalls.EscapeChar;
    if s == "" {
      NothingCopies(w, num);
    } else {
      var x := XmlToolCalls.EscapeChar(s[0]);
      CodeCopies(w, s[0], num);
      TextCopies(Writer(w.p, "", w.out + x), s[1..], num);
      CopiesBoth(w, x, w.p, XmlToolCalls.Escape(s[1..]), w.p, num);
    }
  }

  lemma NothingCopies(w: Writer, num: string -> string)
    requires w.p.Pda? && w.held == ""
    ensures Copies(w, "", w.p, num)
  {
    assert w.out + "" == w.out;
  }

  /** A quote opens a string where a value or a key is due, and closes it. */
  lemma QuoteCopies(w: Writer, num: string -> string)
    requires w.p.Pda? && w.held == ""
    ensures w.p.mode.Value? ==> Copies(w, "\"", Pda(InStr(false, Plain), w.p.stack), num)
    ensures w.p.mode.Key? ==> Copies(w, "\"", Pda(InStr(true, Plain), w.p.stack), num)
    ensures InText(w.p) ==> Copies(w, "\"", Pda(if w.p.mode.key then Colon else After, w.p.stack), num)
  {
    hide RunFrom, Write;
    Run1(w.p, '"');
    Write1(w, '"', num);
  }

  lemma StringCopies(w: Writer, s: string, num: string -> string)
    requires w.p.Pda? && w.held == "" && (w.p.mode.Value? || w.p.mode.Key?)
    ensures Copies(w, "\"" + XmlToolCalls.Escape(s) + "\"", Pda(if w.p.mode.Key? then Colon else After, w.p.stack), num)
  {
    hide Copies, XmlToolCalls.Escape;
    var p := Pda(InStr(w.p.mode.Key?, Plain), w.p.stack);
    QuoteCopies(w, num);
    var v := Writer(p, "", w.out + "\"");
    TextCopies(v, s, num);
    CopiesBoth(w, "\"", p, XmlToolCalls.Escape(s), p, num);
    QuoteCopies(Writer(p, "", w.out + ("\"" + XmlToolCalls.Escape(s))), num);
    CopiesBoth(w, "\"" + XmlToolCalls.Escape(s), p, "\"", Pda(if w.p.mode.Key? then Colon else After, w.p.stack), num);
  }

  lemma SignCopies(w: Writer, c: char, num: string -> string)
    requires w.p.Pda? && w.held == "" && w.p.stack == [Obj]
    ensures w.p.mode.Colon? && c == ':' ==> Copies(w, [c], Pda(Value(false), [Obj]), num)
    ensures w.p.mode.After? && c == ',' ==> Copies(w, [c], Pda(Key(false), [Obj]), num)
    ensures (w.p.mode.After? || w.p.mode == Key(true)) && c == '}' ==> Copies(w, [c], Pda(After, []), num)
  {
    hide RunFrom, Write;
    Run1(w.p, c);
    Write1(w, c, num);
    assert [Obj][..0] == [];
  }

  /** A member of the arguments whose value is a string. */
  lemma MemberCopies(w: Writer, a: XmlToolCalls.Arg, num: string -> string)
    requires w.p.Pda? && w.held == "" && w.p.stack == [Obj] && w.p.mode.Key? && a.value.Text?
    ensures Copies(w, XmlToolCalls.DumpArg(a), Pda(After, [Obj]), num)
  {
    hide Copies, XmlToolCalls.Escape;
    var k, v := "\"" + XmlToolCalls.Escape(a.key) + "\"", "\"" + XmlToolCalls.Escape(a.value.text) + "\"";
    StringCopies(w, a.key, num);
    SignCopies(Writer(Pda(Colon, [Obj]), "", w.out + k), ':', num);
    CopiesBoth(w, k, Pda(Colon, [Obj]), [':'], Pda(Value(false), [Obj]), num);
    StringCopies(Writer(Pda(Value(false), [Obj]), "", w.out + (k + [':'])), a.value.text, num);
    CopiesBoth(w, k + [':'], Pda(Value(false), [Obj]), v, Pda(After, [Obj]), num);
    assert XmlToolCalls.DumpArg(a) == k + [':'] + v;
  }

  lemma {:induction false} MoreCopies(w: Writer, args: seq<XmlToolCalls.Arg>, num: string -> string)
    requires w.p == Pda(After, [Obj]) && w.held == "" && XmlArguments.AllText(args)
    ensures Copies(w, XmlArguments.MoreMembers(args), w.p, num)
    decreases |args|
  {
    hide Copies, XmlToolCalls.DumpArg;
    if args == [] {
      NothingCopies(w, num);
    } else {
      var x, more := XmlToolCalls.DumpArg(args[0]), XmlArguments.MoreMembers(args[1..]);
      SignCopies(w, ',', num);
      MemberCopies(Writer(Pda(Key(false), [Obj]), "", w.out + [',']), args[0], num);
      CopiesBoth(w, [','], Pda(Key(false), [Obj]), x, w.p, num);
      MoreCopies(Writer(w.p, "", w.out + ([','] + x)), args[1..], num);
      CopiesBoth(w, [','] + x, w.p, more, w.p, num);
      assert "," + x + more == [','] + x + more;
    }
  }

  lemma OpenCopies(num: string -> string)
    ensures Copies(START, "{", Pda(Key(true), [Obj]), num)
  {
    hide RunFrom, Write;
    Run1(INIT, '{');
    Write1(START, '{', num);
    assert [] + [Obj] == [Obj] && "" + "{" == "{";
  }

  /** ARGUMENTS ARE JSON. The text of arguments that are strings is a document, and to read it and dump it gives that text. */
  lemma ArgumentsAreJson(args: seq<XmlToolCalls.Arg>, num: string -> string)
    requires XmlArguments.AllText(args)
    ensures Accepts(XmlToolCalls.Dump(args)) && Dumped(XmlToolCalls.Dump(args), num) == XmlToolCalls.Dump(args)
  {
    hide Copies, XmlToolCalls.DumpArg, XmlToolCalls.DumpMembers, XmlArguments.MoreMembers;
    var open := Pda(Key(true), [Obj]);
    OpenCopies(num);
    var text := XmlToolCalls.DumpMembers(args);
    if args == [] {
      NoMembers();
      SignCopies(Writer(open, "", START.out + "{"), '}', num);
      CopiesBoth(START, "{", open, ['}'], Pda(After, []), num);
      assert "{" + "" + "}" == "{" + ['}'];
    } else {
      var x, more := XmlToolCalls.DumpArg(args[0]), XmlArguments.MoreMembers(args[1..]);
      XmlArguments.MembersFromFront(args);
      MemberCopies(Writer(open, "", START.out + "{"), args[0], num);
      CopiesBoth(START, "{", open, x, Pda(After, [Obj]), num);
      MoreCopies(Writer(Pda(After, [Obj]), "", START.out + ("{" + x)), args[1..], num);
      CopiesBoth(START, "{" + x, Pda(After, [Obj]), more, Pda(After, [Obj]), num);
      SignCopies(Writer(Pda(After, [Obj]), "", START.out + ("{" + x + more)), '}', num);
      CopiesBoth(START, "{" + x + more, Pda(After, [Obj]), ['}'], Pda(After, []), num);
      assert "{" + (x + more) + "}" == "{" + x + more + ['}'];
    }
    WholeCopies(XmlToolCalls.Dump(args), num);
  }

  lemma NoMembers()
    ensures XmlToolCalls.DumpMembers([]) == ""
  {
  }

  lemma WholeCopies(text: string, num: string -> string)
    requires Copies(START, text, Pda(After, []), num)
    ensures Accepts(text) && Dumped(text, num) == text
  {
    hide RunFrom, Write;
    assert "" + text == text;
  }
}
