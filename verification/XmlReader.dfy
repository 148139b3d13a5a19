/** The tool-call parser with the JSON reader of the message parser: a value is what `common_json_parse` makes of the text
    from there on, and its dump is that of the library. The texts are UTF-8, cut between characters. */
module XmlReader {
  import opened Chars
  import opened Wrappers
  import opened Strings
  import opened ChatParser
  import opened XmlToolCalls
  import opened XmlRoundTrip
  import opened XmlAborts
  import opened XmlForms
  import JsonAcceptor
  import JsonSax
  import JsonHealer
  import JsonHealing
  import JsonDump
  import JsonMarkers

  /** What the reader is set up with: the healing marker, and how the library formats numbers. */
  datatype Setup = Setup(marker: string, num: string -> string)

  /** `is_string`, `is_object` or `is_array`. */
  predicate Structured(text: string)
    decreases |text|
  {
    text != "" && if JsonAcceptor.IsWs(text[0]) then Structured(text[1..]) else text[0] in {'"', '{', '['}
  }

  /** `try_consume_json`: in a whole text, a value that had to be healed is an exception, which is caught. */
  function TryJson(input: string, partial: bool, setup: Setup, pos: nat): (r: JsonTry) {
    if pos > |input| then NoJson
    else
      match JsonHealer.Parse(input[pos..], setup.marker)
      case Refused => NoJson
      case GivesUp => NoJson
      case ParseError => JsonFails
      case Parsed(text, end, marker, dumpMarker) =>
        if marker != "" && !partial then NoJson
        else Json(JsonDump.Dumped(text, setup.num), Structured(text), pos + end, marker != "", dumpMarker)
  }

  function Reader(input: string, partial: bool, kimi: bool, setup: Setup): Env {
    Env(input, partial, kimi, (pos: nat) => TryJson(input, partial, setup, pos))
  }

  lemma ParsedEnd(t: string, marker: string)
    ensures var r := JsonHealer.Parse(t, marker); r.Parsed? ==> 0 < r.end <= |t|
  {
    hide JsonAcceptor.Step, JsonHealer.Heal, JsonHealer.HealTop, JsonHealer.Text, JsonSax.ClosingOf, JsonSax.SaxStack, JsonSax.ErrorAt,
      JsonSax.Reach;
    JsonMarkers.KeptIs(t);
    if JsonSax.Reach(JsonAcceptor.INIT, t).0 == 0 { NothingReached(t); }
  }

  lemma NothingReached(t: string)
    requires JsonSax.Reach(JsonAcceptor.INIT, t).0 == 0
    ensures JsonSax.Reach(JsonAcceptor.INIT, t).1 == JsonAcceptor.INIT
  {
  }

  lemma ReaderIsValid(input: string, partial: bool, kimi: bool, setup: Setup)
    ensures Reader(input, partial, kimi, setup).Valid()
  {
    hide JsonHealer.Parse, Structured, JsonDump.Dumped;
    forall p: nat | p <= |input| ensures TryJson(input, partial, setup, p).Json? ==> p < TryJson(input, partial, setup, p).end <= |input| {
      ParsedEnd(input[p..], setup.marker);
    }
  }

  // ------------------------------------------------------------------------------ the lost marker

  /** Where the marker stands it stands once. */
  ghost predicate Once(text: string, marker: string) {
    forall i, j :: OccursAt(text, marker, i) && OccursAt(text, marker, j) ==> i == j
  }

  /** What the reader takes of a text ends in an escape that is swallowed. */
  ghost predicate SwallowedAt(input: string, pos: nat)
    requires pos <= |input|
  {
    JsonMarkers.Swallowed(JsonMarkers.Kept(input[pos..]))
  }

  lemma TailOccurs(text: string, pad: string, marker: string, j: int)
    requires OccursAt(text, pad + marker, j)
    ensures OccursAt(text, marker, j + |pad|) && (pad != "" ==> text[j + |pad| - 1] == pad[|pad| - 1])
  {
    var t := text[j..j + |pad + marker|];
    assert t[|pad|..] == marker == text[j + |pad|..j + |pad| + |marker|];
    assert pad != "" ==> t[|pad| - 1] == text[j + |pad| - 1];
  }

  /** The marker stands behind `front`, and nowhere else; so the padding does not stand before it. */
  lemma GoneFromText(a: string, dump: string, b: string, front: string, pad: string, marker: string)
    requires front + marker <= dump && JsonMarkers.Lost(front, pad) && Once(a + dump + b, marker)
    ensures !Contains(a + dump + b, pad + marker)
  {
    var text := a + dump + b;
    var i := |a| + |front|;
    assert dump[|front|..|front| + |marker|] == marker by { assert dump[..|front + marker|] == front + marker; }
    assert text[i..i + |marker|] == marker by { assert text[i..i + |marker|] == dump[|front|..|front| + |marker|]; }
    assert OccursAt(text, marker, i);
    assert text[i - 1] == dump[|front| - 1] == front[|front| - 1];
    forall j ensures !OccursAt(text, pad + marker, j) {
      if OccursAt(text, pad + marker, j) { Misplaced(text, pad, marker, i, j); }
    }
  }

  lemma Misplaced(text: string, pad: string, marker: string, i: int, j: int)
    requires Once(text, marker) && OccursAt(text, marker, i) && 0 < i && pad != ""
    requires text[i - 1] != pad[|pad| - 1]
    ensures !OccursAt(text, pad + marker, j)
  {
    if OccursAt(text, pad + marker, j) { TailOccurs(text, pad, marker, j); }
  }

  lemma GoneIsLost(args: seq<Arg>, key: string, dump: string, dumpMarker: string, marker: string)
    requires JsonMarkers.Gone(dump, dumpMarker, marker) && Once(Dump(SetArg(args, key, Raw(dump))), marker)
    ensures !Contains(Dump(SetArg(args, key, Raw(dump))), dumpMarker)
  {
    hide Dump, SetArg, Contains, Once, JsonMarkers.Lost;
    var a, b := DumpAround(args, key, dump);
    JsonMarkers.SplitMarker(dumpMarker, marker);
    var pad := dumpMarker[..|dumpMarker| - |marker|];
    var front :| front + marker <= dump && JsonMarkers.Lost(front, pad);
    GoneFromText(a, dump, b, front, pad, marker);
  }

  /** What the reader says of the marker of a healed value. */
  lemma ReaderMarker(input: string, setup: Setup, pos: nat)
    requires JsonMarkers.DigitMarker(setup.marker) && pos <= |input|
    ensures var v := TryJson(input, true, setup, pos);
            v.Json? && v.healed ==>
              if SwallowedAt(input, pos) then JsonMarkers.Gone(v.dump, v.dumpMarker, setup.marker) else Contains(v.dump, v.dumpMarker)
    ensures var v := TryJson(input, true, setup, pos); v.Json? && !v.healed ==> v.dumpMarker == ""
  {
    hide JsonDump.Dumped, Structured, Contains, JsonMarkers.Gone, JsonMarkers.Swallowed, JsonMarkers.Kept;
    ParseMarkers(input[pos..], setup.marker);
    hide JsonHealer.Parse;
    JsonMarkers.HealedMarker(input[pos..], setup.marker, setup.num);
  }

  lemma ParseMarkers(t: string, marker: string)
    requires marker != ""
    ensures var r := JsonHealer.Parse(t, marker);
            r.Parsed? ==>
              if r.marker == "" then r.dumpMarker == "" && r.end <= |t| && r.text == t[..r.end] && JsonAcceptor.Accepts(r.text)
              else r.marker == marker && r.end == JsonSax.ErrorAt(t)
  {
    hide JsonHealer.Heal, JsonHealer.HealTop, JsonHealer.Text, JsonSax.ClosingOf, JsonSax.SaxStack, JsonSax.ErrorAt, JsonSax.Reach,
      JsonAcceptor.Accepts;
    assert t[..|t|] == t;
  }

  /** THE LOST MARKER, EXACTLY. A structured value at the end of a text that is cut fails the assertion if and only if the
      cut swallows an escape; provided the random digits of the marker are not in the arguments by chance. */
  lemma MarkerLostExactly(input: string, setup: Setup, form: Form, name: string, args: seq<Arg>, key: string, pos: nat)
    requires JsonMarkers.DigitMarker(setup.marker) && pos <= |input|
    ensures var v := TryJson(input, true, setup, pos);
            v.Json? ==>
              && (JsonToTheEnd(form, name, args, key, v) == Abort ==> SwallowedAt(input, pos))
              && (Once(Dump(SetArg(args, key, Raw(v.dump))), setup.marker) ==>
                    (JsonToTheEnd(form, name, args, key, v) == Abort <==>
                       form.rawArgval == Some(false) && v.structured && v.healed && SwallowedAt(input, pos)))
  {
    hide TryJson, Dump, SetArg, JsonToTheEnd, Contains, SwallowedAt, JsonMarkers.Gone, Once;
    var v := TryJson(input, true, setup, pos);
    ReaderMarker(input, setup, pos);
    if v.Json? {
      MarkerLost(form, name, args, key, v);
      if v.healed {
        if SwallowedAt(input, pos) {
          GoneIsNamed(v.dump, v.dumpMarker, setup.marker);
          if Once(Dump(SetArg(args, key, Raw(v.dump))), setup.marker) { GoneIsLost(args, key, v.dump, v.dumpMarker, setup.marker); }
        } else {
          StandsInArguments(args, key, v.dump, v.dumpMarker);
        }
      }
    }
  }

  lemma GoneIsNamed(dump: string, dumpMarker: string, marker: string)
    requires JsonMarkers.Gone(dump, dumpMarker, marker) && marker != ""
    ensures dumpMarker != ""
  {
  }

  lemma StandsInArguments(args: seq<Arg>, key: string, dump: string, marker: string)
    requires Contains(dump, marker)
    ensures Contains(Dump(SetArg(args, key, Raw(dump))), marker)
  {
    hide Contains, Dump, SetArg;
    var a, b := DumpAround(args, key, dump);
    ContainsWithin(a, dump, b, marker);
  }

  // -------------------------------------------------------------------------------- the whole parser

  /** But for blanks the text ends in an escape that is not complete, or with the first half of a surrogate pair; escapes
      of zeros that come back are no matter. */
  ghost predicate EscapeAtEnd(s: string) {
    var t := s[..TrailingFrom(s, 0, |s|)];
    match JsonHealer.UnicodeTail(t)
    case Some(m) =>
      if |m| < 6 then !JsonMarkers.ZeroDigits(m[2..]) || JsonHealing.LooksPaired(t, m[2..]) else JsonHealer.IsHighSurrogate(m)
    case None =>
      && EndsWith(t, "\\")
      && var u := JsonHealer.UnicodeTail(t[..|t| - 1]); u.Some? && JsonHealer.IsHighSurrogate(u.value)
  }

  lemma SuffixEnds(t: string, pos: nat, x: string)
    requires pos <= |t| && EndsWith(t[pos..], x)
    ensures EndsWith(t, x)
  {
    assert t[pos..][|t| - pos - |x|..] == t[|t| - |x|..];
  }

  lemma TrailingIs(s: string, n: nat)
    requires 0 < n <= |s| && !IsSpace(s[n - 1]) && SkipSpaces(s, n) == |s|
    ensures TrailingFrom(s, 0, |s|) == n
  {
    hide SkipSpaces, TrailingFrom, IsSpace;
    SkipSpacesSpec(s, n);
    TrailingFromSpec(s, 0, |s|);
    var r := TrailingFrom(s, 0, |s|);
    assert r > 0 ==> !IsSpace(s[r - 1]);
  }

  /** How a text ends that stops in a swallowed escape. */
  lemma SwallowedEnds(t: string, pos: nat)
    requires pos <= |t| && JsonMarkers.Swallowed(t[pos..])
    ensures t != "" && !IsSpace(t[|t| - 1])
    ensures TrailingFrom(t, 0, |t|) == |t| ==> EscapeAtEnd(t)
  {
    hide JsonAcceptor.RunFrom, JsonHealing.PseudoSurrogate, JsonHealer.UnicodeTail, EndsWith, TrailingFrom, JsonMarkers.ZeroDigits,
      JsonHealing.LooksPaired, JsonHealing.StringTail, JsonHealing.TextInv, IsHex, JsonHealer.IsHighSurrogate;
    var s := t[pos..];
    var p := JsonAcceptor.Run(s);
    assert JsonHealing.StringTail(s, p.mode.st) && (p.mode.st.Hex? ==> JsonAcceptor.GoodHex(p.mode.st.digits, p.mode.st.low)) by { InString(s); }
    assert t[..|t|] == t;
    match p.mode.st
    case Hex(d, low) =>
      HexEnds(t, pos, d, low);
      if JsonHealing.LooksPaired(s, d) { PairedInWhole(t, pos, d); }
    case High => HighEnds(t, pos);
    case HighEsc => HighEscEnds(t, pos);
  }

  lemma InString(s: string)
    requires var p := JsonAcceptor.Run(s); p.Pda? && p.mode.InStr?
    ensures var st := JsonAcceptor.Run(s).mode.st;
            JsonHealing.StringTail(s, st) && (st.Hex? ==> JsonAcceptor.GoodHex(st.digits, st.low))
  {
    hide JsonAcceptor.RunFrom, JsonHealing.StringTail;
    JsonHealing.StartWellFormed();
    JsonAcceptor.RunWellFormed(JsonAcceptor.INIT, s);
    JsonHealing.TextInvHolds(s);
  }

  lemma LastOf(t: string, x: string)
    requires EndsWith(t, x) && x != ""
    ensures t != "" && t[|t| - 1] == x[|x| - 1]
  {
    assert t[|t| - |x|..][|x| - 1] == t[|t| - 1];
  }

  lemma HexEnds(t: string, pos: nat, d: string, low: bool)
    requires pos <= |t| && JsonHealing.StringTail(t[pos..], JsonAcceptor.Hex(d, low)) && JsonAcceptor.GoodHex(d, low)
    ensures t != "" && !IsSpace(t[|t| - 1]) && JsonHealer.UnicodeTail(t) == Some("\\u" + d) && ("\\u" + d)[2..] == d
    ensures low ==> JsonHealing.LooksPaired(t, d)
  {
    hide JsonHealer.UnicodeTail, EndsWith, JsonHealing.LooksPaired;
    SuffixEnds(t, pos, "\\u" + d);
    JsonHealing.TailIs(t, d);
    LastOf(t, "\\u" + d);
    assert d != "" ==> ("\\u" + d)[|d| + 1] == d[|d| - 1];
    if low {
      var h :| JsonHealing.HighEscape(h) && EndsWith(t[pos..], "\\u" + h + "\\u" + d);
      SuffixEnds(t, pos, "\\u" + h + "\\u" + d);
      assert JsonHealing.StringTail(t, JsonAcceptor.Hex(d, true));
      JsonHealing.PairedWhenLow(t, d);
    }
  }

  /** What the expression matches is a backslash, the letter and digits. */
  lemma TailShape(s: string)
    ensures var m := JsonHealer.UnicodeTail(s);
            m.Some? ==> var d := m.value[2..];
                        m.value == "\\u" + d && |d| <= 4 && forall i :: 0 <= i < |d| ==> IsHex(d[i])
  {
    hide IsHex, JsonHealer.UnicodeTailOf;
    TailOfShape(s, 4);
    TailOfShape(s, 3);
    TailOfShape(s, 2);
    TailOfShape(s, 1);
    TailOfShape(s, 0);
  }

  lemma TailOfShape(s: string, k: nat)
    ensures JsonHealer.UnicodeTailOf(s, k) ==>
              var m := s[|s| - 2 - k..];
              |m| == 2 + k && m == "\\u" + m[2..] && forall i :: 0 <= i < k ==> IsHex(m[2..][i])
  {
    hide IsHex;
    if JsonHealer.UnicodeTailOf(s, k) {
      var m := s[|s| - 2 - k..];
      assert m[0] == s[|s| - 2 - k] && m[1] == s[|s| - 1 - k];
      assert forall i :: 0 <= i < k ==> m[2..][i] == s[|s| - k + i];
    }
  }

  lemma PairedInWhole(t: string, pos: nat, d: string)
    requires pos <= |t| && JsonHealing.LooksPaired(t[pos..], d)
    ensures JsonHealing.LooksPaired(t, d)
  {
    hide JsonHealer.UnicodeTail, EndsWith, IsHex;
    var s := t[pos..];
    var x := s[..|s| - 2 - |d|];
    var y := t[..|t| - 2 - |d|];
    assert x == y[pos..];
    TailShape(x);
    var m := JsonHealer.UnicodeTail(x).value;
    SuffixEnds(y, pos, m);
    JsonHealing.TailIs(y, m[2..]);
  }

  lemma HighEnds(t: string, pos: nat)
    requires pos <= |t| && JsonHealing.StringTail(t[pos..], JsonAcceptor.High)
    ensures t != "" && !IsSpace(t[|t| - 1])
    ensures var m := JsonHealer.UnicodeTail(t); m.Some? && |m.value| == 6 && JsonHealer.IsHighSurrogate(m.value)
  {
    hide JsonHealer.UnicodeTail, EndsWith;
    var h :| JsonHealing.HighEscape(h) && EndsWith(t[pos..], "\\u" + h);
    SuffixEnds(t, pos, "\\u" + h);
    JsonHealing.TailIs(t, h);
    LastOf(t, "\\u" + h);
    var m := "\\u" + h;
    assert m[2] == h[0] && m[3] == h[1] && m[5] == h[3];
  }

  lemma HighEscEnds(t: string, pos: nat)
    requires pos <= |t| && JsonHealing.StringTail(t[pos..], JsonAcceptor.HighEsc)
    ensures t != "" && !IsSpace(t[|t| - 1]) && EndsWith(t, "\\") && JsonHealer.UnicodeTail(t).None?
    ensures var u := JsonHealer.UnicodeTail(t[..|t| - 1]); u.Some? && JsonHealer.IsHighSurrogate(u.value)
  {
    hide JsonHealer.UnicodeTail, EndsWith;
    var h :| JsonHealing.HighEscape(h) && EndsWith(t[pos..], "\\u" + h + "\\");
    SuffixEnds(t, pos, "\\u" + h + "\\");
    JsonHealing.Before(t, "\\u" + h, "\\");
    JsonHealing.NoTail(t);
    JsonHealing.TailIs(t[..|t| - 1], h);
    var m := "\\u" + h;
    assert m[2] == h[0] && m[3] == h[1];
  }

  /** A value that reaches the end of the text loses its marker only in such an escape. */
  lemma LostAtEnd(input: string, partial: bool, kimi: bool, setup: Setup, pos: nat)
    requires Reader(input, partial, kimi, setup).Valid()
    requires JsonMarkers.DigitMarker(setup.marker) && pos <= |input| && LosesMarker(Reader(input, partial, kimi, setup), pos)
    ensures partial && EscapeAtEnd(input)
  {
    hide JsonHealer.Parse, JsonDump.Dumped, Structured, EscapeAtEnd, JsonMarkers.Swallowed, SkipSpaces, Contains, JsonMarkers.Gone, JsonMarkers.Kept;
    var v := TryJson(input, partial, setup, pos);
    var rest := input[pos..];
    ParseMarkers(rest, setup.marker);
    NothingContained(v.dump);
    ReaderMarker(input, setup, pos);
    assert SwallowedAt(input, pos);
    var e := v.end;
    assert JsonMarkers.Kept(rest) == input[..e][pos..] by { KeptPart(input, pos, e); }
    SwallowedEnds(input[..e], pos);
    TrailingIs(input, e);
    TrailingIs(input[..e], e) by { assert SkipSpaces(input[..e], e) == e by { SkipAtEnd(input[..e]); } }
    EscapeCut(input, e);
  }

  lemma NothingContained(s: string)
    ensures Contains(s, "")
  {
    assert OccursAt(s, "", 0);
  }

  lemma KeptPart(input: string, pos: nat, e: nat)
    requires pos <= |input| && e == pos + JsonSax.ErrorAt(input[pos..])
    ensures e <= |input| && JsonMarkers.Kept(input[pos..]) == input[..e][pos..]
  {
    hide JsonSax.ErrorAt;
  }

  lemma EscapeCut(s: string, e: nat)
    requires e <= |s| && TrailingFrom(s, 0, |s|) == e && TrailingFrom(s[..e], 0, e) == e && EscapeAtEnd(s[..e])
    ensures EscapeAtEnd(s)
  {
    hide TrailingFrom, JsonHealer.UnicodeTail, JsonHealing.LooksPaired, EndsWith;
    assert s[..e][..e] == s[..e];
  }

  /** WHEN THE PARSER FAILS. With a separator that ends with an ASCII character, as in all forms of the repository, it fails
      only where a name ends with an empty optional, or when the values are JSON and the text that is cut ends in an
      escape. */
  lemma AbortsExplained(input: string, partial: bool, kimi: bool, setup: Setup, form: Form, start: nat, calls: seq<ToolCall>)
    requires JsonMarkers.DigitMarker(setup.marker) && form.Valid() && start <= |input|
    requires form.rawArgval == Some(true) || AsciiEnd(Separator(form))
    ensures var env := Reader(input, partial, kimi, setup);
            var escape := form.rawArgval == Some(false) && partial && EscapeAtEnd(input);
            && env.Valid()
            && (TryConsume(env, form, start, calls).Aborts? ==>
                  escape || (form.lastToolEnd.Some? && exists at: nat :: at <= |input| && FindName(env, form, at) == NoName(Abort)))
  {
    hide TryJson, EscapeAtEnd, LosesMarker, TryConsume, FindName, AsciiEnd;
    ReaderIsValid(input, partial, kimi, setup);
    var env := Reader(input, partial, kimi, setup);
    if !(form.rawArgval == Some(false) && partial && EscapeAtEnd(input)) {
      forall p: nat | form.rawArgval == Some(false) && p <= |input| ensures !LosesMarker(env, p) {
        if LosesMarker(env, p) { LostAtEnd(input, partial, kimi, setup, p); }
      }
      AbortsOnlyAtName(env, form, start, calls);
    }
  }

  /** The forms of the repository. */
  predicate Known(form: Form) {
    form == MINIMAX || form == QWEN3_CODER || form == SEED_OSS || form == GLM_4_5 || form == KIMI_K2 || form == APRIEL || form == MIMO
  }

  /** None of them fails at the view of a value. */
  lemma KnownSeparators(form: Form)
    requires Known(form)
    ensures form.Valid() && AsciiEnd(Separator(form)) && form.rawArgval != Some(true)
  {
  }

  // --------------------------------------------------------------------------- a text that fails

  /** A list whose first string begins with an escaped letter that is cut. */
  const CUT_LIST := "[\"" + "\\u00e"

  const IN_LIST := JsonAcceptor.Pda(JsonAcceptor.InStr(false, JsonAcceptor.Plain), [JsonAcceptor.Arr])

  lemma ListRead(num: string -> string)
    ensures JsonAcceptor.Run("[\"") == IN_LIST && JsonDump.Write(JsonDump.START, "[\"", num) == JsonDump.Writer(IN_LIST, "", "[\"")
    ensures JsonAcceptor.Run(CUT_LIST) == JsonAcceptor.Pda(JsonAcceptor.InStr(false, JsonAcceptor.Hex("00e", false)), [JsonAcceptor.Arr])
  {
    hide JsonAcceptor.RunFrom;
    JsonAcceptor.Run2(JsonAcceptor.INIT, '[', '"');
    assert [] + [JsonAcceptor.Arr] == [JsonAcceptor.Arr];
    JsonDump.Write2(JsonDump.START, '[', '"', num);
    JsonAcceptor.RunConcat(JsonAcceptor.INIT, "[\"", "\\u00e");
    EscapeRead();
  }

  lemma EscapeRead()
    ensures JsonAcceptor.RunFrom(IN_LIST, "\\u00e") ==
            JsonAcceptor.Pda(JsonAcceptor.InStr(false, JsonAcceptor.Hex("00e", false)), [JsonAcceptor.Arr])
  {
    hide JsonAcceptor.RunFrom, JsonAcceptor.Step;
    assert "\\u00e" == "\\u" + "00e";
    JsonAcceptor.RunConcat(IN_LIST, "\\u", "00e");
    EscapeOpens();
    ThreeDigits();
  }

  lemma EscapeOpens()
    ensures JsonAcceptor.RunFrom(IN_LIST, "\\u") == JsonAcceptor.Pda(JsonAcceptor.InStr(false, JsonAcceptor.Hex("", false)), [JsonAcceptor.Arr])
  {
    hide JsonAcceptor.RunFrom;
    JsonAcceptor.Run2(IN_LIST, '\\', 'u');
  }

  lemma ThreeDigits()
    ensures JsonAcceptor.RunFrom(JsonAcceptor.Pda(JsonAcceptor.InStr(false, JsonAcceptor.Hex("", false)), [JsonAcceptor.Arr]), "00e") ==
            JsonAcceptor.Pda(JsonAcceptor.InStr(false, JsonAcceptor.Hex("00e", false)), [JsonAcceptor.Arr])
  {
    hide JsonAcceptor.RunFrom;
    JsonAcceptor.Run3(JsonAcceptor.Pda(JsonAcceptor.InStr(false, JsonAcceptor.Hex("", false)), [JsonAcceptor.Arr]), '0', '0', 'e');
    assert "" + ['0'] == "0" && "0" + ['0'] == "00" && "00" + ['e'] == "00e";
  }

  /** It is swallowed: a zero is put behind it. */
  lemma ListIsSwallowed()
    ensures JsonMarkers.Swallowed(CUT_LIST) && JsonHealer.Padding(CUT_LIST) == "0"
    ensures JsonHealing.CutInside(CUT_LIST, JsonAcceptor.Run(CUT_LIST), JsonHealing.TrackOf(CUT_LIST)) && !JsonHealing.PseudoSurrogate(CUT_LIST)
  {
    hide JsonAcceptor.RunFrom, JsonHealer.UnicodeTail, JsonHealer.Padding, EndsWith, JsonHealing.LooksPaired, JsonHealing.TextInv;
    ListRead(s => s);
    JsonHealing.CutIsInside(CUT_LIST);
    InString(CUT_LIST);
    assert EndsWith(CUT_LIST, "\\u" + "00e") by { assert CUT_LIST[2..] == "\\u" + "00e"; assert |CUT_LIST| == 7; EndsAt(CUT_LIST, 2); }
    JsonHealing.TailIs(CUT_LIST, "00e");
    JsonHealing.PseudoIs(CUT_LIST, "00e");
    JsonHealing.PaddingIs(CUT_LIST, "00e");
    assert "00e"[2] == 'e' && "00e"[1] == '0';
  }

  lemma EndsAt(s: string, i: nat)
    requires i <= |s|
    ensures EndsWith(s, s[i..])
  {
  }

  lemma ArrayTail(s: string, last: char, closing: string, seed: string)
    requires s != ""
    ensures var ch := JsonHealer.HealArray(s, last, closing, seed); ch.Complete? ==> ch.tail == "\""
  {
    hide JsonAcceptor.Accepts, JsonHealer.Padding, JsonHealer.FindLastOf, JsonHealer.WasMaybeNumber;
  }

  lemma ListHealed(marker: string)
    requires JsonMarkers.DigitMarker(marker)
    ensures JsonHealer.Parse(CUT_LIST, marker) ==
            JsonHealer.Parsed(CUT_LIST + ("0" + marker) + "\"" + "]", |CUT_LIST|, marker, "0" + marker)
  {
    hide JsonAcceptor.RunFrom, JsonAcceptor.Accepts, JsonHealer.HealArray, JsonHealer.Padding, JsonHealing.PseudoSurrogate, JsonSax.SaxStack,
      JsonSax.ClosingOf, JsonSax.Reach, JsonMarkers.Swallowed, JsonHealing.CutInside, JsonHealing.LosesAtMostScalar, EndsWith;
    var s := CUT_LIST;
    var p := JsonAcceptor.Run(s);
    ListRead(c => c);
    ListIsSwallowed();
    JsonMarkers.PlainDigits(marker);
    JsonHealing.TopOfSax(p);
    JsonHealing.HealHeals(s, p, marker);
    JsonSax.ReachAll(JsonAcceptor.INIT, s);
    JsonHealing.NotADocument(s, p);
    assert s[..|s|] == s;
    var els := JsonSax.SaxStack(JsonSax.Finish(p));
    var ch := JsonHealer.Heal(s, els, marker);
    JsonMarkers.SplitMarker(ch.dump, marker);
    ArrayTail(s, s[JsonHealer.LastNonWs(s).value], "]", marker);
    OneBracket();
  }

  lemma OneBracket()
    ensures JsonAcceptor.Closing([JsonAcceptor.Arr]) == "]"
  {
    assert [JsonAcceptor.Arr][..0] == [];
    assert JsonAcceptor.Closing([]) == "";
    assert "]" + "" == "]";
  }

  /** What is written of the healed list. */
  lemma ListDumped(marker: string, num: string -> string)
    requires JsonMarkers.DigitMarker(marker)
    ensures JsonDump.Dumped(CUT_LIST + ("0" + marker) + "\"" + "]", num) == "[\"" + JsonDump.CodeOut(0xE0) + marker + "\"]"
  {
    hide JsonAcceptor.RunFrom, JsonDump.Write, JsonDump.CodeOut, JsonDump.HexNumber;
    var rest := marker + "\"" + "]";
    assert CUT_LIST + ("0" + marker) + "\"" + "]" == "[\"" + ("\\u00e0" + rest);
    ListRead(num);
    var w := JsonDump.Writer(IN_LIST, "", "[\"");
    JsonDump.WriteConcat(JsonDump.START, "[\"", "\\u00e0" + rest, num);
    LetterWritten(w, num);
    JsonDump.WriteConcat(w, "\\u00e0", rest, num);
    var v := JsonDump.Write(w, "\\u00e0", num);
    ListEnds(v, marker, num);
  }

  lemma LetterWritten(w: JsonDump.Writer, num: string -> string)
    requires w.p == IN_LIST
    ensures JsonAcceptor.RunFrom(w.p, "\\u00e0") == IN_LIST
    ensures var v := JsonDump.Write(w, "\\u00e0", num); v.p == IN_LIST && v.out == w.out + JsonDump.CodeOut(0xE0)
  {
    hide JsonAcceptor.RunFrom, JsonDump.Write, JsonDump.CodeOut, JsonDump.HexNumber, JsonDump.Feed, JsonAcceptor.Step;
    assert "\\u00e0" == "\\u" + "00e0";
    EscapeBegins(w, num);
    var x := JsonDump.Write(w, "\\u", num);
    JsonAcceptor.RunConcat(w.p, "\\u", "00e0");
    JsonDump.WriteConcat(w, "\\u", "00e0", num);
    LetterEnds(x, num);
  }

  lemma EscapeBegins(w: JsonDump.Writer, num: string -> string)
    requires w.p == IN_LIST
    ensures var x := JsonDump.Write(w, "\\u", num);
            && x.p == JsonAcceptor.Pda(JsonAcceptor.InStr(false, JsonAcceptor.Hex("", false)), [JsonAcceptor.Arr])
            && x.p == JsonAcceptor.RunFrom(w.p, "\\u") && x.out == w.out
  {
    hide JsonAcceptor.RunFrom, JsonDump.Write;
    JsonAcceptor.Run2(w.p, '\\', 'u');
    JsonDump.Write2(w, '\\', 'u', num);
  }

  lemma LetterEnds(x: JsonDump.Writer, num: string -> string)
    requires x.p == JsonAcceptor.Pda(JsonAcceptor.InStr(false, JsonAcceptor.Hex("", false)), [JsonAcceptor.Arr])
    ensures JsonAcceptor.RunFrom(x.p, "00e0") == IN_LIST
    ensures var v := JsonDump.Write(x, "00e0", num); v.p == IN_LIST && v.out == x.out + JsonDump.CodeOut(0xE0)
  {
    hide JsonAcceptor.RunFrom, JsonDump.Write, JsonDump.CodeOut, JsonDump.HexNumber;
    FourDigits(x.p);
    assert "" + "00e0" == "00e0";
    JsonMarkers.DigitsWrite(x, "", false, "00e0", num);
    LetterNumber();
    JsonDump.WriteRuns(x, "00e0", num);
  }

  lemma FourDigits(p: JsonAcceptor.Pda)
    requires p == JsonAcceptor.Pda(JsonAcceptor.InStr(false, JsonAcceptor.Hex("", false)), [JsonAcceptor.Arr])
    ensures JsonAcceptor.RunFrom(p, "00e0") == IN_LIST
  {
    hide JsonAcceptor.RunFrom;
    JsonAcceptor.Run4(p, '0', '0', 'e', '0');
    assert "" + ['0'] == "0" && "0" + ['0'] == "00" && "00" + ['e'] == "00e";
  }

  lemma LetterNumber()
    ensures JsonDump.HexNumber("00e0") == 0xE0 && !JsonAcceptor.HighPair("00e0"[0], "00e0"[1])
  {
    hide JsonDump.HexNumber;
    assert "00e0"[0] == '0' && "00e0"[1] == '0' && "00e0"[2] == 'e' && "00e0"[3] == '0';
    JsonMarkers.HexOfFour("00e0");
  }

  lemma ListEnds(w: JsonDump.Writer, marker: string, num: string -> string)
    requires w.p == IN_LIST && JsonMarkers.DigitMarker(marker)
    ensures var v := JsonDump.Write(w, marker + "\"" + "]", num);
            v.p == JsonAcceptor.Pda(JsonAcceptor.After, []) && v.out == w.out + marker + "\"]"
  {
    hide JsonAcceptor.RunFrom, JsonDump.Write;
    JsonMarkers.PlainDigits(marker);
    JsonMarkers.MarkerWritten(w, marker, num);
    JsonHealing.PlainRuns(w.p, marker);
    assert marker + "\"" + "]" == marker + "\"]";
    JsonDump.WriteConcat(w, marker, "\"]", num);
    JsonDump.Write2(JsonDump.Write(w, marker, num), '"', ']', num);
  }

  // ------------------------------------------------------------------ digits that stand alone

  predicate NoDigits(s: string) {
    forall i :: 0 <= i < |s| ==> !IsDigit(s[i])
  }

  /** A marker of digits between texts without digits stands there once. */
  lemma OnceAmongDigits(a: string, marker: string, b: string)
    requires JsonMarkers.DigitMarker(marker) && NoDigits(a) && NoDigits(b)
    ensures Once(a + marker + b, marker)
  {
    hide IsDigit;
    var text := a + marker + b;
    forall i | OccursAt(text, marker, i) ensures i == |a| {
      DigitsAt(text, marker, i);
      DigitBetween(a, marker, b, i);
      DigitBetween(a, marker, b, i + |marker| - 1);
    }
  }

  lemma DigitBetween(a: string, m: string, b: string, i: nat)
    requires NoDigits(a) && NoDigits(b) && i < |a + m + b| && IsDigit((a + m + b)[i])
    ensures |a| <= i < |a| + |m|
  {
    hide IsDigit;
    IndexParts(a, m, b, i);
  }

  lemma IndexParts(a: string, m: string, b: string, i: nat)
    requires i < |a + m + b|
    ensures (a + m + b)[i] == if i < |a| then a[i] else if i < |a| + |m| then m[i - |a|] else b[i - |a| - |m|]
  {
  }

  lemma DigitsAt(text: string, marker: string, i: int)
    requires OccursAt(text, marker, i) && JsonMarkers.DigitMarker(marker)
    ensures 0 <= i && i + |marker| <= |text| && IsDigit(text[i]) && IsDigit(text[i + |marker| - 1])
  {
    var t := text[i..i + |marker|];
    assert text[i] == t[0] == marker[0] && text[i + |marker| - 1] == t[|marker| - 1] == marker[|marker| - 1];
  }

  lemma ListMarkerLost(setup: Setup, form: Form, name: string, input: string, pos: nat)
    requires JsonMarkers.DigitMarker(setup.marker) && form.rawArgval == Some(false) && pos <= |input| && input[pos..] == CUT_LIST
    ensures var v := TryJson(input, true, setup, pos);
            v.Json? && v.end == |input| && JsonToTheEnd(form, name, [], "a", v) == Abort
  {
    hide JsonHealer.Parse, JsonDump.Dumped, JsonDump.CodeOut, JsonToTheEnd, JsonMarkers.Swallowed, JsonMarkers.Kept, Dump, Once, JsonSax.Reach;
    var m := setup.marker;
    ListHealed(m);
    ListDumped(m, setup.num);
    ListRead(setup.num);
    JsonSax.ReachAll(JsonAcceptor.INIT, CUT_LIST);
    KeptWhole();
    ListIsSwallowed();
    var text := CUT_LIST + ("0" + m) + "\"" + "]";
    assert text[0] == '[';
    ListArguments(m);
    MarkerLostExactly(input, setup, form, name, [], "a", pos);
  }

  lemma KeptWhole()
    requires JsonSax.Reach(JsonAcceptor.INIT, CUT_LIST).0 == |CUT_LIST|
    ensures JsonMarkers.Kept(CUT_LIST) == CUT_LIST
  {
    assert CUT_LIST[..|CUT_LIST|] == CUT_LIST;
  }

  lemma ListArguments(m: string)
    requires JsonMarkers.DigitMarker(m)
    ensures Once(Dump(SetArg([], "a", Raw("[\"" + JsonDump.CodeOut(0xE0) + m + "\"]"))), m)
  {
    hide Once, JsonDump.CodeOut;
    var d := "[\"" + JsonDump.CodeOut(0xE0) + m + "\"]";
    var a := Arg("a", Raw(d));
    assert SetArg([], "a", Raw(d)) == [a];
    var front := "{\"a\":[\"" + JsonDump.CodeOut(0xE0);
    OneArgument(d);
    assert Dump([a]) == front + m + "\"]}";
    LetterHasNoDigits();
    OnceAmongDigits(front, m, "\"]}");
  }

  lemma OneArgument(d: string)
    ensures Dump([Arg("a", Raw(d))]) == "{\"a\":" + d + "}"
  {
    assert EscapeChar('a') == "a";
    assert Escape("a") == "a";
  }

  lemma LetterHasNoDigits()
    ensures NoDigits("{\"a\":[\"" + JsonDump.CodeOut(0xE0)) && NoDigits("\"]}")
  {
    assert JsonDump.CodeOut(0xE0) == JsonDump.Bytes([0xC3, 0xA0]);
  }

  // ------------------------------------------------------------------------- the text for Kimi-K2

  const KIMI_NAME := "functions.f:0"

  /** A call that is cut in the value of its only argument. */
  function KimiText(value: string): string {
    KIMI_K2.scopeStart + KIMI_K2.toolStart + (KIMI_NAME + KIMI_K2.toolSep + KimiArgText(value))
  }

  function KimiArgText(value: string): string {
    "\"a\":" + value
  }

  /** A CUT THAT FAILS. A call of Kimi-K2 that is cut inside an escaped letter makes the parser fail, whatever the marker is. */
  lemma CutLetterFails(setup: Setup, calls: seq<ToolCall>)
    requires JsonMarkers.DigitMarker(setup.marker)
    ensures var env := Reader(KimiText(CUT_LIST), true, true, setup);
            env.Valid() && TryConsume(env, KIMI_K2, 0, calls) == Aborts(calls)
  {
    hide FindIn, TryJson, JsonToTheEnd, TryConsume, KimiText, SkipSpaces, GenPartial, PlainValue;
    var input := KimiText(CUT_LIST);
    ReaderIsValid(input, true, true, setup);
    var env := Reader(input, true, true, setup);
    forall name | true ensures KimiValueHalts(env, name, CUT_LIST, Abort) {
      var pos := |input| - |CUT_LIST|;
      ValueLast(CUT_LIST);
      ListMarkerLost(setup, KIMI_K2, name, input, pos);
      SkipAtEnd(input);
    }
    KimiHalts(env, CUT_LIST, Abort, calls);
  }

  /** A CUT THAT THROWS. What is healed of the failing family need not be a document, and the exception of the library leaves the
      parser. */
  lemma CutPairThrows(setup: Setup, calls: seq<ToolCall>)
    requires JsonMarkers.DigitMarker(setup.marker)
    ensures var env := Reader(KimiText(JsonHealing.CUT), true, true, setup);
            env.Valid() && TryConsume(env, KIMI_K2, 0, calls) == ThrowsJson(calls)
  {
    hide FindIn, TryConsume, KimiText, JsonHealer.Parse, JsonValue, MaybePrimitive, PlainValue;
    var value := JsonHealing.CUT;
    var input := KimiText(value);
    ReaderIsValid(input, true, true, setup);
    var env := Reader(input, true, true, setup);
    JsonMarkers.PlainDigits(setup.marker);
    JsonHealing.HealingCanThrow(setup.marker);
    ValueLast(value);
    forall name | true ensures KimiValueHalts(env, name, value, JsonError) {
    }
    KimiHalts(env, value, JsonError, calls);
  }

  lemma ValueLast(value: string)
    ensures |KimiText(value)| >= |value| && KimiText(value)[|KimiText(value)| - |value|..] == value
  {
    var front := KIMI_K2.scopeStart + KIMI_K2.toolStart + (KIMI_NAME + KIMI_K2.toolSep + "\"a\":");
    assert KimiText(value) == front + value;
  }

  /** The value makes the reading of the argument halt. */
  ghost predicate KimiValueHalts(env: Env, name: string, value: string, why: Halt)
    requires env.Valid()
  {
    |value| <= |env.input| && ArgValue(env, KIMI_K2, name, [], "a", |env.input| - |value|) == Halted(why)
  }

  lemma KimiHalts(env: Env, value: string, why: Halt, calls: seq<ToolCall>)
    requires env.Valid() && env.input == KimiText(value) && !why.BadSyntax? && forall name :: KimiValueHalts(env, name, value, why)
    ensures TryConsume(env, KIMI_K2, 0, calls) == EndWith(calls, why)
  {
    hide FindIn, ParseTool, KimiValueHalts;
    var a, b := KIMI_K2.scopeStart, KIMI_K2.toolStart;
    HeadRead(env, a, b, KIMI_NAME + KIMI_K2.toolSep + KimiArgText(value));
    KimiTool(env, value, why, |a| + |b|);
    assert !AllSpace(a) by { assert a[0] == '<'; }
    HaltsInTool(env, KIMI_K2, 0, |a|, |a| + |b|, calls, why);
  }

  lemma KimiTool(env: Env, value: string, why: Halt, pos: nat)
    requires env.Valid() && pos <= |env.input| && env.input[pos..] == KIMI_NAME + KIMI_K2.toolSep + KimiArgText(value)
    requires forall name :: KimiValueHalts(env, name, value, why)
    ensures ParseTool(env, KIMI_K2, pos) == ToolHalted(why)
  {
    hide FindIn, First, Find, ParseArgs, NameOf, KimiValueHalts, KimiArgText, FindName;
    var sep := KIMI_K2.toolSep;
    KimiNameEnds(env, pos, KimiArgText(value));
    assert !AllSpace(sep) by { assert sep[0] == '<'; }
    KimiArg(env, value, why, NameOf(env, KIMI_NAME), pos + |KIMI_NAME| + |sep|);
  }

  lemma KimiNameEnds(env: Env, pos: nat, rest: string)
    requires pos <= |env.input| && env.input[pos..] == KIMI_NAME + KIMI_K2.toolSep + rest
    ensures var f := FindName(env, KIMI_K2, pos);
            f == NameAt(Found(KIMI_NAME, pos + |KIMI_NAME|, pos + |KIMI_NAME| + |KIMI_K2.toolSep|))
    ensures var from := pos + |KIMI_NAME| + |KIMI_K2.toolSep|; from <= |env.input| && env.input[from..] == rest
  {
    hide FindIn, First, Find;
    var sep := KIMI_K2.toolSep;
    FreshFirst(KIMI_NAME, sep);
    FindsAt(env, pos, KIMI_NAME, sep, rest);
    FreshNowhere(KIMI_NAME, KIMI_K2.toolEnd);
    assert !AllSpace(sep) by { assert sep[0] == '<'; }
  }

  lemma FreshNowhere(x: string, d: string)
    requires d != "" && d[0] !in x
    ensures Find(x, d, 0).None?
  {
    hide Find;
    FindSpec(x, d, 0);
    var f := Find(x, d, 0);
    if f.Some? { BeginsWith(x, d, f.value); }
  }

  lemma KimiArg(env: Env, value: string, why: Halt, name: string, pos: nat)
    requires env.Valid() && pos <= |env.input| && env.input[pos..] == KimiArgText(value) && KimiValueHalts(env, name, value, why)
    ensures ParseArgs(env, KIMI_K2, name, [], pos) == Halted(why)
  {
    hide FindIn, First, Find, ArgValue;
    EmptyFirst("\"");
    assert KimiArgText(value) == "" + "\"" + ("a\":" + value);
    FindsAt(env, pos, "", "\"", "a\":" + value);
    FreshFirst("a", "\":");
    assert "a\":" + value == "a" + "\":" + value;
    FindsAt(env, pos + 1, "a", "\":", value);
    assert pos + 4 == |env.input| - |value|;
  }
}
