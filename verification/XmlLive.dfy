/** Tool calls of a text that is still being written, with the JSON reader of the message parser: when a value waits, and
    when what is shown of it is not taken back. */
module XmlLive {
  import opened Chars
  import opened Wrappers
  import opened Strings
  import opened ChatParser
  import opened XmlToolCalls
  import opened XmlRoundTrip
  import opened XmlForms
  import opened XmlPrimitives
  import opened XmlReader
  import opened XmlStreaming
  import JsonAcceptor
  import JsonSax
  import JsonHealer
  import JsonDump
  import JsonMarkers
  import JsonCuts
  import JsonVerdict
  import ChatDiff
  import Utf8

  // ------------------------------------------------------------------------- what values are meant

  /** How far a text can be read as JSON. */
  function ReadTo(s: string): (n: nat)
    ensures n <= |s|
  {
    JsonSax.Reach(JsonAcceptor.INIT, s).0
  }

  /** A document, and blanks behind it. */
  predicate JsonText(value: string) {
    JsonAcceptor.Accepts(value[..ReadTo(value)]) && AllSpace(value[ReadTo(value)..])
  }

  /** No document, and at the closing tag it is decided where it is none: no string or misplaced token is open that would go on
      behind the tag; and the library does not throw. */
  ghost predicate PlainText(value: string) {
    !JsonText(value) && !JsonCuts.Undecided(value + "<") && JsonVerdict.VerdictOf(value + "<") != JsonVerdict.NoDocument
  }

  /** The value is printed as it is meant: JSON has the dump that is given, and text is no JSON. */
  ghost predicate Meant(a: PrintedArg, num: string -> string) {
    match a.json
    case Some(dump) => JsonText(a.value) && dump == JsonDump.Dumped(a.value[..ReadTo(a.value)], num)
    case None => PlainText(a.value)
  }

  /** A document before a tag, a comma or a brace is what the reader takes there. */
  lemma JsonDecided(value: string, t: string, marker: string)
    requires JsonText(value) && value < t && JsonCuts.EndsDocument(t[|value|])
    ensures var n := ReadTo(value); JsonHealer.Parse(t, marker) == JsonHealer.Parsed(value[..n], n, "", "")
  {
    hide JsonAcceptor.RunFrom, JsonAcceptor.Step, JsonHealer.Parse, JsonSax.Reach, JsonCuts.Undecided, JsonSax.ErrorAt;
    var n := ReadTo(value);
    assert t[..n] == value[..n];
    if n < |value| {
      assert t[n] == value[n] == value[n..][0];
      NotReadOn(value, n);
    }
    JsonCuts.DocumentStops(t, n, marker);
  }

  /** What stops the reading of a document is not one of its blanks. */
  lemma NotReadOn(value: string, n: nat)
    requires n == ReadTo(value) && n < |value| && JsonAcceptor.Accepts(value[..n])
    ensures !JsonAcceptor.IsWs(value[n])
  {
    hide JsonAcceptor.RunFrom;
    BlankGoesOn(JsonSax.Reach(JsonAcceptor.INIT, value).1, value[n]);
  }

  lemma BlankGoesOn(p: JsonAcceptor.Pda, c: char)
    requires JsonAcceptor.Accepting(p)
    ensures JsonAcceptor.IsWs(c) ==> JsonAcceptor.Step(p, c).Pda?
  {
  }

  /** Text before a tag is read in the same way whatever follows the tag; what is taken of it is not followed by blanks alone. */
  lemma TextDecided(value: string, t: string, marker: string)
    requires PlainText(value) && value + "<" <= t && JsonMarkers.DigitMarker(marker)
    ensures var r := JsonHealer.Parse(t, marker);
            && !r.ParseError?
            && (r.Parsed? ==> r.end <= |value| && (r.marker == "" ==> !AllSpace(value[r.end..])))
  {
    hide JsonAcceptor.RunFrom, JsonAcceptor.Step, JsonHealer.Parse, JsonSax.Reach, JsonCuts.Undecided, JsonSax.ErrorAt, AllSpace,
      JsonVerdict.VerdictOf, JsonMarkers.Kept;
    var s := value + "<";
    JsonVerdict.VerdictIsRight(s, marker);
    JsonCuts.DecidedStays(s, t, marker);
    ParseMarkers(s, marker);
    var r := JsonHealer.Parse(s, marker);
    if r.Parsed? {
      ParsedEndIs(s, marker);
      if r.marker == "" {
        assert s[..r.end] == value[..r.end];
        ReadToIs(value, r.end);
      }
    }
  }

  lemma ParsedEndIs(s: string, marker: string)
    requires !JsonCuts.Undecided(s) && JsonHealer.Parse(s, marker).Parsed?
    ensures JsonHealer.Parse(s, marker).end == JsonSax.ErrorAt(s)
  {
    hide JsonAcceptor.RunFrom, JsonAcceptor.Step, JsonSax.Reach, JsonSax.ErrorAt, JsonHealer.Heal, JsonHealer.HealTop, JsonHealer.Text,
      JsonSax.SaxStack, JsonCuts.RefusalOpen;
    JsonCuts.ReachIsAlive(s);
  }

  /** Where a document and a character that cannot follow it stand, reading stops between them. */
  lemma ReadToIs(value: string, e: nat)
    requires e <= |value| && JsonAcceptor.Accepts(value[..e]) && JsonSax.ErrorAt(value + "<") == e
    ensures ReadTo(value) == e
  {
    hide JsonAcceptor.RunFrom, JsonAcceptor.Step, JsonSax.Reach, JsonSax.RefusedAt;
    var s := value + "<";
    var r := JsonSax.Reach(JsonAcceptor.INIT, s);
    assert s[..e] == value[..e];
    if r.0 < e { ReadFurther(s, r.0, e); }
    if e < |value| {
      assert s[e] == value[e];
      JsonCuts.ReachStops(value, e);
    } else {
      assert value[..e] == value;
      JsonSax.ReachAll(JsonAcceptor.INIT, value);
    }
  }

  lemma ReadFurther(s: string, n: nat, e: nat)
    requires n < e <= |s| && JsonAcceptor.Run(s[..e]).Pda?
    ensures n != JsonSax.Reach(JsonAcceptor.INIT, s).0
  {
    hide JsonAcceptor.RunFrom, JsonAcceptor.Step, JsonSax.Reach;
    var r := JsonSax.Reach(JsonAcceptor.INIT, s);
    if r.0 == n {
      assert s[..e] == s[..n] + ([s[n]] + s[n + 1..e]);
      JsonAcceptor.RunConcat(JsonAcceptor.INIT, s[..n], [s[n]] + s[n + 1..e]);
      JsonAcceptor.RunCons(r.1, s[n], s[n + 1..e]);
      JsonAcceptor.DeadStays(s[n + 1..e]);
    }
  }

  // --------------------------------------------------------------------------- values with the reader

  /** The literal that ends a value begins with a tag. */
  lemma TagBegins(form: Form, value: string, more: string)
    requires Tagged(form)
    ensures value + "<" <= value + form.valEnd + more
  {
    assert (value + form.valEnd + more)[..|value| + 1] == value + "<";
  }

  /** JSON FITS. Where a value stands that is printed as it is meant, the reader finds what is meant; so forms of tags read
      such values back. */
  lemma ReaderFits(input: string, partial: bool, kimi: bool, setup: Setup, form: Form, pos: nat, a: PrintedArg, more: string)
    requires Reader(input, partial, kimi, setup).Valid() && Tagged(form) && JsonMarkers.DigitMarker(setup.marker) && form.rawArgval != Some(true)
    requires pos <= |input| && input[pos..] == a.value + form.valEnd + more && Meant(a, setup.num)
    ensures JsonFits(Reader(input, partial, kimi, setup), form, Placed(pos, a))
    ensures ReadsAs(Reader(input, partial, kimi, setup), form, Placed(pos, a))
  {
    hide JsonFits, MaybePrimitive, Tagged, Meant, Reader;
    var env := Reader(input, partial, kimi, setup);
    ReaderIs(input, partial, kimi, setup);
    NotBlankEnd(form);
    ValueStands(input, pos, a.value, form.valEnd, more);
    NotPrimitive(env, pos, pos + |a.value|);
    if a.json.Some? {
      JsonIsRead(input, partial, kimi, setup, form, pos, a, more);
    } else {
      TextIsRead(input, partial, kimi, setup, form, pos, a, more);
    }
  }

  lemma ReaderIs(input: string, partial: bool, kimi: bool, setup: Setup)
    ensures var env := Reader(input, partial, kimi, setup); env.input == input && env.partial == partial && env.kimi == kimi
  {
  }

  lemma JsonIsRead(input: string, partial: bool, kimi: bool, setup: Setup, form: Form, pos: nat, a: PrintedArg, more: string)
    requires Reader(input, partial, kimi, setup).Valid() && Tagged(form) && JsonMarkers.DigitMarker(setup.marker) && a.json.Some?
    requires pos <= |input| && input[pos..] == a.value + form.valEnd + more && Meant(a, setup.num)
    ensures JsonFits(Reader(input, partial, kimi, setup), form, Placed(pos, a))
  {
    hide JsonHealer.Parse, JsonText, JsonDump.Dumped, Structured, Tagged, AllSpace;
    TagBegins(form, a.value, more);
    assert input[pos..][|a.value|] == '<';
    JsonDecided(a.value, input[pos..], setup.marker);
    BlankBehind(a.value);
    NotBlankEnd(form);
    assert a.value + form.valEnd + more == a.value + (form.valEnd + more);
    ValueTail(input, pos, a.value, form.valEnd + more, ReadTo(a.value));
  }

  lemma TextIsRead(input: string, partial: bool, kimi: bool, setup: Setup, form: Form, pos: nat, a: PrintedArg, more: string)
    requires Reader(input, partial, kimi, setup).Valid() && Tagged(form) && JsonMarkers.DigitMarker(setup.marker) && a.json.None?
    requires pos <= |input| && input[pos..] == a.value + form.valEnd + more && Meant(a, setup.num)
    ensures JsonFits(Reader(input, partial, kimi, setup), form, Placed(pos, a))
  {
    hide JsonHealer.Parse, PlainText, JsonDump.Dumped, Structured, Tagged, AllSpace;
    var t := input[pos..];
    TagBegins(form, a.value, more);
    TextDecided(a.value, t, setup.marker);
    NotBlankEnd(form);
    assert a.value + form.valEnd + more == a.value + (form.valEnd + more);
    ValueTail(input, pos, a.value, form.valEnd + more, 0);
    var r := JsonHealer.Parse(t, setup.marker);
    if r.Parsed? { ValueTail(input, pos, a.value, form.valEnd + more, r.end); }
  }

  lemma BlankBehind(value: string)
    requires JsonText(value)
    ensures AllSpace(value[ReadTo(value)..])
  {
    hide JsonAcceptor.Accepts;
  }

  lemma NotBlankEnd(form: Form)
    requires Tagged(form)
    ensures !AllSpace(form.valEnd) && |form.valEnd| >= 10 && form.valEnd[0] == '<'
  {
    assert !IsSpace(form.valEnd[0]);
  }

  lemma ValueStands(s: string, pos: nat, value: string, end: string, more: string)
    requires pos <= |s| && s[pos..] == value + end + more && end != ""
    ensures pos + |value| + |end| <= |s| && s[pos + |value|] == end[0]
  {
    assert s[pos..][|value|] == end[0];
  }

  lemma ValueTail(s: string, pos: nat, value: string, more: string, e: nat)
    requires pos <= |s| && s[pos..] == value + more && e <= |value|
    ensures pos + |value| <= |s| && s[pos + e..pos + |value|] == value[e..]
  {
    assert s[pos..][e..|value|] == s[pos + e..pos + |value|];
  }

  ghost predicate AllMeant(args: seq<PrintedArg>, num: string -> string) {
    forall i :: 0 <= i < |args| ==> Meant(args[i], num)
  }

  lemma JoinFits(env: Env, form: Form, a: seq<Placed>, b: seq<Placed>)
    requires env.Valid() && AllFit(env, form, a) && AllFit(env, form, b)
    ensures AllFit(env, form, a + b)
  {
    hide JsonFits;
  }

  lemma OneFits(env: Env, form: Form, p: Placed)
    requires env.Valid() && JsonFits(env, form, p)
    ensures AllFit(env, form, [p])
  {
    hide JsonFits;
  }

  lemma NothingFits(env: Env, form: Form)
    requires env.Valid()
    ensures AllFit(env, form, [])
  {
  }

  lemma {:induction false} ArgsFit(input: string, partial: bool, setup: Setup, form: Form, pos: nat, args: seq<PrintedArg>, rest: string)
    requires Reader(input, partial, false, setup).Valid() && Tagged(form) && JsonMarkers.DigitMarker(setup.marker) && form.rawArgval != Some(true)
    requires pos <= |input| && input[pos..] == ArgsText(form, args) + rest && AllMeant(args, setup.num)
    ensures AllFit(Reader(input, partial, false, setup), form, ArgPlaces(form, pos, args))
    decreases |args|
  {
    hide ArgText, ValuePos, Meant, JsonFits, TryJson, AllFit, Tagged, ArgsText;
    var env := Reader(input, partial, false, setup);
    if args == [] {
      NothingFits(env, form);
    } else {
      var a, q := args[0], pos + |ArgText(form, args[0])|;
      var more := ArgsText(form, args[1..]) + rest;
      FirstArgText(form, args, rest);
      RestOf(input, pos, ArgText(form, a), more);
      ArgsFit(input, partial, setup, form, q, args[1..], rest);
      ValueAt(form, input, pos, a, more);
      ReaderFits(input, partial, false, setup, form, ValuePos(form, pos, a), a, more);
      OneFits(env, form, Placed(ValuePos(form, pos, a), a));
      JoinFits(env, form, [Placed(ValuePos(form, pos, a), a)], ArgPlaces(form, q, args[1..]));
    }
  }

  lemma ValueAt(form: Form, input: string, pos: nat, a: PrintedArg, more: string)
    requires pos <= |input| && input[pos..] == ArgText(form, a) + more
    ensures ValuePos(form, pos, a) <= |input| && input[ValuePos(form, pos, a)..] == a.value + form.valEnd + more
  {
    hide Sep2Text;
    var front := a.gap + form.keyStart + a.key + form.keyValSep + Sep2Text(form, a);
    assert ArgText(form, a) + more == front + (a.value + form.valEnd + more);
    RestOf(input, pos, front, a.value + form.valEnd + more);
  }

  lemma {:induction false} CallsFit(input: string, partial: bool, setup: Setup, form: Form, pos: nat, calls: seq<PrintedCall>, tail: string)
    requires Reader(input, partial, false, setup).Valid() && Tagged(form) && JsonMarkers.DigitMarker(setup.marker) && form.rawArgval != Some(true)
    requires pos <= |input| && input[pos..] == CallsText(form, calls, tail)
    requires forall i :: 0 <= i < |calls| ==> AllMeant(calls[i].args, setup.num)
    ensures AllFit(Reader(input, partial, false, setup), form, CallPlaces(form, pos, calls))
    decreases |calls|
  {
    hide BodyText, ArgPlaces, TryJson, AllFit, AllMeant, CallsText, Tagged, ArgsText;
    var env := Reader(input, partial, false, setup);
    if calls == [] {
      NothingFits(env, form);
    } else {
      var c, following := calls[0], CallsText(form, calls[1..], tail);
      var front := c.gap + form.toolStart + c.name + form.toolSep;
      var after := c.gapEnd + form.toolEnd + following;
      var whole := c.gap + form.toolStart + BodyText(form, c);
      CallText(form, calls, tail);
      RestOf(input, pos, front, ArgsText(form, c.args) + after);
      ArgsFit(input, partial, setup, form, pos + |front|, c.args, after);
      RestOf(input, pos, whole, following);
      assert forall i :: 0 <= i < |calls| - 1 ==> calls[1..][i] == calls[i + 1];
      CallsFit(input, partial, setup, form, pos + |whole|, calls[1..], tail);
      JoinFits(env, form, ArgPlaces(form, pos + |front|, c.args), CallPlaces(form, pos + |whole|, calls[1..]));
    }
  }

  /** THE READER READS BACK. With a form of tags every list of tidy calls whose values are printed as they are meant, text and JSON,
      is parsed to exactly those calls, wherever it stands. */
  lemma ReaderReadsBack(input: string, setup: Setup, form: Form, pre: string, head: string, calls: seq<PrintedCall>, gap: string,
                        suffix: string, before: seq<ToolCall>)
    requires form.Valid() && Tagged(form) && form.rawArgval != Some(true) && JsonMarkers.DigitMarker(setup.marker)
    requires input == pre + (HeadText(form, head) + CallsText(form, calls, gap + form.scopeEnd + suffix))
    requires AllSpace(head) && AllSpace(gap)
    requires forall i :: 0 <= i < |calls| ==> TidyCall(form, calls[i]) && AllMeant(calls[i].args, setup.num)
    requires form.scopeEnd == "" ==> gap == "" && !Opens(suffix, form.toolStart)
    ensures var env := Reader(input, false, false, setup);
            && env.Valid() && |suffix| <= |input|
            && TryConsume(env, form, |pre|, before) == Returns(true, |input| - |suffix|, before + CallsOf(env, form, calls))
  {
    hide *;
    ReaderIsValid(input, false, false, setup);
    ReaderIs(input, false, false, setup);
    var env := Reader(input, false, false, setup);
    XmlForms.Behind(input, pre, HeadText(form, head), CallsText(form, calls, gap + form.scopeEnd + suffix));
    CallsFit(input, false, setup, form, |pre| + |HeadText(form, head)|, calls, gap + form.scopeEnd + suffix);
    var ps := CallPlaces(form, |pre| + |HeadText(form, head)|, calls);
    assert AllFit(Reader(input, false, false, setup), form, ps);
    assert AllFit(env, form, ps);
    TidyReadBack(env, form, pre, head, calls, gap, suffix, before);
  }

  // --------------------------------------------------------------------------------- values that are cut

  /** A value and its closing literal, of which `k` characters are there. */
  function CutText(form: Form, value: string, k: nat): (t: string)
    requires k <= |value| + |form.valEnd|
    ensures |t| == k
  {
    (value + form.valEnd)[..k]
  }

  /** Whether the value waits: it is JSON up to the end of the text or to its closing literal, or may be a literal or number. The
      marker does not matter. */
  ghost predicate WaitsCut(form: Form, value: string, k: nat)
    requires k <= |value| + |form.valEnd|
  {
    var t := CutText(form, value, k);
    match JsonVerdict.VerdictOf(t)
    case Whole => BlankTo(t) || (k > |value| && |JsonMarkers.Kept(t)| <= |value| && AllSpace(value[|JsonMarkers.Kept(t)|..]))
    case Healed => BlankTo(t)
    case NoDocument => false
    case _ => LikePrimitive(t)
  }

  /** Blanks are all that stands behind what is read. */
  predicate BlankTo(t: string) {
    AllSpace(t[|JsonMarkers.Kept(t)|..])
  }

  /** The reader does not throw what nobody catches. */
  ghost predicate Calm(form: Form, value: string, k: nat)
    requires k <= |value| + |form.valEnd|
  {
    JsonVerdict.VerdictOf(CutText(form, value, k)) != JsonVerdict.NoDocument
  }

  /** With any marker the reader tells the same. */
  lemma WaitsWith(form: Form, value: string, k: nat, marker: string)
    requires k <= |value| + |form.valEnd| && JsonMarkers.DigitMarker(marker)
    ensures var t := CutText(form, value, k);
            WaitsCut(form, value, k) <==>
              match JsonHealer.Parse(t, marker)
              case Parsed(_, end, m, _) =>
                end <= k && (AllSpace(t[end..]) || (m == "" && k > |value| && end <= |value| && AllSpace(value[end..])))
              case ParseError => false
              case _ => LikePrimitive(t)
    ensures Calm(form, value, k) <==> !JsonHealer.Parse(CutText(form, value, k), marker).ParseError?
  {
    hide JsonHealer.Parse, JsonVerdict.VerdictOf, LikePrimitive, AllSpace, JsonSax.ErrorAt;
    JsonVerdict.VerdictIsRight(CutText(form, value, k), marker);
  }

  lemma BlankRest(s: string, e: nat)
    requires e <= |s|
    ensures SkipSpaces(s, e) == |s| <==> AllSpace(s[e..])
  {
    hide SkipSpaces, IsSpace;
    SkipSpacesSpec(s, e);
    assert forall i :: 0 <= i < |s| - e ==> s[e..][i] == s[e + i];
    if AllSpace(s[e..]) {
      assert forall k :: e <= k < |s| ==> s[k] == s[e..][k - e];
      SkipSpacesIs(s, e, |s|);
    }
  }

  /** The closing literal behind JSON in a value that is cut. */
  lemma EndBehind(env: Env, form: Form, a: PrintedArg, pos: nat, end: nat)
    requires Single(env, form) && env.partial && Streamable(form) && CleanArg(form, a)
    requires pos <= end <= pos + |a.value| && end <= |env.input| && |env.input| - pos < |a.value| + |form.valEnd|
    requires pos <= |env.input| && env.input[pos..] == CutText(form, a.value, |env.input| - pos)
    ensures var c := FindValEnd(env, form, end).found;
            if |env.input| - pos <= |a.value| then c.None? else c.Some? && c.value.prelude == a.value[end - pos..]
  {
    hide FindIn, Utf8.WellFormed;
    var front, back := a.value[..end - pos], a.value[end - pos..];
    assert a.value + form.valEnd + "" == front + (back + form.valEnd + "") by { assert a.value == front + back; }
    assert env.input[pos..] <= a.value + form.valEnd;
    Advance(env, pos, front, back + form.valEnd + "");
    SearchCut(env, end, back, form.valEnd, "");
  }

  /** A value that is cut can be read, and it waits if and only if its text says so. */
  lemma CutSettles(input: string, kimi: bool, setup: Setup, form: Form, pos: nat, a: PrintedArg)
    requires Reader(input, true, kimi, setup).Valid() && form.Valid() && Streamable(form) && form.rawArgval.None? && CleanArg(form, a)
    requires Meant(a, setup.num) && JsonMarkers.DigitMarker(setup.marker) && Utf8.TruncateSafe(input) == |input| && pos <= |input|
    requires var k := |input| - pos;
             k < |a.value| + |form.valEnd| && input[pos..] == CutText(form, a.value, k) && Calm(form, a.value, k)
    ensures var env := Reader(input, true, kimi, setup);
            && MayBeCut(env, form, Placed(pos, a))
            && (Waits(env, form, pos) <==> WaitsCut(form, a.value, |input| - pos))
  {
    hide JsonHealer.Parse, JsonDump.Dumped, Structured, MaybePrimitive, WaitsBehind, Utf8.TruncateSafe, LikePrimitive, Streamable, CleanArg,
      Meant, AllSpace, WaitsCut, Calm;
    var env := Reader(input, true, kimi, setup);
    var t := input[pos..];
    TestIsLike(env, pos);
    WaitsWith(form, a.value, |t|, setup.marker);
    ParsedEnd(t, setup.marker);
    var r := JsonHealer.Parse(t, setup.marker);
    if r.Parsed? {
      TakenEnds(form, a, |t|, setup);
      TakenWaits(env, form, a, pos, pos + r.end, r.marker != "");
    }
  }

  lemma TakenEnds(form: Form, a: PrintedArg, k: nat, setup: Setup)
    requires Streamable(form) && k < |a.value| + |form.valEnd| && Meant(a, setup.num) && JsonMarkers.DigitMarker(setup.marker)
    ensures var r := JsonHealer.Parse(CutText(form, a.value, k), setup.marker); r.Parsed? ==> r.end <= |a.value|
  {
    hide Tagged, Fresh, Meant, JsonHealer.Parse;
    EndsInValue(form, a, k, setup);
  }

  /** When JSON that ends in the value waits. */
  lemma TakenWaits(env: Env, form: Form, a: PrintedArg, pos: nat, end: nat, healed: bool)
    requires env.Valid() && form.Valid() && env.partial && Streamable(form) && CleanArg(form, a)
    requires pos <= end <= pos + |a.value| && end <= |env.input| && |env.input| - pos < |a.value| + |form.valEnd|
    requires env.input[pos..] == CutText(form, a.value, |env.input| - pos)
    ensures var k := |env.input| - pos;
            WaitsBehind(env, form, end, healed) <==>
              AllSpace(CutText(form, a.value, k)[end - pos..]) || (!healed && k > |a.value| && AllSpace(a.value[end - pos..]))
  {
    hide Tagged, Fresh, CleanArg, FindValEnd, AllSpace, SkipSpaces;
    StreamableIsSingle(env, form);
    BlankRest(env.input, end);
    assert env.input[end..] == env.input[pos..][end - pos..];
    EndBehind(env, form, a, pos, end);
  }

  lemma StreamableIsSingle(env: Env, form: Form)
    requires env.Valid() && Streamable(form)
    ensures Single(env, form) && form.keyStart != "" && form.keyValSep != ""
  {
  }

  /** What is taken of a value ends in it. */
  lemma EndsInValue(form: Form, a: PrintedArg, k: nat, setup: Setup)
    requires Tagged(form) && k < |a.value| + |form.valEnd| && Meant(a, setup.num) && JsonMarkers.DigitMarker(setup.marker)
    ensures var r := JsonHealer.Parse(CutText(form, a.value, k), setup.marker); r.Parsed? ==> r.end <= |a.value|
  {
    hide JsonHealer.Parse, JsonText, PlainText, JsonDump.Dumped, Tagged;
    var t := CutText(form, a.value, k);
    ParsedEnd(t, setup.marker);
    if k > |a.value| {
      NotBlankEnd(form);
      assert t[..|a.value| + 1] == a.value + "<";
      if a.json.Some? { JsonDecided(a.value, t, setup.marker); } else { TextDecided(a.value, t, setup.marker); }
    }
  }

  // ----------------------------------------------------------------------------- the values of a text

  ghost predicate AllCalm(form: Form, part: Option<Part>) {
    part.Some? && part.value.there <= |part.value.arg.value| + |form.valEnd| ==>
      Calm(form, part.value.arg.value, part.value.there)
  }

  /** Whether the value that is cut waits. */
  ghost predicate WaitsPart(form: Form, part: Option<Part>) {
    part.Some? && part.value.there <= |part.value.arg.value| + |form.valEnd|
      && WaitsCut(form, part.value.arg.value, part.value.there)
  }

  /** What every value of a text needs to be read. */
  ghost predicate LiveForm(form: Form) {
    form.Valid() && Streamable(form) && form.rawArgval.None?
  }

  lemma ValueSettles(input: string, kimi: bool, setup: Setup, form: Form, pos: nat, a: PrintedArg, more: string, waits: bool)
    requires Reader(input, true, kimi, setup).Valid() && LiveForm(form) && JsonMarkers.DigitMarker(setup.marker) && CleanArg(form, a) && Meant(a, setup.num)
    requires Utf8.TruncateSafe(input) == |input|
    requires pos <= |input| ==> input[pos..] <= a.value + form.valEnd + more
    requires pos <= |input| < pos + |a.value| + |form.valEnd| ==>
               && Calm(form, a.value, |input| - pos)
               && waits == WaitsCut(form, a.value, |input| - pos)
    ensures Settles(Reader(input, true, kimi, setup), form, Placed(pos, a), waits)
  {
    hide Tagged, Fresh, CleanArg, Meant, Calm, WaitsCut, Waits, MayBeCut, ReadsAs, Utf8.TruncateSafe, TryJson;
    if pos <= |input| {
      var t := input[pos..];
      var whole := a.value + form.valEnd;
      if |t| >= |whole| {
        assert t == whole + t[|whole|..];
        ReaderFits(input, true, kimi, setup, form, pos, a, t[|whole|..]);
      } else {
        assert t == (whole + more)[..|t|] == whole[..|t|];
        CutSettles(input, kimi, setup, form, pos, a);
      }
    }
  }

  /** The reader is calm at the value that is cut, and `waits` says whether it waits. */
  ghost predicate Told(form: Form, part: Option<Part>, waits: bool) {
    AllCalm(form, part) && (part.Some? ==> waits == WaitsPart(form, part))
  }

  lemma BehindTheEnd(env: Env, form: Form, ps: seq<Placed>, waits: bool)
    requires env.Valid() && forall i :: 0 <= i < |ps| ==> ps[i].pos > |env.input|
    ensures AllSettle(env, form, ps, waits)
  {
  }

  lemma {:induction false} NoPartBehind(form: Form, args: seq<PrintedArg>, m: nat)
    requires m >= |ArgsText(form, args)|
    ensures PartOfArgs(form, args, m).None?
    decreases |args|
  {
    hide ArgText, PartOfArg;
    if args != [] { NoPartBehind(form, args[1..], m - |ArgText(form, args[0])|); }
  }

  lemma JoinSettled(env: Env, form: Form, a: seq<Placed>, b: seq<Placed>, waits: bool)
    requires env.Valid() && AllSettle(env, form, a, waits) && AllSettle(env, form, b, waits)
    ensures AllSettle(env, form, a + b, waits)
  {
    hide Settles;
  }

  lemma OneSettles(env: Env, form: Form, p: Placed, waits: bool)
    requires env.Valid() && Settles(env, form, p, waits)
    ensures AllSettle(env, form, [p], waits)
  {
    hide Settles;
  }

  lemma {:induction false} ArgsSettle(input: string, kimi: bool, setup: Setup, form: Form, pos: nat, args: seq<PrintedArg>, more: string,
                                      waits: bool)
    requires Reader(input, true, kimi, setup).Valid() && LiveForm(form) && JsonMarkers.DigitMarker(setup.marker) && Utf8.TruncateSafe(input) == |input|
    requires AllMeant(args, setup.num) && forall i :: 0 <= i < |args| ==> CleanArg(form, args[i])
    requires pos <= |input| ==>
               input[pos..] <= ArgsText(form, args) + more && Told(form, PartOfArgs(form, args, |input| - pos), waits)
    ensures AllSettle(Reader(input, true, kimi, setup), form, ArgPlaces(form, pos, args), waits)
    decreases |args|
  {
    hide ArgText, ValuePos, CleanArg, Meant, Utf8.TruncateSafe, AllSettle, Streamable, Told, Settles, TryJson, PartOfArg;
    var env := Reader(input, true, kimi, setup);
    if args == [] {
      BehindTheEnd(env, form, [], waits);
    } else if pos > |input| {
      KeyStarts(form);
      PlacesBehind(form, pos, args);
      BehindTheEnd(env, form, ArgPlaces(form, pos, args), waits);
    } else {
      var a, q := args[0], pos + |ArgText(form, args[0])|;
      assert forall i :: 0 <= i < |args| - 1 ==> args[1..][i] == args[i + 1];
      assert ArgsText(form, args) + more == ArgText(form, a) + (ArgsText(form, args[1..]) + more);
      Advance(env, pos, ArgText(form, a), ArgsText(form, args[1..]) + more);
      ArgsSettle(input, kimi, setup, form, q, args[1..], more, waits);
      FirstArgSettles(input, kimi, setup, form, pos, args, ArgsText(form, args[1..]) + more, waits);
      OneSettles(env, form, Placed(ValuePos(form, pos, a), a), waits);
      JoinSettled(env, form, [Placed(ValuePos(form, pos, a), a)], ArgPlaces(form, q, args[1..]), waits);
    }
  }

  lemma KeyStarts(form: Form)
    requires Streamable(form)
    ensures form.keyStart != "" && form.toolStart != "" && form.keyValSep != ""
  {
  }

  lemma FirstArgSettles(input: string, kimi: bool, setup: Setup, form: Form, pos: nat, args: seq<PrintedArg>, rest: string, waits: bool)
    requires Reader(input, true, kimi, setup).Valid() && LiveForm(form) && JsonMarkers.DigitMarker(setup.marker) && Utf8.TruncateSafe(input) == |input|
    requires args != [] && CleanArg(form, args[0]) && Meant(args[0], setup.num)
    requires pos <= |input| && input[pos..] <= ArgText(form, args[0]) + rest
    requires Told(form, PartOfArgs(form, args, |input| - pos), waits)
    ensures Settles(Reader(input, true, kimi, setup), form, Placed(ValuePos(form, pos, args[0]), args[0]), waits)
  {
    hide CleanArg, Meant, Utf8.TruncateSafe, Streamable, Settles, TryJson, Calm, WaitsCut, ArgText, ValuePos, Told, PartOfArgs;
    var env, a := Reader(input, true, kimi, setup), args[0];
    var p := ValuePos(form, pos, a);
    ValueText(env, form, pos, a, rest);
    PartOfFirst(form, pos, args, |input|);
    ToldValue(form, a, |input| - p, waits);
    ValueSettles(input, kimi, setup, form, p, a, rest, waits);
  }

  /** The text from a value on. */
  lemma ValueText(env: Env, form: Form, pos: nat, a: PrintedArg, rest: string)
    requires Begins(env, pos, ArgText(form, a) + rest)
    ensures var p := ValuePos(form, pos, a); p <= |env.input| ==> env.input[p..] <= a.value + form.valEnd + rest
  {
    hide Sep2Text;
    var front := a.gap + form.keyStart + a.key + form.keyValSep + Sep2Text(form, a);
    assert ArgText(form, a) + rest == front + (a.value + form.valEnd + rest);
    Advance(env, pos, front, a.value + form.valEnd + rest);
  }

  lemma PartOfFirst(form: Form, pos: nat, args: seq<PrintedArg>, size: nat)
    requires args != [] && pos <= size
    ensures var a, p := args[0], ValuePos(form, pos, args[0]);
            p <= size < p + |a.value| + |form.valEnd| ==> PartOfArgs(form, args, size - pos) == Some(Part(a, size - p))
  {
    hide Sep2Text;
  }

  lemma ToldValue(form: Form, a: PrintedArg, k: int, waits: bool)
    ensures 0 <= k < |a.value| + |form.valEnd| && Told(form, Some(Part(a, k)), waits) ==>
              Calm(form, a.value, k) && waits == WaitsCut(form, a.value, k)
  {
    hide Calm, WaitsCut;
  }

  lemma {:induction false} CallPlacesBehind(form: Form, pos: nat, calls: seq<PrintedCall>)
    requires form.keyStart != ""
    ensures forall i :: 0 <= i < |CallPlaces(form, pos, calls)| ==> CallPlaces(form, pos, calls)[i].pos > pos
    decreases |calls|
  {
    hide ArgPlaces, BodyText;
    if calls != [] {
      var c, body := calls[0], pos + |calls[0].gap| + |form.toolStart|;
      PlacesBehind(form, body + |c.name| + |form.toolSep|, c.args);
      CallPlacesBehind(form, body + |BodyText(form, c)|, calls[1..]);
    }
  }

  lemma {:induction false} CallsSettle(input: string, kimi: bool, setup: Setup, form: Form, pos: nat, calls: seq<PrintedCall>, tail: string,
                                       waits: bool)
    requires Reader(input, true, kimi, setup).Valid() && LiveForm(form) && JsonMarkers.DigitMarker(setup.marker) && Utf8.TruncateSafe(input) == |input|
    requires forall i :: 0 <= i < |calls| ==> CleanCall(form, calls[i]) && AllMeant(calls[i].args, setup.num)
    requires pos <= |input| ==>
               input[pos..] <= CallsText(form, calls, tail) && Told(form, PartOfCalls(form, calls, |input| - pos), waits)
    ensures AllSettle(Reader(input, true, kimi, setup), form, CallPlaces(form, pos, calls), waits)
    decreases |calls|
  {
    hide BodyText, ArgPlaces, CleanCall, Utf8.TruncateSafe, AllSettle, Streamable, Told, TryJson, AllMeant, PartOfArgs, CallsText;
    var env := Reader(input, true, kimi, setup);
    KeyStarts(form);
    if calls == [] {
      BehindTheEnd(env, form, [], waits);
    } else if pos > |input| {
      CallPlacesBehind(form, pos, calls);
      BehindTheEnd(env, form, CallPlaces(form, pos, calls), waits);
    } else {
      var c := calls[0];
      var body := pos + |c.gap| + |form.toolStart|;
      assert forall i :: 0 <= i < |calls| - 1 ==> calls[1..][i] == calls[i + 1];
      CallText(form, calls, tail);
      var whole, following := c.gap + form.toolStart + BodyText(form, c), CallsText(form, calls[1..], tail);
      Advance(env, pos, whole, following);
      if |input| - pos >= |whole| { FirstPart(form, calls, |input| - pos); }
      CallsSettle(input, kimi, setup, form, body + |BodyText(form, c)|, calls[1..], tail, waits);
      FirstCallTold(input, kimi, setup, form, pos, calls, tail, waits);
      JoinSettled(env, form, ArgPlaces(form, body + |c.name| + |form.toolSep|, c.args), CallPlaces(form, body + |BodyText(form, c)|, calls[1..]),
                  waits);
    }
  }

  lemma FirstCallTold(input: string, kimi: bool, setup: Setup, form: Form, pos: nat, calls: seq<PrintedCall>, tail: string, waits: bool)
    requires Reader(input, true, kimi, setup).Valid() && LiveForm(form) && JsonMarkers.DigitMarker(setup.marker) && Utf8.TruncateSafe(input) == |input|
    requires calls != [] && CleanCall(form, calls[0]) && AllMeant(calls[0].args, setup.num)
    requires pos <= |input| && input[pos..] <= CallsText(form, calls, tail)
    requires Told(form, PartOfCalls(form, calls, |input| - pos), waits)
    ensures var c := calls[0];
            AllSettle(Reader(input, true, kimi, setup), form,
                      ArgPlaces(form, pos + |c.gap| + |form.toolStart| + |c.name| + |form.toolSep|, c.args), waits)
  {
    hide ArgPlaces, Utf8.TruncateSafe, AllSettle, Streamable, Told, Reader, AllMeant, PartOfArgs, CallsText, CleanArg, ArgsText, PartOfCalls,
      TidyCall;
    var c := calls[0];
    var more := c.gapEnd + form.toolEnd + CallsText(form, calls[1..], tail);
    var apos := pos + |c.gap| + |form.toolStart| + |c.name| + |form.toolSep|;
    ReaderIs(input, true, kimi, setup);
    KeyStarts(form);
    ArgumentsText(Reader(input, true, kimi, setup), form, pos, calls, tail);
    if apos <= |input| { ArgumentsTold(form, calls, |input| - pos, waits); }
    ArgsSettle(input, kimi, setup, form, apos, c.args, more, waits);
  }

  /** The text from the arguments of the first call on. */
  lemma ArgumentsText(env: Env, form: Form, pos: nat, calls: seq<PrintedCall>, tail: string)
    requires calls != [] && Begins(env, pos, CallsText(form, calls, tail))
    ensures var c, apos := calls[0], pos + |calls[0].gap| + |form.toolStart| + |calls[0].name| + |form.toolSep|;
            apos <= |env.input| ==>
              env.input[apos..] <= ArgsText(form, c.args) + (c.gapEnd + form.toolEnd + CallsText(form, calls[1..], tail))
  {
    hide CallsText, ArgsText;
    var c := calls[0];
    CallText(form, calls, tail);
    var front := c.gap + form.toolStart + c.name + form.toolSep;
    Advance(env, pos, front, ArgsText(form, c.args) + (c.gapEnd + form.toolEnd + CallsText(form, calls[1..], tail)));
  }

  lemma ArgumentsTold(form: Form, calls: seq<PrintedCall>, m: nat, waits: bool)
    requires calls != [] && form.keyStart != "" && Told(form, PartOfCalls(form, calls, m), waits)
    requires m >= |calls[0].gap| + |form.toolStart| + |calls[0].name| + |form.toolSep|
    ensures var c := calls[0];
            Told(form, PartOfArgs(form, c.args, m - |c.gap| - |form.toolStart| - |c.name| - |form.toolSep|), waits)
  {
    hide Told, PartOfArgs, PartOfCalls, ArgsText;
    var c := calls[0];
    var n := m - |c.gap| - |form.toolStart| - |c.name| - |form.toolSep|;
    SplitBody(form, c, "");
    FirstPart(form, calls, m);
    if n >= |ArgsText(form, c.args)| {
      NoPartBehind(form, c.args, n);
      NothingTold(form, waits);
    }
    if n == 0 {
      NoPartYet(form, c.args);
      NothingTold(form, waits);
    }
  }

  lemma NothingTold(form: Form, waits: bool)
    ensures Told(form, None, waits)
  {
  }

  // ------------------------------------------------------------------------------ when values wait

  /** The cuts at which the reader changes its mind: in a unicode escape of a string that is the value, in the failing family of
      the healer, and behind a number where none can stand. */
  ghost predicate Wavering(form: Form, value: string, k: nat)
    requires k <= |value| + |form.valEnd|
  {
    var t := CutText(form, value, k);
    JsonCuts.Blind(t) || JsonCuts.NumberAtEnd(t)
  }

  /** A marker like any other. */
  const ANY := "0"

  /** A text that can be read so far waits. */
  lemma AliveWaits(form: Form, value: string, k: nat)
    requires k <= |value| + |form.valEnd|
    requires var t := CutText(form, value, k); JsonAcceptor.Run(t).Pda? && !JsonCuts.Blind(t)
    ensures WaitsCut(form, value, k)
  {
    hide JsonAcceptor.RunFrom, JsonAcceptor.Accepts, JsonHealer.Parse, JsonCuts.Blind, LikePrimitive, JsonAcceptor.WellFormed, WaitsCut;
    var t := CutText(form, value, k);
    var p := JsonAcceptor.Run(t);
    JsonCuts.AliveParses(t, ANY);
    WaitsWith(form, value, k, ANY);
    assert AllSpace(t[k..]);
    JsonAcceptor.RunWellFormed(JsonAcceptor.INIT, t) by { StartIsWellFormed(); }
    TopModes(t);
    if p.stack == [] && !JsonAcceptor.Accepts(t) && !p.mode.InStr? { BeginningPasses(t); }
    if p.stack == [] && p.mode.InStr? { NotBlindString(t); }
  }

  lemma StartIsWellFormed()
    ensures JsonAcceptor.WellFormed(JsonAcceptor.INIT)
  {
  }

  lemma NotBlindString(t: string)
    requires var p := JsonAcceptor.Run(t); p.Pda? && p.stack == [] && p.mode.InStr?
    ensures !JsonAcceptor.Accepts(t)
  {
    hide JsonAcceptor.RunFrom;
  }

  lemma TopModes(t: string)
    requires JsonAcceptor.WellFormed(JsonAcceptor.Run(t))
    ensures var p := JsonAcceptor.Run(t);
            p.Pda? && p.stack == [] && !JsonAcceptor.Accepts(t) ==> p.mode.InStr? || p.mode.Value? || p.mode.Num? || p.mode.Lit?
  {
    hide JsonAcceptor.RunFrom;
  }

  /** JSON WAITS as long as it is being written, unless the reader is blind to it. */
  lemma JsonWaits(form: Form, value: string, k: nat)
    requires Tagged(form) && JsonText(value) && k < |value| + |form.valEnd|
    requires !JsonCuts.Blind(CutText(form, value, k))
    ensures WaitsCut(form, value, k)
  {
    hide JsonAcceptor.RunFrom, JsonHealer.Parse, JsonCuts.Blind, WaitsCut, Tagged, JsonAcceptor.Accepts, ReadTo;
    var t, n := CutText(form, value, k), ReadTo(value);
    if k <= n {
      assert t == value[..n][..k];
      JsonAcceptor.TruncationAlive(value[..n], t);
      AliveWaits(form, value, k);
    } else if k <= |value| {
      assert t == value[..k] && t[..n] == value[..n] && t[n..] == value[n..][..k - n];
      assert t[n] == value[n] == value[n..][0];
      NotReadOn(value, n);
      JsonCuts.DocumentStops(t, n, ANY);
      BlankFront(value[n..], k - n);
      StoppedWaits(form, value, k, n);
    } else {
      NotBlankEnd(form);
      assert t[..|value| + 1] == value + "<";
      JsonDecided(value, t, ANY);
      StoppedWaits(form, value, k, n);
    }
  }

  lemma BlankFront(s: string, k: nat)
    requires AllSpace(s) && k <= |s|
    ensures AllSpace(s[..k])
  {
  }

  lemma StoppedWaits(form: Form, value: string, k: nat, n: nat)
    requires k <= |value| + |form.valEnd| && n <= |value| && n < k && AllSpace(value[n..])
    requires var r := JsonHealer.Parse(CutText(form, value, k), ANY); r.Parsed? && r.end == n && r.marker == ""
    ensures WaitsCut(form, value, k)
  {
    hide JsonHealer.Parse, WaitsCut;
    WaitsWith(form, value, k, ANY);
    if k <= |value| {
      assert CutText(form, value, k)[n..] == value[n..][..k - n];
      BlankFront(value[n..], k - n);
    }
  }

  lemma CutsNest(form: Form, value: string, k: nat, k': nat)
    requires k <= k' <= |value| + |form.valEnd|
    ensures CutText(form, value, k) <= CutText(form, value, k')
  {
  }

  lemma BlankInFront(t: string, u: string, e: nat)
    requires t <= u && e <= |t| && AllSpace(u[e..])
    ensures AllSpace(t[e..])
  {
    hide IsSpace;
    forall i | 0 <= i < |t| - e ensures IsSpace(t[e..][i]) {
      assert u[e..][i] == u[e + i] == t[e + i];
    }
  }

  /** TEXT DOES NOT WAIT AGAIN: a value that waits when it is cut at `k'` waits at each earlier cut that is not wavering. */
  lemma TextWaitsBefore(form: Form, value: string, k: nat, k': nat)
    requires Tagged(form) && PlainText(value) && k <= k' < |value| + |form.valEnd|
    requires Calm(form, value, k) && !Wavering(form, value, k) && WaitsCut(form, value, k')
    ensures WaitsCut(form, value, k)
  {
    hide JsonAcceptor.RunFrom, JsonHealer.Parse, JsonCuts.Blind, Tagged, LikePrimitive, PlainText, JsonCuts.Undecided, JsonCuts.NumberAtEnd,
      JsonSax.ErrorAt, AllSpace, WaitsCut, Calm, CutText;
    var t, u := CutText(form, value, k), CutText(form, value, k');
    CutsNest(form, value, k, k');
    if JsonAcceptor.Run(t).Pda? {
      AliveWaits(form, value, k);
    } else {
      WaitsLaterHow(form, value, k', ANY);
      WaitsHow(form, value, k, ANY);
      if JsonCuts.Undecided(t) { OpenWaits(t, u, ANY); } else { DecidedWaits(t, u, ANY); }
    }
  }

  /** How a text can wait: what is taken of it reaches its end, or it may be a literal or number. */
  predicate WaitsText(t: string, marker: string) {
    match JsonHealer.Parse(t, marker)
    case Parsed(_, end, _, _) => end <= |t| && AllSpace(t[end..])
    case ParseError => false
    case _ => LikePrimitive(t)
  }

  lemma WaitsHow(form: Form, value: string, k: nat, marker: string)
    requires k <= |value| + |form.valEnd| && JsonMarkers.DigitMarker(marker)
    ensures WaitsText(CutText(form, value, k), marker) ==> WaitsCut(form, value, k)
    ensures Calm(form, value, k) <==> !JsonHealer.Parse(CutText(form, value, k), marker).ParseError?
  {
    hide JsonHealer.Parse, LikePrimitive, AllSpace, WaitsCut, Calm;
    WaitsWith(form, value, k, marker);
  }

  lemma WaitsLaterHow(form: Form, value: string, k: nat, marker: string)
    requires Tagged(form) && k < |value| + |form.valEnd| && PlainText(value) && JsonMarkers.DigitMarker(marker) && WaitsCut(form, value, k)
    ensures WaitsText(CutText(form, value, k), marker)
  {
    hide JsonHealer.Parse, LikePrimitive, AllSpace, Tagged, PlainText, WaitsCut;
    var t := CutText(form, value, k);
    WaitsWith(form, value, k, marker);
    if k > |value| {
      NotBlankEnd(form);
      assert t[..|value| + 1] == value + "<";
      TextDecided(value, t, marker);
    }
  }

  lemma DecidedWaits(t: string, u: string, marker: string)
    requires t <= u && !JsonCuts.Undecided(t) && WaitsText(u, marker)
    ensures WaitsText(t, marker)
  {
    hide JsonAcceptor.RunFrom, JsonHealer.Parse, LikePrimitive, JsonCuts.Undecided, JsonSax.ErrorAt, AllSpace;
    JsonCuts.DecidedStays(t, u, marker);
    var r := JsonHealer.Parse(t, marker);
    if r.Parsed? {
      ParsedEndIs(t, marker);
      BlankInFront(t, u, r.end);
    } else if LikePrimitive(u) {
      LikeBegins(t, u);
    }
  }

  lemma OpenWaits(t: string, u: string, marker: string)
    requires t <= u && JsonAcceptor.Run(t).Dead? && JsonCuts.Undecided(t) && !JsonCuts.NumberAtEnd(t) && marker != ""
    requires WaitsText(u, marker) && !JsonHealer.Parse(t, marker).ParseError?
    ensures WaitsText(t, marker)
  {
    hide JsonAcceptor.RunFrom, JsonHealer.Parse, LikePrimitive, JsonCuts.Undecided, JsonCuts.NumberAtEnd;
    var r := JsonHealer.Parse(t, marker);
    if r.Parsed? {
      OpenEnd(t, marker);
    } else {
      JsonCuts.NeverAgain(t, u, marker);
      LikeBegins(t, u);
    }
  }

  lemma OpenEnd(t: string, marker: string)
    requires JsonAcceptor.Run(t).Dead? && JsonCuts.Undecided(t) && !JsonCuts.NumberAtEnd(t) && marker != ""
    ensures var r := JsonHealer.Parse(t, marker); r.Parsed? ==> r.end == |t|
  {
    hide JsonAcceptor.RunFrom, JsonSax.Reach, JsonHealer.Heal, JsonHealer.HealTop, JsonHealer.Text, JsonSax.SaxStack, JsonCuts.RefusalOpen,
      JsonCuts.RefusedNumber, JsonSax.RefusedAt;
    JsonCuts.ReachIsAlive(t);
    var r := JsonSax.Reach(JsonAcceptor.INIT, t);
    JsonCuts.RefusalSettled(r.1, t, t, r.0);
    assert t[..|t|] == t;
  }

  // ------------------------------------------------------------------------------------ the theorem

  lemma {:induction false} PartOfArgsMoves(form: Form, args: seq<PrintedArg>, m: nat, n: nat)
    requires m <= n && var part := PartOfArgs(form, args, m);
             part.Some? && part.value.there + (n - m) < |part.value.arg.value| + |form.valEnd|
    ensures var part := PartOfArgs(form, args, m).value; PartOfArgs(form, args, n) == Some(Part(part.arg, part.there + (n - m)))
    decreases |args|
  {
    hide ArgText, PartOfArg;
    if args != [] {
      if m < |ArgText(form, args[0])| {
        StaysInArg(form, args[0], m, n);
        PartOfArgMoves(form, args[0], m, n);
      } else {
        PartOfArgsMoves(form, args[1..], m - |ArgText(form, args[0])|, n - |ArgText(form, args[0])|);
      }
    }
  }

  lemma PartOfArgMoves(form: Form, a: PrintedArg, m: nat, n: nat)
    requires m <= n && PartOfArg(form, a, m).Some?
    ensures var part := PartOfArg(form, a, m).value; PartOfArg(form, a, n) == Some(Part(part.arg, part.there + (n - m)))
  {
    hide Sep2Text;
  }

  /** While a value is being written it is the value that is cut. */
  lemma {:induction false} PartMoves(form: Form, calls: seq<PrintedCall>, m: nat, n: nat)
    requires form.keyStart != "" && m <= n
    requires var part := PartOfCalls(form, calls, m);
             part.Some? && part.value.there + (n - m) < |part.value.arg.value| + |form.valEnd|
    ensures var part := PartOfCalls(form, calls, m).value; PartOfCalls(form, calls, n) == Some(Part(part.arg, part.there + (n - m)))
    decreases |calls|
  {
    hide BodyText, PartOfArgs;
    var c := calls[0];
    var k := |c.gap| + |form.toolStart|;
    if m - k >= |BodyText(form, c)| {
      PartMoves(form, calls[1..], m - k - |BodyText(form, c)|, n - k - |BodyText(form, c)|);
    } else {
      PartInArgs(form, c, m - k, n - k);
      PartOfArgsMoves(form, c.args, m - k - |c.name| - |form.toolSep|, n - k - |c.name| - |form.toolSep|);
    }
  }

  lemma {:induction false} PartOfArgsMeant(form: Form, args: seq<PrintedArg>, m: nat, num: string -> string)
    requires AllMeant(args, num)
    ensures var part := PartOfArgs(form, args, m);
            part.Some? ==> Meant(part.value.arg, num) && part.value.there < |part.value.arg.value| + |form.valEnd|
    decreases |args|
  {
    hide Meant, Sep2Text;
    if args != [] && m >= |ArgText(form, args[0])| {
      assert forall i :: 0 <= i < |args| - 1 ==> args[1..][i] == args[i + 1];
      PartOfArgsMeant(form, args[1..], m - |ArgText(form, args[0])|, num);
    }
  }

  lemma {:induction false} PartIsMeant(form: Form, calls: seq<PrintedCall>, m: nat, num: string -> string)
    requires forall i :: 0 <= i < |calls| ==> AllMeant(calls[i].args, num)
    ensures var part := PartOfCalls(form, calls, m);
            part.Some? ==> Meant(part.value.arg, num) && part.value.there < |part.value.arg.value| + |form.valEnd|
    decreases |calls|
  {
    hide Meant, BodyText, PartOfArgs, AllMeant;
    if calls != [] {
      var c, n := calls[0], m - |calls[0].gap| - |form.toolStart|;
      assert forall i :: 0 <= i < |calls| - 1 ==> calls[1..][i] == calls[i + 1];
      if n >= |BodyText(form, c)| {
        PartIsMeant(form, calls[1..], n - |BodyText(form, c)|, num);
      } else if n >= 0 {
        PartOfArgsMeant(form, c.args, Minus(n, |c.name| + |form.toolSep|), num);
      }
    }
  }

  /** A cut where the reader does not change its mind. */
  ghost predicate Firm(form: Form, part: Option<Part>) {
    part.Some? && part.value.there <= |part.value.arg.value| + |form.valEnd| ==>
      !Wavering(form, part.value.arg.value, part.value.there)
  }

  /** What is shown at a firm cut is not taken back. */
  lemma FirmIsSteady(form: Form, num: string -> string, calls: seq<PrintedCall>, m: nat, n: nat)
    requires LiveForm(form) && m <= n
    requires forall i :: 0 <= i < |calls| ==> AllMeant(calls[i].args, num)
    requires AllCalm(form, PartOfCalls(form, calls, m)) && Firm(form, PartOfCalls(form, calls, m))
    ensures Steady(form, PartOfCalls(form, calls, m), WaitsPart(form, PartOfCalls(form, calls, m)), n - m,
                   WaitsPart(form, PartOfCalls(form, calls, n)))
  {
    hide WaitsCut, Wavering, JsonText, PlainText, Tagged, Fresh, PartOfCalls, ValueShown, Calm;
    var part := PartOfCalls(form, calls, m);
    PartIsMeant(form, calls, m, num);
    if part.Some? {
      var a, k := part.value.arg, part.value.there;
      if a.json.Some? {
        assert !JsonCuts.Blind(CutText(form, a.value, k)) by { FirmSees(form, a.value, k); }
        JsonWaits(form, a.value, k);
      } else if k + (n - m) < |a.value| + |form.valEnd| {
        KeyStarts(form);
        PartMoves(form, calls, m, n);
        if WaitsCut(form, a.value, k + (n - m)) { TextWaitsBefore(form, a.value, k, k + (n - m)); }
      }
    }
  }

  lemma FirmSees(form: Form, value: string, k: nat)
    requires k <= |value| + |form.valEnd| && !Wavering(form, value, k)
    ensures !JsonCuts.Blind(CutText(form, value, k))
  {
    hide JsonCuts.Blind;
  }

  /** Calls that are printed as they are meant. */
  ghost predicate MeantCalls(form: Form, num: string -> string, head: string, calls: seq<PrintedCall>, gap: string) {
    && LiveForm(form) && AllSpace(head) && AllSpace(gap)
    && forall i :: 0 <= i < |calls| ==> CleanCall(form, calls[i]) && AllMeant(calls[i].args, num)
  }

  /** The value that is cut at the end of a text of calls. */
  function CutPart(form: Form, pre: string, head: string, calls: seq<PrintedCall>, input: string): Option<Part>
    requires |pre| <= |input|
  {
    PartOfCalls(form, calls, Minus(|input| - |pre|, |HeadText(form, head)|))
  }

  /** A beginning of printed calls, cut between characters, where the reader throws nothing. */
  ghost predicate Beginning(form: Form, pre: string, head: string, calls: seq<PrintedCall>, gap: string, suffix: string,
                            input: string) {
    && |pre| <= |input| && input <= pre + (HeadText(form, head) + CallsText(form, calls, gap + form.scopeEnd + suffix))
    && ScopeEnds(form, gap, suffix) && Utf8.WellFormed(input) && AllCalm(form, CutPart(form, pre, head, calls, input))
  }

  lemma BeginningIsWritten(form: Form, setup: Setup, pre: string, head: string, calls: seq<PrintedCall>, gap: string, suffix: string,
                           input: string)
    requires MeantCalls(form, setup.num, head, calls, gap) && Beginning(form, pre, head, calls, gap, suffix, input)
    requires JsonMarkers.DigitMarker(setup.marker)
    ensures CleanText(form, head, calls, gap)
    ensures Written(Reader(input, true, false, setup), form, pre, head, calls, gap, suffix,
                    WaitsPart(form, CutPart(form, pre, head, calls, input)))
  {
    hide CallsText, CallPlaces, PartOfCalls, CleanCall, AllMeant, Utf8.WellFormed, Utf8.TruncateSafe, TryJson, Tagged, Fresh, WaitsPart, AllCalm,
      AllSettle, HeadText;
    ReaderIsValid(input, true, false, setup);
    WholeIsSafe(input);
    var lead, text := HeadText(form, head), CallsText(form, calls, gap + form.scopeEnd + suffix);
    var pos := |pre| + |lead|;
    if pos <= |input| {
      RestOfText(pre, lead, text, input);
      assert Minus(|input| - |pre|, |lead|) == |input| - pos;
      ToldPart(form, PartOfCalls(form, calls, |input| - pos));
    }
    CallsSettle(input, false, setup, form, pos, calls, gap + form.scopeEnd + suffix, WaitsPart(form, CutPart(form, pre, head, calls, input)));
  }

  lemma RestOfText(pre: string, lead: string, text: string, input: string)
    requires |pre| + |lead| <= |input| && input <= pre + (lead + text)
    ensures input[|pre| + |lead|..] <= text
  {
    assert input[|pre| + |lead|..] == (pre + (lead + text))[|pre| + |lead|..|input|] == text[..|input| - |pre| - |lead|];
  }

  lemma ToldPart(form: Form, part: Option<Part>)
    requires AllCalm(form, part)
    ensures Told(form, part, WaitsPart(form, part))
  {
    hide AllCalm, WaitsPart;
  }

  /** A text that is cut, and the marker that its parser has drawn. */
  datatype Cut = Cut(text: string, marker: string)

  function CutReader(c: Cut, num: string -> string): Env {
    Reader(c.text, true, false, Setup(c.marker, num))
  }

  /** A beginning of printed calls and a marker of digits. */
  ghost predicate LiveCut(form: Form, pre: string, head: string, calls: seq<PrintedCall>, gap: string, suffix: string, c: Cut) {
    Beginning(form, pre, head, calls, gap, suffix, c.text) && JsonMarkers.DigitMarker(c.marker)
  }

  lemma CutIsWritten(form: Form, num: string -> string, pre: string, head: string, calls: seq<PrintedCall>, gap: string, suffix: string,
                     c: Cut)
    requires MeantCalls(form, num, head, calls, gap) && LiveCut(form, pre, head, calls, gap, suffix, c)
    ensures CleanText(form, head, calls, gap) && |pre| <= |c.text|
    ensures Written(CutReader(c, num), form, pre, head, calls, gap, suffix, WaitsPart(form, CutPart(form, pre, head, calls, c.text)))
  {
    hide MeantCalls, CleanText, Written, WaitsPart, CutPart, Reader, AllCalm, Utf8.WellFormed, CallsText, HeadText;
    BeginningIsWritten(form, Setup(c.marker, num), pre, head, calls, gap, suffix, c.text);
  }

  /** LIVE CALLS ARE NOT TAKEN BACK. With a form of tags and the JSON reader, texts and JSON values alike: of two beginnings of
      printed calls, each parsed with a marker of its own, the deltas exist and rebuild the later message, if the first is not cut
      where the reader changes its mind. */
  lemma LiveCallsGrow(form: Form, num: string -> string, pre: string, head: string, calls: seq<PrintedCall>, gap: string, suffix: string,
                      s: Cut, u: Cut, before: seq<ToolCall>, content: string, reasoning: string)
    requires MeantCalls(form, num, head, calls, gap) && s.text <= u.text
    requires LiveCut(form, pre, head, calls, gap, suffix, s) && LiveCut(form, pre, head, calls, gap, suffix, u)
    requires Firm(form, CutPart(form, pre, head, calls, s.text))
    ensures var x, y := CutReader(s, num), CutReader(u, num);
            && x.Valid() && y.Valid()
            && var now := Msg(content, reasoning, TryConsume(x, form, |pre|, before).calls);
               var after := Msg(content, reasoning, TryConsume(y, form, |pre|, before).calls);
               ChatDiff.Diffs(now, after).Ok? && ChatDiff.ApplyAll(now, ChatDiff.Diffs(now, after).value) == after
  {
    hide CallsText, CallPlaces, PartOfCalls, CleanCall, AllMeant, Utf8.WellFormed, TryJson, Tagged, Fresh, WaitsPart, AllCalm, Firm, Steady,
      AllSettle, HeadText, TryConsume, ChatDiff.Diffs, ChatDiff.ApplyAll;
    CutIsWritten(form, num, pre, head, calls, gap, suffix, s);
    CutIsWritten(form, num, pre, head, calls, gap, suffix, u);
    var x, y := CutReader(s, num), CutReader(u, num);
    var m, n := There(x, form, pre, head), There(y, form, pre, head);
    FirmIsSteady(form, num, calls, m, n);
    StreamedCallsGrow(x, y, form, pre, head, calls, gap, suffix, before, content, reasoning,
                      WaitsPart(form, CutPart(form, pre, head, calls, s.text)), WaitsPart(form, CutPart(form, pre, head, calls, u.text)));
  }

  /** LIVE VALUES, EXACTLY. While one value is being written the deltas exist and rebuild the later message if and only if the value
      waits at the first cut, or nothing of it is shown there, or it does not wait at the second. */
  lemma LiveValueExactly(form: Form, num: string -> string, pre: string, head: string, calls: seq<PrintedCall>, gap: string, suffix: string,
                         s: Cut, u: Cut, before: seq<ToolCall>, content: string, reasoning: string)
    requires MeantCalls(form, num, head, calls, gap) && s.text <= u.text
    requires LiveCut(form, pre, head, calls, gap, suffix, s) && LiveCut(form, pre, head, calls, gap, suffix, u)
    requires var part := CutPart(form, pre, head, calls, s.text);
             part.Some? && CutPart(form, pre, head, calls, u.text) ==
               Some(Part(part.value.arg, part.value.there + (|u.text| - |s.text|)))
    ensures var x, y := CutReader(s, num), CutReader(u, num);
            var part, later := CutPart(form, pre, head, calls, s.text).value, CutPart(form, pre, head, calls, u.text).value;
            && x.Valid() && y.Valid()
            && part.there <= later.there < |part.arg.value| + |form.valEnd|
            && var now := Msg(content, reasoning, TryConsume(x, form, |pre|, before).calls);
               var after := Msg(content, reasoning, TryConsume(y, form, |pre|, before).calls);
               (ChatDiff.Diffs(now, after).Ok? && ChatDiff.ApplyAll(now, ChatDiff.Diffs(now, after).value) == after <==>
                  WaitsCut(form, part.arg.value, part.there) || ValueShown(form, part.arg.value, part.there, false) == ""
                  || !WaitsCut(form, part.arg.value, later.there))
  {
    hide CallsText, CallPlaces, PartOfCalls, CleanCall, AllMeant, Utf8.WellFormed, TryJson, Tagged, Fresh, WaitsCut, AllCalm, ValueShown,
      AllSettle, HeadText, TryConsume, ChatDiff.Diffs, ChatDiff.ApplyAll, Meant;
    CutIsWritten(form, num, pre, head, calls, gap, suffix, s);
    CutIsWritten(form, num, pre, head, calls, gap, suffix, u);
    var x, y := CutReader(s, num), CutReader(u, num);
    var m, n := There(x, form, pre, head), There(y, form, pre, head);
    PartIsMeant(form, calls, m, num);
    PartIsMeant(form, calls, n, num);
    NoPartAtStart(form, calls);
    StreamedValueExactly(x, y, form, pre, head, calls, gap, suffix, before, content, reasoning,
                         WaitsPart(form, CutPart(form, pre, head, calls, s.text)), WaitsPart(form, CutPart(form, pre, head, calls, u.text)));
  }

  lemma NoPartAtStart(form: Form, calls: seq<PrintedCall>)
    requires LiveForm(form)
    ensures PartOfCalls(form, calls, 0).None?
  {
    hide BodyText, PartOfArgs, Tagged, Fresh;
  }

  // ------------------------------------------------------------------------------------ whole streams

  /** The message that is parsed of a text that is cut. */
  ghost function LiveMsg(form: Form, num: string -> string, start: nat, before: seq<ToolCall>, content: string, reasoning: string, c: Cut): Msg
    requires form.Valid() && start <= |c.text|
  {
    ReaderIsValid(c.text, true, false, Setup(c.marker, num));
    Msg(content, reasoning, TryConsume(CutReader(c, num), form, start, before).calls)
  }

  /** Growing beginnings of printed calls, all but the last of them cut firmly. */
  ghost predicate Stream(form: Form, pre: string, head: string, calls: seq<PrintedCall>, gap: string, suffix: string, s: Cut, later: seq<Cut>)
    decreases |later|
  {
    LiveCut(form, pre, head, calls, gap, suffix, s) &&
    (later != [] ==>
      s.text <= later[0].text && Firm(form, CutPart(form, pre, head, calls, s.text)) &&
      Stream(form, pre, head, calls, gap, suffix, later[0], later[1..]))
  }

  ghost function LiveMsgs(form: Form, num: string -> string, start: nat, before: seq<ToolCall>, content: string, reasoning: string,
                          cuts: seq<Cut>): (r: seq<Msg>)
    requires form.Valid() && forall i :: 0 <= i < |cuts| ==> start <= |cuts[i].text|
    ensures |r| == |cuts|
  {
    if cuts == [] then []
    else [LiveMsg(form, num, start, before, content, reasoning, cuts[0])] + LiveMsgs(form, num, start, before, content, reasoning, cuts[1..])
  }

  lemma {:induction false} StreamIsLong(form: Form, pre: string, head: string, calls: seq<PrintedCall>, gap: string, suffix: string,
                                        s: Cut, later: seq<Cut>)
    requires Stream(form, pre, head, calls, gap, suffix, s, later)
    ensures |pre| <= |s.text| && forall i :: 0 <= i < |later| ==> |pre| <= |later[i].text|
    decreases |later|
  {
    hide Firm, CutPart, AllCalm, Utf8.WellFormed, CallsText, HeadText;
    if later != [] { StreamIsLong(form, pre, head, calls, gap, suffix, later[0], later[1..]); }
  }

  /** LIVE STREAMS REBUILD THE MESSAGE: along every run of firm cuts, with a new marker for each, no step throws, and a client that
      applies all deltas in order holds the message of the last one. */
  lemma {:induction false} LiveStreamsRebuild(form: Form, num: string -> string, pre: string, head: string, calls: seq<PrintedCall>,
                                              gap: string, suffix: string, s: Cut, later: seq<Cut>, before: seq<ToolCall>,
                                              content: string, reasoning: string)
    requires MeantCalls(form, num, head, calls, gap) && Stream(form, pre, head, calls, gap, suffix, s, later)
    ensures form.Valid() && |pre| <= |s.text| && forall i :: 0 <= i < |later| ==> |pre| <= |later[i].text|
    ensures var first := LiveMsg(form, num, |pre|, before, content, reasoning, s);
            var msgs := LiveMsgs(form, num, |pre|, before, content, reasoning, later);
            && ChatDiff.RunDiffs(first, msgs).Ok?
            && ChatDiff.ApplyAll(first, ChatDiff.RunDiffs(first, msgs).value) == if later == [] then first else msgs[|msgs| - 1]
  {
    hide ChatDiff.RunDiffs, ChatDiff.ApplyAll, MeantCalls, Stream, LiveMsgs, LiveMsg, ChatDiff.GrowingRun;
    assert form.Valid() by { MeantIsValid(form, num, head, calls, gap); }
    StreamIsLong(form, pre, head, calls, gap, suffix, s, later);
    StreamGrows(form, num, pre, head, calls, gap, suffix, s, later, before, content, reasoning);
    ChatDiff.DiffsTelescope(LiveMsg(form, num, |pre|, before, content, reasoning, s),
                            LiveMsgs(form, num, |pre|, before, content, reasoning, later));
  }

  lemma MeantIsValid(form: Form, num: string -> string, head: string, calls: seq<PrintedCall>, gap: string)
    requires MeantCalls(form, num, head, calls, gap)
    ensures form.Valid()
  {
  }

  lemma {:induction false} StreamGrows(form: Form, num: string -> string, pre: string, head: string, calls: seq<PrintedCall>, gap: string,
                                       suffix: string, s: Cut, later: seq<Cut>, before: seq<ToolCall>, content: string, reasoning: string)
    requires form.Valid() && MeantCalls(form, num, head, calls, gap) && Stream(form, pre, head, calls, gap, suffix, s, later)
    requires |pre| <= |s.text| && forall i :: 0 <= i < |later| ==> |pre| <= |later[i].text|
    ensures ChatDiff.GrowingRun(LiveMsg(form, num, |pre|, before, content, reasoning, s),
                                LiveMsgs(form, num, |pre|, before, content, reasoning, later))
    decreases |later|
  {
    hide MeantCalls, LiveCut, Firm, CutPart, LiveMsg, ChatDiff.Grows;
    if later != [] {
      var u := later[0];
      assert LiveCut(form, pre, head, calls, gap, suffix, u);
      LiveStepGrows(form, num, pre, head, calls, gap, suffix, s, u, before, content, reasoning);
      StreamGrows(form, num, pre, head, calls, gap, suffix, u, later[1..], before, content, reasoning);
      var msgs := LiveMsgs(form, num, |pre|, before, content, reasoning, later);
      assert msgs[0] == LiveMsg(form, num, |pre|, before, content, reasoning, u);
      assert msgs[1..] == LiveMsgs(form, num, |pre|, before, content, reasoning, later[1..]);
    }
  }

  lemma LiveStepGrows(form: Form, num: string -> string, pre: string, head: string, calls: seq<PrintedCall>, gap: string, suffix: string,
                      s: Cut, u: Cut, before: seq<ToolCall>, content: string, reasoning: string)
    requires form.Valid() && MeantCalls(form, num, head, calls, gap) && s.text <= u.text && |pre| <= |s.text|
    requires LiveCut(form, pre, head, calls, gap, suffix, s) && LiveCut(form, pre, head, calls, gap, suffix, u)
    requires Firm(form, CutPart(form, pre, head, calls, s.text))
    ensures ChatDiff.Grows(LiveMsg(form, num, |pre|, before, content, reasoning, s),
                           LiveMsg(form, num, |pre|, before, content, reasoning, u))
  {
    hide MeantCalls, LiveCut, Firm, CutPart, ChatDiff.Grows, ChatDiff.Diffs, ChatDiff.ApplyAll, TryConsume, TryJson;
    LiveCallsGrow(form, num, pre, head, calls, gap, suffix, s, u, before, content, reasoning);
    ChatDiff.RebuildsIffGrows(LiveMsg(form, num, |pre|, before, content, reasoning, s),
                              LiveMsg(form, num, |pre|, before, content, reasoning, u));
  }

  // ----------------------------------------------------------------------------------- the last parse

  /** The last cut of a stream. */
  function LastCut(s: Cut, later: seq<Cut>): Cut {
    if later == [] then s else later[|later| - 1]
  }

  /** The whole text, parsed when nothing more is to come. */
  ghost function FinalMsg(form: Form, num: string -> string, start: nat, before: seq<ToolCall>, content: string, reasoning: string, c: Cut): Msg
    requires form.Valid() && start <= |c.text|
  {
    ReaderIsValid(c.text, false, false, Setup(c.marker, num));
    Msg(content, reasoning, TryConsume(Reader(c.text, false, false, Setup(c.marker, num)), form, start, before).calls)
  }

  ghost predicate WholeText(form: Form, pre: string, head: string, calls: seq<PrintedCall>, gap: string, suffix: string, c: Cut) {
    && c.text == pre + (HeadText(form, head) + CallsText(form, calls, gap + form.scopeEnd + suffix))
    && JsonMarkers.DigitMarker(c.marker)
  }

  /** The message of a firm cut grows to that of the whole text, which has the printed calls. */
  lemma CutReachesWhole(form: Form, num: string -> string, pre: string, head: string, calls: seq<PrintedCall>, gap: string, suffix: string,
                        s: Cut, u: Cut, before: seq<ToolCall>, content: string, reasoning: string)
    requires form.Valid() && MeantCalls(form, num, head, calls, gap) && LiveCut(form, pre, head, calls, gap, suffix, s)
    requires Firm(form, CutPart(form, pre, head, calls, s.text)) && WholeText(form, pre, head, calls, gap, suffix, u)
    ensures |pre| <= |s.text| && |pre| <= |u.text|
    ensures FinalMsg(form, num, |pre|, before, content, reasoning, u).toolCalls ==
            before + CallsOf(Reader(u.text, false, false, Setup(u.marker, num)), form, calls)
    ensures ChatDiff.Grows(LiveMsg(form, num, |pre|, before, content, reasoning, s), FinalMsg(form, num, |pre|, before, content, reasoning, u))
  {
    hide CallsText, CallPlaces, PartOfCalls, AllMeant, Utf8.WellFormed, TryJson, Tagged, Fresh, WaitsPart, AllCalm, Firm, Steady, CleanArgs,
      AllSettle, HeadText, TryConsume, ChatDiff.Grows, CallsOf, CallsGrow, TidyCall, ChatDiff.Diffs, ChatDiff.ApplyAll, Opens;
    CutIsWritten(form, num, pre, head, calls, gap, suffix, s);
    var x, y := CutReader(s, num), Reader(u.text, false, false, Setup(u.marker, num));
    var m := There(x, form, pre, head);
    FirmIsSteady(form, num, calls, m, m);
    SteadyLasts(form, PartOfCalls(form, calls, m), WaitsPart(form, PartOfCalls(form, calls, m)), 0,
                WaitsPart(form, PartOfCalls(form, calls, m)));
    StreamedCallsReachPrinted(x, form, pre, head, calls, gap, suffix, before, WaitsPart(form, PartOfCalls(form, calls, m)));
    assert Tagged(form) && ScopeEnds(form, gap, suffix);
    ReaderReadsBack(u.text, Setup(u.marker, num), form, pre, head, calls, gap, suffix, before);
    SameCalls(x, y, form, calls);
    Rebuilt(content, reasoning, TryConsume(x, form, |pre|, before).calls, before + CallsOf(y, form, calls));
    ChatDiff.RebuildsIffGrows(Msg(content, reasoning, TryConsume(x, form, |pre|, before).calls),
                              Msg(content, reasoning, before + CallsOf(y, form, calls)));
  }

  lemma {:induction false} SameCalls(x: Env, y: Env, form: Form, calls: seq<PrintedCall>)
    requires x.kimi == y.kimi
    ensures CallsOf(x, form, calls) == CallsOf(y, form, calls)
  {
    hide ArgsOf, Dump, Strip, KimiName;
    if calls != [] { SameCalls(x, y, form, calls[1..]); }
  }

  lemma {:induction false} RunGrowsOn(first: Msg, msgs: seq<Msg>, last: Msg)
    requires ChatDiff.GrowingRun(first, msgs) && ChatDiff.Grows(if msgs == [] then first else msgs[|msgs| - 1], last)
    ensures ChatDiff.GrowingRun(first, msgs + [last])
    decreases |msgs|
  {
    hide ChatDiff.Grows;
    if msgs == [] {
      assert msgs + [last] == [last] && [last][1..] == [];
    } else {
      assert (msgs + [last])[0] == msgs[0] && (msgs + [last])[1..] == msgs[1..] + [last];
      RunGrowsOn(msgs[0], msgs[1..], last);
    }
  }

  lemma {:induction false} LastOfStream(form: Form, num: string -> string, pre: string, head: string, calls: seq<PrintedCall>, gap: string,
                                        suffix: string, s: Cut, later: seq<Cut>, before: seq<ToolCall>, content: string, reasoning: string)
    requires form.Valid() && Stream(form, pre, head, calls, gap, suffix, s, later)
    requires |pre| <= |s.text| && forall i :: 0 <= i < |later| ==> |pre| <= |later[i].text|
    ensures LiveCut(form, pre, head, calls, gap, suffix, LastCut(s, later))
    ensures var msgs := LiveMsgs(form, num, |pre|, before, content, reasoning, later);
            (if msgs == [] then LiveMsg(form, num, |pre|, before, content, reasoning, s) else msgs[|msgs| - 1]) ==
              LiveMsg(form, num, |pre|, before, content, reasoning, LastCut(s, later))
    decreases |later|
  {
    hide LiveCut, Firm, CutPart, LiveMsg;
    if later != [] {
      LastOfStream(form, num, pre, head, calls, gap, suffix, later[0], later[1..], before, content, reasoning);
      var msgs := LiveMsgs(form, num, |pre|, before, content, reasoning, later);
      assert msgs == [msgs[0]] + LiveMsgs(form, num, |pre|, before, content, reasoning, later[1..]);
    }
  }

  /** LIVE STREAMS END WITH THE PRINTED CALLS: behind a run of firm cuts the parse of the whole text sends the rest, and a client that
      applied all deltas holds the calls that were printed. */
  lemma LiveStreamsEnd(form: Form, num: string -> string, pre: string, head: string, calls: seq<PrintedCall>, gap: string, suffix: string,
                       s: Cut, later: seq<Cut>, end: Cut, before: seq<ToolCall>, content: string, reasoning: string)
    requires MeantCalls(form, num, head, calls, gap) && Stream(form, pre, head, calls, gap, suffix, s, later)
    requires WholeText(form, pre, head, calls, gap, suffix, end)
    requires |pre| <= |LastCut(s, later).text| && Firm(form, CutPart(form, pre, head, calls, LastCut(s, later).text))
    ensures form.Valid() && |pre| <= |s.text| && |pre| <= |end.text| && forall i :: 0 <= i < |later| ==> |pre| <= |later[i].text|
    ensures var first := LiveMsg(form, num, |pre|, before, content, reasoning, s);
            var final := FinalMsg(form, num, |pre|, before, content, reasoning, end);
            var msgs := LiveMsgs(form, num, |pre|, before, content, reasoning, later) + [final];
            && final.toolCalls == before + CallsOf(Reader(end.text, false, false, Setup(end.marker, num)), form, calls)
            && ChatDiff.RunDiffs(first, msgs).Ok?
            && ChatDiff.ApplyAll(first, ChatDiff.RunDiffs(first, msgs).value) == final
  {
    hide ChatDiff.RunDiffs, ChatDiff.ApplyAll, MeantCalls, Stream, LiveMsgs, LiveMsg, FinalMsg, ChatDiff.GrowingRun, ChatDiff.Grows, LiveCut,
      Firm, WholeText, CutPart, CallsOf;
    assert form.Valid() by { MeantIsValid(form, num, head, calls, gap); }
    StreamIsLong(form, pre, head, calls, gap, suffix, s, later);
    StreamGrows(form, num, pre, head, calls, gap, suffix, s, later, before, content, reasoning);
    LastOfStream(form, num, pre, head, calls, gap, suffix, s, later, before, content, reasoning);
    CutReachesWhole(form, num, pre, head, calls, gap, suffix, LastCut(s, later), end, before, content, reasoning);
    var first := LiveMsg(form, num, |pre|, before, content, reasoning, s);
    var msgs := LiveMsgs(form, num, |pre|, before, content, reasoning, later);
    var final := FinalMsg(form, num, |pre|, before, content, reasoning, end);
    RunGrowsOn(first, msgs, final);
    ChatDiff.DiffsTelescope(first, msgs + [final]);
  }

  /** The four forms of the repository that this is about. */
  lemma StreamedForms()
    ensures LiveForm(MINIMAX) && LiveForm(QWEN3_CODER) && LiveForm(SEED_OSS) && LiveForm(GLM_4_5)
  {
    hide Streamable;
    Glm45Streams();
    MinimaxStreams();
    Qwen3CoderStreams();
    SeedOssStreams();
  }

  // ------------------------------------------------------------------------- a cut that is taken back

  /** A string that is an escaped letter. */
  const LETTER := "\"\\u00e9\""

  /** One call with one argument. */
  function OneCall(num: string -> string): PrintedCall {
    PrintedCall("", "f", [LetterArg(num)], "")
  }

  function LetterArg(num: string -> string): PrintedArg {
    PrintedArg("", "a", "", LETTER, Some(JsonDump.Dumped(LETTER, num)))
  }

  const FRONT := MINIMAX.scopeStart + (MINIMAX.toolStart + ("f" + MINIMAX.toolSep + (MINIMAX.keyStart + ("a" + MINIMAX.keyValSep))))

  lemma LetterRuns()
    ensures LETTER[..6] == "\"\\u00e" && LETTER[..7] == "\"\\u00e9" && |LETTER| == 8
    ensures JsonAcceptor.Run(LETTER[..6]) == JsonAcceptor.Pda(JsonAcceptor.InStr(false, JsonAcceptor.Hex("00e", false)), [])
    ensures JsonAcceptor.Run(LETTER[..7]) == JsonAcceptor.Pda(JsonAcceptor.InStr(false, JsonAcceptor.Plain), [])
    ensures JsonAcceptor.Accepts(LETTER)
  {
    hide JsonAcceptor.RunFrom, JsonAcceptor.Step;
    var s := LETTER[..6];
    assert s == "\"\\u" + "00e";
    JsonAcceptor.RunConcat(JsonAcceptor.INIT, "\"\\u", "00e");
    LetterOpens();
    LetterDigits();
    assert LETTER[..7] == s + ['9'] && LETTER == s + ['9'] + ['"'];
    JsonAcceptor.RunSnoc(JsonAcceptor.INIT, s, '9');
    JsonAcceptor.RunSnoc(JsonAcceptor.INIT, s + ['9'], '"');
    LetterEnds();
  }

  lemma LetterOpens()
    ensures JsonAcceptor.RunFrom(JsonAcceptor.INIT, "\"\\u") == JsonAcceptor.Pda(JsonAcceptor.InStr(false, JsonAcceptor.Hex("", false)), [])
  {
    hide JsonAcceptor.RunFrom;
    JsonAcceptor.Run3(JsonAcceptor.INIT, '"', '\\', 'u');
  }

  lemma LetterDigits()
    ensures JsonAcceptor.RunFrom(JsonAcceptor.Pda(JsonAcceptor.InStr(false, JsonAcceptor.Hex("", false)), []), "00e") ==
            JsonAcceptor.Pda(JsonAcceptor.InStr(false, JsonAcceptor.Hex("00e", false)), [])
  {
    hide JsonAcceptor.RunFrom;
    JsonAcceptor.Run3(JsonAcceptor.Pda(JsonAcceptor.InStr(false, JsonAcceptor.Hex("", false)), []), '0', '0', 'e');
    assert "" + ['0'] == "0" && "0" + ['0'] == "00" && "00" + ['e'] == "00e";
  }

  lemma LetterEnds()
    ensures var p := JsonAcceptor.Pda(JsonAcceptor.InStr(false, JsonAcceptor.Hex("00e", false)), []);
            var q := JsonAcceptor.Step(p, '9');
            && q == JsonAcceptor.Pda(JsonAcceptor.InStr(false, JsonAcceptor.Plain), [])
            && JsonAcceptor.Step(q, '"') == JsonAcceptor.Pda(JsonAcceptor.After, [])
  {
    assert "00e"[0] == '0' && "00e"[1] == '0';
  }

  /** Cut in the escape it is shown as text, and one character later it waits. */
  lemma LetterWavers(form: Form)
    ensures Calm(form, LETTER, 6) && !WaitsCut(form, LETTER, 6)
    ensures Calm(form, LETTER, 7) && WaitsCut(form, LETTER, 7)
    ensures JsonText(LETTER)
  {
    hide JsonAcceptor.RunFrom, JsonHealer.Parse, LikePrimitive, Calm, WaitsCut, JsonCuts.Blind, JsonText, CutText;
    LetterRuns();
    LetterCuts(form);
    AllOfIt(LETTER);
    LetterShows(form);
    LetterIsSeen(LETTER[..7]);
    AliveWaits(form, LETTER, 7);
    CalmWhenWaiting(form, LETTER, 7);
    LetterIsText();
  }

  lemma LetterCuts(form: Form)
    ensures CutText(form, LETTER, 6) == LETTER[..6] && CutText(form, LETTER, 7) == LETTER[..7]
  {
  }

  lemma CalmWhenWaiting(form: Form, value: string, k: nat)
    requires k <= |value| + |form.valEnd| && WaitsCut(form, value, k)
    ensures Calm(form, value, k)
  {
    hide JsonVerdict.VerdictOf, LikePrimitive, AllSpace;
  }

  lemma LetterIsSeen(t: string)
    requires JsonAcceptor.Run(t) == JsonAcceptor.Pda(JsonAcceptor.InStr(false, JsonAcceptor.Plain), [])
    ensures !JsonCuts.Blind(t)
  {
    hide JsonAcceptor.RunFrom;
  }

  /** In the escape the reader is blind, and a quote begins no literal or number. */
  lemma LetterShows(form: Form)
    ensures Calm(form, LETTER, 6) && !WaitsCut(form, LETTER, 6)
  {
    hide JsonAcceptor.RunFrom, JsonHealer.Parse, LikePrimitive, WaitsCut, Calm;
    LetterRuns();
    LetterCuts(form);
    JsonCuts.AliveParses(LETTER[..6], ANY);
    WaitsWith(form, LETTER, 6, ANY);
    QuoteIsNoPrimitive(LETTER[..6]);
  }

  lemma LetterIsText()
    ensures JsonText(LETTER)
  {
    hide JsonAcceptor.RunFrom;
    LetterRuns();
    LetterReads();
    AllOfIt(LETTER);
  }

  lemma QuoteIsNoPrimitive(t: string)
    requires |t| >= 6 && t[0] == '"'
    ensures !LikePrimitive(t)
  {
    hide SkipDigits, SkipSpaces, View;
    WholeView(t);
    assert "a"[0] != "null"[0] && "a"[0] != "true"[0] && "a"[0] != "false"[0];
  }

  lemma {:induction false} AsciiIsWhole(s: string)
    requires Ascii(s)
    ensures Utf8.WellFormed(s)
    decreases |s|
  {
    if s != "" { AsciiIsWhole(s[1..]); }
  }

  lemma FrontIsAscii(k: nat)
    requires k <= 8
    ensures Utf8.WellFormed(FRONT + LETTER[..k]) && Utf8.WellFormed(LETTER[..k]) && Utf8.WellFormed(LETTER) && Utf8.WellFormed("a")
  {
    hide Utf8.WellFormed, Ascii;
    FrontParts();
    AsciiBoth(FRONT, LETTER[..k]);
    AsciiIsWhole(FRONT + LETTER[..k]);
    AsciiIsWhole(LETTER[..k]);
    AsciiIsWhole(LETTER);
    AsciiIsWhole("a");
  }

  predicate Ascii(s: string) {
    forall i :: 0 <= i < |s| ==> s[i] as int < 0x80
  }

  lemma AsciiBoth(a: string, b: string)
    requires Ascii(a) && Ascii(b)
    ensures Ascii(a + b)
  {
  }

  lemma FrontParts()
    ensures Ascii(FRONT) && Ascii(LETTER) && Ascii("a") && forall k :: 0 <= k <= 8 ==> Ascii(LETTER[..k])
  {
    assert Ascii(MINIMAX.scopeStart) && Ascii(MINIMAX.toolStart) && Ascii(MINIMAX.toolSep) && Ascii(MINIMAX.keyStart) && Ascii(MINIMAX.keyValSep);
    assert Ascii(LETTER);
    hide Ascii;
    AsciiBoth("a", MINIMAX.keyValSep);
    AsciiBoth(MINIMAX.keyStart, "a" + MINIMAX.keyValSep);
    AsciiBoth("f", MINIMAX.toolSep);
    AsciiBoth("f" + MINIMAX.toolSep, MINIMAX.keyStart + ("a" + MINIMAX.keyValSep));
    AsciiBoth(MINIMAX.toolStart, "f" + MINIMAX.toolSep + (MINIMAX.keyStart + ("a" + MINIMAX.keyValSep)));
    AsciiBoth(MINIMAX.scopeStart, MINIMAX.toolStart + ("f" + MINIMAX.toolSep + (MINIMAX.keyStart + ("a" + MINIMAX.keyValSep))));
  }

  lemma LetterIsMeant(num: string -> string)
    ensures MeantCalls(MINIMAX, num, "", [OneCall(num)], "")
  {
    hide LiveForm, CleanCall, Meant;
    StreamedForms();
    LetterValueMeant(num);
    LetterIsClean(num);
    OneMeant(LetterArg(num), num);
  }

  lemma OneMeant(a: PrintedArg, num: string -> string)
    requires Meant(a, num)
    ensures AllMeant([a], num)
  {
    hide Meant;
  }

  lemma LetterValueMeant(num: string -> string)
    ensures Meant(LetterArg(num), num)
  {
    hide JsonDump.Dumped, JsonText, ReadTo;
    LetterWavers(MINIMAX);
    LetterReads();
    AllOfIt(LETTER);
  }

  lemma AllOfIt(s: string)
    ensures s[..|s|] == s
  {
  }

  lemma LetterReads()
    ensures ReadTo(LETTER) == |LETTER|
  {
    hide JsonAcceptor.RunFrom;
    LetterRuns();
    JsonSax.ReachAll(JsonAcceptor.INIT, LETTER);
  }

  lemma LetterIsClean(num: string -> string)
    ensures CleanCall(MINIMAX, OneCall(num))
  {
    hide JsonDump.Dumped, Utf8.WellFormed;
    FrontIsAscii(0);
    StripIs("f", "f", 0, 1);
  }

  /** Of one call with one argument, without gaps, `k` characters of the value are there. */
  lemma PartOfOne(form: Form, c: PrintedCall, a: PrintedArg, k: nat)
    requires c.gap == "" && c.args == [a] && a.gap == "" && form.keyValSep2.None? && k < |a.value| + |form.valEnd| && form.keyStart != ""
    ensures var m := |form.toolStart| + |c.name| + |form.toolSep| + |form.keyStart| + |a.key| + |form.keyValSep| + k;
            PartOfCalls(form, [c], m) == Some(Part(a, k))
  {
    hide ArgText, BodyText;
    var n := |c.name| + |form.toolSep| + |form.keyStart| + |a.key| + |form.keyValSep| + k;
    assert |ArgText(form, a)| == |form.keyStart| + |a.key| + |form.keyValSep| + |a.value| + |form.valEnd| by { OneArgSize(form, a); }
    assert |BodyText(form, c)| > n by { OneBodySize(form, c, a); }
  }

  lemma OneArgSize(form: Form, a: PrintedArg)
    requires a.gap == "" && form.keyValSep2.None?
    ensures ArgText(form, a) == form.keyStart + (a.key + form.keyValSep + (a.value + form.valEnd))
  {
    assert "" + (a.value + form.valEnd) == a.value + form.valEnd && "" + form.keyStart == form.keyStart;
  }

  lemma OneBodySize(form: Form, c: PrintedCall, a: PrintedArg)
    requires c.args == [a]
    ensures BodyText(form, c) == c.name + form.toolSep + (ArgText(form, a) + (c.gapEnd + form.toolEnd))
  {
    hide ArgText;
    assert [a][1..] == [];
    assert ArgsText(form, []) == "" && ArgText(form, a) + "" == ArgText(form, a);
  }

  lemma TextOfOne(form: Form, c: PrintedCall, a: PrintedArg, k: nat, tail: string)
    requires c.gap == "" && c.args == [a] && a.gap == "" && form.keyValSep2.None? && k <= |a.value|
    ensures form.toolStart + (c.name + form.toolSep + (form.keyStart + (a.key + form.keyValSep))) + a.value[..k] <= CallsText(form, [c], tail)
  {
    hide ArgText, BodyText;
    OneArgSize(form, a);
    OneBodySize(form, c, a);
    assert [c][1..] == [] && CallsText(form, [], tail) == tail;
    var front := form.toolStart + (c.name + form.toolSep + (form.keyStart + (a.key + form.keyValSep)));
    var rest := form.valEnd + (c.gapEnd + form.toolEnd) + tail;
    assert CallsText(form, [c], tail) == form.toolStart + (BodyText(form, c) + tail);
    Unnest(form.toolStart, c.name + form.toolSep, form.keyStart, a.key + form.keyValSep, a.value, form.valEnd, c.gapEnd + form.toolEnd, tail);
    assert CallsText(form, [c], tail) == front + (a.value + rest);
    assert a.value + rest == a.value[..k] + (a.value[k..] + rest);
  }

  lemma Unnest(a: string, b: string, c: string, d: string, e: string, f: string, g: string, h: string)
    ensures a + (b + (c + (d + (e + f)) + g) + h) == a + (b + (c + d)) + (e + (f + g + h))
  {
  }

  /** The text of one call up to its value. */
  function FrontText(form: Form, c: PrintedCall, a: PrintedArg): string {
    form.scopeStart + (form.toolStart + (c.name + form.toolSep + (form.keyStart + (a.key + form.keyValSep))))
  }

  lemma OnePartOf(form: Form, c: PrintedCall, a: PrintedArg, k: nat, tail: string)
    requires c.gap == "" && c.args == [a] && a.gap == "" && form.keyValSep2.None? && k < |a.value| && form.keyStart != ""
    requires HeadText(form, "") == form.scopeStart
    ensures CutPart(form, "", "", [c], FrontText(form, c, a) + a.value[..k]) == Some(Part(a, k))
    ensures FrontText(form, c, a) + a.value[..k] <= "" + (HeadText(form, "") + CallsText(form, [c], tail))
  {
    hide PartOfCalls, CallsText, HeadText;
    PartOfOne(form, c, a, k);
    TextOfOne(form, c, a, k, tail);
    var front := form.toolStart + (c.name + form.toolSep + (form.keyStart + (a.key + form.keyValSep)));
    assert FrontText(form, c, a) + a.value[..k] == form.scopeStart + (front + a.value[..k]);
  }

  lemma OnePart(num: string -> string, k: nat)
    requires k < 8
    ensures CutPart(MINIMAX, "", "", [OneCall(num)], FRONT + LETTER[..k]) == Some(Part(LetterArg(num), k))
    ensures FRONT + LETTER[..k] <= "" + (HeadText(MINIMAX, "") + CallsText(MINIMAX, [OneCall(num)], "" + MINIMAX.scopeEnd + ""))
  {
    hide JsonDump.Dumped, PartOfCalls, CallsText, HeadText, CutPart;
    MinimaxHead();
    assert FrontText(MINIMAX, OneCall(num), LetterArg(num)) == FRONT;
    assert |LETTER| == 8;
    OnePartOf(MINIMAX, OneCall(num), LetterArg(num), k, "" + MINIMAX.scopeEnd + "");
  }

  lemma MinimaxHead()
    ensures HeadText(MINIMAX, "") == MINIMAX.scopeStart
  {
    assert MINIMAX.scopeStart[0] == '<';
  }

  /** A CUT THAT IS TAKEN BACK. With the form of MiniMax a string is shown as text while it is cut in an escape, and not at all one
      character later, so that no deltas lead from one message to the other, whatever markers are drawn. */
  lemma EscapeIsTakenBack(num: string -> string, m: string, n: string, before: seq<ToolCall>, content: string, reasoning: string)
    requires JsonMarkers.DigitMarker(m) && JsonMarkers.DigitMarker(n)
    ensures var x, y := CutReader(Cut(FRONT + LETTER[..6], m), num), CutReader(Cut(FRONT + LETTER[..7], n), num);
            && x.Valid() && y.Valid()
            && var now := Msg(content, reasoning, TryConsume(x, MINIMAX, 0, before).calls);
               var after := Msg(content, reasoning, TryConsume(y, MINIMAX, 0, before).calls);
               !(ChatDiff.Diffs(now, after).Ok? && ChatDiff.ApplyAll(now, ChatDiff.Diffs(now, after).value) == after)
  {
    hide PartOfCalls, CallsText, CutPart, TryJson, TryConsume, ChatDiff.Diffs, ChatDiff.ApplyAll, Calm, WaitsCut, MeantCalls, Utf8.WellFormed,
      Written, CleanText, HeadText, OneCall, LetterArg, Beginning;
    var c := [OneCall(num)];
    var s, u := Cut(FRONT + LETTER[..6], m), Cut(FRONT + LETTER[..7], n);
    ReaderIsValid(s.text, true, false, Setup(m, num));
    ReaderIsValid(u.text, true, false, Setup(n, num));
    LetterIsMeant(num);
    LetterBegins(num, 6);
    LetterBegins(num, 7);
    CutIsWritten(MINIMAX, num, "", "", c, "", "", s);
    CutIsWritten(MINIMAX, num, "", "", c, "", "", u);
    LetterWaits(num);
    LetterParts(num, m, n);
    LetterIsShown(num);
    StreamedValueExactly(CutReader(s, num), CutReader(u, num), MINIMAX, "", "", c, "", "", before, content, reasoning, false, true);
  }

  lemma LetterBegins(num: string -> string, k: nat)
    requires k == 6 || k == 7
    ensures Beginning(MINIMAX, "", "", [OneCall(num)], "", "", FRONT + LETTER[..k])
  {
    hide PartOfCalls, CallsText, CutPart, Calm, Utf8.WellFormed, HeadText, WaitsCut, JsonText, JsonDump.Dumped;
    OnePart(num, k);
    FrontIsAscii(k);
    LetterWavers(MINIMAX);
  }

  lemma LetterWaits(num: string -> string)
    ensures WaitsPart(MINIMAX, CutPart(MINIMAX, "", "", [OneCall(num)], FRONT + LETTER[..6])) == false
    ensures WaitsPart(MINIMAX, CutPart(MINIMAX, "", "", [OneCall(num)], FRONT + LETTER[..7])) == true
  {
    hide PartOfCalls, CutPart, Calm, WaitsCut, JsonText, JsonDump.Dumped, CallsText, HeadText;
    OnePart(num, 6);
    OnePart(num, 7);
    LetterWavers(MINIMAX);
  }

  lemma LetterParts(num: string -> string, m: string, n: string)
    ensures var x, y := CutReader(Cut(FRONT + LETTER[..6], m), num), CutReader(Cut(FRONT + LETTER[..7], n), num);
            && There(y, MINIMAX, "", "") - There(x, MINIMAX, "", "") == 1
            && PartOfCalls(MINIMAX, [OneCall(num)], There(x, MINIMAX, "", "")) == Some(Part(LetterArg(num), 6))
            && LetterArg(num).value == LETTER && |LETTER| == 8 && x.input <= y.input
  {
    hide PartOfCalls, JsonDump.Dumped, CallsText, HeadText;
    OnePart(num, 6);
    MinimaxHead();
    assert |LETTER[..6]| == 6 && |LETTER[..7]| == 7 && LETTER[..7][..6] == LETTER[..6];
  }

  lemma LetterIsShown(num: string -> string)
    ensures !KeepsShowing(MINIMAX, Part(LetterArg(num), 6), false, true)
  {
    hide Utf8.TruncateSafe, Utf8.WellFormed, JsonDump.Dumped;
    FrontIsAscii(6);
    WholeIsSafe(LETTER[..6]);
    assert LETTER[..6][0] == '"';
  }
}
