/** Forms whose values are JSON with the JSON reader of the message parser: which calls are read back, and what becomes of calls
    that are whole JSON objects. */
module XmlJsonReader {
  import opened Chars
  import opened Wrappers
  import opened Strings
  import opened ChatParser
  import opened XmlToolCalls
  import opened XmlRoundTrip
  import opened XmlForms
  import opened XmlReader
  import opened XmlLive
  import opened XmlLastEnds
  import JsonHealer
  import JsonDump
  import JsonCuts

  // ------------------------------------------------------------------------------------ values

  /** A document, or a document and one brace too many, which makes it text. */
  predicate Member(form: Form, num: string -> string, a: PrintedArg)
    requires form.keyValSep != ""
  {
    && AllSpace(a.gap) && form.keyValSep[0] !in a.key
    && match a.json
       case Some(dump) => JsonText(a.value) && dump == JsonDump.Dumped(a.value[..ReadTo(a.value)], num)
       case None => a.value != "" && a.value[|a.value| - 1] == '}' && JsonText(a.value[..|a.value| - 1])
  }

  lemma JsonMemberIsRead(input: string, kimi: bool, setup: Setup, form: Form, pos: nat, a: PrintedArg, e: string, rest: string)
    requires Reader(input, false, kimi, setup).Valid() && JsonForm(form) && Member(form, setup.num, a) && a.json.Some?
    requires pos <= |input| && input[pos..] == a.value + (e + rest) && e != "" && e[0] in {',', '}'}
    ensures ReadsAs(Reader(input, false, kimi, setup), form, Placed(pos, a))
  {
    hide JsonHealer.Parse, JsonText, JsonDump.Dumped, Structured, AllSpace, ReadTo, Apart, OwnEnd, MaybePrimitive;
    var n := ReadTo(a.value);
    HeadOf(input, pos, a.value, e, rest);
    assert input[pos..][|a.value|] == e[0];
    JsonDecided(a.value, input[pos..], setup.marker);
    BlankBehind(a.value);
    ValueTail(input, pos, a.value, e + rest, n);
    CommaIsSeen(form);
  }

  lemma CommaIsSeen(form: Form)
    requires JsonForm(form)
    ensures !AllSpace(form.valEnd)
  {
    hide Apart, OwnEnd;
    assert !IsSpace(form.valEnd[0]);
  }

  lemma BraceMemberIsRead(input: string, kimi: bool, setup: Setup, form: Form, pos: nat, a: PrintedArg, more: string)
    requires Reader(input, false, kimi, setup).Valid() && JsonForm(form) && Member(form, setup.num, a) && a.json.None?
    requires pos <= |input| && input[pos..] == a.value + more
    ensures ReadsAs(Reader(input, false, kimi, setup), form, Placed(pos, a))
  {
    hide JsonHealer.Parse, JsonText, JsonDump.Dumped, Structured, AllSpace, ReadTo, Apart, OwnEnd, MaybePrimitive;
    var v := a.value[..|a.value| - 1];
    var n := ReadTo(v);
    assert input[pos..][..|v|] == v && input[pos..][|v|] == a.value[|v|] == '}';
    JsonDecided(v, input[pos..], setup.marker);
    ValueTail(input, pos, a.value, more, n);
    BraceIsSeen(a.value, n);
    CommaIsSeen(form);
  }

  lemma BraceIsSeen(value: string, n: nat)
    requires value != "" && value[|value| - 1] == '}' && n < |value|
    ensures !AllSpace(value[n..])
  {
    assert value[n..][|value| - 1 - n] == '}';
  }

  lemma MemberIsRead(input: string, kimi: bool, setup: Setup, form: Form, pos: nat, a: PrintedArg, e: string, rest: string)
    requires Reader(input, false, kimi, setup).Valid() && JsonForm(form) && Member(form, setup.num, a)
    requires pos <= |input| && input[pos..] == a.value + (e + rest) && e != "" && e[0] in {',', '}'}
    ensures ReadsAs(Reader(input, false, kimi, setup), form, Placed(pos, a))
  {
    hide *;
    if a.json.Some? {
      JsonMemberIsRead(input, kimi, setup, form, pos, a, e, rest);
    } else {
      BraceMemberIsRead(input, kimi, setup, form, pos, a, e + rest);
    }
  }

  ghost predicate AllMembers(form: Form, num: string -> string, args: seq<PrintedArg>)
    requires form.keyValSep != ""
  {
    forall i :: 0 <= i < |args| ==> Member(form, num, args[i])
  }

  lemma MembersAreOk(form: Form, num: string -> string, args: seq<PrintedArg>)
    requires form.keyValSep != "" && AllMembers(form, num, args)
    ensures MembersOk(form, args)
  {
    hide First, JsonText, JsonDump.Dumped, AllSpace;
    forall i | 0 <= i < |args| ensures AllSpace(args[i].gap) && First(args[i].key, form.keyValSep) {
      assert Member(form, num, args[i]);
      FreshFirst(args[i].key, form.keyValSep);
    }
  }

  lemma SeparatorThere(form: Form)
    requires JsonForm(form)
    ensures form.Valid() && form.keyValSep != "" && form.toolSep != ""
  {
    hide Apart, OwnEnd;
  }

  lemma ValueInText(env: Env, form: Form, pos: nat, a: PrintedArg, last: bool, e: string, rest: string)
    requires JsonForm(form) && pos <= |env.input|
    requires env.input[pos..] == a.gap + form.keyStart + (a.key + form.keyValSep + (a.value + (e + rest)))
    ensures var p := ValuePos(form, pos, a); p <= |env.input| && env.input[p..] == a.value + (e + rest)
  {
    hide Apart, OwnEnd;
    var front := a.gap + form.keyStart + (a.key + form.keyValSep);
    assert a.gap + form.keyStart + (a.key + form.keyValSep + (a.value + (e + rest))) == front + (a.value + (e + rest));
    RestOf(env.input, pos, front, a.value + (e + rest));
  }

  lemma {:induction false} MembersAreRead(input: string, kimi: bool, setup: Setup, form: Form, pos: nat, args: seq<PrintedArg>,
                                          e: string, rest: string)
    requires Reader(input, false, kimi, setup).Valid() && JsonForm(form) && form.keyValSep != "" && AllMembers(form, setup.num, args)
    requires pos <= |input| && input[pos..] == MembersText(form, args) + (e + rest) && e != "" && e[0] == '}'
    ensures AllRead(Reader(input, false, kimi, setup), form, MemberPlaces(form, pos, args))
    decreases |args|
  {
    hide Member, ReadsAs, AllRead, MemberText, JsonForm, ValuePos, TryJson, MembersText;
    var env := Reader(input, false, kimi, setup);
    if args == [] {
      NothingRead(env, form);
    } else {
      var a, last := args[0], |args| == 1;
      FirstMember(form, args, e + rest);
      RestOf(input, pos, MemberText(form, a, last), MembersText(form, args[1..]) + (e + rest));
      assert forall i :: 0 <= i < |args| - 1 ==> args[1..][i] == args[i + 1];
      MembersAreRead(input, kimi, setup, form, pos + |MemberText(form, a, last)|, args[1..], e, rest);
      FirstMemberIsRead(input, kimi, setup, form, pos, args, e, rest);
      ReadFirst(env, form, Placed(ValuePos(form, pos, a), a), MemberPlaces(form, pos + |MemberText(form, a, last)|, args[1..]));
    }
  }

  lemma NothingRead(env: Env, form: Form)
    requires env.Valid()
    ensures AllRead(env, form, [])
  {
  }

  lemma FirstMemberIsRead(input: string, kimi: bool, setup: Setup, form: Form, pos: nat, args: seq<PrintedArg>, e: string, rest: string)
    requires Reader(input, false, kimi, setup).Valid() && JsonForm(form) && form.keyValSep != "" && AllMembers(form, setup.num, args)
    requires args != [] && e != "" && e[0] == '}'
    requires pos <= |input| && input[pos..] == MembersText(form, args) + (e + rest)
    ensures ReadsAs(Reader(input, false, kimi, setup), form, Placed(ValuePos(form, pos, args[0]), args[0]))
  {
    hide Member, ReadsAs, MemberText, JsonForm, ValuePos, TryJson, MembersText;
    var env := Reader(input, false, kimi, setup);
    var a, last := args[0], |args| == 1;
    var after := MembersText(form, args[1..]) + (e + rest);
    FirstMember(form, args, e + rest);
    ValueEnds(form);
    if last {
      NoMembers(form, args[1..], e + rest);
      MemberEnds(form, a, last, e, rest);
      ValueInText(env, form, pos, a, last, e, rest);
      MemberIsRead(input, kimi, setup, form, ValuePos(form, pos, a), a, e, rest);
    } else {
      MemberEnds(form, a, last, form.valEnd, after);
      ValueInText(env, form, pos, a, last, form.valEnd, after);
      MemberIsRead(input, kimi, setup, form, ValuePos(form, pos, a), a, form.valEnd, after);
    }
  }

  lemma NoMembers(form: Form, args: seq<PrintedArg>, tail: string)
    requires args == []
    ensures MembersText(form, args) + tail == tail
  {
  }

  lemma ValueEnds(form: Form)
    requires JsonForm(form)
    ensures form.valEnd != "" && form.valEnd[0] == ',' && form.toolEnd != "" && form.toolEnd[0] == '}'
    ensures forall last: bool :: CallEnd(form, last) != "" && CallEnd(form, last)[0] == '}'
  {
    hide Apart;
  }

  // ------------------------------------------------------------------------------------- calls

  /** A name that no literal ends too early. */
  predicate ListedName(env: Env, form: Form, name: string)
    requires form.toolSep != ""
  {
    && name != "" && Strip(name) == name && NameOf(env, name) != "" && form.toolSep[0] !in name && '}' !in name
  }

  /** A call whose values are documents. */
  ghost predicate Listed(env: Env, form: Form, num: string -> string, c: PrintedCall)
    requires form.keyValSep != "" && form.toolSep != ""
  {
    && AllSpace(c.gap) && AllSpace(c.gapEnd) && (c.args != [] ==> c.gapEnd == "")
    && ListedName(env, form, c.name) && AllMembers(form, num, c.args)
  }

  lemma NameIsFree(form: Form, name: string, d: string)
    requires d != "" && d[0] !in name
    ensures Find(name, d, 0).None?
  {
    hide Find;
    FindSpec(name, d, 0);
    if Find(name, d, 0).Some? { BeginsWith(name, d, Find(name, d, 0).value); }
  }

  lemma ListedIsOk(env: Env, form: Form, num: string -> string, c: PrintedCall, last: bool, following: string)
    requires JsonForm(form) && form.keyValSep != "" && form.toolSep != "" && Listed(env, form, num, c)
    requires TextsUnbroken(form, c.args, c.gapEnd + CallEnd(form, last) + following)
    ensures MemberCallOk(env, form, c, last, following)
  {
    hide Find, First, Strip, AllSpace, TextsUnbroken, MembersOk, AllMembers, Apart, KimiName;
    MembersAreOk(form, num, c.args);
    FreshFirst(c.name, form.toolSep);
    NameIsFree(form, c.name, form.toolEnd);
    if form.lastToolEnd.Some? { NameIsFree(form, c.name, form.lastToolEnd.value); }
  }

  ghost predicate AllListed(env: Env, form: Form, num: string -> string, calls: seq<PrintedCall>)
    requires form.keyValSep != "" && form.toolSep != ""
  {
    forall i :: 0 <= i < |calls| ==> Listed(env, form, num, calls[i])
  }

  /** The texts among the values hold no closing literal. */
  predicate ListUnbroken(form: Form, calls: seq<PrintedCall>, tail: string)
    decreases |calls|
  {
    calls != [] ==>
      && TextsUnbroken(form, calls[0].args, calls[0].gapEnd + CallEnd(form, |calls| == 1) + ListText(form, calls[1..], tail))
      && ListUnbroken(form, calls[1..], tail)
  }

  lemma {:induction false} ListIsOk(env: Env, form: Form, num: string -> string, calls: seq<PrintedCall>, tail: string)
    requires JsonForm(form) && form.keyValSep != "" && form.toolSep != "" && AllListed(env, form, num, calls)
    requires ListUnbroken(form, calls, tail)
    ensures ListOk(env, form, calls, tail)
    decreases |calls|
  {
    hide Listed, MemberCallOk, JsonForm, TextsUnbroken, ListText;
    if calls != [] {
      ListedIsOk(env, form, num, calls[0], |calls| == 1, ListText(form, calls[1..], tail));
      assert forall i :: 0 <= i < |calls| - 1 ==> calls[1..][i] == calls[i + 1];
      ListIsOk(env, form, num, calls[1..], tail);
    }
  }

  lemma FirstListed(form: Form, calls: seq<PrintedCall>, tail: string)
    requires calls != []
    ensures var c, last, following := calls[0], |calls| == 1, ListText(form, calls[1..], tail);
            && ListText(form, calls, tail) == c.gap + form.toolStart + CallBody(form, c, last) + following
            && ListText(form, calls, tail) ==
                 c.gap + form.toolStart + c.name + form.toolSep + (MembersText(form, c.args) + (c.gapEnd + (CallEnd(form, last) + following)))
  {
    hide MembersText, CallEnd;
    var c, last, following := calls[0], |calls| == 1, ListText(form, calls[1..], tail);
    Regrouped(c.gap + form.toolStart, c.name, form.toolSep, MembersText(form, c.args), c.gapEnd + CallEnd(form, last), following);
    assert c.gapEnd + CallEnd(form, last) + following == c.gapEnd + (CallEnd(form, last) + following);
  }

  lemma {:induction false} ListIsRead(input: string, kimi: bool, setup: Setup, form: Form, pos: nat, calls: seq<PrintedCall>, tail: string)
    requires Reader(input, false, kimi, setup).Valid() && JsonForm(form) && form.keyValSep != "" && form.toolSep != ""
    requires AllListed(Reader(input, false, kimi, setup), form, setup.num, calls)
    requires pos <= |input| && input[pos..] == ListText(form, calls, tail)
    ensures AllRead(Reader(input, false, kimi, setup), form, ListPlaces(form, pos, calls))
    decreases |calls|
  {
    hide ReadsAs, AllRead, CallBody, JsonForm, TryJson, MembersText, MemberPlaces, ListText, CallEnd, AllMembers, ListedName, AllSpace;
    var env := Reader(input, false, kimi, setup);
    if calls == [] {
      NothingRead(env, form);
    } else {
      var c, last, following := calls[0], |calls| == 1, ListText(form, calls[1..], tail);
      var front, whole := c.gap + form.toolStart + c.name + form.toolSep, c.gap + form.toolStart + CallBody(form, c, last);
      FirstListed(form, calls, tail);
      RestOf(input, pos, whole, following);
      assert forall i :: 0 <= i < |calls| - 1 ==> calls[1..][i] == calls[i + 1];
      ListIsRead(input, kimi, setup, form, pos + |whole|, calls[1..], tail);
      assert Listed(env, form, setup.num, c);
      RestOf(input, pos, front, MembersText(form, c.args) + (c.gapEnd + (CallEnd(form, last) + following)));
      CallIsRead(input, kimi, setup, form, pos + |front|, c, last, following);
      ReadBoth(env, form, MemberPlaces(form, pos + |front|, c.args), ListPlaces(form, pos + |whole|, calls[1..]));
    }
  }

  lemma CallIsRead(input: string, kimi: bool, setup: Setup, form: Form, from: nat, c: PrintedCall, last: bool, following: string)
    requires Reader(input, false, kimi, setup).Valid() && JsonForm(form) && form.keyValSep != "" && form.toolSep != ""
    requires Listed(Reader(input, false, kimi, setup), form, setup.num, c)
    requires from <= |input| && input[from..] == MembersText(form, c.args) + (c.gapEnd + (CallEnd(form, last) + following))
    ensures AllRead(Reader(input, false, kimi, setup), form, MemberPlaces(form, from, c.args))
  {
    hide AllRead, JsonForm, TryJson, MembersText, CallEnd, AllMembers, ListedName, AllSpace;
    if c.args == [] {
      NothingRead(Reader(input, false, kimi, setup), form);
    } else {
      ValueEnds(form);
      assert c.gapEnd + (CallEnd(form, last) + following) == CallEnd(form, last) + following;
      MembersAreRead(input, kimi, setup, form, from, c.args, CallEnd(form, last), following);
    }
  }

  lemma ListTail(form: Form, gap: string, suffix: string)
    requires JsonForm(form) && AllSpace(gap)
    requires form.scopeEnd == "" ==> gap == "" && !Opens(suffix, form.toolStart)
    ensures TailOk(form, gap, suffix)
  {
    hide Find, First, Opens, OwnEnd;
    if form.scopeEnd == "" {
      assert gap + form.scopeEnd + suffix == suffix;
      EmptyFirst("");
    } else {
      BlankFirst(gap, form.scopeEnd);
      ApartStops(gap, form.scopeEnd, suffix, form.toolStart);
    }
  }

  /** What is printed with documents, and texts that end in a brace, is read as such. */
  lemma ListIsReadBack(input: string, kimi: bool, setup: Setup, form: Form, pre: string, head: string, calls: seq<PrintedCall>, gap: string,
                       suffix: string, before: seq<ToolCall>)
    requires JsonForm(form) && form.keyValSep != "" && AllSpace(head) && AllSpace(gap)
    requires input == pre + (HeadText(form, head) + ListText(form, calls, gap + form.scopeEnd + suffix))
    requires AllListed(Reader(input, false, kimi, setup), form, setup.num, calls) && ListUnbroken(form, calls, gap + form.scopeEnd + suffix)
    requires form.scopeEnd == "" ==> gap == "" && !Opens(suffix, form.toolStart)
    ensures var env := Reader(input, false, kimi, setup);
            && env.Valid() && form.Valid() && |suffix| <= |input|
            && TryConsume(env, form, |pre|, before) == Returns(true, |input| - |suffix|, before + CallsOf(env, form, calls))
  {
    hide *;
    ReaderIsValid(input, false, kimi, setup);
    ReaderIs(input, false, kimi, setup);
    SeparatorThere(form);
    var env, tail := Reader(input, false, kimi, setup), gap + form.scopeEnd + suffix;
    XmlForms.Behind(input, pre, HeadText(form, head), ListText(form, calls, tail));
    ListIsRead(input, kimi, setup, form, |pre| + |HeadText(form, head)|, calls, tail);
    ListIsOk(env, form, setup.num, calls, tail);
    ListTail(form, gap, suffix);
    ParserUndoesList(env, form, pre, head, calls, gap, suffix, before);
  }

  /** All values are documents. */
  predicate AllJson(calls: seq<PrintedCall>) {
    forall i, j :: 0 <= i < |calls| && 0 <= j < |calls[i].args| ==> calls[i].args[j].json.Some?
  }

  lemma {:induction false} JsonUnbroken(form: Form, args: seq<PrintedArg>, tail: string)
    requires forall j :: 0 <= j < |args| ==> args[j].json.Some?
    ensures TextsUnbroken(form, args, tail)
    decreases |args|
  {
    hide Unbroken;
    if args != [] { JsonUnbroken(form, args[1..], tail); }
  }

  lemma {:induction false} AllJsonUnbroken(form: Form, calls: seq<PrintedCall>, tail: string)
    requires AllJson(calls)
    ensures ListUnbroken(form, calls, tail)
    decreases |calls|
  {
    hide TextsUnbroken, ListText;
    if calls != [] {
      JsonUnbroken(form, calls[0].args, calls[0].gapEnd + CallEnd(form, |calls| == 1) + ListText(form, calls[1..], tail));
      AllJsonUnbroken(form, calls[1..], tail);
    }
  }

  /** THE JSON FORMS READ BACK. With the forms of Kimi-K2, Apriel 1.5 and MiMo every list of calls whose values are documents is
      parsed to exactly those calls, each argument being the dump of its document. */
  lemma JsonListReadsBack(input: string, kimi: bool, setup: Setup, form: Form, pre: string, head: string, calls: seq<PrintedCall>,
                          gap: string, suffix: string, before: seq<ToolCall>)
    requires JsonForm(form) && form.keyValSep != "" && AllSpace(head) && AllSpace(gap) && AllJson(calls)
    requires input == pre + (HeadText(form, head) + ListText(form, calls, gap + form.scopeEnd + suffix))
    requires AllListed(Reader(input, false, kimi, setup), form, setup.num, calls)
    requires form.scopeEnd == "" ==> gap == "" && !Opens(suffix, form.toolStart)
    ensures var env := Reader(input, false, kimi, setup);
            && env.Valid() && form.Valid() && |suffix| <= |input|
            && TryConsume(env, form, |pre|, before) == Returns(true, |input| - |suffix|, before + CallsOf(env, form, calls))
  {
    hide *;
    AllJsonUnbroken(form, calls, gap + form.scopeEnd + suffix);
    ListIsReadBack(input, kimi, setup, form, pre, head, calls, gap, suffix, before);
  }

  // ------------------------------------------------------------- calls that are whole JSON objects

  /** The brace behind the arguments, as part of the last value, which it makes text. */
  function LastBraced(args: seq<PrintedArg>): (r: seq<PrintedArg>)
    requires args != []
    ensures |r| == |args|
  {
    var a := args[|args| - 1];
    args[..|args| - 1] + [a.(value := a.value + "}", json := None)]
  }

  function Braced(calls: seq<PrintedCall>): (r: seq<PrintedCall>)
    requires forall i :: 0 <= i < |calls| ==> calls[i].args != []
    ensures |r| == |calls|
    decreases |calls|
  {
    if calls == [] then [] else [calls[0].(args := LastBraced(calls[0].args))] + Braced(calls[1..])
  }

  /** Calls as the template of MiMo writes them: the object of a call is closed behind that of its arguments. */
  function ObjectsText(form: Form, calls: seq<PrintedCall>, suffix: string): string
    decreases |calls|
  {
    if calls == [] then suffix
    else
      var c := calls[0];
      c.gap + form.toolStart + (c.name + form.toolSep + (MembersText(form, c.args) + ("}" + form.toolEnd)) + ObjectsText(form, calls[1..], suffix))
  }

  lemma {:induction false} BraceMoves(form: Form, args: seq<PrintedArg>)
    requires args != []
    ensures MembersText(form, LastBraced(args)) == MembersText(form, args) + "}"
    decreases |args|
  {
    hide ValueEnd;
    var r := LastBraced(args);
    if |args| == 1 {
      assert r[1..] == [] && args[1..] == [];
      BraceInside(form, args[0]);
    } else {
      assert r[1..] == LastBraced(args[1..]) && r[0] == args[0];
      BraceMoves(form, args[1..]);
    }
  }

  lemma BraceInside(form: Form, a: PrintedArg)
    ensures MemberText(form, a.(value := a.value + "}", json := None), true) + "" == MemberText(form, a, true) + "" + "}"
  {
    assert a.value + "}" + "" == a.value + "" + "}";
    assert a.key + form.keyValSep + (a.value + "" + "}") == a.key + form.keyValSep + (a.value + "") + "}";
  }

  lemma {:induction false} ObjectsAreList(form: Form, calls: seq<PrintedCall>, suffix: string)
    requires form.lastToolEnd.None? && forall i :: 0 <= i < |calls| ==> calls[i].args != [] && calls[i].gapEnd == ""
    ensures ObjectsText(form, calls, suffix) == ListText(form, Braced(calls), suffix)
    decreases |calls|
  {
    hide MembersText, LastBraced;
    if calls != [] {
      var c := calls[0];
      BraceMoves(form, c.args);
      ObjectsAreList(form, calls[1..], suffix);
      assert Braced(calls)[1..] == Braced(calls[1..]);
      BraceInBody(MembersText(form, c.args), form.toolEnd);
    }
  }

  lemma BraceInBody(members: string, end: string)
    ensures members + ("}" + end) == members + "}" + ("" + end)
  {
  }

  /** A closing literal that begins neither in a value nor with the braces behind it. */
  lemma NoneBefore(v: string, d: string, tail: string)
    requires Find(v, d, 0).None? && |d| >= 2 && (forall k :: 1 <= k < |d| ==> d[k] != '}') && tail != "" && tail[0] == '}'
    ensures NoneIn(v + "}" + tail, |v| + 1, d)
  {
    hide Find;
    var text := v + "}" + tail;
    FindSpec(v, d, 0);
    assert text[|v|] == '}' && text[|v| + 1] == '}';
    forall j | 0 <= j < |v| + 1 ensures !OccursAt(text, d, j) {
      if OccursAt(text, d, j) {
        if j == |v| {
          CharOf(text, d, j, 1);
        } else if j + |d| > |v| {
          CharOf(text, d, j, |v| - j);
        } else {
          InFront(v, text, d, j);
        }
      }
    }
  }

  lemma CharOf(text: string, d: string, j: nat, k: nat)
    requires OccursAt(text, d, j) && k < |d|
    ensures j + k < |text| && text[j + k] == d[k]
  {
    assert text[j..j + |d|][k] == text[j + k];
  }

  lemma InFront(v: string, text: string, d: string, j: nat)
    requires v <= text && j + |d| <= |v| && OccursAt(text, d, j)
    ensures OccursAt(v, d, j)
  {
    assert text[j..j + |d|] == v[j..j + |d|];
  }

  /** A form without a scope whose calls all end alike, with one brace. */
  predicate Unscoped(form: Form) {
    && JsonForm(form) && form.scopeStart == "" && form.scopeEnd == "" && form.lastToolEnd.None?
    && |form.valEnd| >= 2 && |form.toolEnd| >= 2
    && (forall k :: 1 <= k < |form.valEnd| ==> form.valEnd[k] != '}') && (forall k :: 1 <= k < |form.toolEnd| ==> form.toolEnd[k] != '}')
  }

  lemma MimoIsUnscoped()
    ensures Unscoped(MIMO)
  {
    hide JsonForm;
    JsonForms();
  }

  /** A last value in which no closing literal occurs. */
  predicate Smooth(form: Form, args: seq<PrintedArg>) {
    args != [] && var v := args[|args| - 1].value; Find(v, form.valEnd, 0).None? && Find(v, form.toolEnd, 0).None?
  }

  lemma {:induction false} BracedUnbroken(form: Form, args: seq<PrintedArg>, tail: string)
    requires Unscoped(form) && Smooth(form, args) && (forall j :: 0 <= j < |args| ==> args[j].json.Some?) && tail != "" && tail[0] == '}'
    ensures TextsUnbroken(form, LastBraced(args), tail)
    decreases |args|
  {
    hide Find, NoneIn, MembersText;
    var r := LastBraced(args);
    if |args| == 1 {
      assert r[1..] == [];
      var v := args[0].value;
      NoneBefore(v, form.valEnd, tail);
      NoneBefore(v, form.toolEnd, tail);
      NoMembers(form, r[1..], tail);
      assert v + "}" + ("" + tail) == v + "}" + tail;
    } else {
      assert r[1..] == LastBraced(args[1..]) && r[0] == args[0];
      BracedUnbroken(form, args[1..], tail);
    }
  }

  lemma {:induction false} BracedListUnbroken(form: Form, calls: seq<PrintedCall>, tail: string)
    requires Unscoped(form) && AllJson(calls)
    requires forall i :: 0 <= i < |calls| ==> calls[i].args != [] && Smooth(form, calls[i].args) && calls[i].gapEnd == ""
    ensures ListUnbroken(form, Braced(calls), tail)
    decreases |calls|
  {
    hide TextsUnbroken, ListText, Smooth, LastBraced;
    if calls != [] {
      assert forall i :: 0 <= i < |calls| - 1 ==> calls[1..][i] == calls[i + 1];
      var rest := Braced(calls[1..]);
      var after := ListText(form, rest, tail);
      assert Braced(calls)[1..] == rest;
      assert CallEnd(form, |calls| == 1) == form.toolEnd;
      CharInFront(form.toolEnd, after);
      BracedUnbroken(form, calls[0].args, "" + form.toolEnd + after);
      assert AllJson(calls[1..]) by { JsonBehind(calls); }
      BracedListUnbroken(form, calls[1..], tail);
    }
  }

  lemma CharInFront(d: string, rest: string)
    requires d != ""
    ensures "" + d + rest != "" && ("" + d + rest)[0] == d[0]
  {
  }

  lemma JsonBehind(calls: seq<PrintedCall>)
    requires calls != [] && AllJson(calls)
    ensures AllJson(calls[1..])
  {
    assert forall i :: 0 <= i < |calls| - 1 ==> calls[1..][i] == calls[i + 1];
  }

  lemma BracedMembers(form: Form, num: string -> string, args: seq<PrintedArg>)
    requires form.keyValSep != "" && args != [] && AllMembers(form, num, args) && forall j :: 0 <= j < |args| ==> args[j].json.Some?
    ensures AllMembers(form, num, LastBraced(args))
  {
    hide JsonText, JsonDump.Dumped, AllSpace, ReadTo;
    var r := LastBraced(args);
    var v := args[|args| - 1].value;
    assert (v + "}")[..|v|] == v;
    forall i | 0 <= i < |r| ensures Member(form, num, r[i]) {
      assert Member(form, num, args[i]);
    }
  }

  lemma {:induction false} BracedListed(env: Env, form: Form, num: string -> string, calls: seq<PrintedCall>)
    requires form.keyValSep != "" && form.toolSep != "" && AllListed(env, form, num, calls) && AllJson(calls)
    requires forall i :: 0 <= i < |calls| ==> calls[i].args != []
    ensures AllListed(env, form, num, Braced(calls))
    decreases |calls|
  {
    hide AllMembers, ListedName, LastBraced;
    if calls != [] {
      assert Listed(env, form, num, calls[0]);
      BracedMembers(form, num, calls[0].args);
      JsonBehind(calls);
      assert forall i :: 0 <= i < |calls| - 1 ==> calls[1..][i] == calls[i + 1];
      BracedListed(env, form, num, calls[1..]);
      var r := Braced(calls);
      assert Listed(env, form, num, r[0]);
      forall i | 0 <= i < |r| ensures Listed(env, form, num, r[i]) {
        if i > 0 { assert r[i] == Braced(calls[1..])[i - 1]; }
      }
    }
  }

  lemma {:induction false} BracedAt(calls: seq<PrintedCall>, i: nat)
    requires (forall i :: 0 <= i < |calls| ==> calls[i].args != []) && i < |calls|
    ensures Braced(calls)[i] == calls[i].(args := LastBraced(calls[i].args))
    decreases |calls|
  {
    hide LastBraced;
    if i > 0 { BracedAt(calls[1..], i - 1); }
  }

  /** OBJECTS LEAVE A BRACE. With a form as that of MiMo a call that is a whole JSON object, as the template of that model writes
      it, is parsed with its last argument as a text that ends with the brace of the call, whatever document the argument was. */
  lemma ObjectsLeaveBrace(input: string, setup: Setup, form: Form, pre: string, calls: seq<PrintedCall>, suffix: string,
                          before: seq<ToolCall>)
    requires Unscoped(form) && form.keyValSep != "" && input == pre + ObjectsText(form, calls, suffix) && !Opens(suffix, form.toolStart)
    requires AllListed(Reader(input, false, false, setup), form, setup.num, calls) && AllJson(calls)
    requires forall i :: 0 <= i < |calls| ==> Smooth(form, calls[i].args) && calls[i].gapEnd == ""
    ensures forall i :: 0 <= i < |calls| ==> calls[i].args != []
    ensures var env := Reader(input, false, false, setup);
            && env.Valid() && form.Valid() && |suffix| <= |input|
            && TryConsume(env, form, |pre|, before) == Returns(true, |input| - |suffix|, before + CallsOf(env, form, Braced(calls)))
  {
    hide *;
    SmoothCalls(form, calls);
    UnscopedIs(form);
    ObjectsAreList(form, calls, suffix);
    BracedListUnbroken(form, calls, suffix);
    BracedListed(Reader(input, false, false, setup), form, setup.num, calls);
    ReadsUnscoped(input, setup, form, pre, Braced(calls), suffix, before);
  }

  lemma UnscopedIs(form: Form)
    requires Unscoped(form)
    ensures JsonForm(form) && form.lastToolEnd.None? && form.Valid() && form.keyValSep != "" && form.toolSep != ""
  {
    hide JsonForm;
    SeparatorThere(form);
  }

  lemma SmoothCalls(form: Form, calls: seq<PrintedCall>)
    requires forall i :: 0 <= i < |calls| ==> Smooth(form, calls[i].args) && calls[i].gapEnd == ""
    ensures forall i :: 0 <= i < |calls| ==> calls[i].args != [] && calls[i].gapEnd == ""
  {
    hide Find;
  }

  lemma ReadsUnscoped(input: string, setup: Setup, form: Form, pre: string, calls: seq<PrintedCall>, suffix: string, before: seq<ToolCall>)
    requires Unscoped(form) && form.keyValSep != "" && input == pre + ListText(form, calls, suffix) && !Opens(suffix, form.toolStart)
    requires AllListed(Reader(input, false, false, setup), form, setup.num, calls) && ListUnbroken(form, calls, suffix)
    ensures var env := Reader(input, false, false, setup);
            && env.Valid() && form.Valid() && |suffix| <= |input|
            && TryConsume(env, form, |pre|, before) == Returns(true, |input| - |suffix|, before + CallsOf(env, form, calls))
  {
    hide ListText, Opens, AllListed, ListUnbroken, Reader, TryConsume, CallsOf, JsonForm;
    assert "" + form.scopeEnd + suffix == suffix;
    assert HeadText(form, "") + ListText(form, calls, suffix) == ListText(form, calls, suffix);
    ListIsReadBack(input, false, setup, form, pre, "", calls, "", suffix, before);
  }

  /** What the template of Apriel writes behind the object of a call: the next object, or the end of the list. */
  predicate AfterObject(after: string) {
    ", " <= after || APRIEL.scopeEnd <= after
  }

  /** Where two braces stand the end of a call is not found at the first one. */
  lemma TwoBraces(env: Env, pos: nat, after: string)
    requires !env.partial && pos <= |env.input| && env.input[pos..] == "}" + ("}" + after) && AfterObject(after)
    ensures var f := FindToolEnd(env, APRIEL, pos).found; f.Some? && !AllSpace(f.value.prelude)
  {
    hide Find, FindIn, NoneIn, FindTwo;
    HeadOf(env.input, pos, "", "}", "}" + after);
    var t := env.input[pos..];
    assert t[0] == '}' && t[1] == '}' && env.input[pos] == '}' && env.input[pos + 1] == '}';
    CommaFarther(env, pos, after);
    ScopeFarther(env, pos, after);
  }

  lemma CommaFarther(env: Env, pos: nat, after: string)
    requires !env.partial && pos <= |env.input| && env.input[pos..] == "}" + ("}" + after)
    ensures var f := FindIn(env, pos, APRIEL.toolEnd);
            && (f.Some? ==> |f.value.prelude| >= 1 && f.value.prelude[0] == '}')
            && (", " <= after ==> f.Some?)
  {
    hide Find;
    var t := env.input[pos..];
    assert t[0] == '}' && t[1] == '}';
    if OccursAt(t, APRIEL.toolEnd, 0) { CharOf(t, APRIEL.toolEnd, 0, 1); }
    FoundBehind(env, pos, 1, APRIEL.toolEnd);
    if ", " <= after {
      assert t[1..4] == "}" + after[..2];
      assert OccursAt(t, APRIEL.toolEnd, 1);
    }
  }

  lemma ScopeFarther(env: Env, pos: nat, after: string)
    requires !env.partial && pos <= |env.input| && env.input[pos..] == "}" + ("}" + after)
    ensures var f := FindTwo(env, pos, "}", APRIEL.scopeEnd);
            && (f.Some? ==> |f.value.prelude| >= 1 && f.value.prelude[0] == '}')
            && (APRIEL.scopeEnd <= after ==> f.Some?)
  {
    hide Find, FindIn, FindTwoFrom, MeetsTag, SkipSpaces;
    BraceHere(env, pos, "}" + after);
    BraceHere(env, pos + 1, after);
    NoScopeHere(env.input, pos + 1);
    NextTurn(env, pos, Found("", pos, pos + 1), "}", APRIEL.scopeEnd);
    TwoBehind(env, pos, pos + 1, "}", APRIEL.scopeEnd);
    if APRIEL.scopeEnd <= after {
      ScopeFollows(env.input, pos + 2, after);
      LastTurn(env, pos, pos + 1, Found("", pos + 1, pos + 2), "}", APRIEL.scopeEnd);
    }
  }

  lemma ScopeFollows(s: string, pos: nat, after: string)
    requires pos <= |s| && s[pos..] == after && APRIEL.scopeEnd <= after
    ensures MeetsTag(s, SkipSpaces(s, pos), APRIEL.scopeEnd)
  {
    hide MeetsTag, SkipSpaces;
    var rest := after[|APRIEL.scopeEnd|..];
    assert after == "" + (APRIEL.scopeEnd + rest);
    MeetsBehind(s, pos, "", APRIEL.scopeEnd, rest);
  }

  lemma NoScopeHere(s: string, pos: nat)
    requires pos < |s| && s[pos] == '}'
    ensures !MeetsTag(s, SkipSpaces(s, pos), APRIEL.scopeEnd)
  {
    hide SkipSpaces;
    SkipSpacesIs(s, pos, pos);
    assert APRIEL.scopeEnd[0] == ']';
  }

  /** The two ways on of the search for two literals. */
  lemma NextTurn(env: Env, pos: nat, f: Found, first: string, second: string)
    requires pos <= |env.input| && first != "" && FindIn(env, pos, first) == Some(f) && f.begin < f.end <= |env.input|
    requires !MeetsTag(env.input, SkipSpaces(env.input, f.end), second)
    ensures FindTwo(env, pos, first, second) == FindTwoFrom(env, pos, f.begin + 1, first, second)
  {
    hide FindIn, MeetsTag, SkipSpaces;
  }

  lemma LastTurn(env: Env, saved: nat, pos: nat, f: Found, first: string, second: string)
    requires saved <= pos <= |env.input| && first != "" && FindIn(env, pos, first) == Some(f) && f.begin < f.end <= |env.input|
    requires MeetsTag(env.input, SkipSpaces(env.input, f.end), second)
    ensures FindTwoFrom(env, saved, pos, first, second).Some?
  {
    hide FindIn, MeetsTag, SkipSpaces;
  }

  lemma BraceHere(env: Env, pos: nat, rest: string)
    requires !env.partial && pos <= |env.input| && env.input[pos..] == "}" + rest
    ensures pos < |env.input| && env.input[pos] == '}' && env.input[pos + 1..] == rest
    ensures FindIn(env, pos, "}") == Some(Found("", pos, pos + 1))
  {
    hide Find, First, FindIn;
    assert env.input[pos..][0] == '}';
    EmptyFirst("}");
    assert "}" + rest == "" + "}" + rest;
    FindsAt(env, pos, "", "}", rest);
  }

  /** APRIEL REFUSES OBJECTS. A list whose first call is a whole JSON object, as the template of the model writes it, is not taken
      for tool calls, whatever follows in the list. */
  lemma AprielRefusesObjects(input: string, setup: Setup, pre: string, head: string, c: PrintedCall, after: string, before: seq<ToolCall>)
    requires AllSpace(head) && c.gapEnd == "" && (forall j :: 0 <= j < |c.args| ==> c.args[j].json.Some?) && AfterObject(after)
    requires input == pre + (head + APRIEL.scopeStart + (c.gap + APRIEL.toolStart + (CallBody(APRIEL, c, true) + ("}" + after))))
    requires Listed(Reader(input, false, false, setup), APRIEL, setup.num, c)
    ensures var env := Reader(input, false, false, setup);
            env.Valid() && TryConsume(env, APRIEL, |pre|, before) == Returns(false, |pre|, before)
  {
    hide JsonForm, CallBody, Listed, Reader, ParseTool, AllSpace, FindIn, First, AfterObject;
    JsonForms();
    ReaderIsValid(input, false, false, setup);
    ReaderIs(input, false, false, setup);
    var env := Reader(input, false, false, setup);
    var body, following := CallBody(APRIEL, c, true), "}" + after;
    var call := c.gap + APRIEL.toolStart + (body + following);
    BlankFirst(head, APRIEL.scopeStart);
    assert input[|pre|..] == head + APRIEL.scopeStart + call;
    FindsAt(env, |pre|, head, APRIEL.scopeStart, call);
    var pos := |pre| + |head| + |APRIEL.scopeStart|;
    JsonUnbroken(APRIEL, c.args, c.gapEnd + CallEnd(APRIEL, true) + following);
    ListedIsOk(env, APRIEL, setup.num, c, true, following);
    CallOpens(env, APRIEL, c, true, following, pos, body + following);
    var q := pos + |c.gap| + |APRIEL.toolStart|;
    ObjectIsBad(input, setup, c, after, q);
    AprielHasScope();
    BadFirstCall(env, APRIEL, |pre|, before, Found(head, |pre| + |head|, pos), Found(c.gap, pos + |c.gap|, q));
  }

  lemma AprielHasScope()
    ensures !AllSpace(APRIEL.scopeStart)
  {
    assert !IsSpace(APRIEL.scopeStart[0]);
  }

  lemma BadFirstCall(env: Env, form: Form, start: nat, before: seq<ToolCall>, f: Found, g: Found)
    requires env.Valid() && form.Valid() && start <= f.begin <= f.end <= |env.input| && g.begin <= g.end <= |env.input|
    requires !AllSpace(form.scopeStart) && FindIn(env, start, form.scopeStart) == Some(f) && AllSpace(f.prelude) && Whole(f, |form.scopeStart|)
    requires FindIn(env, f.end, form.toolStart) == Some(g) && AllSpace(g.prelude) && ParseTool(env, form, g.end).BadEnd?
    ensures TryConsume(env, form, start, before) == Returns(false, start, before)
  {
    hide FindIn, ParseTool;
    assert before[..|before|] == before;
  }

  lemma ObjectIsBad(input: string, setup: Setup, c: PrintedCall, after: string, pos: nat)
    requires Reader(input, false, false, setup).Valid() && JsonForm(APRIEL) && AfterObject(after) && c.gapEnd == ""
    requires Listed(Reader(input, false, false, setup), APRIEL, setup.num, c)
    requires MemberCallOk(Reader(input, false, false, setup), APRIEL, c, true, "}" + after)
    requires pos <= |input| && input[pos..] == CallBody(APRIEL, c, true) + ("}" + after)
    ensures ParseTool(Reader(input, false, false, setup), APRIEL, pos).BadEnd?
  {
    hide JsonForm, CallBody, Listed, Reader, TryJson, FindToolEnd, FindName, ParseArgs, MemberCallOk, AfterObject, MembersText, StopsAt,
      AllRead, MemberPlaces, ParseTool;
    ReaderIs(input, false, false, setup);
    var env, following := Reader(input, false, false, setup), "}" + after;
    var from := NameEnds(env, APRIEL, c, true, following, pos);
    var p := from + |MembersText(APRIEL, c.args)|;
    assert c.gapEnd + CallEnd(APRIEL, true) + following == "}" + ("}" + after);
    RestOf(input, from, MembersText(APRIEL, c.args), "}" + ("}" + after));
    assert input[p..] == "" + CallEnd(APRIEL, true) + following;
    NoKeyAtEnd(env, APRIEL, p, "", true, following);
    FormIsValid(APRIEL);
    CallIsRead(input, false, setup, APRIEL, from, c, true, following);
    MembersOfCall(env, APRIEL, c, true, following, from);
    TwoBraces(env, p, after);
    SepIsSeen(APRIEL);
    EndIsBad(env, APRIEL, pos, Found(c.name, pos + |c.name|, from), p, ArgsOf(APRIEL, [], c.args));
  }

  lemma EndIsBad(env: Env, form: Form, pos: nat, f: Found, p: nat, args: seq<Arg>)
    requires env.Valid() && form.Valid() && pos <= f.begin <= f.end <= p <= |env.input| && !AllSpace(form.toolSep)
    requires FindName(env, form, pos) == NameAt(f) && ParseArgs(env, form, NameOf(env, f.prelude), [], f.end) == Next(p, args)
    requires var g := FindToolEnd(env, form, p).found; g.Some? && !AllSpace(g.value.prelude)
    ensures ParseTool(env, form, pos).BadEnd?
  {
    hide FindName, ParseArgs, FindToolEnd, NameOf;
  }
}
