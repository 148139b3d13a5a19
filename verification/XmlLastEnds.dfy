/** Forms whose values are JSON, where the last value has no closing literal and the last call may have one of its own. */
module XmlLastEnds {
  import opened Chars
  import opened Wrappers
  import opened Strings
  import opened ChatParser
  import opened XmlToolCalls
  import opened XmlRoundTrip
  import opened XmlForms

  // --------------------------------------------------------------------------------- the forms

  /** A closing literal of the last call that the usual one is not taken for. */
  predicate OwnEnd(form: Form, e: string) {
    && e != "" && e[0] == '}' && |e| < |form.toolEnd| && !IsSpace(form.toolEnd[|e|])
    && form.scopeEnd != "" && form.toolEnd[|e|] != form.scopeEnd[0]
  }

  predicate JsonForm(form: Form) {
    && form.Valid() && form.keyValSep2.None? && form.rawArgval == Some(false) && form.lastValEnd == Some("")
    && form.toolSep != "" && !IsSpace(form.toolSep[0]) && !IsSpace(form.toolStart[0])
    && form.keyStart[0] == '"' && form.valEnd[0] == ',' && form.toolEnd[0] == '}'
    && (form.scopeStart == "" || !IsSpace(form.scopeStart[0]))
    && (form.scopeEnd == "" || (!IsSpace(form.scopeEnd[0]) && Apart(form.toolStart, form.scopeEnd)))
    && (form.lastToolEnd.Some? ==> OwnEnd(form, form.lastToolEnd.value))
  }

  lemma JsonForms()
    ensures JsonForm(KIMI_K2) && JsonForm(APRIEL) && JsonForm(MIMO)
  {
    ApartAt(KIMI_K2.toolStart, KIMI_K2.scopeEnd, 12);
    ApartAt(APRIEL.toolStart, APRIEL.scopeEnd, 0);
  }

  // ------------------------------------------------------------------------------- the printer

  function ValueEnd(form: Form, last: bool): string {
    if last then "" else form.valEnd
  }

  function CallEnd(form: Form, last: bool): string {
    if last && form.lastToolEnd.Some? then form.lastToolEnd.value else form.toolEnd
  }

  function MemberText(form: Form, a: PrintedArg, last: bool): string {
    a.gap + form.keyStart + (a.key + form.keyValSep + (a.value + ValueEnd(form, last)))
  }

  /** Arguments with a closing literal behind all but the last value. */
  function MembersText(form: Form, args: seq<PrintedArg>): string {
    if args == [] then "" else MemberText(form, args[0], |args| == 1) + MembersText(form, args[1..])
  }

  function CallBody(form: Form, c: PrintedCall, last: bool): string {
    c.name + form.toolSep + (MembersText(form, c.args) + (c.gapEnd + CallEnd(form, last)))
  }

  /** Calls, of which the last one may have a closing literal of its own. */
  function ListText(form: Form, calls: seq<PrintedCall>, tail: string): string {
    if calls == [] then tail
    else calls[0].gap + form.toolStart + (CallBody(form, calls[0], |calls| == 1) + ListText(form, calls[1..], tail))
  }

  function MemberPlaces(form: Form, pos: nat, args: seq<PrintedArg>): seq<Placed>
    decreases |args|
  {
    if args == [] then []
    else [Placed(ValuePos(form, pos, args[0]), args[0])] +
         MemberPlaces(form, pos + |MemberText(form, args[0], |args| == 1)|, args[1..])
  }

  function ListPlaces(form: Form, pos: nat, calls: seq<PrintedCall>): seq<Placed>
    decreases |calls|
  {
    if calls == [] then []
    else
      var c, body := calls[0], pos + |calls[0].gap| + |form.toolStart|;
      MemberPlaces(form, body + |c.name| + |form.toolSep|, c.args) +
      ListPlaces(form, body + |CallBody(form, c, |calls| == 1)|, calls[1..])
  }

  // ------------------------------------------------------------------------- what can be told apart

  /** `d` does not begin in the first `n` characters. */
  predicate NoneIn(text: string, n: nat, d: string) {
    forall j :: 0 <= j < n ==> !OccursAt(text, d, j)
  }

  /** No closing literal begins in the first `n` characters. */
  predicate Unbroken(form: Form, text: string, n: nat) {
    && NoneIn(text, n, form.valEnd) && NoneIn(text, n, form.toolEnd)
    && (form.lastToolEnd.Some? ==> NoneIn(text, n, form.lastToolEnd.value))
  }

  /** Values that are meant as text hold no closing literal. */
  predicate TextsUnbroken(form: Form, args: seq<PrintedArg>, tail: string)
    decreases |args|
  {
    args != [] ==>
      && (args[0].json.None? ==>
            Unbroken(form, args[0].value + (ValueEnd(form, |args| == 1) + (MembersText(form, args[1..]) + tail)), |args[0].value|))
      && TextsUnbroken(form, args[1..], tail)
  }

  predicate MembersOk(form: Form, args: seq<PrintedArg>) {
    forall i :: 0 <= i < |args| ==> AllSpace(args[i].gap) && First(args[i].key, form.keyValSep)
  }

  /** Blanks before the end of a call belong to its last value, if there is one. */
  predicate MemberCallOk(env: Env, form: Form, c: PrintedCall, last: bool, following: string) {
    && AllSpace(c.gap) && Strip(c.name) == c.name && c.name != "" && NameOf(env, c.name) != ""
    && First(c.name, form.toolSep) && Find(c.name, form.toolEnd, 0).None?
    && (form.lastToolEnd.Some? ==> Find(c.name, form.lastToolEnd.value, 0).None?)
    && AllSpace(c.gapEnd) && (c.args != [] ==> c.gapEnd == "")
    && MembersOk(form, c.args) && TextsUnbroken(form, c.args, c.gapEnd + CallEnd(form, last) + following)
  }

  predicate ListOk(env: Env, form: Form, calls: seq<PrintedCall>, tail: string)
    decreases |calls|
  {
    calls != [] ==>
      && MemberCallOk(env, form, calls[0], |calls| == 1, ListText(form, calls[1..], tail))
      && ListOk(env, form, calls[1..], tail)
  }

  // ---------------------------------------------------------------------------- finding the ends

  lemma NotInBlanks(form: Form, text: string, n: nat, d: string)
    requires n <= |text| && AllSpace(text[..n]) && d != "" && !IsSpace(d[0])
    ensures NoneIn(text, n, d)
  {
    forall j | 0 <= j < n ensures !OccursAt(text, d, j) {
      assert text[..n][j] == text[j];
      if OccursAt(text, d, j) { BeginsWith(text, d, j); }
    }
  }

  lemma BlanksUnbroken(form: Form, text: string, n: nat)
    requires JsonForm(form) && n <= |text| && AllSpace(text[..n])
    ensures Unbroken(form, text, n)
  {
    hide NoneIn, AllSpace, Apart;
    NotInBlanks(form, text, n, form.valEnd);
    NotInBlanks(form, text, n, form.toolEnd);
    if form.lastToolEnd.Some? { NotInBlanks(form, text, n, form.lastToolEnd.value); }
  }

  lemma NoneInRest(text: string, n: nat, d: string, k: nat)
    requires NoneIn(text, n, d) && k <= n <= |text|
    ensures NoneIn(text[k..], n - k, d)
  {
    forall j | 0 <= j < n - k ensures !OccursAt(text[k..], d, j) {
      if OccursAt(text[k..], d, j) { OccursBehind(text, k, d, j); }
    }
  }

  lemma UnbrokenRest(form: Form, text: string, n: nat, k: nat)
    requires Unbroken(form, text, n) && k <= n <= |text|
    ensures Unbroken(form, text[k..], n - k)
  {
    hide NoneIn;
    NoneInRest(text, n, form.valEnd, k);
    NoneInRest(text, n, form.toolEnd, k);
    if form.lastToolEnd.Some? { NoneInRest(text, n, form.lastToolEnd.value, k); }
  }

  /** Where `d` is found that does not begin in the first `n` characters. */
  lemma FoundBehind(env: Env, pos: nat, n: nat, d: string)
    requires !env.partial && pos + n <= |env.input| && NoneIn(env.input[pos..], n, d)
    ensures var f := FindIn(env, pos, d);
            && (f.Some? ==> |f.value.prelude| >= n && f.value.begin == pos + |f.value.prelude|)
            && (OccursAt(env.input[pos..], d, n) ==> f == Some(Found(env.input[pos..pos + n], pos + n, pos + n + |d|)))
  {
    hide Find, NoneIn;
    var s := env.input;
    FindSpec(s, d, pos);
    forall j | pos <= j < pos + n ensures !OccursAt(s, d, j) {
      NotThere(s, pos, n, d, j);
    }
    if OccursAt(s[pos..], d, n) {
      OccursBehind(s, pos, d, n);
      FindIs(s, d, pos, pos + n);
    }
  }

  lemma NotThere(s: string, pos: nat, n: nat, d: string, j: nat)
    requires pos <= j < pos + n <= |s| && NoneIn(s[pos..], n, d)
    ensures !OccursAt(s, d, j)
  {
    if OccursAt(s, d, j) { OccursInRest(s, pos, d, j); }
  }

  /** ... and where something else begins behind them. */
  lemma FoundFarther(env: Env, pos: nat, n: nat, d: string)
    requires !env.partial && pos + n < |env.input| && NoneIn(env.input[pos..], n, d) && d != "" && env.input[pos + n] != d[0]
    ensures FindIn(env, pos, d).Some? ==> |FindIn(env, pos, d).value.prelude| > n
  {
    hide Find, NoneIn;
    FoundBehind(env, pos, n, d);
    var f := FindIn(env, pos, d);
    if f.Some? {
      FindSpec(env.input, d, pos);
      BeginsWith(env.input, d, f.value.begin);
    }
  }

  lemma HeadOf(s: string, pos: nat, x: string, e: string, rest: string)
    requires pos <= |s| && s[pos..] == x + (e + rest) && e != ""
    ensures pos + |x| + |e| <= |s| && s[pos + |x|] == e[0] && OccursAt(s[pos..], e, |x|) && s[pos..pos + |x|] == x
    ensures s[pos + |x|..] == e + rest && s[pos..][..|x|] == x
  {
    var t := s[pos..];
    assert t[|x|..|x| + |e|] == e;
    assert t[|x|] == e[0];
    assert t[..|x|] == x;
    assert t[|x|..] == e + rest;
  }

  /** The literal behind a value: the usual one, or for the last value that of the call. */
  predicate Closes(form: Form, last: bool, e: string) {
    if last then e == form.toolEnd || form.lastToolEnd == Some(e) else e == form.valEnd
  }

  /** The closing literal of a value is found behind it, or the end of the call in its place. */
  lemma ValueCloses(env: Env, form: Form, pos: nat, x: string, last: bool, e: string, rest: string)
    requires JsonForm(form) && !env.partial && pos <= |env.input| && env.input[pos..] == x + (e + rest) && Closes(form, last, e)
    requires Unbroken(form, env.input[pos..], |x|)
    ensures FindValEnd(env, form, pos) ==
            Close(|ValueEnd(form, last)|, Some(Found(x, pos + |x|, pos + |x| + |ValueEnd(form, last)|)))
    ensures pos + |x| < |env.input| && env.input[pos + |x|] == e[0] && e != ""
  {
    hide NoneIn, OccursAt, Find, FindIn, Apart;
    HeadOf(env.input, pos, x, e, rest);
    FoundBehind(env, pos, |x|, form.valEnd);
    FoundBehind(env, pos, |x|, form.toolEnd);
    if form.lastToolEnd.Some? { FoundBehind(env, pos, |x|, form.lastToolEnd.value); }
    if last { FoundFarther(env, pos, |x|, form.valEnd); }
  }

  // --------------------------------------------------------------------------------- arguments

  lemma ReadsTextThere(env: Env, form: Form, name: string, args: seq<Arg>, key: string, pos: nat, value: string, last: bool, e: string,
                       rest: string)
    requires JsonForm(form) && !env.partial && pos <= |env.input| && env.input[pos..] == value + (e + rest) && Closes(form, last, e)
    requires Unbroken(form, env.input[pos..], |value|)
    ensures PlainValue(env, form, name, args, key, pos) ==
            Next(pos + |value| + |ValueEnd(form, last)|, SetArg(args, key, Text(if form.trimRawArgval then Strip(value) else value)))
  {
    hide SetArg, Strip, FindValEnd, JsonForm, Unbroken, GenPartial;
    ValueCloses(env, form, pos, value, last, e, rest);
  }

  lemma BehindValue(env: Env, form: Form, pos: nat, a: PrintedArg, last: bool, e: string, rest: string)
    requires env.Valid() && JsonForm(form) && !env.partial && pos <= |env.input| && ReadsAs(env, form, Placed(pos, a)) && env.json(pos).Json?
    requires env.input[pos..] == a.value + (e + rest) && Closes(form, last, e)
    requires a.json.None? ==> Unbroken(form, env.input[pos..], |a.value|)
    ensures var end := env.json(pos).end;
            && pos <= end <= pos + |a.value| < |env.input| && SkipSpaces(env.input, end) < |env.input|
            && FindValEnd(env, form, end) ==
               Close(|ValueEnd(form, last)|, Some(Found(env.input[end..pos + |a.value|], pos + |a.value|, pos + |a.value| + |ValueEnd(form, last)|)))
  {
    hide Unbroken, FindValEnd, JsonForm, MaybePrimitive, AllSpace, SkipSpaces;
    ValueIsFitted(env, form, pos, a);
    var end := env.json(pos).end;
    var k := end - pos;
    RestAt(env.input, pos, a.value, e + rest, k);
    var tail := a.value[k..];
    if a.json.None? {
      UnbrokenRest(form, env.input[pos..], |a.value|, k);
      assert env.input[pos..][k..] == env.input[end..];
    } else {
      assert env.input[end..][..|tail|] == tail;
      BlanksUnbroken(form, env.input[end..], |tail|);
    }
    ValueCloses(env, form, end, tail, last, e, rest);
    EndIsSeen(form, last, e);
    StopsBefore(env.input, end, pos + |a.value|);
  }

  lemma ValueIsFitted(env: Env, form: Form, pos: nat, a: PrintedArg)
    requires env.Valid() && JsonForm(form) && pos <= |env.input| && ReadsAs(env, form, Placed(pos, a)) && env.json(pos).Json?
    ensures JsonFits(env, form, Placed(pos, a)) && env.json(pos).end <= pos + |a.value| && pos <= env.json(pos).end
  {
    hide MaybePrimitive, AllSpace, Apart;
  }

  lemma EndIsSeen(form: Form, last: bool, e: string)
    requires JsonForm(form) && Closes(form, last, e) && e != ""
    ensures !IsSpace(e[0])
  {
    hide Apart;
  }

  lemma ParsesMember(env: Env, form: Form, name: string, args: seq<Arg>, pos: nat, a: PrintedArg, last: bool, e: string, rest: string)
    requires env.Valid() && JsonForm(form) && !env.partial && pos <= |env.input| && ReadsAs(env, form, Placed(pos, a))
    requires env.input[pos..] == a.value + (e + rest) && Closes(form, last, e)
    requires a.json.None? ==> Unbroken(form, env.input[pos..], |a.value|)
    ensures ArgValue(env, form, name, args, a.key, pos) ==
            Next(pos + |a.value| + |ValueEnd(form, last)|, SetArg(args, a.key, ValueOf(form, a)))
  {
    hide Unbroken, FindValEnd, MaybePrimitive, AllSpace, SkipSpaces, PlainValue, SetArg, Strip, Closes, Apart;
    if a.json.None? { ReadsTextThere(env, form, name, args, a.key, pos, a.value, last, e, rest); }
    if env.json(pos).Json? { BehindValue(env, form, pos, a, last, e, rest); }
  }

  lemma BlankFirst(x: string, d: string)
    requires AllSpace(x) && d != "" && !IsSpace(d[0])
    ensures First(x, d)
  {
    hide First;
    FreshFirst(x, d);
  }

  /** One turn of the loop: the literal behind the value is its own, or that of the call. */
  lemma ParsesOne(env: Env, form: Form, name: string, args: seq<Arg>, pos: nat, a: PrintedArg, last: bool, e: string, rest: string)
    requires env.Valid() && JsonForm(form) && !env.partial && pos <= |env.input|
    requires AllSpace(a.gap) && First(a.key, form.keyValSep) && Closes(form, last, e)
    requires env.input[pos..] == a.gap + form.keyStart + (a.key + form.keyValSep + (a.value + (e + rest)))
    requires ReadsAs(env, form, Placed(ValuePos(form, pos, a), a))
    requires a.json.None? ==> Unbroken(form, a.value + (e + rest), |a.value|)
    ensures ParseArg(env, form, name, args, pos) ==
            Next(pos + |MemberText(form, a, last)|, SetArg(args, a.key, ValueOf(form, a)))
  {
    hide Unbroken, Find, FindIn, First, AllSpace, ReadsAs, SetArg, ValueOf, ArgValue, ParseArg, Closes, Apart;
    var keyed := a.key + form.keyValSep + (a.value + (e + rest));
    BlankFirst(a.gap, form.keyStart);
    FindsAt(env, pos, a.gap, form.keyStart, keyed);
    var p := pos + |a.gap| + |form.keyStart|;
    FindsAt(env, p, a.key, form.keyValSep, a.value + (e + rest));
    var q := p + |a.key| + |form.keyValSep|;
    ParsesMember(env, form, name, args, q, a, last, e, rest);
    ArgTurn(env, form, name, args, pos, Found(a.gap, pos + |a.gap|, p), Found(a.key, p + |a.key|, q));
  }

  lemma {:induction false} ParsesMembers(env: Env, form: Form, name: string, acc: seq<Arg>, args: seq<PrintedArg>, pos: nat,
                                         e: string, rest: string)
    requires env.Valid() && JsonForm(form) && !env.partial && pos <= |env.input| && MembersOk(form, args)
    requires env.input[pos..] == MembersText(form, args) + (e + rest) && (args != [] ==> Closes(form, true, e))
    requires StopsAt(env, pos + |MembersText(form, args)|, form.keyStart)
    requires AllRead(env, form, MemberPlaces(form, pos, args)) && TextsUnbroken(form, args, e + rest)
    ensures ParseArgs(env, form, name, acc, pos) == Next(pos + |MembersText(form, args)|, ArgsOf(form, acc, args))
    decreases |args|
  {
    hide ParseArg, StopsAt, First, SetArg, ValueOf, MemberText, AllRead, ReadsAs, ValuePos, Unbroken, AllSpace, Closes, JsonForm;
    if args == [] {
      FormIsValid(form);
      NoMoreArgs(env, form, name, acc, pos);
    } else {
      var a, last := args[0], |args| == 1;
      var after := MembersText(form, args[1..]) + (e + rest);
      FirstMember(form, args, e + rest);
      RestOf(env.input, pos, MemberText(form, a, last), after);
      ReadFirst(env, form, Placed(ValuePos(form, pos, a), a), MemberPlaces(form, pos + |MemberText(form, a, last)|, args[1..]));
      MemberTurn(env, form, name, acc, args, pos, e, rest);
      assert forall i :: 0 <= i < |args| - 1 ==> args[1..][i] == args[i + 1];
      FormIsValid(form);
      ParsesMembers(env, form, name, SetArg(acc, a.key, ValueOf(form, a)), args[1..], pos + |MemberText(form, a, last)|, e, rest);
    }
  }

  lemma FormIsValid(form: Form)
    requires JsonForm(form)
    ensures form.Valid()
  {
    hide Apart, OwnEnd;
  }

  lemma FirstMember(form: Form, args: seq<PrintedArg>, tail: string)
    requires args != []
    ensures MembersText(form, args) + tail == MemberText(form, args[0], |args| == 1) + (MembersText(form, args[1..]) + tail)
  {
    hide MemberText;
  }

  lemma MemberTurn(env: Env, form: Form, name: string, acc: seq<Arg>, args: seq<PrintedArg>, pos: nat, e: string, rest: string)
    requires env.Valid() && JsonForm(form) && !env.partial && pos <= |env.input| && MembersOk(form, args) && args != []
    requires env.input[pos..] == MembersText(form, args) + (e + rest) && Closes(form, true, e)
    requires ReadsAs(env, form, Placed(ValuePos(form, pos, args[0]), args[0])) && TextsUnbroken(form, args, e + rest)
    ensures form.Valid()
    ensures ParseArg(env, form, name, acc, pos) ==
            Next(pos + |MemberText(form, args[0], |args| == 1)|, SetArg(acc, args[0].key, ValueOf(form, args[0])))
  {
    hide ParseArg, First, SetArg, ValueOf, ReadsAs, ValuePos, Unbroken, AllSpace, JsonForm;
    var a, last := args[0], |args| == 1;
    var after := MembersText(form, args[1..]) + (e + rest);
    FirstMember(form, args, e + rest);
    FormIsValid(form);
    if last {
      assert MembersText(form, args[1..]) == "";
      assert after == e + rest && ValueEnd(form, last) + after == e + rest;
      MemberEnds(form, a, last, e, rest);
      ParsesOne(env, form, name, acc, pos, a, last, e, rest);
    } else {
      MemberEnds(form, a, last, form.valEnd, after);
      ParsesOne(env, form, name, acc, pos, a, last, form.valEnd, after);
    }
  }

  lemma MemberEnds(form: Form, a: PrintedArg, last: bool, e: string, rest: string)
    ensures last ==> MemberText(form, a, last) + (e + rest) == a.gap + form.keyStart + (a.key + form.keyValSep + (a.value + (e + rest)))
    ensures !last && e == form.valEnd ==>
              MemberText(form, a, last) + rest == a.gap + form.keyStart + (a.key + form.keyValSep + (a.value + (e + rest)))
  {
    assert a.value + "" == a.value;
  }

  // -------------------------------------------------------------------------------- tool calls

  lemma {:induction false} TwoBehind(env: Env, saved: nat, pos: nat, first: string, second: string)
    requires saved <= pos <= |env.input| && first != ""
    ensures var r := FindTwoFrom(env, saved, pos, first, second); r.Some? ==> r.value.begin >= pos
    decreases |env.input| - pos
  {
    hide MeetsTag, SkipSpaces, FindIn;
    var f := FindIn(env, pos, first);
    if f.Some? { TwoBehind(env, saved, f.value.begin + 1, first, second); }
  }

  lemma TwoFoundBehind(env: Env, pos: nat, n: nat, first: string, second: string)
    requires !env.partial && pos + n <= |env.input| && first != "" && NoneIn(env.input[pos..], n, first)
    ensures var r := FindTwo(env, pos, first, second); r.Some? ==> |r.value.prelude| >= n
  {
    hide NoneIn, FindIn, MeetsTag, SkipSpaces;
    FoundBehind(env, pos, n, first);
    var f := FindIn(env, pos, first);
    if f.Some? { TwoBehind(env, pos, f.value.begin + 1, first, second); }
  }

  /** The alternative end of a call and the end of the scope behind blanks. */
  lemma TwoFound(env: Env, pos: nat, x: string, first: string, gap: string, second: string, rest: string)
    requires !env.partial && pos <= |env.input| && first != "" && second != "" && !IsSpace(first[0]) && !IsSpace(second[0])
    requires AllSpace(x) && AllSpace(gap) && env.input[pos..] == x + first + (gap + (second + rest))
    ensures var r := FindTwo(env, pos, first, second); r.Some? && r.value.begin == pos + |x| && r.value.prelude == x
  {
    hide First, FindIn, IsSpace, AllSpace, MeetsTag, SkipSpaces;
    BlankFirst(x, first);
    FindsAt(env, pos, x, first, gap + (second + rest));
    MeetsBehind(env.input, pos + |x| + |first|, gap, second, rest);
  }

  lemma MeetsBehind(s: string, pos: nat, gap: string, d: string, rest: string)
    requires pos <= |s| && s[pos..] == gap + (d + rest) && AllSpace(gap) && d != "" && !IsSpace(d[0])
    ensures MeetsTag(s, SkipSpaces(s, pos), d)
  {
    hide IsSpace, SkipSpaces;
    HeadOf(s, pos, gap, d, rest);
    assert forall k :: 0 <= k < |gap| ==> s[pos..pos + |gap|][k] == gap[k];
    SkipSpacesIs(s, pos, pos + |gap|);
    assert s[pos + |gap|..][..|d|] == d;
  }

  /** The end of a call is found behind blanks. */
  lemma CallCloses(env: Env, form: Form, pos: nat, x: string, last: bool, following: string, gap: string, suffix: string)
    requires JsonForm(form) && !env.partial && pos <= |env.input| && AllSpace(x) && AllSpace(gap)
    requires env.input[pos..] == x + (CallEnd(form, last) + following)
    requires last && form.lastToolEnd.Some? ==> following == gap + form.scopeEnd + suffix
    ensures var e := CallEnd(form, last);
            FindToolEnd(env, form, pos) == Close(|e|, Some(Found(x, pos + |x|, pos + |x| + |e|)))
            && pos + |x| + |e| <= |env.input| && env.input[pos + |x| + |e|..] == following
  {
    hide NoneIn, OccursAt, Find, FindIn, Apart, FindTwo, AllSpace;
    var e := CallEnd(form, last);
    assert e != "" && e[0] == '}' && form.toolEnd[0] == '}';
    HeadOf(env.input, pos, x, e, following);
    assert env.input[pos + |x|..][|e|..] == following;
    NotInBlanks(form, env.input[pos..], |x|, form.toolEnd);
    FoundBehind(env, pos, |x|, form.toolEnd);
    if form.lastToolEnd.Some? {
      var l := form.lastToolEnd.value;
      NotInBlanks(form, env.input[pos..], |x|, l);
      TwoFoundBehind(env, pos, |x|, l, form.scopeEnd);
      if last {
        assert x + (l + (gap + form.scopeEnd + suffix)) == x + l + (gap + (form.scopeEnd + suffix));
        TwoFound(env, pos, x, l, gap, form.scopeEnd, suffix);
        UsualIsFarther(env, form, pos, x, gap, suffix);
      }
    }
  }

  /** Where the last call has its own end, the usual one does not stand. */
  lemma UsualIsFarther(env: Env, form: Form, pos: nat, x: string, gap: string, suffix: string)
    requires JsonForm(form) && !env.partial && pos <= |env.input| && AllSpace(x) && AllSpace(gap) && form.lastToolEnd.Some?
    requires env.input[pos..] == x + (form.lastToolEnd.value + (gap + form.scopeEnd + suffix))
    ensures var f := FindIn(env, pos, form.toolEnd); f.Some? ==> |f.value.prelude| > |x|
  {
    hide NoneIn, Find, Apart;
    var l, t := form.lastToolEnd.value, env.input[pos..];
    NotInBlanks(form, t, |x|, form.toolEnd);
    FoundBehind(env, pos, |x|, form.toolEnd);
    var f := FindIn(env, pos, form.toolEnd);
    if f.Some? && |f.value.prelude| == |x| {
      FindSpec(env.input, form.toolEnd, pos);
      assert env.input[pos + |x|..pos + |x| + |form.toolEnd|][|l|] == env.input[pos + |x| + |l|] == t[|x| + |l|];
      assert t[|x| + |l|] == (gap + form.scopeEnd + suffix)[0];
      GapOrEnd(gap, form.scopeEnd, suffix);
    }
  }

  lemma GapOrEnd(gap: string, d: string, rest: string)
    requires AllSpace(gap) && d != ""
    ensures (gap + d + rest)[0] == d[0] || IsSpace((gap + d + rest)[0])
  {
  }

  lemma NameEnds(env: Env, form: Form, c: PrintedCall, last: bool, following: string, pos: nat) returns (from: nat)
    requires JsonForm(form) && !env.partial && pos <= |env.input| && MemberCallOk(env, form, c, last, following)
    requires env.input[pos..] == CallBody(form, c, last) + following
    ensures from == pos + |c.name| + |form.toolSep| <= |env.input|
    ensures FindName(env, form, pos) == NameAt(Found(c.name, pos + |c.name|, from))
    ensures env.input[from..] == MembersText(form, c.args) + (c.gapEnd + CallEnd(form, last) + following)
  {
    hide Find, FindIn, Strip, MembersText, First, MembersOk, TextsUnbroken, AllSpace, FindToolEnd, Apart, OwnEnd, KimiName;
    var rest := MembersText(form, c.args) + (c.gapEnd + CallEnd(form, last) + following);
    assert CallBody(form, c, last) + following == c.name + form.toolSep + rest;
    assert First(c.name, form.toolSep);
    FindsAt(env, pos, c.name, form.toolSep, rest);
    from := pos + |c.name| + |form.toolSep|;
    SepIsSeen(form);
  }

  lemma SepIsSeen(form: Form)
    requires JsonForm(form)
    ensures !AllSpace(form.toolSep)
  {
    assert !IsSpace(form.toolSep[0]);
  }

  /** No key stands at the end of a call. */
  lemma NoKeyAtEnd(env: Env, form: Form, pos: nat, gapEnd: string, last: bool, following: string)
    requires JsonForm(form) && !env.partial && pos <= |env.input| && AllSpace(gapEnd)
    requires env.input[pos..] == gapEnd + CallEnd(form, last) + following
    ensures StopsAt(env, pos, form.keyStart)
  {
    hide Find, AllSpace, StopsAt, Apart;
    ApartStops(gapEnd, CallEnd(form, last), following, form.keyStart);
    NotOpening(env, pos, form.keyStart);
  }

  lemma ParsesListed(env: Env, form: Form, c: PrintedCall, last: bool, following: string, pos: nat, gap: string, suffix: string)
    requires env.Valid() && JsonForm(form) && !env.partial && pos <= |env.input| && MemberCallOk(env, form, c, last, following)
    requires env.input[pos..] == CallBody(form, c, last) + following && AllSpace(gap)
    requires last && form.lastToolEnd.Some? ==> following == gap + form.scopeEnd + suffix
    requires AllRead(env, form, MemberPlaces(form, pos + |c.name| + |form.toolSep|, c.args))
    ensures form.Valid()
    ensures var end := pos + |CallBody(form, c, last)|;
            end <= |env.input| && env.input[end..] == following && ParseTool(env, form, pos) == Tool(end, CallOf(env, form, c))
  {
    hide Find, FindIn, Strip, First, AllRead, MemberPlaces, MembersText, ArgsOf, Dump, FindName, ParseArgs, JsonForm, StopsAt, AllSpace,
      FindToolEnd, TextsUnbroken, MembersOk, CallEnd;
    FormIsValid(form);
    var from := NameEnds(env, form, c, last, following, pos);
    var e := CallEnd(form, last);
    var p := from + |MembersText(form, c.args)|;
    RestOf(env.input, from, MembersText(form, c.args), c.gapEnd + e + following);
    NoKeyAtEnd(env, form, p, c.gapEnd, last, following);
    assert c.gapEnd + e + following == c.gapEnd + (e + following);
    CallCloses(env, form, p, c.gapEnd, last, following, gap, suffix);
    MembersOfCall(env, form, c, last, following, from);
    SepIsSeen(form);
  }

  lemma MembersOfCall(env: Env, form: Form, c: PrintedCall, last: bool, following: string, from: nat)
    requires env.Valid() && JsonForm(form) && form.Valid() && !env.partial && from <= |env.input| && MemberCallOk(env, form, c, last, following)
    requires env.input[from..] == MembersText(form, c.args) + (c.gapEnd + CallEnd(form, last) + following)
    requires StopsAt(env, from + |MembersText(form, c.args)|, form.keyStart)
    requires AllRead(env, form, MemberPlaces(form, from, c.args))
    ensures ParseArgs(env, form, NameOf(env, c.name), [], from) ==
            Next(from + |MembersText(form, c.args)|, ArgsOf(form, [], c.args))
  {
    hide Find, Strip, First, AllRead, MemberPlaces, MembersText, ArgsOf, ParseArgs, JsonForm, StopsAt, AllSpace, TextsUnbroken, MembersOk,
      KimiName;
    var e := c.gapEnd + CallEnd(form, last);
    if c.args != [] { assert "" + CallEnd(form, last) == CallEnd(form, last); }
    ParsesMembers(env, form, NameOf(env, c.name), [], c.args, from, e, following);
  }

  // --------------------------------------------------------------------------------- the whole

  lemma {:induction false} ParsesList(env: Env, form: Form, start: nat, pos: nat, before: seq<ToolCall>, recovery: bool,
                                      calls: seq<PrintedCall>, gap: string, suffix: string)
    requires env.Valid() && JsonForm(form) && !env.partial && start <= pos <= |env.input|
    requires TailOk(form, gap, suffix) && ListOk(env, form, calls, gap + form.scopeEnd + suffix)
    requires env.input[pos..] == ListText(form, calls, gap + form.scopeEnd + suffix)
    requires AllRead(env, form, ListPlaces(form, pos, calls))
    ensures form.Valid() && |suffix| <= |env.input|
    ensures ParseTools(env, form, start, pos, before, recovery) ==
            Returns(true, |env.input| - |suffix|, before + CallsOf(env, form, calls))
    decreases |calls|
  {
    hide Find, First, Opens, CallBody, ParseTool, ParseTools, CallOf, NameOf, Strip, FindIn, TailOk, MemberCallOk, AllRead, MemberPlaces,
      JsonForm, AllSpace;
    FormIsValid(form);
    var tail := gap + form.scopeEnd + suffix;
    if calls == [] {
      ParsesScopeEnd(env, form, start, pos, before, recovery, gap, suffix);
      assert before + [] == before;
    } else {
      var c, last, following := calls[0], |calls| == 1, ListText(form, calls[1..], tail);
      var p := pos + |c.gap| + |form.toolStart|;
      var end := p + |CallBody(form, c, last)|;
      CallOpens(env, form, c, last, following, pos, CallBody(form, c, last) + following);
      GapIsBlank(form, gap, suffix);
      ReadBoth(env, form, MemberPlaces(form, p + |c.name| + |form.toolSep|, c.args), ListPlaces(form, end, calls[1..]));
      if last { assert calls[1..] == []; }
      ParsesListed(env, form, c, last, following, p, gap, suffix);
      var call := CallOf(env, form, c);
      ToolTurn(env, form, start, pos, before, recovery, Found(c.gap, pos + |c.gap|, p), end, call);
      ParsesList(env, form, start, end, before + [call], false, calls[1..], gap, suffix);
      assert before + [call] + CallsOf(env, form, calls[1..]) == before + ([call] + CallsOf(env, form, calls[1..]));
    }
  }

  lemma GapIsBlank(form: Form, gap: string, suffix: string)
    requires TailOk(form, gap, suffix)
    ensures AllSpace(gap)
  {
    hide First, Opens;
  }

  lemma CallOpens(env: Env, form: Form, c: PrintedCall, last: bool, following: string, pos: nat, rest: string)
    requires JsonForm(form) && !env.partial && pos <= |env.input| && MemberCallOk(env, form, c, last, following)
    requires env.input[pos..] == c.gap + form.toolStart + rest
    ensures AllSpace(c.gap) && pos + |c.gap| + |form.toolStart| <= |env.input|
    ensures FindIn(env, pos, form.toolStart) == Some(Found(c.gap, pos + |c.gap|, pos + |c.gap| + |form.toolStart|))
    ensures env.input[pos + |c.gap| + |form.toolStart|..] == rest
  {
    hide Find, FindIn, First, Strip, TextsUnbroken, MembersOk, Apart, OwnEnd, KimiName;
    BlankFirst(c.gap, form.toolStart);
    FindsAt(env, pos, c.gap, form.toolStart, rest);
  }

  /** THE PARSER UNDOES THE PRINTER for forms whose last value and last call end differently, too. */
  lemma ParserUndoesList(env: Env, form: Form, pre: string, head: string, calls: seq<PrintedCall>, gap: string, suffix: string,
                         before: seq<ToolCall>)
    requires env.Valid() && JsonForm(form) && !env.partial && AllSpace(head)
    requires env.input == pre + (HeadText(form, head) + ListText(form, calls, gap + form.scopeEnd + suffix))
    requires ListOk(env, form, calls, gap + form.scopeEnd + suffix) && TailOk(form, gap, suffix)
    requires AllRead(env, form, ListPlaces(form, |pre| + |HeadText(form, head)|, calls))
    ensures form.Valid() && |suffix| <= |env.input|
    ensures TryConsume(env, form, |pre|, before) == Returns(true, |env.input| - |suffix|, before + CallsOf(env, form, calls))
  {
    hide Find, First, ListOk, TailOk, ListText, CallsOf, ListPlaces, AllRead, ParseTools, FindIn, Apart, OwnEnd, TryConsume;
    FormIsValid(form);
    var lead, text := HeadText(form, head), ListText(form, calls, gap + form.scopeEnd + suffix);
    var pos := |pre| + |lead|;
    Behind(env.input, pre, lead, text);
    ParsesList(env, form, |pre|, pos, before, true, calls, gap, suffix);
    if !AllSpace(form.scopeStart) {
      BlankFirst(head, form.scopeStart);
      assert env.input[|pre|..] == head + form.scopeStart + text;
      FindsAt(env, |pre|, head, form.scopeStart, text);
    }
    ParsesFrom(env, form, |pre|, before, pos, Found(head, |pre| + |head|, |pre| + |head| + |form.scopeStart|));
  }
}
