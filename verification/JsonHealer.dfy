/** Healing of truncated JSON (`common_json_parse` in `common/json-partial.cpp`). */
module JsonHealer {
  import opened Chars
  import opened Wrappers
  import opened JsonAcceptor
  import opened JsonSax

  // ------------------------------------------------------------------ looking at the text

  /** `find_last_not_of(" \n\r\t")`. */
  function LastNonWs(s: string): (r: Option<nat>)
    ensures r.Some? ==> r.value < |s|
    decreases |s|
  {
    if s == "" then None
    else if !IsWs(s[|s| - 1]) then Some(|s| - 1)
    else LastNonWs(s[..|s| - 1])
  }

  /** `find_last_of(set)`. */
  function FindLastOf(s: string, set_: seq<char>): (r: Option<nat>)
    ensures r.Some? ==> r.value < |s|
    decreases |s|
  {
    if s == "" then None
    else if s[|s| - 1] in set_ then Some(|s| - 1)
    else FindLastOf(s[..|s| - 1], set_)
  }

  predicate MaybeNumberChar(c: char) { IsDigit(c) || c == '.' || c == 'e' || c == 'E' || c == '-' }

  /** The lambda `was_maybe_number`. */
  predicate WasMaybeNumber(s: string, last: char) {
    !(s != "" && IsSpace(s[|s| - 1])) && MaybeNumberChar(last)
  }

  /** The last `2 + k` characters are a `\u` escape with `k` digits. */
  predicate UnicodeTailOf(s: string, k: nat) {
    && 2 + k <= |s|
    && s[|s| - 2 - k] == '\\' && s[|s| - 1 - k] == 'u'
    && forall i :: |s| - k <= i < |s| ==> IsHex(s[i])
  }

  /** `partial_unicode_regex`: the match that ends the text, if any. */
  function UnicodeTail(s: string): (r: Option<string>)
    ensures r.Some? ==> 2 <= |r.value| <= 6 && EndsWith(s, r.value)
  {
    if UnicodeTailOf(s, 4) then Some(s[|s| - 6..])
    else if UnicodeTailOf(s, 3) then Some(s[|s| - 5..])
    else if UnicodeTailOf(s, 2) then Some(s[|s| - 4..])
    else if UnicodeTailOf(s, 1) then Some(s[|s| - 3..])
    else if UnicodeTailOf(s, 0) then Some(s[|s| - 2..])
    else None
  }

  /** The lambda `is_high_surrogate`. */
  predicate IsHighSurrogate(m: string) {
    |m| >= 4 && m[0] == '\\' && m[1] == 'u' && HighPair(m[2], m[3])
  }

  function Zeros(n: nat): string { seq(n, _ => '0') }

  /** What completes an unfinished escape at the end of the text. */
  function Padding(s: string): string {
    match UnicodeTail(s)
    case None => "udc00"
    case Some(m) =>
      if IsHighSurrogate(m) then Zeros(6 - |m|) + "\\udc00"
      else
        match UnicodeTail(s[..|s| - |m|])
        case None => Zeros(6 - |m|)
        case Some(m2) =>
          if IsHighSurrogate(m2) && |m| == 2 then "dc00"
          else if IsHighSurrogate(m2) && |m| == 3 then "c00"
          else Zeros(6 - |m|)
  }

  // -------------------------------------------------------------------- choosing a completion

  /** What is put in place of the text from `keep` on; the brackets follow. `dump` ends with the marker. */
  datatype Choice = Complete(keep: nat, dump: string, tail: string) | CannotHeal

  function Text(s: string, ch: Choice, closing: string): string
    requires ch.Complete? && ch.keep <= |s|
  {
    s[..ch.keep] + ch.dump + ch.tail + closing
  }

  function CutBack(s: string, set_: seq<char>, seed: string): (r: Choice)
    ensures r.Complete? ==> r.keep <= |s|
  {
    match FindLastOf(s, set_)
    case None => CannotHeal
    case Some(i) => Complete(i + 1, "\"" + seed, "\"")
  }

  /** The innermost element is a key: inside an object value. */
  function HealKey(s: string, last: char, closing: string, seed: string): (r: Choice)
    requires s != ""
    ensures r.Complete? ==> r.keep <= |s|
  {
    if last == ':' && Accepts(s + "1" + closing) then Complete(|s|, "\"" + seed, "\"")
    else if Accepts(s + ": 1" + closing) then Complete(|s|, ":\"" + seed, "\"")
    else if last == '{' && Accepts(s + closing) then Complete(|s|, "\"" + seed, "\": 1")
    else if Accepts(s + "\"" + closing) then Complete(|s|, seed, "\"")
    else if s[|s| - 1] == '\\' && Accepts(s + "\\\"" + closing) then Complete(|s|, "\\" + seed, "\"")
    else if Accepts(s + Padding(s) + "\"" + closing) then Complete(|s|, Padding(s) + seed, "\"")
    else CutBack(s, ":", seed)
  }

  function HealArray(s: string, last: char, closing: string, seed: string): (r: Choice)
    requires s != ""
    ensures r.Complete? ==> r.keep <= |s|
  {
    if (last == ',' || last == '[') && Accepts(s + "1" + closing) then Complete(|s|, "\"" + seed, "\"")
    else if Accepts(s + "\"" + closing) then Complete(|s|, seed, "\"")
    else if s[|s| - 1] == '\\' && Accepts(s + "\\\"" + closing) then Complete(|s|, "\\" + seed, "\"")
    else if Accepts(s + Padding(s) + "\"" + closing) then Complete(|s|, Padding(s) + seed, "\"")
    else if !WasMaybeNumber(s, last) && Accepts(s + ", 1" + closing) then Complete(|s|, ",\"" + seed, "\"")
    else CutBack(s, "[,", seed)
  }

  function HealObject(s: string, last: char, closing: string, seed: string): (r: Choice)
    requires s != ""
    ensures r.Complete? ==> r.keep <= |s|
  {
    if (last == '{' && Accepts(s + closing)) || (last == ',' && Accepts(s + "\"\": 1" + closing)) then
      Complete(|s|, "\"" + seed, "\": 1")
    else if !WasMaybeNumber(s, last) && Accepts(s + ",\"\": 1" + closing) then Complete(|s|, ",\"" + seed, "\": 1")
    else if Accepts(s + "\": 1" + closing) then Complete(|s|, seed, "\": 1")
    else if s[|s| - 1] == '\\' && Accepts(s + "\\\": 1" + closing) then Complete(|s|, "\\" + seed, "\": 1")
    else if Accepts(s + Padding(s) + "\": 1" + closing) then Complete(|s|, Padding(s) + seed, "\": 1")
    else CutBack(s, ":", seed)
  }

  /** The text `s` stopped inside the containers that `els` describes. */
  function Heal(s: string, els: seq<Element>, seed: string): (r: Choice)
    requires els != []
    ensures r.Complete? ==> r.keep <= |s|
  {
    match LastNonWs(s)
    case None => CannotHeal
    case Some(at) =>
      match els[|els| - 1]
      case KeyEl => HealKey(s, s[at], ClosingOf(els), seed)
      case ArrayEl => HealArray(s, s[at], ClosingOf(els), seed)
      case ObjectEl => HealObject(s, s[at], ClosingOf(els), seed)
  }

  /** A top-level string. */
  function HealTop(s: string, seed: string): (r: Choice)
    requires s != ""
    ensures r.Complete? ==> r.keep <= |s|
  {
    if Accepts(s + "\"") then Complete(|s|, seed, "\"")
    else if s[|s| - 1] == '\\' && Accepts(s + "\\\"") then Complete(|s|, "\\" + seed, "\"")
    else CannotHeal
  }

  /** What `common_json_parse` ends with: `json::parse` of `text`, having consumed `end` characters;
      the marker fields are empty when nothing was healed. */
  datatype Outcome =
    | Parsed(text: string, end: nat, marker: string, dumpMarker: string)
    | Refused
    | GivesUp       // an exception of the healer
    | ParseError    // an exception of the library: what was healed is no document

  function ParsedOr(s: string, ch: Choice, closing: string, seed: string): Outcome
    requires ch.Complete? ==> ch.keep <= |s|
  {
    if ch.CannotHeal? then GivesUp
    else if Accepts(Text(s, ch, closing)) then Parsed(Text(s, ch, closing), |s|, seed, ch.dump)
    else ParseError
  }

  function Parse(input: string, marker: string): Outcome {
    if Accepts(input) then Parsed(input, |input|, "", "")
    else
      var s := input[..ErrorAt(input)];
      var els := SaxStack(Finish(Reach(INIT, input).1));
      if Accepts(s) then Parsed(s, |s|, "", "")
      else if marker != "" && els != [] then ParsedOr(s, Heal(s, els, marker), ClosingOf(els), marker)
      else if |s| != 0 && marker != "" then
        var ch := HealTop(s, marker);
        if ch.CannotHeal? then Refused else ParsedOr(s, ch, "", marker)
      else Refused
  }

  /** The brackets that close the stack, from its top down. */
  method CloseAll(stack: seq<Element>) returns (closing: string)
    ensures closing == ClosingOf(stack)
  {
    closing := "";
    var i := |stack|;
    assert stack[..i] == stack;
    while i > 0
      invariant 0 <= i <= |stack|
      invariant closing + ClosingOf(stack[..i]) == ClosingOf(stack)
    {
      var el := stack[i - 1];
      assert stack[..i][..i - 1] == stack[..i - 1];
      ghost var before, rest := closing, ClosingOf(stack[..i - 1]);
      if el == ObjectEl {
        closing := closing + "}";
        assert before + ("}" + rest) == closing + rest;
      } else if el == ArrayEl {
        closing := closing + "]";
        assert before + ("]" + rest) == closing + rest;
      }
      i := i - 1;
    }
    assert closing + "" == closing;
  }

  method CommonJsonParse(input: string, healingMarker: string) returns (out: Outcome)
    ensures out == Parse(input, healingMarker)
  {
    hide Accepts, Reach, ErrorAt, SaxStack, HealKey, HealArray, HealObject, HealTop, Text, ClosingOf;
    var loc := new JsonErrorLocator();
    var _ := loc.SaxParse(input);
    if loc.foundError {
      var str := input[..loc.position];
      if Accepts(str) { return Parsed(str, |str|, "", ""); }
      if healingMarker != "" && loc.stack != [] {
        var at := LastNonWs(str);
        if at.None? { return GivesUp; }
        var closing := CloseAll(loc.stack);
        var last := str[at.value];
        var top := loc.stack[|loc.stack| - 1];
        var ch;
        if top == KeyEl {
          ch := HealKey(str, last, closing, healingMarker);
        } else if top == ArrayEl {
          ch := HealArray(str, last, closing, healingMarker);
        } else {
          ch := HealObject(str, last, closing, healingMarker);
        }
        if ch.CannotHeal? { return GivesUp; }
        var healed := Text(str, ch, closing);
        if !Accepts(healed) { return ParseError; }
        return Parsed(healed, loc.position, healingMarker, ch.dump);
      }
      if loc.position != 0 && healingMarker != "" {
        var ch := HealTop(str, healingMarker);
        if ch.CannotHeal? { return Refused; }
        var healed := Text(str, ch, "");
        if !Accepts(healed) { return ParseError; }
        return Parsed(healed, loc.position, healingMarker, ch.dump);
      }
      return Refused;
    }
    return Parsed(input, |input|, "", "");
  }
}
