/** The text of the excluding grammar, and how it is read: the printing part of `make_gbnf_excluding`
    (`common/chat-parser-xml-toolcall.cpp`), and the reader of GBNF (`src/llama-grammar.cpp`) for literals, classes,
    groups, `.` and `*`. Texts are bytes below 256 without a zero. */
module GbnfText {

  import opened Chars
  import opened ExcludingGrammar

  // ------------------------------------------------------------------------------ printing

  /** `isprint` in the C locale. */
  predicate Printable(c: symbol) {
    0x20 <= c < 0x7F
  }

  function HexDigit(d: nat): char
    requires d < 16
  {
    if d < 10 then '0' + d as char else 'A' + (d - 10) as char
  }

  /** `\xNN` with the two digits of a byte. */
  function HexEscape(c: symbol): string {
    ['\\', 'x', HexDigit(c / 16 % 16), HexDigit(c % 16)]
  }

  /** `charclass_escape`. */
  function ClassChar(c: symbol): string {
    if c == '\\' as int || c == ']' as int || c == '^' as int || c == '-' as int then ['\\', c as char]
    else if Printable(c) then [c as char]
    else HexEscape(c)
  }

  function LiteralChar(c: symbol): string {
    if c == '\\' as int || c == '"' as int then ['\\', c as char]
    else if Printable(c) then [c as char]
    else HexEscape(c)
  }

  function ClassText(cls: seq<symbol>): string {
    if cls == [] then "" else ClassChar(cls[0]) + ClassText(cls[1..])
  }

  function AltText(a: Alt): string
    decreases a
  {
    match a
    case Any => "."
    case NotIn(cls) => "[^" + ClassText(cls) + "]"
    case Branch(c, rest) => "\"" + LiteralChar(c) + "\" " + ExprText(rest)
  }

  function AltsText(alts: seq<Alt>): string
    decreases alts
  {
    if alts == [] then ""
    else if |alts| == 1 then AltText(alts[0])
    else AltText(alts[0]) + " | " + AltsText(alts[1..])
  }

  function ExprText(e: Expr): string
    decreases e
  {
    match e
    case Nothing => ""
    case Choice(alts) => "( " + AltsText(alts) + " )"
  }

  function GrammarText(forbids: seq<Word>): string {
    var text := ExprText(Grammar(forbids));
    if |forbids| <= 1 then text + "*" else "( " + text + " )*"
  }

  method MakeGbnfExcluding(forbids: seq<Word>) returns (text: string)
    ensures text == GrammarText(forbids)
  {
    hide Grammar, ExprText;
    var e := MakeExpr(forbids);
    text := ExprText(e);
    if |forbids| <= 1 { text := text + "*"; } else { text := "( " + text + " )*"; }
  }

  // ------------------------------------------------------------------------------- reading

  datatype Range = Range(lo: nat, hi: nat)

  /** What one symbol of a rule adds to it; a repetition takes the items of the symbol before it. */
  datatype Item =
    | Class(negated: bool, ranges: seq<Range>)
    | AnyChar
    | Group(alts: seq<Sequence>)
    | Repeat(items: seq<Item>)

  datatype Sequence = Sequence(items: seq<Item>)

  /** `Outside` is a symbol of another kind: a rule, a token, `+`, `?` or a counted repetition. */
  datatype Reading<T> = Ok(value: T, rest: string) | Throws | Outside

  function ParseHex(s: string, size: nat, value: nat): (r: Reading<nat>)
    ensures r.Ok? ==> |r.rest| <= |s|
    decreases size
  {
    if size == 0 then Ok(value, s)
    else if s == [] || !IsHex(s[0]) then Throws
    else ParseHex(s[1..], size - 1, value * 16 + HexValue(s[0]))
  }

  /** `decode_utf8` of one character: the first byte says how many there are, and the others are not looked at. */
  function DecodeUtf8(s: string): (r: Reading<nat>)
    requires s != []
    ensures r.Ok? && |r.rest| < |s|
  {
    var b := s[0] as int % 256;
    if b < 0xC0 then Ok(b % 128, s[1..])
    else if b < 0xE0 then DecodeMore(s[1..], 1, b % 64)
    else if b < 0xF0 then DecodeMore(s[1..], 2, b % 32)
    else DecodeMore(s[1..], 3, b % 16)
  }

  function DecodeMore(s: string, n: nat, value: nat): (r: Reading<nat>)
    ensures r.Ok? && |r.rest| <= |s|
    decreases n
  {
    if n == 0 || s == [] then Ok(value, s) else DecodeMore(s[1..], n - 1, value * 64 + s[0] as int % 64)
  }

  function ParseChar(s: string): (r: Reading<nat>)
    ensures r.Ok? ==> |r.rest| < |s|
  {
    if s == [] then Throws
    else if s[0] == '\\' then
      if |s| < 2 then Throws
      else
        match s[1]
        case 'x' => ParseHex(s[2..], 2, 0)
        case 'u' => ParseHex(s[2..], 4, 0)
        case 'U' => ParseHex(s[2..], 8, 0)
        case 't' => Ok(9, s[2..])
        case 'r' => Ok(13, s[2..])
        case 'n' => Ok(10, s[2..])
        case '\\' => Ok('\\' as int, s[2..])
        case '"' => Ok('"' as int, s[2..])
        case '[' => Ok('[' as int, s[2..])
        case ']' => Ok(']' as int, s[2..])
        case _ => Throws
    else DecodeUtf8(s)
  }

  function SkipComment(s: string): (r: string)
    ensures |r| <= |s|
  {
    if s == [] || s[0] == '\r' || s[0] == '\n' then s else SkipComment(s[1..])
  }

  function ParseSpace(s: string, newlineOk: bool): (r: string)
    ensures |r| <= |s|
    decreases |s|
  {
    if s == [] then s
    else if s[0] == ' ' || s[0] == '\t' || (newlineOk && (s[0] == '\r' || s[0] == '\n')) then ParseSpace(s[1..], newlineOk)
    else if s[0] == '#' then ParseSpace(SkipComment(s[1..]), newlineOk)
    else s
  }

  function ParseLiteral(s: string, items: seq<Item>): (r: Reading<seq<Item>>)
    ensures r.Ok? ==> |r.rest| < |s|
    decreases |s|
  {
    if s == [] then Throws
    else if s[0] == '"' then Ok(items, s[1..])
    else
      match ParseChar(s)
      case Ok(c, rest) => ParseLiteral(rest, items + [Class(false, [Range(c, c)])])
      case _ => Throws
  }

  function ParseClass(s: string, ranges: seq<Range>): (r: Reading<seq<Range>>)
    ensures r.Ok? ==> |r.rest| < |s|
    decreases |s|
  {
    if s == [] then Throws
    else if s[0] == ']' then Ok(ranges, s[1..])
    else
      match ParseChar(s)
      case Ok(lo, rest) =>
        if rest != [] && rest[0] == '-' && !(|rest| > 1 && rest[1] == ']') then
          match ParseChar(rest[1..])
          case Ok(hi, more) => ParseClass(more, ranges + [Range(lo, hi)])
          case _ => Throws
        else ParseClass(rest, ranges + [Range(lo, lo)])
      case _ => Throws
  }

  predicate IsWord(c: char) {
    'a' <= c <= 'z' || 'A' <= c <= 'Z' || c == '-' || IsDigit(c)
  }

  /** A class without elements adds nothing to the rule. */
  function ClassItems(negated: bool, ranges: seq<Range>): seq<Item> {
    if ranges == [] then [] else [Class(negated, ranges)]
  }

  /** `parse_sequence`; the items from `last` on are those of the last symbol. */
  function ParseSequence(s: string, items: seq<Item>, last: nat, nested: bool): (r: Reading<seq<Item>>)
    requires last <= |items|
    ensures r.Ok? ==> |r.rest| <= |s|
    decreases |s|, 0
  {
    if s == [] then Ok(items, s)
    else if s[0] == '"' then
      match ParseLiteral(s[1..], [])
      case Ok(chars, rest) => ParseSequence(ParseSpace(rest, nested), items + chars, |items|, nested)
      case _ => Throws
    else if s[0] == '[' then
      var negated := |s| > 1 && s[1] == '^';
      match ParseClass(if negated then s[2..] else s[1..], [])
      case Ok(ranges, rest) =>
        ParseSequence(ParseSpace(rest, nested), items + ClassItems(negated, ranges), |items|, nested)
      case _ => Throws
    else if s[0] == '(' then
      match ParseAlternates(ParseSpace(s[1..], true), [], true)
      case Ok(alts, rest) =>
        if rest != [] && rest[0] == ')' then
          ParseSequence(ParseSpace(rest[1..], nested), items + [Group(alts)], |items|, nested)
        else Throws
      case Throws => Throws
      case Outside => Outside
    else if s[0] == '.' then ParseSequence(ParseSpace(s[1..], nested), items + [AnyChar], |items|, nested)
    else if s[0] == '*' then
      if last == |items| then Throws
      else ParseSequence(ParseSpace(s[1..], nested), items[..last] + [Repeat(items[last..])], last, nested)
    else if s[0] in "<!+?{" || IsWord(s[0]) then Outside
    else Ok(items, s)
  }

  /** `parse_alternates`. */
  function ParseAlternates(s: string, alts: seq<Sequence>, nested: bool): (r: Reading<seq<Sequence>>)
    ensures r.Ok? ==> |r.rest| <= |s|
    decreases |s|, 1
  {
    match ParseSequence(s, [], 0, nested)
    case Ok(items, rest) =>
      if rest != [] && rest[0] == '|' then ParseAlternates(ParseSpace(rest[1..], true), alts + [Sequence(items)], nested)
      else Ok(alts + [Sequence(items)], rest)
    case Throws => Throws
    case Outside => Outside
  }

  // ------------------------------------------------------------- what a read grammar matches

  predicate InRanges(ranges: seq<Range>, x: symbol) {
    exists i :: 0 <= i < |ranges| && ranges[i].lo <= x <= ranges[i].hi
  }

  /** `llama_grammar_match_char` for classes. */
  ghost predicate ItemMatches(it: Item, w: seq<symbol>)
    decreases it, |w|
  {
    match it
    case Class(negated, ranges) => |w| == 1 && InRanges(ranges, w[0]) != negated
    case AnyChar => |w| == 1
    case Group(alts) => AltsMatch(alts, w)
    case Repeat(items) =>
      w == [] || exists k :: 1 <= k <= |w| && SeqMatches(items, w[..k]) && ItemMatches(it, w[k..])
  }

  ghost predicate SeqMatches(items: seq<Item>, w: seq<symbol>)
    decreases items, |w|
  {
    if items == [] then w == []
    else exists k :: 0 <= k <= |w| && ItemMatches(items[0], w[..k]) && SeqMatches(items[1..], w[k..])
  }

  ghost predicate AltsMatch(alts: seq<Sequence>, w: seq<symbol>)
    decreases alts, |w|
  {
    exists i :: 0 <= i < |alts| && SeqMatches(alts[i].items, w)
  }

  // ----------------------------------------------------------- reading undoes printing, or fails

  function AltItems(a: Alt): seq<Item>
    decreases a
  {
    match a
    case Any => [AnyChar]
    case NotIn(cls) => ClassItems(true, SymbolRanges(cls))
    case Branch(c, rest) => [Class(false, [Range(c, c)]), Group(ExprItems(rest))]
  }

  function AltsItems(alts: seq<Alt>): (r: seq<Sequence>)
    ensures |r| == |alts| && forall i :: 0 <= i < |alts| ==> r[i] == Sequence(AltItems(alts[i]))
    decreases alts
  {
    if alts == [] then [] else [Sequence(AltItems(alts[0]))] + AltsItems(alts[1..])
  }

  function ExprItems(e: Expr): seq<Sequence>
    decreases e
  {
    match e
    case Nothing => []
    case Choice(alts) => AltsItems(alts)
  }

  function SymbolRanges(cls: seq<symbol>): (r: seq<Range>)
    ensures |r| == |cls| && forall i :: 0 <= i < |cls| ==> r[i] == Range(cls[i], cls[i])
  {
    if cls == [] then [] else [Range(cls[0], cls[0])] + SymbolRanges(cls[1..])
  }

  /** The two characters that are printed in classes with a backslash that the reader refuses. */
  predicate Refused(c: symbol) {
    c == '-' as int || c == '^' as int
  }

  predicate ReadableClass(cls: seq<symbol>) {
    forall i :: 0 <= i < |cls| ==> !Refused(cls[i])
  }

  predicate ReadableAlt(a: Alt)
    decreases a
  {
    match a
    case Any => true
    case NotIn(cls) => ReadableClass(cls)
    case Branch(_, rest) => Readable(rest)
  }

  predicate Readable(e: Expr)
    decreases e
  {
    match e
    case Nothing => true
    case Choice(alts) => forall i :: 0 <= i < |alts| ==> ReadableAlt(alts[i])
  }

  predicate Bytes(w: seq<symbol>) {
    forall i :: 0 <= i < |w| ==> w[i] < 256
  }

  /** There is something to print, and it consists of bytes. */
  predicate PrintableAlt(a: Alt)
    decreases a
  {
    match a
    case Any => true
    case NotIn(cls) => Bytes(cls)
    case Branch(c, rest) => c < 256 && PrintableExpr(rest)
  }

  predicate PrintableExpr(e: Expr)
    decreases e
  {
    match e
    case Nothing => false
    case Choice(alts) => alts != [] && forall i :: 0 <= i < |alts| ==> PrintableAlt(alts[i])
  }

  lemma ReadsHex(c: symbol, rest: string)
    requires c < 256
    ensures ParseHex([HexDigit(c / 16 % 16), HexDigit(c % 16)] + rest, 2, 0) == Ok(c, rest)
  {
    var a, b := HexDigit(c / 16 % 16), HexDigit(c % 16);
    var s := [a, b] + rest;
    assert s[1..] == [b] + rest && s[1..][1..] == rest;
    assert HexValue(a) == c / 16 && HexValue(b) == c % 16;
    assert ParseHex(s[1..][1..], 0, c / 16 * 16 + c % 16) == Ok(c, rest);
  }

  lemma ReadsPrintable(c: symbol, rest: string)
    requires Printable(c) && c != '\\' as int
    ensures ParseChar([c as char] + rest) == Ok(c, rest)
  {
    var s := [c as char] + rest;
    assert s[1..] == rest;
  }

  lemma ReadsHexEscape(c: symbol, rest: string)
    requires c < 256
    ensures ParseChar(HexEscape(c) + rest) == Ok(c, rest)
  {
    var s := HexEscape(c) + rest;
    assert s[0] == '\\' && s[1] == 'x' && s[2..] == [HexDigit(c / 16 % 16), HexDigit(c % 16)] + rest;
    ReadsHex(c, rest);
  }

  /** A character of a class is read back, but for the two that are refused. */
  lemma ReadsClassChar(c: symbol, rest: string)
    requires c < 256
    ensures ParseChar(ClassChar(c) + rest) == if Refused(c) then Throws else Ok(c, rest)
    ensures ClassChar(c) != [] && ClassChar(c)[0] != ']' && ClassChar(c)[0] != '-' && ClassChar(c)[0] != '^'
  {
    hide HexEscape, DecodeUtf8;
    var s := ClassChar(c) + rest;
    if c == '\\' as int || c == ']' as int || Refused(c) {
      assert s[0] == '\\' && s[1] == c as char && s[2..] == rest;
    } else if Printable(c) {
      ReadsPrintable(c, rest);
    } else {
      ReadsHexEscape(c, rest);
      HexEscapeBegins(c);
    }
  }

  lemma HexEscapeBegins(c: symbol)
    ensures |HexEscape(c)| == 4 && HexEscape(c)[0] == '\\'
  {
  }

  /** A character of a literal is always read back. */
  lemma ReadsLiteralChar(c: symbol, rest: string)
    requires c < 256
    ensures ParseChar(LiteralChar(c) + rest) == Ok(c, rest)
    ensures LiteralChar(c) != [] && LiteralChar(c)[0] != '"'
  {
    hide HexEscape, DecodeUtf8;
    var s := LiteralChar(c) + rest;
    if c == '\\' as int || c == '"' as int {
      assert s[0] == '\\' && s[1] == c as char && s[2..] == rest;
    } else if Printable(c) {
      ReadsPrintable(c, rest);
    } else {
      ReadsHexEscape(c, rest);
      HexEscapeBegins(c);
    }
  }

  lemma ReadsLiteral(c: symbol, rest: string)
    requires c < 256
    ensures ParseLiteral(LiteralChar(c) + "\"" + rest, []) == Ok([Class(false, [Range(c, c)])], rest)
  {
    hide LiteralChar, ParseChar;
    var s := LiteralChar(c) + "\"" + rest;
    assert s == LiteralChar(c) + ("\"" + rest);
    ReadsLiteralChar(c, "\"" + rest);
    var items := [Class(false, [Range(c, c)])];
    assert [] + items == items;
    assert ("\"" + rest)[1..] == rest;
    assert ParseLiteral("\"" + rest, items) == Ok(items, rest);
  }

  lemma ClassStep(s: string, ranges: seq<Range>)
    requires s != [] && s[0] != ']'
    ensures ParseChar(s) == Throws ==> ParseClass(s, ranges) == Throws
    ensures ParseChar(s).Ok? && ParseChar(s).rest != [] && ParseChar(s).rest[0] != '-' ==>
              var (c, rest) := (ParseChar(s).value, ParseChar(s).rest);
              ParseClass(s, ranges) == ParseClass(rest, ranges + [Range(c, c)])
  {
    hide ParseChar;
  }

  lemma ClassEnds(ranges: seq<Range>, rest: string)
    ensures ParseClass("]" + rest, ranges) == Ok(ranges, rest)
  {
    assert ("]" + rest)[1..] == rest;
  }

  lemma {:induction false} ReadsClass(cls: seq<symbol>, ranges: seq<Range>, rest: string)
    requires Bytes(cls)
    ensures ParseClass(ClassText(cls) + "]" + rest, ranges) ==
              if ReadableClass(cls) then Ok(ranges + SymbolRanges(cls), rest) else Throws
    decreases |cls|
  {
    hide ClassChar, ParseChar, ParseClass;
    if cls == [] {
      assert ClassText(cls) + "]" + rest == "]" + rest;
      ClassEnds(ranges, rest);
      assert ranges + [] == ranges;
    } else {
      var c, more := cls[0], cls[1..];
      var tail := ClassText(more) + "]" + rest;
      assert ClassText(cls) + "]" + rest == ClassChar(c) + tail;
      ReadsClassChar(c, tail);
      ClassStarts(more, rest);
      ClassStep(ClassChar(c) + tail, ranges);
      if !Refused(c) {
        ReadsClass(more, ranges + [Range(c, c)], rest);
        assert ranges + [Range(c, c)] + SymbolRanges(more) == ranges + SymbolRanges(cls);
        ReadableRest(cls);
      }
    }
  }

  lemma ReadableRest(cls: seq<symbol>)
    requires cls != [] && !Refused(cls[0])
    ensures ReadableClass(cls) <==> ReadableClass(cls[1..])
  {
    if ReadableClass(cls[1..]) {
      forall i | 0 <= i < |cls| ensures !Refused(cls[i]) {
        if i > 0 { assert cls[i] == cls[1..][i - 1]; }
      }
    }
  }

  /** What follows a character of a class is never a hyphen. */
  lemma ClassStarts(cls: seq<symbol>, rest: string)
    requires Bytes(cls)
    ensures (ClassText(cls) + "]" + rest)[0] != '-'
  {
    hide ClassChar;
    if cls != [] { ReadsClassChar(cls[0], ""); }
  }

  lemma OneSpace(t: string)
    requires t != [] && t[0] != ' ' && t[0] != '\t' && t[0] != '#' && t[0] != '\r' && t[0] != '\n'
    ensures ParseSpace(" " + t, true) == t
  {
    assert (" " + t)[1..] == t;
  }

  lemma AltStarts(a: Alt)
    requires PrintableAlt(a)
    ensures AltText(a) != [] && (AltText(a)[0] == '.' || AltText(a)[0] == '[' || AltText(a)[0] == '"')
  {
  }

  lemma AltsStart(alts: seq<Alt>)
    requires alts != [] && PrintableAlt(alts[0])
    ensures AltText(alts[0]) <= AltsText(alts)
    ensures AltsText(alts) != [] && (AltsText(alts)[0] == '.' || AltsText(alts)[0] == '[' || AltsText(alts)[0] == '"')
  {
    hide AltText, PrintableAlt;
    AltStarts(alts[0]);
  }

  /** At a bar or a closing bracket a sequence ends. */
  predicate Ends(t: string) {
    t != [] && (t[0] == '|' || t[0] == ')')
  }

  lemma EndsHere(t: string, items: seq<Item>, last: nat)
    requires Ends(t) && last <= |items|
    ensures ParseSequence(ParseSpace(" " + t, true), items, last, true) == Ok(items, t)
  {
    OneSpace(t);
  }

  /** One alternative of a group. */
  lemma {:induction false} ReadsAlt(a: Alt, t: string)
    requires PrintableAlt(a) && Ends(t)
    ensures ParseSequence(AltText(a) + (" " + t), [], 0, true) == if ReadableAlt(a) then Ok(AltItems(a), t) else Throws
    decreases a
  {
    hide ParseSpace, ParseClass, ParseLiteral, ParseAlternates, ExprText, ExprItems, LiteralChar, ClassText;
    var s := AltText(a) + (" " + t);
    match a
    case Any =>
      assert s[1..] == " " + t;
      assert [] + [AnyChar] == [AnyChar];
      EndsHere(t, [AnyChar], 0);
    case NotIn(cls) =>
      assert s[0] == '[' && s[1] == '^' && s[2..] == ClassText(cls) + "]" + (" " + t);
      ReadsClass(cls, [], " " + t);
      assert [] + SymbolRanges(cls) == SymbolRanges(cls);
      assert [] + ClassItems(true, SymbolRanges(cls)) == AltItems(a);
      EndsHere(t, AltItems(a), 0);
    case Branch(c, rest) =>
      var more := ExprText(rest) + (" " + t);
      assert s[0] == '"' && s[1..] == LiteralChar(c) + "\"" + (" " + more);
      ReadsLiteral(c, " " + more);
      ExprStarts(rest);
      OneSpace(more);
      var items := [Class(false, [Range(c, c)])];
      assert [] + items == items;
      ReadsExpr(rest, " " + t, items, 0, true);
      assert items + [Group(ExprItems(rest))] == AltItems(a);
      EndsHere(t, AltItems(a), 1);
  }

  lemma ExprStarts(e: Expr)
    requires PrintableExpr(e)
    ensures |ExprText(e)| >= 2 && ExprText(e)[0] == '('
  {
  }

  /** The alternatives of a group, up to its closing bracket. */
  lemma {:induction false} ReadsAlts(alts: seq<Alt>, acc: seq<Sequence>, rest: string)
    requires alts != [] && forall i :: 0 <= i < |alts| ==> PrintableAlt(alts[i])
    ensures ParseAlternates(AltsText(alts) + (" )" + rest), acc, true) ==
              if forall i :: 0 <= i < |alts| ==> ReadableAlt(alts[i]) then Ok(acc + AltsItems(alts), ")" + rest)
              else Throws
    decreases alts
  {
    hide ParseSpace, ParseSequence, AltText, AltItems, ReadableAlt, PrintableAlt;
    var a := alts[0];
    if |alts| == 1 {
      var t := ")" + rest;
      assert " )" + rest == " " + t;
      ReadsAlt(a, t);
      assert AltsItems(alts) == [Sequence(AltItems(a))];
    } else {
      var more := alts[1..];
      var next := AltsText(more) + (" )" + rest);
      var t := "| " + next;
      assert AltsText(alts) + (" )" + rest) == AltText(a) + (" " + t);
      ReadsAlt(a, t);
      assert t[1..] == " " + next;
      AltsStart(more);
      OneSpace(next);
      ReadsAlts(more, acc + [Sequence(AltItems(a))], rest);
      assert acc + [Sequence(AltItems(a))] + AltsItems(more) == acc + AltsItems(alts);
      if ReadableAlt(a) { ReadableMore(alts); }
    }
  }

  lemma ReadableMore(alts: seq<Alt>)
    requires alts != [] && ReadableAlt(alts[0])
    ensures (forall i :: 0 <= i < |alts| ==> ReadableAlt(alts[i])) <==>
              forall i :: 0 <= i < |alts[1..]| ==> ReadableAlt(alts[1..][i])
  {
    hide ReadableAlt;
    var more := alts[1..];
    if forall i :: 0 <= i < |more| ==> ReadableAlt(more[i]) {
      forall i | 0 <= i < |alts| ensures ReadableAlt(alts[i]) {
        if i > 0 { assert alts[i] == more[i - 1]; }
      }
    }
  }

  /** A group is read by reading its alternatives. */
  lemma GroupStep(s: string, items: seq<Item>, last: nat, nested: bool)
    requires s != [] && s[0] == '(' && last <= |items|
    ensures ParseSequence(s, items, last, nested) ==
              match ParseAlternates(ParseSpace(s[1..], true), [], true)
              case Ok(alts, rest) =>
                if rest != [] && rest[0] == ')' then
                  ParseSequence(ParseSpace(rest[1..], nested), items + [Group(alts)], |items|, nested)
                else Throws
              case Throws => Throws
              case Outside => Outside
  {
    hide ParseSpace, ParseClass, ParseLiteral, ParseAlternates;
  }

  /** A printed expression is read as one group, or refused. */
  lemma {:induction false} ReadsExpr(e: Expr, rest: string, items: seq<Item>, last: nat, nested: bool)
    requires PrintableExpr(e) && last <= |items|
    ensures ParseSequence(ExprText(e) + rest, items, last, nested) ==
              if Readable(e) then ParseSequence(ParseSpace(rest, nested), items + [Group(ExprItems(e))], |items|, nested)
              else Throws
    decreases e
  {
    hide ParseSpace, ParseSequence, ParseAlternates, AltsText, AltsItems, PrintableAlt, ReadableAlt;
    var s := ExprText(e) + rest;
    var body := AltsText(e.alts) + (" )" + rest);
    assert s[0] == '(' && s[1..] == " " + body;
    AltsStart(e.alts);
    OneSpace(body);
    ReadsAlts(e.alts, [], rest);
    assert [] + AltsItems(e.alts) == AltsItems(e.alts);
    assert (")" + rest)[1..] == rest;
    GroupStep(s, items, last, nested);
  }

  // ------------------------------------------------------------- the letters of the built tree

  ghost predicate ByteWords(ws: seq<Word>) {
    forall i :: 0 <= i < |ws| ==> Bytes(ws[i])
  }

  /** From `depth` on, no word of the range has a refused character. */
  ghost predicate PlainRange(ws: seq<Word>, l: nat, r: nat, depth: nat)
    requires r <= |ws|
  {
    forall i, k :: l <= i < r && depth <= k < |ws[i]| ==> !Refused(ws[i][k])
  }

  ghost predicate PlainChild(ws: seq<Word>, ch: Child, depth: nat)
    requires ch.to <= |ws|
  {
    !Refused(ch.c) && PlainRange(ws, ch.from, ch.to, depth + 1)
  }

  ghost predicate PlainChildren(ws: seq<Word>, cs: seq<Child>, depth: nat) {
    forall k :: 0 <= k < |cs| ==> cs[k].to <= |ws| && PlainChild(ws, cs[k], depth)
  }

  ghost predicate ByteChildren(cs: seq<Child>) {
    forall k :: 0 <= k < |cs| ==> cs[k].c < 256
  }

  lemma {:induction false} ChildrenPlain(ws: seq<Word>, i: nat, r: nat, depth: nat)
    requires Reaches(ws, i, r, depth)
    ensures PlainRange(ws, i, r, depth) <==> PlainChildren(ws, Children(ws, i, r, depth), depth)
    ensures ByteWords(ws) ==> ByteChildren(Children(ws, i, r, depth))
    decreases r - i
  {
    hide GroupEnd, PlainChild, PlainRange, ByteWords, PlainChildren, ByteChildren;
    if i >= r {
      NothingPlain(ws, i, r, depth);
    } else if |ws[i]| == depth {
      ChildrenPlain(ws, i + 1, r, depth);
      PlainSplit(ws, i, i + 1, r, depth);
      NoLetterPlain(ws, i, depth);
    } else {
      var c := ws[i][depth];
      var j := GroupEnd(ws, i, r, depth, c);
      ChildrenPlain(ws, j, r, depth);
      PlainSplit(ws, i, j, r, depth);
      GroupPlain(ws, i, j, depth, c);
      ConsPlain(ws, Child(c, i, j), Children(ws, j, r, depth), depth);
    }
  }

  lemma ConsPlain(ws: seq<Word>, ch: Child, tail: seq<Child>, depth: nat)
    requires ch.to <= |ws|
    ensures PlainChildren(ws, [ch] + tail, depth) <==> PlainChild(ws, ch, depth) && PlainChildren(ws, tail, depth)
    ensures ByteChildren([ch] + tail) <==> ch.c < 256 && ByteChildren(tail)
  {
    hide PlainChild;
    var cs := [ch] + tail;
    assert cs[0] == ch && forall k :: 0 <= k < |tail| ==> cs[k + 1] == tail[k];
    assert forall k :: 1 <= k < |cs| ==> cs[k] == tail[k - 1];
  }

  lemma NothingPlain(ws: seq<Word>, l: nat, r: nat, depth: nat)
    requires r <= l && r <= |ws|
    ensures PlainRange(ws, l, r, depth) && PlainChildren(ws, [], depth) && ByteChildren([])
  {
  }

  lemma NoLetterPlain(ws: seq<Word>, i: nat, depth: nat)
    requires i < |ws| && |ws[i]| == depth
    ensures PlainRange(ws, i, i + 1, depth)
  {
  }

  lemma PlainSplit(ws: seq<Word>, l: nat, m: nat, r: nat, depth: nat)
    requires l <= m <= r <= |ws|
    ensures PlainRange(ws, l, r, depth) <==> PlainRange(ws, l, m, depth) && PlainRange(ws, m, r, depth)
  {
    hide Refused;
  }

  lemma GroupPlain(ws: seq<Word>, i: nat, j: nat, depth: nat, c: symbol)
    requires i < j <= |ws| && forall k :: i <= k < j ==> depth < |ws[k]| && ws[k][depth] == c
    ensures PlainRange(ws, i, j, depth) <==> PlainChild(ws, Child(c, i, j), depth)
    ensures ByteWords(ws) ==> c < 256
  {
    hide Refused;
    assert ws[i][depth] == c;
    if ByteWords(ws) { assert Bytes(ws[i]); }
  }

  /** The tree of a range is readable when its words are plain, and printable when they consist of bytes. */
  lemma {:induction false} BuildReadable(ws: seq<Word>, l: nat, r: nat, depth: nat)
    requires Reaches(ws, l, r, depth)
    ensures Readable(Build(ws, l, r, depth)) <==> PlainRange(ws, l, r, depth)
    ensures ByteWords(ws) && Build(ws, l, r, depth).Choice? ==> PrintableExpr(Build(ws, l, r, depth))
    decreases Height(ws, l, r, depth), 1
  {
    hide Children, Branches, Height, NextChars, PlainRange, PlainRest, PlainChildren, ByteWords, ByteChildren, ReadableAlt, PrintableAlt;
    var cs := Children(ws, l, r, depth);
    ChildrenPlain(ws, l, r, depth);
    BranchesReadable(ws, l, r, depth, cs);
    ClassOf(ws, depth, cs);
    EitherPart(ClassAlts(cs), Branches(ws, l, r, depth, cs));
  }

  ghost predicate PrintableAlts(alts: seq<Alt>) {
    forall i :: 0 <= i < |alts| ==> PrintableAlt(alts[i])
  }

  lemma EitherPart(first: seq<Alt>, rest: seq<Alt>)
    ensures Readable(Choice(first + rest)) <==> Readable(Choice(first)) && Readable(Choice(rest))
    ensures PrintableAlts(first + rest) <==> PrintableAlts(first) && PrintableAlts(rest)
  {
    hide ReadableAlt, PrintableAlt;
    var all := first + rest;
    assert forall i :: 0 <= i < |first| ==> first[i] == all[i];
    assert forall i :: 0 <= i < |rest| ==> rest[i] == all[|first| + i];
  }

  lemma OneAlt(a: Alt)
    ensures Readable(Choice([a])) <==> ReadableAlt(a)
    ensures PrintableAlts([a]) <==> PrintableAlt(a)
  {
    hide ReadableAlt, PrintableAlt;
    assert [a][0] == a;
  }

  function ClassAlts(cs: seq<Child>): seq<Alt> {
    if cs == [] then [] else [NotIn(NextChars(cs))]
  }

  lemma ClassOf(ws: seq<Word>, depth: nat, cs: seq<Child>)
    requires forall k :: 0 <= k < |cs| ==> cs[k].to <= |ws|
    ensures PlainChildren(ws, cs, depth) <==> Readable(Choice(ClassAlts(cs))) && PlainRest(ws, cs, depth)
    ensures ByteChildren(cs) ==> PrintableAlts(ClassAlts(cs))
  {
    hide Refused, PlainRange;
    if cs != [] { OneAlt(NotIn(NextChars(cs))); }
  }

  ghost predicate PlainRest(ws: seq<Word>, cs: seq<Child>, depth: nat) {
    forall k :: 0 <= k < |cs| ==> cs[k].to <= |ws| && PlainRange(ws, cs[k].from, cs[k].to, depth + 1)
  }

  lemma {:induction false} BranchesReadable(ws: seq<Word>, l: nat, r: nat, depth: nat, cs: seq<Child>)
    requires Reaches(ws, l, r, depth)
    requires forall k :: 0 <= k < |cs| ==> l <= cs[k].from < cs[k].to <= r && Reaches(ws, cs[k].from, cs[k].to, depth + 1)
    ensures Readable(Choice(Branches(ws, l, r, depth, cs))) <==> PlainRest(ws, cs, depth)
    ensures ByteWords(ws) && ByteChildren(cs) ==> PrintableAlts(Branches(ws, l, r, depth, cs))
    decreases Height(ws, l, r, depth), 0, |cs|
  {
    hide Build, Children, Height, NextChars, PlainRange, ByteWords, PlainRest, ByteChildren;
    if cs == [] {
      NothingRest(ws, depth);
    } else {
      var ch, more := cs[0], cs[1..];
      HeightDrops(ws, l, r, depth, ch.from, ch.to);
      BuildReadable(ws, ch.from, ch.to, depth + 1);
      BranchesReadable(ws, l, r, depth, more);
      var child := Build(ws, ch.from, ch.to, depth + 1);
      FirstReadable(ch.c, child);
      EitherPart(if child.Nothing? then [] else [Branch(ch.c, child)], Branches(ws, l, r, depth, more));
      assert cs == [ch] + more;
      ConsRest(ws, ch, more, depth);
    }
  }

  lemma NothingRest(ws: seq<Word>, depth: nat)
    ensures PlainRest(ws, [], depth)
  {
  }

  lemma ConsRest(ws: seq<Word>, ch: Child, tail: seq<Child>, depth: nat)
    requires ch.to <= |ws|
    ensures PlainRest(ws, [ch] + tail, depth) <==> PlainRange(ws, ch.from, ch.to, depth + 1) && PlainRest(ws, tail, depth)
    ensures ByteChildren([ch] + tail) <==> ch.c < 256 && ByteChildren(tail)
  {
    hide PlainRange;
    var cs := [ch] + tail;
    assert cs[0] == ch && forall k :: 0 <= k < |tail| ==> cs[k + 1] == tail[k];
    assert forall k :: 1 <= k < |cs| ==> cs[k] == tail[k - 1];
  }

  lemma FirstReadable(c: symbol, child: Expr)
    ensures var first: seq<Alt> := if child.Nothing? then [] else [Branch(c, child)];
            && (Readable(Choice(first)) <==> Readable(child))
            && (c < 256 && (child.Choice? ==> PrintableExpr(child)) ==> PrintableAlts(first))
  {
    if child.Choice? { OneAlt(Branch(c, child)); }
  }

  /** No word has a hyphen or a caret. */
  ghost predicate PlainWords(ws: seq<Word>) {
    forall i, k :: 0 <= i < |ws| && 0 <= k < |ws[i]| ==> !Refused(ws[i][k])
  }

  lemma SameLetters(a: seq<Word>, b: seq<Word>)
    requires multiset(a) == multiset(b)
    ensures PlainWords(a) ==> PlainWords(b)
    ensures ByteWords(a) ==> ByteWords(b)
  {
    hide Refused, Bytes;
    forall i | 0 <= i < |b| ensures exists j :: 0 <= j < |a| && a[j] == b[i] {
      assert b[i] in multiset(a);
    }
  }

  lemma GrammarReadable(forbids: seq<Word>)
    requires ByteWords(forbids)
    ensures PrintableExpr(Grammar(forbids))
    ensures Readable(Grammar(forbids)) <==> PlainWords(forbids)
  {
    hide Sort, Build, Height, Children, ByteWords, ReadableAlt, PrintableAlt;
    if forbids == [] {
      OneAlt(Any);
      AnyIsFine();
    } else {
      var ws := Sort(forbids);
      SameLetters(forbids, ws);
      SameLetters(ws, forbids);
      BuildReadable(ws, 0, |ws|, 0);
      if Build(ws, 0, |ws|, 0).Nothing? {
        RootAlternatives(ws);
        NoHeads(ws);
        OneAlt(NotIn([]));
        AnyIsFine();
      }
    }
  }

  lemma AnyIsFine()
    ensures ReadableAlt(Any) && PrintableAlt(Any) && ReadableAlt(NotIn([])) && PrintableAlt(NotIn([]))
  {
  }

  // ------------------------------------------------------------------------ the whole grammar

  /** What the printed grammar is read as. */
  function GrammarItems(forbids: seq<Word>): seq<Sequence> {
    var group := Group(ExprItems(Grammar(forbids)));
    [Sequence([Repeat([if |forbids| <= 1 then group else Group([Sequence([group])])])])]
  }

  lemma StarStep(it: Item)
    ensures ParseSequence(ParseSpace("*", false), [it], 0, false) == Ok([Repeat([it])], "")
  {
    assert ParseSpace("*", false) == "*" && "*"[1..] == "";
    assert [it][..0] + [Repeat([it][0..])] == [Repeat([it])];
  }

  lemma ReadsOne(text: string)
    ensures var r := ParseSequence(text, [], 0, false);
            && (r.Ok? && r.rest == "" ==> ParseAlternates(text, [], false) == Ok([Sequence(r.value)], ""))
            && (r == Throws ==> ParseAlternates(text, [], false) == Throws)
  {
    hide ParseSequence;
    var r := ParseSequence(text, [], 0, false);
    if r.Ok? { assert [] + [Sequence(r.value)] == [Sequence(r.value)]; }
  }

  lemma ReadsGrammar(forbids: seq<Word>)
    requires ByteWords(forbids)
    ensures ParseAlternates(GrammarText(forbids), [], false) ==
              if PlainWords(forbids) then Ok(GrammarItems(forbids), "") else Throws
  {
    hide Grammar, ExprText, ExprItems, ParseSequence, ParseSpace, PlainWords, ByteWords, PrintableExpr, Readable;
    var e := Grammar(forbids);
    var group := Group(ExprItems(e));
    GrammarReadable(forbids);
    ReadsOne(GrammarText(forbids));
    if |forbids| <= 1 {
      ReadsExpr(e, "*", [], 0, false);
      assert [] + [group] == [group];
      StarStep(group);
    } else {
      WrappedGroup(e);
      StarStep(Group([Sequence([group])]));
    }
  }

  lemma WrappedGroup(e: Expr)
    requires PrintableExpr(e)
    ensures ParseSequence("( " + ExprText(e) + " )*", [], 0, false) ==
              if Readable(e) then
                ParseSequence(ParseSpace("*", false), [Group([Sequence([Group(ExprItems(e))])])], 0, false)
              else Throws
  {
    hide ExprText, ExprItems, ParseSequence, ParseSpace, PrintableExpr, Readable;
    var s := "( " + ExprText(e) + " )*";
    var body := ExprText(e) + (" )*");
    assert s[0] == '(' && s[1..] == " " + body;
    ExprStarts(e);
    OneSpace(body);
    ReadsExpr(e, " )*", [], 0, true);
    var group := Group(ExprItems(e));
    assert [] + [group] == [group] && " )*" == " " + ")*";
    EndsHere(")*", [group], 0);
    assert [] + [Sequence([group])] == [Sequence([group])];
    assert ")*"[1..] == "*";
    GroupStep(s, [], 0, false);
    assert [] + [Group([Sequence([group])])] == [Group([Sequence([group])])];
  }

  lemma OneItem(it: Item, w: seq<symbol>)
    ensures SeqMatches([it], w) <==> ItemMatches(it, w)
  {
    hide ItemMatches;
    assert w[..|w|] == w && w[|w|..] == [];
    assert [it][1..] == [];
    forall k | 0 <= k <= |w| ensures SeqMatches([], w[k..]) <==> k == |w| {}
  }

  lemma ClassMatches(cls: seq<symbol>, w: seq<symbol>)
    ensures SeqMatches(ClassItems(true, SymbolRanges(cls)), w) <==> AltMatches(NotIn(cls), w)
  {
    if cls != [] {
      OneItem(Class(true, SymbolRanges(cls)), w);
      if |w| == 1 { InSymbols(cls, w[0]); }
    }
  }

  lemma InSymbols(cls: seq<symbol>, x: symbol)
    ensures InRanges(SymbolRanges(cls), x) <==> x in cls
  {
    var ranges := SymbolRanges(cls);
    if i :| 0 <= i < |cls| && cls[i] == x { assert ranges[i].lo <= x <= ranges[i].hi; }
  }

  lemma BranchMatches(c: symbol, it: Item, w: seq<symbol>)
    ensures SeqMatches([Class(false, [Range(c, c)]), it], w) <==> w != [] && w[0] == c && ItemMatches(it, w[1..])
  {
    hide ItemMatches;
    var first := Class(false, [Range(c, c)]);
    assert [first, it][1..] == [it];
    forall k | 0 <= k <= |w| ensures ItemMatches(first, w[..k]) <==> k == 1 && w[0] == c { OneSymbol(c, w[..k]); }
    if w != [] { OneItem(it, w[1..]); }
  }

  lemma OneSymbol(c: symbol, w: seq<symbol>)
    ensures ItemMatches(Class(false, [Range(c, c)]), w) <==> |w| == 1 && w[0] == c
  {
    var ranges := [Range(c, c)];
    assert |w| == 1 && w[0] == c ==> ranges[0].lo <= w[0] <= ranges[0].hi;
  }

  lemma {:induction false} AltLanguage(a: Alt, w: seq<symbol>)
    ensures SeqMatches(AltItems(a), w) <==> AltMatches(a, w)
    decreases a
  {
    hide SeqMatches, ItemMatches;
    match a
    case Any => OneItem(AnyChar, w); AnyMatches(w);
    case NotIn(cls) => ClassMatches(cls, w);
    case Branch(c, rest) =>
      BranchMatches(c, Group(ExprItems(rest)), w);
      if w != [] {
        ExprLanguage(rest, w[1..]);
        GroupMatches(ExprItems(rest), w[1..]);
      }
  }

  lemma AnyMatches(w: seq<symbol>)
    ensures ItemMatches(AnyChar, w) <==> |w| == 1
  {
  }

  lemma GroupMatches(alts: seq<Sequence>, w: seq<symbol>)
    ensures ItemMatches(Group(alts), w) <==> AltsMatch(alts, w)
  {
  }

  lemma {:induction false} ExprLanguage(e: Expr, w: seq<symbol>)
    ensures AltsMatch(ExprItems(e), w) <==> Matches(e, w)
    decreases e
  {
    hide SeqMatches, AltMatches, AltItems;
    match e
    case Nothing =>
    case Choice(alts) =>
      forall i | 0 <= i < |alts| ensures SeqMatches(AltItems(alts[i]), w) <==> AltMatches(alts[i], w) {
        AltLanguage(alts[i], w);
      }
  }

  /** The symbol that the grammar repeats. */
  lemma RepeatedMatches(forbids: seq<Word>, it: Item, w: seq<symbol>)
    requires var group := Group(ExprItems(Grammar(forbids)));
             it == if |forbids| <= 1 then group else Group([Sequence([group])])
    ensures SeqMatches([it], w) <==> Matches(Grammar(forbids), w)
  {
    hide Grammar, Matches, SeqMatches, ItemMatches, ExprItems;
    var alts := ExprItems(Grammar(forbids));
    ExprLanguage(Grammar(forbids), w);
    GroupMatches(alts, w);
    OneItem(it, w);
    OneItem(Group(alts), w);
    OneSequence([Group(alts)], w);
    GroupMatches([Sequence([Group(alts)])], w);
  }

  lemma OneSequence(items: seq<Item>, w: seq<symbol>)
    ensures AltsMatch([Sequence(items)], w) <==> SeqMatches(items, w)
  {
    hide SeqMatches;
    assert [Sequence(items)][0].items == items;
  }

  lemma {:induction false} RepeatLanguage(forbids: seq<Word>, it: Item, s: seq<symbol>)
    requires forall w :: SeqMatches([it], w) <==> Matches(Grammar(forbids), w)
    ensures ItemMatches(Repeat([it]), s) <==> Generates(forbids, s)
    decreases |s|
  {
    hide Grammar, Matches, SeqMatches;
    forall k | 1 <= k <= |s| ensures ItemMatches(Repeat([it]), s[k..]) <==> Generates(forbids, s[k..]) {
      RepeatLanguage(forbids, it, s[k..]);
    }
  }

  /** THE PRINTED EXCLUDING GRAMMAR. For all words of bytes, reading the text throws if and only if a word has a hyphen
      or a caret; otherwise all of it is read, and the texts it matches are the accepted ones, code point by code point
      (any text for no words, the empty one for words without letters). */
  lemma PrintedGrammarIsExact(forbids: seq<Word>, s: seq<symbol>)
    requires ByteWords(forbids)
    ensures var r := ParseAlternates(GrammarText(forbids), [], false);
            if PlainWords(forbids) then
              && r.Ok? && r.rest == ""
              && (AltsMatch(r.value, s) <==> if HasLetters(forbids) then Accepted(forbids, s) else forbids == [] || s == [])
            else r == Throws
  {
    hide Grammar, GrammarText, ParseAlternates, SeqMatches, ItemMatches, HasLetters, Accepted, Generates;
    ReadsGrammar(forbids);
    var group := Group(ExprItems(Grammar(forbids)));
    var it := if |forbids| <= 1 then group else Group([Sequence([group])]);
    forall w ensures SeqMatches([it], w) <==> Matches(Grammar(forbids), w) { RepeatedMatches(forbids, it, w); }
    RepeatLanguage(forbids, it, s);
    OneItem(Repeat([it]), s);
    OneSequence([Repeat([it])], s);
    LanguageIsExact(forbids, s);
    if forbids == [] { NoWordsNoLetters(); }
  }

  lemma NoWordsNoLetters()
    ensures !HasLetters([])
  {
  }
}
