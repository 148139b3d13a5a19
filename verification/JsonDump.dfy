/** `dump` of a JSON document: blanks are dropped, strings are decoded and escaped again, code points beyond ASCII are
    written as UTF-8. Numbers are formatted by a parameter. */
module JsonDump {
  import opened Chars
  import opened JsonAcceptor
  import XmlToolCalls
  import CodepointCodec

  /** The text written so far; `held` is a number under way, or the first half of a surrogate pair. */
  datatype Writer = Writer(p: Pda, held: string, out: string)

  const START := Writer(INIT, "", "")

  /** What stands for a character behind a backslash. */
  function Unescaped(c: char): char {
    if c == 'b' then 8 as char
    else if c == 't' then 9 as char
    else if c == 'n' then 10 as char
    else if c == 'f' then 12 as char
    else if c == 'r' then 13 as char
    else c
  }

  function Bytes(bs: seq<byte>): string {
    seq(|bs|, i requires 0 <= i < |bs| => bs[i] as char)
  }

  function CodeOut(cp: nat): string {
    if cp < 0x80 then XmlToolCalls.EscapeChar(cp as char) else Bytes(CodepointCodec.EncodeChar(cp))
  }

  /** The number that hexadecimal digits stand for. */
  function HexNumber(d: string): nat {
    if d == "" then 0 else HexNumber(d[..|d| - 1]) * 16 + (if IsHex(d[|d| - 1]) then HexValue(d[|d| - 1]) else 0)
  }

  /** The code point of a surrogate pair. */
  function PairNumber(high: string, low: string): nat {
    0x10000 + HexNumber(high) % 0x400 * 0x400 + HexNumber(low) % 0x400
  }

  /** One character inside a string. */
  function FeedString(st: StrState, held: string, c: char): (r: (string, string)) {
    match st
    case Plain => if c == '"' then ("\"", "") else if c == '\\' then ("", "") else (XmlToolCalls.EscapeChar(c), "")
    case Esc => if c == 'u' then ("", "") else (XmlToolCalls.EscapeChar(Unescaped(c)), "")
    case Hex(d, low) =>
      if |d| < 3 then ("", held)
      else if low then (CodeOut(PairNumber(held, d + [c])), "")
      else if HighPair(d[0], d[1]) then ("", d + [c])
      else (CodeOut(HexNumber(d + [c])), "")
    case High => ("", held)
    case HighEsc => ("", held)
  }

  function Shown(c: char): string {
    if IsWs(c) then "" else [c]
  }

  function Feed(w: Writer, c: char, num: string -> string): Writer
    requires w.p.Pda?
  {
    var q := Step(w.p, c);
    match w.p.mode
    case InStr(_, st) => Writer(q, FeedString(st, w.held, c).1, w.out + FeedString(st, w.held, c).0)
    case Num(n) =>
      if NumStep(n, c).Some? then Writer(q, w.held + [c], w.out) else Writer(q, "", w.out + num(w.held) + Shown(c))
    case Value(_) => if q.Pda? && q.mode.Num? then Writer(q, [c], w.out) else Writer(q, "", w.out + Shown(c))
    case _ => Writer(q, "", w.out + Shown(c))
  }

  function Write(w: Writer, s: string, num: string -> string): Writer
    decreases |s|
  {
    if s == "" || w.p.Dead? then w else Write(Feed(w, s[0], num), s[1..], num)
  }

  /** `json::parse(text).dump()` of a document. */
  function Dumped(text: string, num: string -> string): string {
    var w := Write(START, text, num);
    if w.p.Pda? && w.p.mode.Num? then w.out + num(w.held) else w.out
  }

  // --------------------------------------------------------------------------------- writing

  lemma FeedSteps(w: Writer, c: char, num: string -> string)
    requires w.p.Pda?
    ensures Feed(w, c, num).p == Step(w.p, c) && w.out <= Feed(w, c, num).out
  {
    hide Step, FeedString, NumStep;
  }

  lemma {:induction false} WriteRuns(w: Writer, s: string, num: string -> string)
    requires RunFrom(w.p, s).Pda?
    ensures Write(w, s, num).p == RunFrom(w.p, s) && w.out <= Write(w, s, num).out
    decreases |s|
  {
    hide Step, Feed;
    if w.p.Dead? {
      DeadStays(s);
    } else if s != "" {
      FeedSteps(w, s[0], num);
      WriteRuns(Feed(w, s[0], num), s[1..], num);
    }
  }

  lemma {:induction false} WriteConcat(w: Writer, s: string, t: string, num: string -> string)
    requires RunFrom(w.p, s).Pda?
    ensures Write(w, s + t, num) == Write(Write(w, s, num), t, num)
    decreases |s|
  {
    hide Step, Feed;
    if s == "" {
      assert s + t == t;
    } else if w.p.Pda? {
      assert (s + t)[0] == s[0] && (s + t)[1..] == s[1..] + t;
      FeedSteps(w, s[0], num);
      WriteConcat(Feed(w, s[0], num), s[1..], t, num);
    } else {
      DeadStays(s);
    }
  }

  lemma Write1(w: Writer, c: char, num: string -> string)
    requires w.p.Pda?
    ensures Write(w, [c], num) == Feed(w, c, num)
  {
    hide Feed;
    assert [c][1..] == "";
    assert Write(Feed(w, c, num), "", num) == Feed(w, c, num);
  }

  lemma Write2(w: Writer, a: char, b: char, num: string -> string)
    requires w.p.Pda? && Step(w.p, a).Pda?
    ensures Write(w, [a, b], num) == Feed(Feed(w, a, num), b, num)
  {
    hide Feed, Step;
    FeedSteps(w, a, num);
    assert [a, b] == [a] + [b];
    Run1(w.p, a);
    WriteConcat(w, [a], [b], num);
    Write1(w, a, num);
    Write1(Feed(w, a, num), b, num);
  }
}
