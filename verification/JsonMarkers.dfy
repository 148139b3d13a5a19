/** Whether the marker of a healed document comes back in its dump. The source looks for what it put into the text; in the
    middle of a unicode escape it puts digits there that are read as part of a character. */
module JsonMarkers {
  import opened Chars
  import opened Wrappers
  import opened Strings
  import opened JsonAcceptor
  import opened JsonSax
  import opened JsonHealer
  import opened JsonHealing
  import opened JsonDump
  import XmlToolCalls
  import CodepointCodec

  // ------------------------------------------------------------------- completing an escape

  /** The first digits of NUL, of U+0010 (both are escaped again) and of the digit 0 (which is the zero put behind them). */
  predicate ZeroDigits(d: string) {
    (forall i :: 0 <= i < |d| ==> d[i] == '0') || (|d| == 3 && d[0] == '0' && d[1] == '0' && (d[2] == '1' || d[2] == '3'))
  }

  /** The digits of an unfinished escape that come back with the zeros behind them. One digit alone is not followed by
      zeros when the characters before the escape look like a high surrogate. */
  ghost predicate KeepsZeros(s: string, d: string) {
    ZeroDigits(d) && !(|d| == 1 && LooksPaired(s, d))
  }

  /** The text stops in an escape that the padding completes, and the padding becomes part of its character. */
  ghost predicate Swallowed(s: string) {
    Run(s).Pda? && Run(s).mode.InStr? && !PseudoSurrogate(s) &&
    match Run(s).mode.st
    case Hex(d, low) => low || !KeepsZeros(s, d)
    case High => true
    case HighEsc => true
    case _ => false
  }

  lemma HexOfFour(d: string)
    requires |d| == 4 && forall i :: 0 <= i < 4 ==> IsHex(d[i])
    ensures HexNumber(d) == HexValue(d[0]) * 4096 + HexValue(d[1]) * 256 + HexValue(d[2]) * 16 + HexValue(d[3])
  {
    hide IsHex, HexValue;
    HexSnoc(d[..3], d[3]);
    HexSnoc(d[..2], d[2]);
    HexSnoc(d[..1], d[1]);
    HexSnoc("", d[0]);
    assert d == d[..3] + [d[3]] && d[..3] == d[..2] + [d[2]] && d[..2] == d[..1] + [d[1]] && d[..1] == "" + [d[0]];
  }

  lemma HexSnoc(d: string, c: char)
    requires IsHex(c)
    ensures HexNumber(d + [c]) == HexNumber(d) * 16 + HexValue(c)
  {
    assert (d + [c])[..|d|] == d;
  }

  /** The digits that complete an escape write its character. */
  lemma {:induction false} DigitsWrite(w: Writer, d: string, low: bool, x: string, num: string -> string)
    requires w.p.Pda? && w.p.mode.InStr? && w.p.mode.st == Hex(d, low) && |d| + |x| == 4 && x != ""
    requires RunFrom(w.p, x).Pda? && (low || !HighPair((d + x)[0], (d + x)[1]))
    ensures Write(w, x, num).out == w.out + CodeOut(if low then PairNumber(w.held, d + x) else HexNumber(d + x))
    decreases |x|
  {
    hide CodeOut, PairNumber, HexNumber, HighPair, LowPair;
    if |x| == 1 {
      assert x == [x[0]];
      Write1(w, x[0], num);
      if |d| == 3 { assert d[0] == (d + x)[0] && d[1] == (d + x)[1]; }
    } else {
      assert d + x == d + [x[0]] + x[1..];
      OneDigit(w, d, low, x, num);
      DigitsWrite(Feed(w, x[0], num), d + [x[0]], low, x[1..], num);
    }
  }

  lemma OneDigit(w: Writer, d: string, low: bool, x: string, num: string -> string)
    requires w.p.Pda? && w.p.mode.InStr? && w.p.mode.st == Hex(d, low) && |d| + |x| == 4 && |x| > 1
    requires RunFrom(w.p, x).Pda?
    ensures var v := Feed(w, x[0], num);
            && v.p.Pda? && v.p.mode.InStr? && v.p.mode.st == Hex(d + [x[0]], low) && v.held == w.held && v.out == w.out
            && RunFrom(v.p, x[1..]).Pda?
    ensures Write(w, x, num) == Write(Feed(w, x[0], num), x[1..], num)
  {
    hide CodeOut, HighPair, LowPair, IsHex;
    if Step(w.p, x[0]).Dead? { DeadStays(x[1..]); }
    assert w.out + "" == w.out;
  }

  /** Code points beyond ASCII end with a byte beyond ASCII. */
  lemma BeyondAscii(cp: nat)
    requires 0x80 <= cp <= CodepointCodec.MAX
    ensures var x := CodeOut(cp); x != "" && x[|x| - 1] as int >= 0x80
  {
  }

  lemma PairIsBeyond(high: string, low: string)
    ensures 0x10000 <= PairNumber(high, low) <= CodepointCodec.MAX
  {
    hide HexNumber;
  }

  // -------------------------------------------------------------- what the padding is written as

  ghost predicate InEscape(s: string, p: Pda) {
    p == Run(s) && p.Pda? && p.mode.InStr? && Escaping(p.mode.st) && WellFormed(p) && StringTail(s, p.mode.st)
  }

  lemma PaddingByState(s: string, p: Pda)
    requires InEscape(s, p)
    ensures Padding(s) ==
            match p.mode.st
            case Hex(d, _) => EscapeRest(d, false, LooksPaired(s, d))
            case High => "\\udc00"
            case _ => "udc00"
  {
    hide RunFrom, UnicodeTail, EndsWith, LooksPaired, EscapeRest;
    match p.mode.st
    case Hex(d, _) => PaddingIs(s, d);
    case High =>
      var h :| HighEscape(h) && EndsWith(s, "\\u" + h);
      TailIs(s, h);
      var m := "\\u" + h;
      assert m[2] == h[0] && m[3] == h[1];
      assert Zeros(0) + "\\udc00" == "\\udc00";
    case HighEsc =>
      var h :| HighEscape(h) && EndsWith(s, "\\u" + h + "\\");
      Before(s, "\\u" + h, "\\");
      NoTail(s);
  }

  /** The padding ends with a zero, and what is written does not. */
  predicate Lost(out: string, pad: string) {
    out != "" && pad != "" && pad[|pad| - 1] == '0' && out[|out| - 1] != '0'
  }

  /** Nothing that ends with a byte beyond ASCII ends with the padding. */
  lemma NotEchoed(out: string, cp: nat, pad: string)
    requires 0x80 <= cp <= CodepointCodec.MAX && pad != "" && pad[|pad| - 1] == '0'
    ensures Lost(out + CodeOut(cp), pad)
  {
    hide CodeOut;
    BeyondAscii(cp);
    var t := out + CodeOut(cp);
    assert t[|t| - 1] == CodeOut(cp)[|CodeOut(cp)| - 1];
  }

  /** What is written ends with the padding, or at least differs from its end. */
  predicate Echo(kept: bool, out: string, pad: string) {
    if kept then EndsWith(out, pad) else Lost(out, pad)
  }

  lemma LostIsGone(s: string, t: string)
    requires Lost(s, t)
    ensures !EndsWith(s, t)
  {
    SameLast(s, t);
  }

  lemma SameLast(s: string, t: string)
    requires s != "" && t != ""
    ensures EndsWith(s, t) ==> s[|s| - 1] == t[|t| - 1]
  {
    if EndsWith(s, t) { assert s[|s| - |t|..][|t| - 1] == s[|s| - 1]; }
  }

  /** The second half of a pair. */
  lemma LowEcho(w: Writer, d: string, pre: string, x: string, num: string -> string)
    requires w.p.Pda? && w.p.mode.InStr? && w.p.mode.st == Hex(d, true) && |d| + |x| == 4 && x != ""
    requires RunFrom(w.p, x).Pda? && x[|x| - 1] == '0'
    ensures Lost(Write(w, x, num).out, pre + x)
  {
    hide CodeOut, PairNumber, RunFrom;
    DigitsWrite(w, d, true, x, num);
    PairIsBeyond(w.held, d + x);
    NotEchoed(w.out, PairNumber(w.held, d + x), pre + x);
  }

  lemma HighEscEcho(w: Writer, pre: string, num: string -> string)
    requires w.p.Pda? && w.p.mode.InStr? && w.p.mode.st == HighEsc
    ensures Lost(Write(w, "udc00", num).out, pre + "udc00")
  {
    hide RunFrom, CodeOut;
    var v := Feed(w, 'u', num);
    assert v.p == Pda(InStr(w.p.mode.key, Hex("", true)), w.p.stack);
    LowPairRest(v.p);
    assert "udc00" == ['u'] + "dc00" && pre + "udc00" == (pre + "u") + "dc00";
    Run1(w.p, 'u');
    WriteConcat(w, ['u'], "dc00", num);
    Write1(w, 'u', num);
    LowEcho(v, "", pre + "u", "dc00", num);
  }

  lemma HighEcho(w: Writer, pre: string, num: string -> string)
    requires w.p.Pda? && w.p.mode.InStr? && w.p.mode.st == High
    ensures Lost(Write(w, "\\udc00", num).out, pre + "\\udc00")
  {
    hide RunFrom, CodeOut;
    var v := Feed(w, '\\', num);
    assert v.p == Pda(InStr(w.p.mode.key, HighEsc), w.p.stack);
    assert "\\udc00" == ['\\'] + "udc00" && pre + "\\udc00" == (pre + "\\") + "udc00";
    Run1(w.p, '\\');
    WriteConcat(w, ['\\'], "udc00", num);
    Write1(w, '\\', num);
    HighEscEcho(v, pre + "\\", num);
  }

  /** Zeros complete a high surrogate, of which nothing is written yet, and the low one follows. */
  lemma SurrogateEcho(w: Writer, d: string, zeros: string, num: string -> string)
    requires w.p.Pda? && w.p.mode.InStr? && w.p.mode.st == Hex(d, false) && GoodHex(d, false)
    requires (|d| == 2 && zeros == "00") || (|d| == 3 && zeros == "0")
    requires HighPair(d[0], d[1])
    ensures Lost(Write(w, zeros + "\\udc00", num).out, zeros + "\\udc00")
  {
    hide RunFrom, CodeOut, HexNumber;
    var q := Pda(InStr(w.p.mode.key, High), w.p.stack);
    if |d| == 2 {
      Run2(w.p, '0', '0');
      assert |d + ['0'] + ['0']| == 4;
      Write2(w, '0', '0', num);
    } else {
      Run1(w.p, '0');
      Write1(w, '0', num);
    }
    assert RunFrom(w.p, zeros) == q && Write(w, zeros, num).p == q;
    WriteConcat(w, zeros, "\\udc00", num);
    HighEcho(Write(w, zeros, num), zeros, num);
  }

  /** What is put behind the digits `d` of an escape outside the surrogates: zeros, or `c00` behind one digit. */
  predicate Fills(d: string, x: string) {
    && |d| + |x| == 4 && x != "" && (forall i :: 0 <= i < |d| ==> IsHex(d[i]))
    && (forall i :: 1 <= i < |x| ==> x[i] == '0') && (x[0] == '0' || (|d| == 1 && x[0] == 'c'))
  }

  /** It comes back if and only if it is zeros behind the first digits of NUL, U+0010 or U+0030. */
  lemma CodeEcho(d: string, x: string, out: string)
    requires Fills(d, x)
    ensures Echo(ZeroDigits(d) && x[0] == '0', out + CodeOut(HexNumber(d + x)), x)
  {
    hide CodeOut, HexNumber, EndsWith, ZeroDigits;
    FilledNumber(d, x);
    FillEndsZero(d, x);
    if HexNumber(d + x) >= 0x80 {
      NotEchoed(out, HexNumber(d + x), x);
    } else {
      SmallEcho(d, x, out);
    }
  }

  lemma FillEndsZero(d: string, x: string)
    requires Fills(d, x)
    ensures x[|x| - 1] == '0'
  {
  }

  lemma FilledNumber(d: string, x: string)
    requires Fills(d, x)
    ensures HexNumber(d + x) <= 0xFFFF
    ensures HexNumber(d + x) >= 0x80 ==> !(ZeroDigits(d) && x[0] == '0')
    ensures HexNumber(d + x) < 0x80 ==>
              && x[0] == '0' && (|d| < 3 ==> ZeroDigits(d) && HexNumber(d + x) == 0)
              && (|d| == 3 ==> d[0] == '0' && d[1] == '0' && '0' <= d[2] <= '7' && HexNumber(d + x) == HexValue(d[2]) * 16)
  {
    hide HexNumber;
    var t := d + x;
    assert forall i :: |d| <= i < 4 ==> t[i] == x[i - |d|];
    assert forall i :: 0 <= i < |d| ==> t[i] == d[i];
    HexOfFour(t);
  }

  lemma CodeTable(v: nat)
    requires v < 8
    ensures CodeOut(v * 16) == ["\\u0000", "\\u0010", " ", "0", "@", "P", "`", "p"][v]
  {
  }

  lemma EndsInCode(out: string, code: string, x: string, kept: bool)
    requires |x| <= |code| && Echo(kept, code, x)
    ensures Echo(kept, out + code, x)
  {
    assert (out + code)[|out + code| - |x|..] == code[|code| - |x|..];
    assert code != "" ==> (out + code)[|out + code| - 1] == code[|code| - 1];
  }

  lemma SmallEcho(d: string, x: string, out: string)
    requires Fills(d, x) && HexNumber(d + x) < 0x80
    ensures Echo(ZeroDigits(d) && x[0] == '0', out + CodeOut(HexNumber(d + x)), x)
  {
    hide HexNumber, CodeOut, EndsWith;
    FilledNumber(d, x);
    if |d| < 3 {
      CodeTable(0);
      NulEcho(x);
      EndsInCode(out, "\\u0000", x, true);
    } else {
      CodeTable(HexValue(d[2]));
      ThirdDigit(d, x);
      EndsInCode(out, CodeOut(HexNumber(d + x)), x, ZeroDigits(d));
    }
  }

  lemma NulEcho(x: string)
    requires |x| <= 4 && forall i :: 0 <= i < |x| ==> x[i] == '0'
    ensures EndsWith("\\u0000", x)
  {
  }

  lemma ThirdDigit(d: string, x: string)
    requires Fills(d, x) && |d| == 3 && d[0] == '0' && d[1] == '0' && '0' <= d[2] <= '7'
    ensures Echo(ZeroDigits(d), ["\\u0000", "\\u0010", " ", "0", "@", "P", "`", "p"][HexValue(d[2])], x)
  {
    assert x == "0";
  }

  // -------------------------------------------------------------------------- the padding, exactly

  lemma FillIsRest(s: string, d: string)
    requires GoodHex(d, false) && !(|d| >= 2 && HighPair(d[0], d[1]))
    requires !(LooksPaired(s, d) && (|d| == 0 || (|d| == 1 && (d[0] == 'd' || d[0] == 'D'))))
    ensures var x := EscapeRest(d, false, LooksPaired(s, d)); Fills(d, x) && (ZeroDigits(d) && x[0] == '0' <==> KeepsZeros(s, d))
    ensures !HighPair((d + EscapeRest(d, false, LooksPaired(s, d)))[0], (d + EscapeRest(d, false, LooksPaired(s, d)))[1])
  {
    hide LooksPaired;
  }

  lemma HexPaddingEcho(s: string, p: Pda, w: Writer, num: string -> string)
    requires InEscape(s, p) && !PseudoSurrogate(s) && w.p == p && p.mode.st.Hex?
    ensures Echo(!Swallowed(s), Write(w, Padding(s), num).out, Padding(s))
  {
    hide RunFrom, CodeOut, HexNumber, EndsWith, Lost, LooksPaired, Padding, PseudoSurrogate, UnicodeTail, EscapeRest, HighPair, StringTail,
      PairNumber, ZeroDigits;
    var d, low := p.mode.st.digits, p.mode.st.low;
    var x := Padding(s);
    PaddingByState(s, p);
    PaddingCompletes(s, p);
    if low {
      PairedWhenLow(s, d);
      LowRest(d);
      LowEcho(w, d, "", x, num);
      assert "" + x == x;
    } else if |d| >= 2 && HighPair(d[0], d[1]) {
      HighRest(s, d);
      SurrogateEcho(w, d, if |d| == 2 then "00" else "0", num);
    } else {
      assert EndsWith(s, "\\u" + d) by { TailOfHex(s, d); }
      TailIs(s, d);
      PseudoIs(s, d);
      FillIsRest(s, d);
      DigitsWrite(w, d, false, x, num);
      CodeEcho(d, x, w.out);
    }
  }

  lemma TailOfHex(s: string, d: string)
    requires StringTail(s, Hex(d, false))
    ensures EndsWith(s, "\\u" + d)
  {
  }

  lemma LowRest(d: string)
    requires GoodHex(d, true)
    ensures var x := EscapeRest(d, false, true); |d| + |x| == 4 && x != "" && x[|x| - 1] == '0'
  {
  }

  lemma HighRest(s: string, d: string)
    requires GoodHex(d, false) && |d| >= 2 && HighPair(d[0], d[1])
    ensures EscapeRest(d, false, LooksPaired(s, d)) == (if |d| == 2 then "00" else "0") + "\\udc00"
    ensures !ZeroDigits(d)
  {
    hide LooksPaired;
    assert "00" + "\\udc00" == "00\\udc00" && "0" + "\\udc00" == "0\\udc00";
  }

  lemma EscapeEcho(s: string, p: Pda, w: Writer, num: string -> string)
    requires InEscape(s, p) && !PseudoSurrogate(s) && w.p == p
    ensures Echo(!Swallowed(s), Write(w, Padding(s), num).out, Padding(s))
  {
    hide RunFrom, CodeOut, EndsWith, Padding, PseudoSurrogate, StringTail;
    match p.mode.st
    case Hex(_, _) => HexPaddingEcho(s, p, w, num);
    case High =>
      PaddingByState(s, p);
      HighEcho(w, "", num);
      assert "" + "\\udc00" == "\\udc00";
    case HighEsc =>
      PaddingByState(s, p);
      HighEscEcho(w, "", num);
      assert "" + "udc00" == "udc00";
  }

  /** THE PADDING COMES BACK, EXACTLY: it ends what is written so far if and only if the escape is not swallowed. */
  lemma PaddingEcho(s: string, p: Pda, w: Writer, num: string -> string)
    requires InEscape(s, p) && !PseudoSurrogate(s) && w.p == p
    ensures EndsWith(Write(w, Padding(s), num).out, Padding(s)) <==> !Swallowed(s)
    ensures Swallowed(s) ==> Lost(Write(w, Padding(s), num).out, Padding(s))
  {
    hide RunFrom, Write, EndsWith, Lost, Padding, PseudoSurrogate, StringTail, Swallowed;
    EscapeEcho(s, p, w, num);
    if Swallowed(s) { LostIsGone(Write(w, Padding(s), num).out, Padding(s)); }
  }

  // ------------------------------------------------------------------------------ the whole dump

  lemma EndsWithIt(x: string, y: string)
    ensures EndsWith(x + y, y)
  {
    assert (x + y)[|x|..] == y;
  }

  lemma EndsWithTwo(x: string, a: char, b: char)
    ensures EndsWith(x + [a] + [b], [a, b])
  {
    assert x + [a] + [b] == x + [a, b];
    EndsWithIt(x, [a, b]);
  }

  /** What leads into a string is written as it is, whatever is written before it. */
  lemma LeadEchoes(w: Writer, pre: string, num: string -> string)
    requires w.p.Pda? && Lead(pre)
    requires var q := RunFrom(w.p, pre); q.Pda? && q.mode.InStr? && q.mode.st == Plain
    ensures EndsWith(Write(w, pre, num).out, pre)
  {
    hide RunFrom, EndsWith;
    if pre == "" {
      EndsWithIt(w.out, "");
      assert w.out + "" == w.out;
    } else if |pre| == 1 {
      assert pre == [pre[0]];
      Run1(w.p, pre[0]);
      OneEchoes(w, pre[0], num);
    } else {
      assert pre == [pre[0], '"'];
      TwoSteps(w.p, pre[0]);
      Write2(w, pre[0], '"', num);
      TwoEcho(w, pre[0], num);
    }
  }

  lemma OneEchoes(w: Writer, c: char, num: string -> string)
    requires w.p.Pda? && (c == '"' || c == '\\')
    requires var q := Step(w.p, c); q.Pda? && q.mode.InStr? && q.mode.st == Plain
    ensures EndsWith(Write(w, [c], num).out, [c])
  {
    hide EndsWith, Write, Feed, Step;
    Write1(w, c, num);
    LastFed(w, c, num);
    EndsWithChar(Feed(w, c, num).out, c);
  }

  lemma EndsWithChar(out: string, c: char)
    requires out != "" && out[|out| - 1] == c
    ensures EndsWith(out, [c])
  {
    assert out == out[..|out| - 1] + [c];
    EndsWithIt(out[..|out| - 1], [c]);
  }

  lemma LastFed(w: Writer, c: char, num: string -> string)
    requires w.p.Pda? && (c == '"' || c == '\\')
    requires var q := Step(w.p, c); q.Pda? && q.mode.InStr? && q.mode.st == Plain
    ensures var out := Feed(w, c, num).out; out != "" && out[|out| - 1] == c
  {
  }

  /** A comma or colon and then a quote that opens a string. */
  lemma TwoSteps(p: Pda, c: char)
    requires p.Pda? && (c == ':' || c == ',')
    requires var q := RunFrom(p, [c, '"']); q.Pda? && q.mode.InStr? && q.mode.st == Plain
    ensures var q := Step(p, c); q.Pda? && (q.mode.Value? || q.mode.Key?) && !p.mode.InStr?
    ensures Step(Step(p, c), '"').Pda? && Step(Step(p, c), '"').mode.InStr?
  {
    hide RunFrom;
    Run2(p, c, '"');
  }

  lemma TwoEcho(w: Writer, c: char, num: string -> string)
    requires w.p.Pda? && (c == ':' || c == ',') && !w.p.mode.InStr?
    requires var q := Step(w.p, c); q.Pda? && (q.mode.Value? || q.mode.Key?)
    requires Step(Step(w.p, c), '"').Pda? && Step(Step(w.p, c), '"').mode.InStr?
    ensures EndsWith(Feed(Feed(w, c, num), '"', num).out, [c, '"'])
  {
    hide EndsWith;
    var v := Feed(w, c, num);
    assert v.p == Step(w.p, c);
    assert Feed(v, '"', num).out == v.out + ['"'];
    assert v.out != "" && v.out[|v.out| - 1] == c;
    var x := v.out[..|v.out| - 1];
    assert v.out == x + [c];
    EndsWithTwo(x, c, '"');
  }

  /** A marker inside a string is written as it is. */
  lemma {:induction false} MarkerWritten(w: Writer, m: string, num: string -> string)
    requires w.p.Pda? && w.p.mode.InStr? && w.p.mode.st == Plain
    requires forall i :: 0 <= i < |m| ==> m[i] >= ' ' && m[i] != '"' && m[i] != '\\'
    ensures Write(w, m, num).p == w.p && Write(w, m, num).out == w.out + m
    decreases |m|
  {
    if m != "" {
      var v := Feed(w, m[0], num);
      assert v.p == w.p && v.out == w.out + [m[0]];
      MarkerWritten(v, m[1..], num);
      assert w.out + m == w.out + [m[0]] + m[1..];
    }
  }

  lemma {:induction false} WriteGoesOn(w: Writer, s: string, num: string -> string)
    ensures w.out <= Write(w, s, num).out
    decreases |s|
  {
    hide Feed;
    if s != "" && w.p.Pda? {
      FeedSteps(w, s[0], num);
      WriteGoesOn(Feed(w, s[0], num), s[1..], num);
    }
  }

  /** Everything of the healed document before the marker. */
  function FrontOf(s: string, ch: Choice, seed: string): string
    requires ch.Complete? && ch.keep <= |s| && |seed| <= |ch.dump|
  {
    s[..ch.keep] + ch.dump[..|ch.dump| - |seed|]
  }

  /** THE MARKER, EXACTLY. The dump of a healed document goes on with the marker behind what is written of the text before
      it; and that ends with what was put before the marker if and only if no escape is swallowed. */
  lemma MarkerEcho(s: string, ch: Choice, closing: string, seed: string, num: string -> string)
    requires Run(s).Pda? && WellFormed(Run(s)) && (EscapeOpen(Run(s)) ==> StringTail(s, Run(s).mode.st) && !PseudoSurrogate(s))
    requires Heals(s, ch, closing, seed) && PlainMarker(seed)
    ensures var front := Write(START, FrontOf(s, ch, seed), num).out;
            && front + seed <= Dumped(Text(s, ch, closing), num)
            && (EndsWith(front, ch.dump[..|ch.dump| - |seed|]) <==> !Swallowed(s))
            && (Swallowed(s) ==> Lost(front, ch.dump[..|ch.dump| - |seed|]))
  {
    hide RunFrom, EndsWith, Lead, Padding, StringTail, WellFormed, Accepts, LosesAtMostScalar, Write, PseudoSurrogate, Escaping;
    SplitMarker(ch.dump, seed);
    var pre := ch.dump[..|ch.dump| - |seed|];
    var kept := s[..ch.keep];
    var w := Write(START, kept, num);
    RunParts(kept, pre);
    WriteRuns(START, kept, num);
    WriteConcat(START, kept, pre, num);
    WriteRuns(w, pre, num);
    var v := Write(w, pre, num);
    if EscapeOpen(Run(s)) {
      assert kept == s;
      PaddingEcho(s, Run(s), w, num);
    } else {
      LeadEchoes(w, pre, num);
      assert !Swallowed(s) by { NotOpen(s); }
    }
    var rest := ch.tail + closing;
    MarkerWritten(v, seed, num);
    PlainRuns(v.p, seed);
    Parts(kept, pre, seed, ch.tail, closing);
    RunParts2(kept, pre, seed);
    WriteConcat(START, kept + pre, seed, num);
    WriteConcat(START, kept + pre + seed, rest, num);
    WriteGoesOn(Write(START, kept + pre + seed, num), rest, num);
  }

  lemma NotOpen(s: string)
    requires !EscapeOpen(Run(s))
    ensures !Swallowed(s)
  {
    hide RunFrom;
  }

  lemma SplitMarker(dump: string, seed: string)
    requires EndsWith(dump, seed)
    ensures |seed| <= |dump| && dump == dump[..|dump| - |seed|] + seed
  {
  }

  lemma Parts(a: string, b: string, c: string, d: string, e: string)
    ensures a + (b + c) + d + e == a + b + c + (d + e)
  {
  }

  lemma RunParts(a: string, b: string)
    requires RunFrom(Run(a), b).Pda?
    ensures Run(a).Pda? && Run(a + b) == RunFrom(Run(a), b)
  {
    hide RunFrom;
    RunConcat(INIT, a, b);
    DeadStays(b);
  }

  lemma RunParts2(a: string, b: string, c: string)
    requires Run(a + b).Pda? && RunFrom(Run(a + b), c).Pda?
    ensures Run(a + b + c) == RunFrom(Run(a + b), c)
  {
    hide RunFrom;
    RunConcat(INIT, a + b, c);
  }

  // -------------------------------------------------------------------------- every healed text

  /** Markers are decimal digits. */
  predicate DigitMarker(m: string) {
    m != "" && forall i :: 0 <= i < |m| ==> IsDigit(m[i])
  }

  /** The text up to the reported error. */
  function Kept(t: string): string {
    t[..ErrorAt(t)]
  }

  /** The marker stands behind something that does not end as what was put before it. */
  ghost predicate Gone(dump: string, dumpMarker: string, marker: string) {
    EndsWith(dumpMarker, marker) &&
    exists front :: front + marker <= dump && Lost(front, dumpMarker[..|dumpMarker| - |marker|])
  }

  lemma DeadAppend(s: string, x: string)
    requires Run(s).Dead?
    ensures Run(s + x).Dead? && !Accepts(s + x)
  {
    hide RunFrom;
    RunConcat(INIT, s, x);
    DeadStays(x);
  }

  /** A text that cannot be read to its end is cut back, if it is healed at all. */
  lemma DeadIsCut(s: string, els: seq<Element>, seed: string)
    requires Run(s).Dead? && els != []
    ensures Heal(s, els, seed) == if LastNonWs(s).None? then CannotHeal else CutBack(s, CutSet(els), seed)
  {
    hide RunFrom, Accepts, ClosingOf, Padding, LastNonWs, FindLastOf, WasMaybeNumber;
    var c := ClosingOf(els);
    DeadAppend(s, c);
    forall x ensures !Accepts(s + x + c) {
      DeadAppend(s, x);
      DeadAppend(s + x, c);
    }
    forall x ensures !Accepts(s + Padding(s) + x + c) {
      DeadAppend(s, Padding(s));
      DeadAppend(s + Padding(s), x);
      DeadAppend(s + Padding(s) + x, c);
    }
  }

  /** A quote and digits behind it can only be the beginning of a string. */
  lemma QuoteOpens(p: Pda, c: char)
    requires WellFormed(p) && IsDigit(c) && Step(Step(p, '"'), c).Pda?
    ensures var q := Step(p, '"'); q.Pda? && q.mode.InStr? && q.mode.st == Plain
  {
  }

  lemma PlainDigits(m: string)
    requires DigitMarker(m)
    ensures PlainMarker(m)
  {
  }

  /** What was put before a marker ends what is written, and the marker follows. */
  lemma EchoContains(front: string, pre: string, seed: string, dump: string)
    requires EndsWith(front, pre) && front + seed <= dump
    ensures Contains(dump, pre + seed)
  {
    var i := |front| - |pre|;
    assert dump[i..i + |pre + seed|] == pre + seed by {
      assert dump[..|front + seed|] == front + seed;
      assert front[i..] == pre;
      assert dump[i..i + |pre + seed|] == (front + seed)[i..];
    }
    assert OccursAt(dump, pre + seed, i);
  }

  /** A text that was read with `pre` and the marker behind `kept` has them in its dump. */
  lemma LeadContains(kept: string, pre: string, seed: string, rest: string, num: string -> string)
    requires Lead(pre) && PlainMarker(seed) && RunFrom(Run(kept + pre), seed).Pda?
    requires Run(kept + pre).Pda? && Run(kept + pre).mode.InStr? && Run(kept + pre).mode.st == Plain
    ensures Contains(Dumped(kept + pre + seed + rest, num), pre + seed)
  {
    hide RunFrom, EndsWith, Lead, Write, Contains;
    RunConcat(INIT, kept, pre);
    DeadStays(pre);
    var w := Write(START, kept, num);
    WriteRuns(START, kept, num);
    WriteConcat(START, kept, pre, num);
    WriteRuns(w, pre, num);
    var v := Write(w, pre, num);
    LeadEchoes(w, pre, num);
    MarkerWritten(v, seed, num);
    PlainRuns(v.p, seed);
    RunParts2(kept, pre, seed);
    WriteConcat(START, kept + pre, seed, num);
    WriteConcat(START, kept + pre + seed, rest, num);
    WriteGoesOn(Write(START, kept + pre + seed, num), rest, num);
    EchoContains(v.out, pre, seed, Dumped(kept + pre + seed + rest, num));
  }

  lemma AcceptsParts(a: string, b: string)
    requires Accepts(a + b)
    ensures Run(a).Pda? && RunFrom(Run(a), b).Pda? && Accepting(RunFrom(Run(a), b))
  {
    hide RunFrom;
    RunConcat(INIT, a, b);
    if Run(a).Dead? { DeadStays(b); }
  }

  /** Cutting back puts a quote and the marker there. */
  lemma CutContains(kept: string, seed: string, rest: string, num: string -> string)
    requires DigitMarker(seed) && Accepts(kept + ("\"" + seed) + rest)
    ensures Contains(Dumped(kept + ("\"" + seed) + rest, num), "\"" + seed)
  {
    hide RunFrom, Contains, Dumped, Accepts, Accepting;
    PlainDigits(seed);
    assert kept + ("\"" + seed) + rest == kept + "\"" + seed + rest;
    AcceptsParts(kept + "\"" + seed, rest);
    RunTwice(kept + "\"", seed);
    RunTwice(kept, "\"");
    Run1(Run(kept), '"');
    assert seed == [seed[0]] + seed[1..];
    RunCons(Run(kept + "\""), seed[0], seed[1..]);
    if Step(Run(kept + "\""), seed[0]).Dead? { DeadStays(seed[1..]); }
    StartWellFormed();
    RunWellFormed(INIT, kept);
    QuoteOpens(Run(kept), seed[0]);
    LeadContains(kept, "\"", seed, rest, num);
  }

  lemma RunTwice(a: string, b: string)
    requires Run(a + b).Pda?
    ensures Run(a).Pda? && Run(a + b) == RunFrom(Run(a), b)
  {
    hide RunFrom;
    RunConcat(INIT, a, b);
    if Run(a).Dead? { DeadStays(b); }
  }

  /** A top-level string. */
  lemma TopContains(s: string, seed: string, num: string -> string)
    requires s != "" && DigitMarker(seed)
    ensures var ch := HealTop(s, seed);
            ch.Complete? && Accepts(Text(s, ch, "")) ==> Contains(Dumped(Text(s, ch, ""), num), ch.dump)
  {
    hide RunFrom, Contains, Dumped, Accepting;
    PlainDigits(seed);
    var ch := HealTop(s, seed);
    if ch.Complete? && Accepts(Text(s, ch, "")) {
      var pre := if Accepts(s + "\"") then "" else "\\";
      TopRead(s);
      assert s[..|s|] == s;
      assert s[..|s|] + (pre + seed) + "\"" + "" == s + pre + seed + "\"";
      assert "" + seed == seed;
      PlainRuns(Run(s + pre), seed);
      LeadContains(s, pre, seed, "\"", num);
    }
  }

  /** Where a quote ends the document there is a string. */
  lemma TopRead(s: string)
    ensures Accepts(s + "\"") ==> var q := Run(s + ""); q.Pda? && q.mode.InStr? && q.mode.st == Plain
    ensures Accepts(s + "\\\"") ==> var q := Run(s + "\\"); q.Pda? && q.mode.InStr? && q.mode.st == Plain
  {
    hide RunFrom;
    StartWellFormed();
    RunWellFormed(INIT, s);
    assert s + "" == s;
    RunConcat(INIT, s, "\"");
    RunConcat(INIT, s, "\\\"");
    RunConcat(INIT, s, "\\");
    Run1(Run(s), '"');
    Run1(Run(s), '\\');
    Run2(Run(s), '\\', '"');
    QuoteEnds(Run(s));
  }

  lemma QuoteEnds(p: Pda)
    requires WellFormed(p)
    ensures Accepting(Step(p, '"')) ==> p.Pda? && p.mode.InStr? && p.mode.st == Plain
    ensures Accepting(Step(Step(p, '\\'), '"')) ==> var q := Step(p, '\\'); q.Pda? && q.mode.InStr? && q.mode.st == Plain
  {
  }

  lemma TopNotSwallowed(s: string, seed: string)
    requires s != "" && HealTop(s, seed).Complete?
    ensures !Swallowed(s)
  {
    hide RunFrom;
    TopRead(s);
    assert s + "" == s;
    RunConcat(INIT, s, "\\");
    Run1(Run(s), '\\');
    if EscapeOpen(Run(s)) { EscapingSteps(Run(s)); }
  }

  lemma CutTextContains(s: string, ch: Choice, closing: string, seed: string, num: string -> string)
    requires DigitMarker(seed) && ch.Complete? && ch.keep <= |s| && ch.dump == "\"" + seed && Accepts(Text(s, ch, closing))
    ensures Contains(Dumped(Text(s, ch, closing), num), ch.dump)
  {
    hide Contains, Dumped, Accepts;
    var kept := s[..ch.keep];
    assert kept + ("\"" + seed) + ch.tail + closing == kept + ("\"" + seed) + (ch.tail + closing);
    CutContains(kept, seed, ch.tail + closing, num);
  }

  /** Inside a container of a text that can be read so far. */
  lemma AliveMarker(s: string, seed: string, num: string -> string)
    requires Run(s).Pda? && Run(s).stack != [] && DigitMarker(seed)
    ensures var els := SaxStack(Finish(Run(s)));
            && els != []
            && var ch := Heal(s, els, seed);
               ch.Complete? && Accepts(Text(s, ch, ClosingOf(els))) ==>
                 if Swallowed(s) then Gone(Dumped(Text(s, ch, ClosingOf(els)), num), ch.dump, seed)
                 else Contains(Dumped(Text(s, ch, ClosingOf(els)), num), ch.dump)
  {
    hide RunFrom, Contains, Dumped, Accepts, Heal, SaxStack, ClosingOf, Heals, PseudoSurrogate, Swallowed, Text, MarkerInString, TextInv;
    var p := Run(s);
    var els := SaxStack(Finish(p));
    PlainDigits(seed);
    CutIsInside(s);
    TopOfSax(p);
    HealHeals(s, p, seed);
    var ch := Heal(s, els, seed);
    if ch.Complete? && Accepts(Text(s, ch, ClosingOf(els))) {
      if PseudoSurrogate(s) {
        assert !Swallowed(s) by { PseudoNotSwallowed(s); }
        assert ch.dump == "\"" + seed by { CutDump(s, ch, seed); }
        CutTextContains(s, ch, ClosingOf(els), seed, num);
      } else {
        AliveEcho(s, ch, Closing(p.stack), seed, num);
      }
    }
  }

  lemma PseudoNotSwallowed(s: string)
    requires PseudoSurrogate(s)
    ensures !Swallowed(s)
  {
    hide PseudoSurrogate, RunFrom;
  }

  lemma CutDump(s: string, ch: Choice, seed: string)
    requires ch.Complete? && exists els :: els != [] && ch == CutBack(s, CutSet(els), seed)
    ensures ch.dump == "\"" + seed
  {
    hide FindLastOf;
  }

  lemma AliveEcho(s: string, ch: Choice, closing: string, seed: string, num: string -> string)
    requires CutInside(s, Run(s), TrackOf(s)) && !PseudoSurrogate(s) && Heals(s, ch, closing, seed) && PlainMarker(seed)
    ensures if Swallowed(s) then Gone(Dumped(Text(s, ch, closing), num), ch.dump, seed)
            else Contains(Dumped(Text(s, ch, closing), num), ch.dump)
  {
    hide RunFrom, Contains, Dumped, Accepts, PseudoSurrogate, Swallowed, EndsWith, Lost, Text, StringTail, ScalarTail, ValueDueAt,
      LosesAtMostScalar, Padding, Lead, Write;
    MarkerEcho(s, ch, closing, seed, num);
    SplitMarker(ch.dump, seed);
    var pre := ch.dump[..|ch.dump| - |seed|];
    var front := Write(START, FrontOf(s, ch, seed), num).out;
    if !Swallowed(s) { EchoContains(front, pre, seed, Dumped(Text(s, ch, closing), num)); }
  }

  /** WHICH MARKERS COME BACK. The dump of a healed text holds what was put in with the marker, unless an escape is
      swallowed: then something else stands before the marker. */
  lemma HealedMarker(t: string, marker: string, num: string -> string)
    requires DigitMarker(marker)
    ensures var r := Parse(t, marker);
            r.Parsed? && r.marker != "" ==>
              if Swallowed(Kept(t)) then Gone(Dumped(r.text, num), r.dumpMarker, marker)
              else Contains(Dumped(r.text, num), r.dumpMarker)
  {
    hide RunFrom, Contains, Dumped, Accepts, Heal, HealTop, SaxStack, ClosingOf, Swallowed, Text, Gone, Reach, ErrorAt;
    var r := Parse(t, marker);
    if r.Parsed? && r.marker != "" {
      var s, els := Kept(t), SaxStack(Finish(Reach(INIT, t).1));
      KeptIs(t);
      if els == [] {
        var ch := HealTop(s, marker);
        TopNotSwallowed(s, marker);
        TopContains(s, marker, num);
      } else if Run(s).Dead? {
        var ch := Heal(s, els, marker);
        assert !Swallowed(s) by { DeadNotSwallowed(s); }
        DeadIsCut(s, els, marker);
        CutTextContains(s, ch, ClosingOf(els), marker, num);
      } else {
        AliveMarker(s, marker, num);
      }
    }
  }

  lemma DeadNotSwallowed(s: string)
    requires Run(s).Dead?
    ensures !Swallowed(s)
  {
    hide RunFrom;
  }

  /** The text up to the error ends in the state that was reached, or it cannot be read. */
  lemma KeptIs(t: string)
    ensures Run(Kept(t)).Dead? || Run(Kept(t)) == Reach(INIT, t).1
    ensures SaxStack(Finish(Reach(INIT, t).1)) != [] ==> Reach(INIT, t).1.stack != []
  {
    hide RunFrom, Reach;
    var n := Reach(INIT, t).0;
    var s := Kept(t);
    if |s| > n {
      assert s == t[..n] + ([t[n]] + s[n + 1..]);
      RunConcat(INIT, t[..n], [t[n]] + s[n + 1..]);
      RunCons(Run(t[..n]), t[n], s[n + 1..]);
      DeadStays(s[n + 1..]);
    }
  }
}
