/** Base64 of `common/base64.hpp`, after sections 4 and 5 of RFC 4648. Bit operations are written as arithmetic. */
module Base64 {
  import opened Chars
  import opened Wrappers

  datatype Alphabet = Auto | Standard | UrlSafe

  datatype Behavior = Moderate | Loose

  // ----------------------------------------------------------------------------------- symbols

  /** The symbol for a six-bit value. */
  function Symbol(url: bool, v: nat): (c: char)
    requires v < 64
    ensures c != '='
  {
    if v < 26 then 'A' + v as char
    else if v < 52 then 'a' + (v - 26) as char
    else if v < 62 then '0' + (v - 52) as char
    else if v == 62 then if url then '-' else '+'
    else if url then '_' else '/'
  }

  datatype Value = Value(v: nat, alphabet: Alphabet)

  /** `_base64_value`: in automatic mode the first symbol that tells the alphabets apart settles the alphabet. */
  function ValueOf(a: Alphabet, c: char): (r: Option<Value>)
    ensures r.Some? ==> r.value.v < 64
  {
    if 'A' <= c <= 'Z' then Some(Value((c - 'A') as nat, a))
    else if 'a' <= c <= 'z' then Some(Value((c - 'a') as nat + 26, a))
    else if '0' <= c <= '9' then Some(Value((c - '0') as nat + 52, a))
    else if c == '+' && !a.UrlSafe? then Some(Value(62, Standard))
    else if c == '/' && !a.UrlSafe? then Some(Value(63, Standard))
    else if c == '-' && !a.Standard? then Some(Value(62, UrlSafe))
    else if c == '_' && !a.Standard? then Some(Value(63, UrlSafe))
    else None
  }

  /** An alphabet that reads what was written with `url`. */
  predicate Reads(a: Alphabet, url: bool) {
    a.Auto? || (a.UrlSafe? <==> url)
  }

  lemma ReadsSymbol(a: Alphabet, url: bool, v: nat)
    requires Reads(a, url) && v < 64
    ensures var r := ValueOf(a, Symbol(url, v)); r.Some? && r.value.v == v && Reads(r.value.alphabet, url)
  {
  }

  // ---------------------------------------------------------------------------------- encoding

  // The four groups of six bits of three bytes.

  function Six1(i0: byte): (v: nat)
    ensures v < 64
  {
    i0 / 4
  }

  function Six2(i0: byte, i1: byte): (v: nat)
    ensures v < 64
  {
    i0 % 4 * 16 + i1 / 16
  }

  function Six3(i1: byte, i2: byte): (v: nat)
    ensures v < 64
  {
    i1 % 16 * 4 + i2 / 64
  }

  function Six4(i2: byte): (v: nat)
    ensures v < 64
  {
    i2 % 64
  }

  /** Three bytes become four symbols; one or two bytes at the end are padded. */
  function Encode(s: seq<byte>, url: bool): string {
    if s == [] then ""
    else if |s| == 1 then [Symbol(url, Six1(s[0])), Symbol(url, Six2(s[0], 0)), '=', '=']
    else if |s| == 2 then
      [Symbol(url, Six1(s[0])), Symbol(url, Six2(s[0], s[1])), Symbol(url, Six3(s[1], 0)), '=']
    else Quad(s[0], s[1], s[2], url) + Encode(s[3..], url)
  }

  function Quad(i0: byte, i1: byte, i2: byte, url: bool): string {
    [Symbol(url, Six1(i0)), Symbol(url, Six2(i0, i1)), Symbol(url, Six3(i1, i2)), Symbol(url, Six4(i2))]
  }

  /** What is written for the next bytes at `i`, behind what was written before. */
  lemma OneLeft(s: seq<byte>, i: nat, url: bool, out: string)
    requires i + 1 == |s|
    ensures out + Encode(s[i..], url) == out + [Symbol(url, Six1(s[i]))] + [Symbol(url, Six2(s[i], 0))] + ['='] + ['=']
  {
    hide Symbol;
    Append4(out, [Symbol(url, Six1(s[i]))], [Symbol(url, Six2(s[i], 0))], ['='], ['='], "");
  }

  lemma TwoLeft(s: seq<byte>, i: nat, url: bool, out: string)
    requires i + 2 == |s|
    ensures out + Encode(s[i..], url) ==
            out + [Symbol(url, Six1(s[i]))] + [Symbol(url, Six2(s[i], s[i + 1]))] + [Symbol(url, Six3(s[i + 1], 0))] + ['=']
  {
    hide Symbol;
    Append4(out, [Symbol(url, Six1(s[i]))], [Symbol(url, Six2(s[i], s[i + 1]))], [Symbol(url, Six3(s[i + 1], 0))], ['='], "");
  }

  lemma ThreeNext(s: seq<byte>, i: nat, url: bool, out: string)
    requires i + 3 <= |s|
    ensures out + Encode(s[i..], url) ==
            out + [Symbol(url, Six1(s[i]))] + [Symbol(url, Six2(s[i], s[i + 1]))]
            + [Symbol(url, Six3(s[i + 1], s[i + 2]))] + [Symbol(url, Six4(s[i + 2]))] + Encode(s[i + 3..], url)
  {
    hide Symbol;
    var tail := Encode(s[i + 3..], url);
    assert s[i..][3..] == s[i + 3..];
    assert Encode(s[i..], url) == Quad(s[i], s[i + 1], s[i + 2], url) + tail;
    Append4(out, [Symbol(url, Six1(s[i]))], [Symbol(url, Six2(s[i], s[i + 1]))],
            [Symbol(url, Six3(s[i + 1], s[i + 2]))], [Symbol(url, Six4(s[i + 2]))], tail);
  }

  lemma Append4(out: string, a: string, b: string, c: string, d: string, e: string)
    ensures out + (a + b + c + d + e) == out + a + b + c + d + e
    ensures out + (a + b + c + d) == out + a + b + c + d
  {
  }

  method EncodeLoop(s: seq<byte>, url: bool) returns (out: string)
    ensures out == Encode(s, url)
  {
    hide Symbol, Encode, Quad, Six1, Six2, Six3, Six4;
    out := "";
    var i := 0;
    assert s[0..] == s;
    while i < |s|
      invariant i <= |s| && out + Encode(s[i..], url) == Encode(s, url)
    {
      ghost var before, start := out, i;
      var i0 := s[i];
      i := i + 1;
      out := out + [Symbol(url, Six1(i0))];
      if i == |s| {
        out := out + [Symbol(url, Six2(i0, 0))] + ['='] + ['='];
        OneLeft(s, start, url, before);
        return;
      }
      var i1 := s[i];
      i := i + 1;
      out := out + [Symbol(url, Six2(i0, i1))];
      if i == |s| {
        out := out + [Symbol(url, Six3(i1, 0))] + ['='];
        TwoLeft(s, start, url, before);
        return;
      }
      var i2 := s[i];
      i := i + 1;
      out := out + [Symbol(url, Six3(i1, i2))];
      out := out + [Symbol(url, Six4(i2))];
      ThreeNext(s, start, url, before);
    }
    NothingLeft(s, url);
  }

  lemma NothingLeft(s: seq<byte>, url: bool)
    ensures s[|s|..] == [] && Encode(s[|s|..], url) == ""
  {
  }

  function RequiredEncodeSize(size: nat): nat {
    (size / 3 + if size % 3 != 0 then 1 else 0) * 4
  }

  function MaxDecodeSize(size: nat): nat {
    (size / 4 + if size % 4 != 0 then 1 else 0) * 3
  }

  /** The buffer that is reserved for an encoding is filled exactly. */
  lemma {:induction false} EncodeSize(s: seq<byte>, url: bool)
    ensures |Encode(s, url)| == RequiredEncodeSize(|s|)
  {
    if |s| >= 3 {
      EncodeSize(s[3..], url);
      assert |s| / 3 == (|s| - 3) / 3 + 1;
    }
  }

  // ---------------------------------------------------------------------------------- decoding

  /** The byte that is complete when `bits` bits of `last` are still to be used and `part` comes next. The shifted
      value is cut to eight bits. */
  function Join(last: nat, bits: nat, part: nat): byte
    requires last < 64 && part < 64 && bits in {2, 4, 6}
  {
    if bits == 6 then last * 4 + part / 16
    else if bits == 4 then last * 16 % 256 + part / 4
    else last * 64 % 256 + part
  }

  datatype Dec = Dec(out: seq<byte>, rest: string)

  function Before(done: seq<byte>, r: Option<Dec>): Option<Dec> {
    match r case None => None case Some(d) => Some(Dec(done + d.out, d.rest))
  }

  lemma BeforeNone(r: Option<Dec>)
    ensures Before([], r) == r
  {
    if r.Some? { assert [] + r.value.out == r.value.out; }
  }

  lemma BeforeOne(done: seq<byte>, b: byte, r: Option<Dec>)
    ensures Before(done, Before([b], r)) == Before(done + [b], r)
  {
    if r.Some? { assert done + ([b] + r.value.out) == done + [b] + r.value.out; }
  }

  /** The first loop: up to a padding character; `None` for a character of no alphabet. */
  function Symbols(s: string, a: Alphabet, last: nat, bits: nat): (r: Option<Dec>)
    requires last < 64 && bits in {0, 2, 4, 6}
    ensures r.Some? ==> |r.value.rest| <= |s|
  {
    if s == "" then Some(Dec([], ""))
    else if s[0] == '=' then Some(Dec([], s[1..]))
    else
      match ValueOf(a, s[0])
      case None => None
      case Some(v) =>
        if bits == 0 then Symbols(s[1..], v.alphabet, v.v, 6)
        else Before([Join(last, bits, v.v)], Symbols(s[1..], v.alphabet, v.v, bits - 2))
  }

  predicate AllPad(s: string) {
    forall i :: 0 <= i < |s| ==> s[i] == '='
  }

  /** `decode`; `None` is the exception. */
  function Decode(s: string, a: Alphabet, behavior: Behavior): Option<seq<byte>> {
    match Symbols(s, a, 0, 0)
    case None => None
    case Some(d) => if behavior.Loose? || AllPad(d.rest) then Some(d.out) else None
  }

  lemma {:induction false} SymbolsSize(s: string, a: Alphabet, last: nat, bits: nat)
    requires last < 64 && bits in {0, 2, 4, 6}
    ensures var r := Symbols(s, a, last, bits); r.Some? ==> 8 * |r.value.out| <= 6 * |s| + bits
    decreases |s|
  {
    if s != "" && s[0] != '=' && ValueOf(a, s[0]).Some? {
      var v := ValueOf(a, s[0]).value;
      SymbolsSize(s[1..], v.alphabet, v.v, if bits == 0 then 6 else bits - 2);
    }
  }

  /** No decoding needs more than the buffer that is reserved for it. */
  lemma DecodeSize(s: string, a: Alphabet, behavior: Behavior)
    ensures var r := Decode(s, a, behavior); r.Some? ==> |r.value| <= MaxDecodeSize(|s|)
  {
    SymbolsSize(s, a, 0, 0);
    assert |s| == |s| / 4 * 4 + |s| % 4;
  }

  lemma Join3(i0: byte, i1: byte, i2: byte)
    ensures Join(i0 / 4, 6, i0 % 4 * 16 + i1 / 16) == i0
    ensures Join(i0 % 4 * 16 + i1 / 16, 4, i1 % 16 * 4 + i2 / 64) == i1
    ensures Join(i1 % 16 * 4 + i2 / 64, 2, i2 % 64) == i2
  {
    JoinSix(i0, i0 % 4 * 16 + i1 / 16);
    JoinFour(i0, i1, i2);
    JoinTwo(i1, i2);
  }

  lemma JoinSix(i0: byte, part: nat)
    requires part / 16 == i0 as int % 4 && part < 64
    ensures Join(i0 / 4, 6, part) == i0
  {
  }

  lemma JoinFour(i0: byte, i1: byte, i2: byte)
    ensures Join(i0 % 4 * 16 + i1 / 16, 4, i1 % 16 * 4 + i2 / 64) == i1
  {
    FourBitsUp(i0 as int % 4, i1 as int / 16);
    LowQuarter(i1 as int % 16, i2 as int / 64);
  }

  lemma FourBitsUp(x: nat, y: nat)
    requires x < 4 && y < 16
    ensures (x * 16 + y) * 16 % 256 == y * 16
  {
    assert (x * 16 + y) * 16 == x * 256 + y * 16;
  }

  lemma LowQuarter(x: nat, y: nat)
    requires y < 4
    ensures (x * 4 + y) / 4 == x
  {
  }

  lemma JoinTwo(i1: byte, i2: byte)
    ensures Join(i1 % 16 * 4 + i2 / 64, 2, i2 % 64) == i2
  {
    var x, y: nat := i1 as int % 16, i2 as int / 64;
    assert (x * 4 + y) * 64 == x * 256 + y * 64;
    assert (x * 256 + y * 64) % 256 == y * 64;
  }

  lemma ReadsOne(a: Alphabet, url: bool, v: nat, tail: string, last: nat, bits: nat) returns (a': Alphabet)
    requires Reads(a, url) && v < 64 && last < 64 && bits in {0, 2, 4, 6}
    ensures Reads(a', url)
    ensures var r := Symbols(tail, a', v, if bits == 0 then 6 else bits - 2);
            Symbols([Symbol(url, v)] + tail, a, last, bits) ==
              if bits == 0 || r.None? then r else Some(Dec([Join(last, bits, v)] + r.value.out, r.value.rest))
  {
    ReadsSymbol(a, url, v);
    a' := ValueOf(a, Symbol(url, v)).value.alphabet;
    assert ([Symbol(url, v)] + tail)[1..] == tail;
  }

  lemma {:induction false} SymbolsOfEncode(s: seq<byte>, url: bool, a: Alphabet, last: nat)
    requires Reads(a, url) && last < 64
    ensures var r := Symbols(Encode(s, url), a, last, 0);
            r.Some? && r.value.out == s && AllPad(r.value.rest)
    decreases |s|
  {
    hide Symbols, Symbol, Join;
    if s == [] {
      AtEnd("", a, last, 0);
    } else if |s| == 1 {
      OneByte(s[0], url, a, last);
    } else if |s| == 2 {
      TwoBytes(s[0], s[1], url, a, last);
      assert s == [s[0], s[1]];
    } else {
      var a' := ThreeBytes(s[0], s[1], s[2], Encode(s[3..], url), url, a, last);
      SymbolsOfEncode(s[3..], url, a', s[2] % 64);
      assert s == [s[0], s[1], s[2]] + s[3..];
    }
  }

  lemma OneByte(i0: byte, url: bool, a: Alphabet, last: nat)
    requires Reads(a, url) && last < 64
    ensures var r := Symbols([Symbol(url, Six1(i0)), Symbol(url, Six2(i0, 0)), '=', '='], a, last, 0);
            r.Some? && r.value.out == [i0] && AllPad(r.value.rest)
  {
    hide Symbols, Symbol, Join;
    var x, y := i0 / 4, i0 % 4 * 16;
    var a1 := ReadsOne(a, url, x, [Symbol(url, y)] + "==", last, 0);
    var a2 := ReadsOne(a1, url, y, "==", x, 6);
    AtEnd("==", a2, y, 4);
    Join3(i0, 0, 0);
    assert [Symbol(url, x), Symbol(url, y), '=', '='] == [Symbol(url, x)] + ([Symbol(url, y)] + "==");
  }

  lemma TwoBytes(i0: byte, i1: byte, url: bool, a: Alphabet, last: nat)
    requires Reads(a, url) && last < 64
    ensures var r := Symbols([Symbol(url, Six1(i0)), Symbol(url, Six2(i0, i1)), Symbol(url, Six3(i1, 0)), '='], a, last, 0);
            r.Some? && r.value.out == [i0, i1] && AllPad(r.value.rest)
  {
    hide Symbols, Symbol, Join;
    var x, y, z := i0 / 4, i0 % 4 * 16 + i1 / 16, i1 % 16 * 4;
    var a1 := ReadsOne(a, url, x, [Symbol(url, y)] + ([Symbol(url, z)] + "="), last, 0);
    var a2 := ReadsOne(a1, url, y, [Symbol(url, z)] + "=", x, 6);
    var a3 := ReadsOne(a2, url, z, "=", y, 4);
    AtEnd("=", a3, z, 2);
    Join3(i0, i1, 0);
    assert [Symbol(url, x), Symbol(url, y), Symbol(url, z), '='] == [Symbol(url, x)] + ([Symbol(url, y)] + ([Symbol(url, z)] + "="));
  }

  /** Four symbols give back three bytes, and decoding goes on where it was. */
  lemma ThreeBytes(i0: byte, i1: byte, i2: byte, tail: string, url: bool, a: Alphabet, last: nat) returns (a': Alphabet)
    requires Reads(a, url) && last < 64
    ensures Reads(a', url)
    ensures var r := Symbols(tail, a', i2 % 64, 0);
            Symbols(Quad(i0, i1, i2, url) + tail, a, last, 0) ==
              if r.None? then None else Some(Dec([i0, i1, i2] + r.value.out, r.value.rest))
  {
    hide Symbols, Symbol, Join;
    var x, y, z, w := i0 / 4, i0 % 4 * 16 + i1 / 16, i1 % 16 * 4 + i2 / 64, i2 % 64;
    var t3 := [Symbol(url, w)] + tail;
    var t2 := [Symbol(url, z)] + t3;
    var t1 := [Symbol(url, y)] + t2;
    var a1 := ReadsOne(a, url, x, t1, last, 0);
    var a2 := ReadsOne(a1, url, y, t2, x, 6);
    var a3 := ReadsOne(a2, url, z, t3, y, 4);
    a' := ReadsOne(a3, url, w, tail, z, 2);
    Join3(i0, i1, i2);
    assert Quad(i0, i1, i2, url) + tail == [Symbol(url, x)] + t1;
    var r := Symbols(tail, a', w, 0);
    if r.Some? { Cons3(i0, i1, i2, r.value.out); }
  }

  lemma Cons3(i0: byte, i1: byte, i2: byte, out: seq<byte>)
    ensures [i0] + ([i1] + ([i2] + out)) == [i0, i1, i2] + out
  {
  }

  lemma AtEnd(s: string, a: Alphabet, last: nat, bits: nat)
    requires s in {"", "=", "=="} && last < 64 && bits in {0, 2, 4, 6}
    ensures Symbols(s, a, last, bits).Some? && Symbols(s, a, last, bits).value.out == [] && AllPad(Symbols(s, a, last, bits).value.rest)
  {
  }

  /** DECODING UNDOES ENCODING, for all bytes and both alphabets, whether the alphabet is given or found out, and
      whether the padding is checked or not. */
  lemma DecodeUndoesEncode(s: seq<byte>, url: bool, a: Alphabet, behavior: Behavior)
    requires Reads(a, url)
    ensures Decode(Encode(s, url), a, behavior) == Some(s)
  {
    SymbolsOfEncode(s, url, a, 0);
  }

  // ------------------------------------------------------------------------------- in place

  function AsChars(s: seq<byte>): (r: string)
    ensures |r| == |s|
  {
    seq(|s|, i requires 0 <= i < |s| => s[i] as char)
  }

  /** `decode_inplace`: the output overwrites the input. Unread input is never overwritten, so that the result is that
      of decoding into another buffer. */
  method DecodeInPlace(buf: array<char>, a: Alphabet, behavior: Behavior) returns (size: Option<nat>)
    modifies buf
    ensures var r := Decode(old(buf[..]), a, behavior);
            && (r.None? ==> size.None?)
            && (r.Some? ==> size == Some(|r.value|) && |r.value| <= buf.Length && buf[..|r.value|] == AsChars(r.value))
  {
    hide Symbols, ValueOf, Join, Before, AllPad;
    var alphabet, last, bits := a, 0, 0;
    var i, o := 0, 0;
    ghost var input, done: seq<byte> := buf[..], [];
    assert input[0..] == input;
    BeforeNone(Symbols(input, a, 0, 0));
    while i < buf.Length
      invariant o <= i <= buf.Length && 8 * o + bits == 6 * i
      invariant last < 64 && bits in {0, 2, 4, 6}
      invariant buf[i..] == input[i..] && o == |done| && buf[..o] == AsChars(done)
      invariant Symbols(input, a, 0, 0) == Before(done, Symbols(input[i..], alphabet, last, bits))
    {
      assert buf[i] == buf[i..][0] == input[i..][0];
      var c := buf[i];
      SymbolsTurn(input, i, alphabet, last, bits);
      i := i + 1;
      if c == '=' {
        size := CheckPadding(buf, input, i, o, behavior);
        BeforePadding(done, input[i..]);
        return;
      }
      var part := ValueOf(alphabet, c);
      if part.None? {
        BeforePadding(done, "");
        return None;
      }
      if bits + 6 >= 8 {
        var b := Join(last, bits, part.value.v);
        buf[o] := b as char;
        AsCharsSnoc(done, b, buf[..o + 1]);
        o := o + 1;
        BeforeOne(done, b, Symbols(input[i..], part.value.alphabet, part.value.v, bits - 2));
        done := done + [b];
        bits := bits - 2;
      } else {
        bits := bits + 6;
      }
      last, alphabet := part.value.v, part.value.alphabet;
    }
    size := Some(o);
    assert input[i..] == "";
    SymbolsTurn(input, i, alphabet, last, bits);
    BeforePadding(done, "");
  }

  lemma AsCharsSnoc(done: seq<byte>, b: byte, s: string)
    requires |s| == |done| + 1 && s[..|done|] == AsChars(done) && s[|done|] == b as char
    ensures s == AsChars(done + [b])
  {
    forall k | 0 <= k < |s| ensures s[k] == AsChars(done + [b])[k] {
      assert k < |done| ==> s[k] == s[..|done|][k];
    }
  }

  /** One turn of the first loop. */
  lemma SymbolsTurn(s: string, i: nat, a: Alphabet, last: nat, bits: nat)
    requires last < 64 && bits in {0, 2, 4, 6} && i <= |s|
    ensures i == |s| ==> Symbols(s[i..], a, last, bits) == Some(Dec([], ""))
    ensures i < |s| && s[i] == '=' ==> Symbols(s[i..], a, last, bits) == Some(Dec([], s[i + 1..]))
    ensures i < |s| && s[i] != '=' ==>
              var v := ValueOf(a, s[i]);
              Symbols(s[i..], a, last, bits) ==
                if v.None? then None
                else if bits == 0 then Symbols(s[i + 1..], v.value.alphabet, v.value.v, 6)
                else Before([Join(last, bits, v.value.v)], Symbols(s[i + 1..], v.value.alphabet, v.value.v, bits - 2))
  {
    hide ValueOf, Join, Before;
    if i < |s| { assert s[i..][1..] == s[i + 1..] && s[i..][0] == s[i]; }
  }

  lemma BeforePadding(done: seq<byte>, rest: string)
    ensures Before(done, Some(Dec([], rest))) == Some(Dec(done, rest))
    ensures AllPad("") && Before(done, None) == None
  {
    assert done + [] == done;
  }

  /** The second loop: after a padding character there has to be padding only, unless nothing is checked. */
  method CheckPadding(buf: array<char>, ghost input: string, from: nat, o: nat, behavior: Behavior) returns (size: Option<nat>)
    requires from <= buf.Length == |input| && buf[from..] == input[from..]
    ensures size == if behavior.Loose? || AllPad(input[from..]) then Some(o) else None
  {
    if behavior != Loose {
      var i := from;
      while i < buf.Length
        invariant from <= i <= buf.Length && forall k :: 0 <= k < i - from ==> input[from..][k] == '='
      {
        assert buf[i] == buf[from..][i - from];
        if buf[i] != '=' { return None; }
        i := i + 1;
      }
    }
    size := Some(o);
  }
}
