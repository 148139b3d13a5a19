/** The UTF-8 helpers of the line editor (`decode_utf8`, `append_utf8`, `prev_utf8_char_pos` and `next_utf8_char_pos`
    in `common/console.cpp`). Bit operations are written as arithmetic. */
module CodepointCodec {

  import opened Chars

  const MAX := 0x10FFFF

  const REPLACEMENT := 0xFFFD

  /** `append_utf8`: nothing at all for a number beyond the last code point. */
  function EncodeChar(cp: nat): (r: seq<byte>)
    ensures |r| <= 4 && (cp <= MAX <==> r != [])
  {
    if cp <= 0x7F then [cp]
    else if cp <= 0x7FF then [0xC0 + cp / 64, 0x80 + cp % 64]
    else if cp <= 0xFFFF then [0xE0 + cp / 4096, 0x80 + cp / 64 % 64, 0x80 + cp % 64]
    else if cp <= MAX then [0xF0 + cp / 262144, 0x80 + cp / 4096 % 64, 0x80 + cp / 64 % 64, 0x80 + cp % 64]
    else []
  }

  function Encode(cps: seq<nat>): seq<byte> {
    if cps == [] then [] else EncodeChar(cps[0]) + Encode(cps[1..])
  }

  predicate Tail(b: byte) {
    0x80 <= b < 0xC0
  }

  datatype Decoded = Decoded(cp: nat, advance: nat)

  /** The six bits of a continuation byte. */
  function Low(b: byte): nat {
    (b as int) % 64
  }

  function DecodeAt(s: seq<byte>, pos: nat): (r: Decoded)
    requires pos < |s|
    ensures 1 <= r.advance <= 4 && pos + r.advance <= |s|
  {
    var c: int := s[pos];
    if c < 0x80 then Decoded(c, 1)
    else if 0xC0 <= c < 0xE0 && pos + 1 < |s| then
      if !Tail(s[pos + 1]) then Decoded(REPLACEMENT, 1) else Decoded(c % 32 * 64 + Low(s[pos + 1]), 2)
    else if 0xE0 <= c < 0xF0 && pos + 2 < |s| then
      if !Tail(s[pos + 1]) || !Tail(s[pos + 2]) then Decoded(REPLACEMENT, 1)
      else Decoded(c % 16 * 4096 + Low(s[pos + 1]) * 64 + Low(s[pos + 2]), 3)
    else if 0xF0 <= c < 0xF8 && pos + 3 < |s| then
      if !Tail(s[pos + 1]) || !Tail(s[pos + 2]) || !Tail(s[pos + 3]) then Decoded(REPLACEMENT, 1)
      else Decoded(c % 8 * 262144 + Low(s[pos + 1]) * 4096 + Low(s[pos + 2]) * 64 + Low(s[pos + 3]), 4)
    else Decoded(REPLACEMENT, 1)
  }

  /** Decoding gives back every code point that was encoded, whatever stands around it. */
  lemma DecodeEncoded(s: seq<byte>, pos: nat, cp: nat)
    requires cp <= MAX && pos + |EncodeChar(cp)| <= |s| && s[pos..pos + |EncodeChar(cp)|] == EncodeChar(cp)
    ensures DecodeAt(s, pos) == Decoded(cp, |EncodeChar(cp)|)
  {
    var e := EncodeChar(cp);
    var t := s[pos..pos + |e|];
    assert s[pos] == t[0];
    if cp <= 0x7F {
    } else if cp <= 0x7FF {
      assert s[pos + 1] == t[1];
      Decode2(s, pos, cp / 64, cp % 64);
    } else if cp <= 0xFFFF {
      assert s[pos + 1] == t[1] && s[pos + 2] == t[2];
      Digits3(cp);
      Decode3(s, pos, cp / 4096, cp / 64 % 64, cp % 64);
    } else {
      assert s[pos + 1] == t[1] && s[pos + 2] == t[2] && s[pos + 3] == t[3];
      Digits4(cp);
      Decode4(s, pos, cp / 262144, cp / 4096 % 64, cp / 64 % 64, cp % 64);
    }
  }

  lemma Decode2(s: seq<byte>, pos: nat, x: nat, y: nat)
    requires pos + 2 <= |s| && x < 32 && y < 64 && s[pos] == 0xC0 + x && s[pos + 1] == 0x80 + y
    ensures DecodeAt(s, pos) == Decoded(x * 64 + y, 2)
  {
    LowBits(y);
    assert (0xC0 + x) % 32 == x;
  }

  lemma Decode3(s: seq<byte>, pos: nat, x: nat, y: nat, z: nat)
    requires pos + 3 <= |s| && x < 16 && y < 64 && z < 64
    requires s[pos] == 0xE0 + x && s[pos + 1] == 0x80 + y && s[pos + 2] == 0x80 + z
    ensures DecodeAt(s, pos) == Decoded(x * 4096 + y * 64 + z, 3)
  {
    LowBits(y);
    LowBits(z);
    assert (0xE0 + x) % 16 == x;
  }

  lemma Decode4(s: seq<byte>, pos: nat, x: nat, y: nat, z: nat, w: nat)
    requires pos + 4 <= |s| && x < 8 && y < 64 && z < 64 && w < 64
    requires s[pos] == 0xF0 + x && s[pos + 1] == 0x80 + y && s[pos + 2] == 0x80 + z && s[pos + 3] == 0x80 + w
    ensures DecodeAt(s, pos) == Decoded(x * 262144 + y * 4096 + z * 64 + w, 4)
  {
    LowBits(y);
    LowBits(z);
    LowBits(w);
    assert (0xF0 + x) % 8 == x;
  }

  lemma LowBits(x: nat)
    requires x < 64
    ensures Low(0x80 + x) == x && Tail(0x80 + x)
  {
  }

  lemma Digits3(cp: nat)
    requires cp <= 0xFFFF
    ensures cp / 4096 < 16 && cp == cp / 4096 * 4096 + cp / 64 % 64 * 64 + cp % 64
  {
    assert cp / 64 / 64 == cp / 4096;
  }

  lemma Digits4(cp: nat)
    requires cp <= MAX
    ensures cp / 262144 < 8 && cp == cp / 262144 * 262144 + cp / 4096 % 64 * 4096 + cp / 64 % 64 * 64 + cp % 64
  {
    assert cp / 64 / 64 == cp / 4096;
    assert cp / 4096 / 64 == cp / 262144;
  }

  /** An encoded character is a byte that no other character contains, and continuation bytes. */
  lemma CharBytes(cp: nat)
    requires cp <= MAX
    ensures var e := EncodeChar(cp);
            && !Tail(e[0]) && (forall i :: 1 <= i < |e| ==> Tail(e[i]))
            && (e[0] < 0x80 ==> e == [cp])
            && (cp < 0x80 ==> e == [cp])
  {
  }

  // -------------------------------------------------------------------------------- positions

  ghost predicate Codepoints(cps: seq<nat>) {
    forall i :: 0 <= i < |cps| ==> cps[i] <= MAX
  }

  /** Where the character at index `k` begins. */
  function Offset(cps: seq<nat>, k: nat): nat
    requires k <= |cps|
  {
    |Encode(cps[..k])|
  }

  lemma {:induction false} EncodeConcat(a: seq<nat>, b: seq<nat>)
    ensures Encode(a + b) == Encode(a) + Encode(b)
  {
    hide EncodeChar;
    if a == [] {
      assert a + b == b;
    } else {
      assert (a + b)[0] == a[0] && (a + b)[1..] == a[1..] + b;
      EncodeConcat(a[1..], b);
    }
  }

  lemma EncodeOne(cp: nat)
    ensures Encode([cp]) == EncodeChar(cp)
  {
    hide EncodeChar;
    assert [cp][1..] == [];
  }

  /** The bytes before, of and after the character at index `k`. */
  lemma CharAt(cps: seq<nat>, k: nat)
    requires k < |cps|
    ensures Offset(cps, k + 1) == Offset(cps, k) + |EncodeChar(cps[k])| <= |Encode(cps)|
    ensures Encode(cps)[Offset(cps, k)..Offset(cps, k + 1)] == EncodeChar(cps[k])
    ensures Encode(cps)[..Offset(cps, k)] == Encode(cps[..k]) && Encode(cps)[Offset(cps, k + 1)..] == Encode(cps[k + 1..])
  {
    hide EncodeChar, Encode;
    SplitAt(cps, k);
    SplitAt(cps, k + 1);
    assert cps[..k + 1] == cps[..k] + [cps[k]];
    EncodeConcat(cps[..k], [cps[k]]);
    EncodeOne(cps[k]);
    TakeBoth(Encode(cps), Encode(cps[..k]), EncodeChar(cps[k]));
  }

  lemma TakeBoth(s: seq<byte>, a: seq<byte>, b: seq<byte>)
    requires |a| + |b| <= |s| && s[..|a| + |b|] == a + b
    ensures s[|a|..|a| + |b|] == b
  {
    assert s[..|a| + |b|][|a|..] == b;
  }

  lemma SplitAt(cps: seq<nat>, k: nat)
    requires k <= |cps|
    ensures Offset(cps, k) <= |Encode(cps)|
    ensures Encode(cps)[..Offset(cps, k)] == Encode(cps[..k]) && Encode(cps)[Offset(cps, k)..] == Encode(cps[k..])
  {
    hide EncodeChar, Encode;
    assert cps == cps[..k] + cps[k..];
    EncodeConcat(cps[..k], cps[k..]);
  }

  /** The loop of `prev_utf8_char_pos`, from `pos` down. */
  function PrevFrom(s: seq<byte>, pos: nat): (r: nat)
    requires pos < |s|
    ensures r <= pos
  {
    if pos > 0 && Tail(s[pos]) then PrevFrom(s, pos - 1) else pos
  }

  function PrevPos(s: seq<byte>, pos: nat): (r: nat)
    requires pos <= |s|
    ensures r <= pos && (pos > 0 ==> r < pos)
  {
    if pos == 0 then 0 else PrevFrom(s, pos - 1)
  }

  /** The loop of `next_utf8_char_pos`, from `pos` up. */
  function NextFrom(s: seq<byte>, pos: nat): (r: nat)
    requires pos <= |s|
    ensures pos <= r <= |s|
    decreases |s| - pos
  {
    if pos < |s| && Tail(s[pos]) then NextFrom(s, pos + 1) else pos
  }

  function NextPos(s: seq<byte>, pos: nat): (r: nat)
    ensures r <= |s| && (pos < |s| ==> pos < r)
  {
    if pos >= |s| then |s| else NextFrom(s, pos + 1)
  }

  method PrevUtf8CharPos(line: seq<byte>, pos: nat) returns (r: nat)
    requires pos <= |line|
    ensures r == PrevPos(line, pos)
  {
    if pos == 0 { return 0; }
    r := pos - 1;
    while r > 0 && Tail(line[r])
      invariant r < |line| && PrevFrom(line, r) == PrevPos(line, pos)
    {
      r := r - 1;
    }
  }

  method NextUtf8CharPos(line: seq<byte>, pos: nat) returns (r: nat)
    ensures r == NextPos(line, pos)
  {
    if pos >= |line| { return |line|; }
    r := pos + 1;
    while r < |line| && Tail(line[r])
      invariant r <= |line| && NextFrom(line, r) == NextPos(line, pos)
    {
      r := r + 1;
    }
  }

  lemma {:induction false} PrevFromIs(s: seq<byte>, pos: nat, r: nat)
    requires r <= pos < |s| && !Tail(s[r]) && forall i :: r < i <= pos ==> Tail(s[i])
    ensures PrevFrom(s, pos) == r
    decreases pos
  {
    if r < pos { PrevFromIs(s, pos - 1, r); }
  }

  lemma {:induction false} NextFromIs(s: seq<byte>, pos: nat, r: nat)
    requires pos <= r <= |s| && (r < |s| ==> !Tail(s[r])) && forall i :: pos <= i < r ==> Tail(s[i])
    ensures NextFrom(s, pos) == r
    decreases r - pos
  {
    if pos < r { NextFromIs(s, pos + 1, r); }
  }

  lemma CharShape(cps: seq<nat>, k: nat)
    requires Codepoints(cps) && k < |cps|
    ensures Offset(cps, k) < Offset(cps, k + 1) <= |Encode(cps)|
    ensures !Tail(Encode(cps)[Offset(cps, k)])
    ensures forall i :: Offset(cps, k) < i < Offset(cps, k + 1) ==> Tail(Encode(cps)[i])
  {
    hide Encode, EncodeChar, Tail;
    CharAt(cps, k);
    CharBytes(cps[k]);
    var s, o, e := Encode(cps), Offset(cps, k), EncodeChar(cps[k]);
    var t := s[o..o + |e|];
    assert t == e && t[0] == s[o];
    forall i | o < i < o + |e| ensures Tail(s[i]) { assert s[i] == t[i - o]; }
  }

  /** In an encoded text, stepping back from a character leads to the one before. */
  lemma PrevIsBefore(cps: seq<nat>, k: nat)
    requires Codepoints(cps) && 0 < k <= |cps|
    ensures Offset(cps, k) <= |Encode(cps)| && PrevPos(Encode(cps), Offset(cps, k)) == Offset(cps, k - 1)
  {
    hide Encode, EncodeChar, PrevFrom, Tail, Offset;
    CharShape(cps, k - 1);
    PrevFromIs(Encode(cps), Offset(cps, k) - 1, Offset(cps, k - 1));
  }

  /** ... and stepping forward leads to the one after. */
  lemma NextIsAfter(cps: seq<nat>, k: nat)
    requires Codepoints(cps) && k < |cps|
    ensures NextPos(Encode(cps), Offset(cps, k)) == Offset(cps, k + 1)
  {
    hide Encode, EncodeChar, NextFrom, Tail, Offset;
    CharShape(cps, k);
    if k + 1 < |cps| { CharShape(cps, k + 1); } else { WholeOffset(cps); }
    NextFromIs(Encode(cps), Offset(cps, k) + 1, Offset(cps, k + 1));
  }

  lemma WholeOffset(cps: seq<nat>)
    ensures Offset(cps, |cps|) == |Encode(cps)|
  {
    assert cps[..|cps|] == cps;
  }

  lemma EmptyText()
    ensures Encode([]) == []
  {
  }

  lemma DecodeIsChar(cps: seq<nat>, k: nat)
    requires Codepoints(cps) && k < |cps|
    ensures Offset(cps, k) < |Encode(cps)|
    ensures Offset(cps, k) < Offset(cps, k + 1)
    ensures DecodeAt(Encode(cps), Offset(cps, k)) == Decoded(cps[k], Offset(cps, k + 1) - Offset(cps, k))
  {
    hide Encode, EncodeChar, DecodeAt;
    CharAt(cps, k);
    DecodeEncoded(Encode(cps), Offset(cps, k), cps[k]);
  }

  /** No index lies behind its byte position. */
  lemma {:induction false} OffsetAtLeast(cps: seq<nat>, k: nat)
    requires Codepoints(cps) && k <= |cps|
    ensures k <= Offset(cps, k)
    decreases k
  {
    hide EncodeChar;
    if k > 0 {
      CharAt(cps, k - 1);
      OffsetAtLeast(cps, k - 1);
    }
  }

  /** The last byte of a text is an ASCII character exactly when its last code point is that character. */
  lemma LastByte(cps: seq<nat>, c: nat)
    requires Codepoints(cps) && c < 0x80
    ensures Encode(cps) == [] <==> cps == []
    ensures cps != [] ==> (Encode(cps)[|Encode(cps)| - 1] == c <==> cps[|cps| - 1] == c)
    ensures cps != [] && cps[|cps| - 1] == c ==> Encode(cps)[..|Encode(cps)| - 1] == Encode(cps[..|cps| - 1])
  {
    hide Encode, EncodeChar;
    EmptyText();
    if cps != [] {
      var k := |cps| - 1;
      CharAt(cps, k);
      CharBytes(cps[k]);
      CharBytes(c);
      SplitAt(cps, k + 1);
      assert cps[..k + 1] == cps;
      var s, o, e := Encode(cps), Offset(cps, k), EncodeChar(cps[k]);
      assert s[|s| - 1] == s[o..o + |e|][|e| - 1];
    }
  }

  /** Different texts have different encodings. */
  lemma {:induction false} EncodeInjective(a: seq<nat>, b: seq<nat>)
    requires Codepoints(a) && Codepoints(b)
    ensures Encode(a) == Encode(b) ==> a == b
    decreases |a|
  {
    hide Encode, EncodeChar, DecodeAt;
    if Encode(a) == Encode(b) {
      LastByte(a, 0);
      LastByte(b, 0);
      if a != [] {
        DecodeIsChar(a, 0);
        DecodeIsChar(b, 0);
        assert a[..0] == [] == b[..0];
        CharAt(a, 0);
        CharAt(b, 0);
        EncodeInjective(a[1..], b[1..]);
        assert a == [a[0]] + a[1..] && b == [b[0]] + b[1..];
      }
    }
  }

  /** THE LAST CODE POINT IS THE EXACT BOUND. Inserting a character and counting one more leaves the encoding of as many
      code points as were counted, if and only if the character is not beyond the last code point. */
  lemma InsertExact(cps: seq<nat>, k: nat, cp: nat)
    requires Codepoints(cps) && k <= |cps|
    ensures Offset(cps, k) <= |Encode(cps)|
    ensures (exists c: seq<nat> :: Codepoints(c) && |c| == |cps| + 1 &&
                                   Encode(c) == Encode(cps)[..Offset(cps, k)] + EncodeChar(cp) + Encode(cps)[Offset(cps, k)..])
            <==> cp <= MAX
  {
    hide Encode, EncodeChar, Offset;
    SplitAt(cps, k);
    var s, o := Encode(cps), Offset(cps, k);
    if cp <= MAX {
      OneInserted(cps, k, cp);
    } else {
      NothingEncoded(cp);
      assert s[..o] + [] + s[o..] == s;
      forall c: seq<nat> | Codepoints(c) && Encode(c) == s ensures c == cps {
        EncodeInjective(c, cps);
      }
    }
  }

  lemma NothingEncoded(cp: nat)
    requires cp > MAX
    ensures EncodeChar(cp) == []
  {
  }

  lemma OneInserted(cps: seq<nat>, k: nat, cp: nat)
    requires Codepoints(cps) && k <= |cps| && cp <= MAX
    ensures Offset(cps, k) <= |Encode(cps)|
    ensures exists c: seq<nat> :: Codepoints(c) && |c| == |cps| + 1 &&
                                  Encode(c) == Encode(cps)[..Offset(cps, k)] + EncodeChar(cp) + Encode(cps)[Offset(cps, k)..]
  {
    hide Encode, EncodeChar;
    var c := cps[..k] + [cp] + cps[k..];
    SplitAt(cps, k);
    EncodeConcat(cps[..k] + [cp], cps[k..]);
    EncodeConcat(cps[..k], [cp]);
    EncodeOne(cp);
    assert Codepoints(c) && |c| == |cps| + 1;
  }
}
