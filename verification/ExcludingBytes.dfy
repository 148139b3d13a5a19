/** From code points to text: the grammar is matched against decoded code points, while the forbidden words are bytes
    of the encoded text. What holds of code points holds of the text when the words are ASCII. */
module ExcludingBytes {

  import opened Chars
  import opened ExcludingGrammar
  import opened ExcludingLanguage
  import Utf = CodepointCodec

  predicate Ascii(w: Word) {
    forall i :: 0 <= i < |w| ==> w[i] < 0x80
  }

  ghost predicate AsciiWords(ws: seq<Word>) {
    forall i :: 0 <= i < |ws| ==> Ascii(ws[i])
  }

  /** The bytes of a text of code points. */
  function Bytes(s: Word): (r: Word)
    ensures s == [] ==> r == []
    ensures s != [] ==> r == Utf.EncodeChar(s[0]) + Bytes(s[1..])
  {
    Utf.Encode(s)
  }

  /** An encoded code point: one byte for ASCII, and otherwise bytes that are not ASCII. */
  lemma EncodedShape(c: symbol)
    ensures var e := Utf.EncodeChar(c);
            e != [] && if c < 0x80 then e == [c] else |e| >= 2 && forall i :: 0 <= i < |e| ==> e[i] >= 0x80
  {
  }

  lemma {:induction false} AsciiPrefix(w: Word, s: Word)
    requires Ascii(w)
    ensures w <= Bytes(s) <==> w <= s
    decreases |s|
  {
    hide Bytes, Utf.EncodeChar;
    if w != [] && s != [] {
      var c, rest := s[0], s[1..];
      assert s == [c] + rest;
      EncodedShape(c);
      AsciiPrefix(w[1..], rest);
      ConsPrefix(w, c, rest);
      if c < 0x80 {
        ConsPrefix(w, c, Bytes(rest));
      } else {
        HeadDiffers(w, Utf.EncodeChar(c), Bytes(rest));
      }
    } else if w == [] {
      assert w <= s && w <= Bytes(s);
    }
  }

  lemma HeadDiffers(w: Word, e: Word, rest: Word)
    requires w != [] && e != [] && w[0] != e[0]
    ensures !(w <= e + rest)
  {
  }

  lemma ConsPrefix(w: Word, c: symbol, s: Word)
    requires w != []
    ensures w <= [c] + s <==> w[0] == c && w[1..] <= s
  {
    if w[0] == c && w[1..] <= s { assert w == [c] + w[1..]; }
    if w <= [c] + s { assert w[1..] == ([c] + s)[1..|w|] == s[..|w| - 1]; }
  }

  lemma {:induction false} AsciiOccurs(w: Word, s: Word)
    requires Ascii(w) && w != []
    ensures Occurs(w, Bytes(s)) <==> Occurs(w, s)
    decreases |s|
  {
    hide Bytes, Occurs, Utf.EncodeChar;
    if s == [] {
    } else {
      AsciiOccurs(w, s[1..]);
      AsciiPrefix(w, s);
      EncodedShape(s[0]);
      assert s == [s[0]] + s[1..];
      NotInTail(w, [s[0]], s[1..]);
      NotInTail(w, Utf.EncodeChar(s[0]), Bytes(s[1..]));
    }
  }

  /** A word that does not begin with a later character of `e` occurs at the beginning or behind `e`. */
  lemma NotInTail(w: Word, e: Word, rest: Word)
    requires w != [] && e != [] && forall i :: 1 <= i < |e| ==> e[i] != w[0]
    ensures Occurs(w, e + rest) <==> w <= e + rest || Occurs(w, rest)
  {
    hide OccursAt;
    var s := e + rest;
    assert s[|e|..] == rest && forall i :: 1 <= i < |e| ==> s[i] == e[i];
    if i :| OccursAt(s, w, i) {
      OccursBegins(w, s, i);
      if i >= |e| { OccursShift(w, s, |e|, i - |e|); }
    }
    if i :| OccursAt(rest, w, i) {
      OccursBegins(w, rest, i);
      OccursShift(w, s, |e|, i);
    }
    if w <= s { PrefixOccurs(w, s); }
  }

  lemma OccursBegins(w: Word, s: Word, i: int)
    requires w != [] && OccursAt(s, w, i)
    ensures 0 <= i < |s| && s[i] == w[0] && (i == 0 ==> w <= s)
  {
    assert s[i] == s[i..i + |w|][0];
  }

  lemma AsciiFree(ws: seq<Word>, s: Word)
    requires AsciiWords(ws)
    ensures Free(ws, Bytes(s)) <==> Free(ws, s)
  {
    hide Bytes, Occurs;
    forall j | 0 <= j < |ws| && ws[j] != [] ensures Occurs(ws[j], Bytes(s)) <==> Occurs(ws[j], s) {
      AsciiOccurs(ws[j], s);
    }
  }

  /** No ASCII word stands at a chunk boundary of the text. */
  lemma TextBoundaryIsSafe(ws: seq<Word>, s: Word, i: nat)
    requires Antichain(ws) && i < |ws| && ws[i] != [] && Ascii(ws[i])
    requires Accepted(ws, s)
    ensures !(ws[i] <= Bytes(s))
  {
    hide Bytes, Antichain;
    BoundaryIsSafe(ws, s, i);
    AsciiPrefix(ws[i], s);
  }

  /** For ASCII words the comment holds of the text if and only if no word lies inside or straddles a chunk. */
  lemma TextExcludesIff(ws: seq<Word>)
    requires |ws| < ALPHABET && AsciiWords(ws)
    ensures (forall s :: Accepted(ws, s) ==> Free(ws, Bytes(s))) <==> !Inside(ws) && !Straddles(ws)
  {
    hide Accepted, Free, Bytes, Inside, Straddles, AsciiWords;
    ExcludesIff(ws);
    forall s ensures Free(ws, Bytes(s)) <==> Free(ws, s) { AsciiFree(ws, s); }
  }

  /** A word that is not ASCII is let through at the beginning of a text: for one word, in its bytes, the boundary is safe
      if and only if the word is ASCII. */
  lemma OneWordIffAscii(cps: Word)
    requires cps != []
    ensures (forall s :: Accepted([Bytes(cps)], s) ==> !(Bytes(cps) <= Bytes(s))) <==> Ascii(cps)
  {
    hide Accepted, Ascii, Utf.Encode;
    var w := Bytes(cps);
    BytesLonger(cps);
    if Ascii(cps) {
      forall s | Accepted([w], s) ensures !(w <= Bytes(s)) {
        OneIsAntichain(w);
        TextBoundaryIsSafe([w], s, 0);
      }
    } else {
      ShorterIsFree(w, cps);
      OneHasLetters(w);
      var t := FreeExtends([w], cps);
      Utf.EncodeConcat(cps, t);
      assert Bytes(cps + t) == w + Bytes(t);
      assert Accepted([w], cps + t) && w <= Bytes(cps + t);
    }
  }

  lemma OneIsAntichain(w: Word)
    requires Ascii(w)
    ensures Antichain([w]) && AsciiWords([w])
  {
  }

  lemma OneHasLetters(w: Word)
    requires w != []
    ensures HasLetters([w])
  {
    assert [w][0] != [];
  }

  /** Bytes are as many as code points for ASCII, and more otherwise. */
  lemma {:induction false} BytesLonger(s: Word)
    ensures if Ascii(s) then Bytes(s) == s else |Bytes(s)| > |s|
    ensures s != [] ==> Bytes(s) != []
    decreases |s|
  {
    hide Bytes, Ascii, Utf.EncodeChar;
    if s == [] {
      NothingToEncode();
    } else {
      var c, rest := s[0], s[1..];
      BytesLonger(rest);
      EncodedShape(c);
      AsciiCons(s);
      Assemble(c, rest, Utf.EncodeChar(c), Bytes(rest));
      assert s == [c] + rest;
    }
  }

  lemma NothingToEncode()
    ensures Ascii([]) && Bytes([]) == []
  {
  }

  lemma Assemble(c: symbol, rest: Word, e: Word, more: Word)
    requires e != []
    ensures e == [c] && more == rest ==> e + more == [c] + rest
    ensures |e| >= 2 && |more| >= |rest| ==> |e + more| > 1 + |rest|
    ensures |more| > |rest| ==> |e + more| > 1 + |rest|
  {
  }

  lemma AsciiCons(s: Word)
    requires s != []
    ensures Ascii(s) <==> s[0] < 0x80 && Ascii(s[1..])
  {
    if s[0] < 0x80 && Ascii(s[1..]) {
      forall i | 0 <= i < |s| ensures s[i] < 0x80 {
        if i > 0 { assert s[i] == s[1..][i - 1]; }
      }
    }
  }
}
