/** Escape sequences, processed in place (`string_process_escapes` in `common/common.cpp`). */
module Escapes {
  import opened Chars
  import opened Wrappers

  /** `strtol` on two characters, when it reads both of them; besides two digits it takes a blank or a sign and one. The
      result is cut to a byte. */
  function TwoChars(a: char, b: char): Option<char> {
    if !IsHex(b) then None
    else
      var l := HexValue(b);
      if IsHex(a) then Some((16 * HexValue(a) + l) as char)
      else if IsSpace(a) || a == '+' then Some(l as char)
      else if a == '-' then Some((if l == 0 then 0 else 256 - l) as char)
      else None
  }

  /** The characters that stand for one behind a backslash. */
  function Named(c: char): Option<char> {
    if c == 'n' then Some('\n')
    else if c == 'r' then Some('\r')
    else if c == 't' then Some('\t')
    else if c == '\'' || c == '\"' || c == '\\' then Some(c)
    else None
  }

  /** What the text that begins at `i` gives first, and where the next unit begins. */
  function Unit(s: string, i: nat): (r: (string, nat))
    requires i < |s|
    ensures i < r.1 <= |s| && |r.0| <= r.1 - i
  {
    if s[i] != '\\' || i + 1 == |s| then ([s[i]], i + 1)
    else if Named(s[i + 1]).Some? then ([Named(s[i + 1]).value], i + 2)
    else if s[i + 1] == 'x' && i + 3 < |s| && TwoChars(s[i + 2], s[i + 3]).Some? then
      ([TwoChars(s[i + 2], s[i + 3]).value], i + 4)
    else (['\\', s[i + 1]], i + 2)
  }

  /** The functional decoder. */
  function Unescape(s: string, i: nat): (r: string)
    requires i <= |s|
    ensures |r| <= |s| - i
    decreases |s| - i
  {
    if i == |s| then "" else Unit(s, i).0 + Unescape(s, Unit(s, i).1)
  }

  /** One character is written over the buffer. */
  method Put(input: array<char>, outputIdx: nat, c: char) returns (next: nat)
    requires outputIdx < input.Length
    modifies input
    ensures next == outputIdx + 1 && input[..next] == old(input[..outputIdx]) + [c]
    ensures forall k :: next <= k < input.Length ==> input[k] == old(input[k])
  {
    input[outputIdx] := c;
    next := outputIdx + 1;
  }

  /** The buffer is overwritten while it is read. What has not been read is never overwritten, so that the result is
      that of the functional decoder; it is never longer than the input. */
  method ProcessEscapes(input: array<char>) returns (len: nat)
    modifies input
    ensures len <= input.Length && input[..len] == Unescape(old(input[..]), 0)
  {
    hide Unescape, TwoChars, Named;
    ghost var s := input[..];
    var inputIdx, outputIdx := 0, 0;
    while inputIdx < input.Length
      invariant outputIdx <= inputIdx <= input.Length == |s|
      invariant forall k :: inputIdx <= k < |s| ==> input[k] == s[k]
      invariant input[..outputIdx] + Unescape(s, inputIdx) == Unescape(s, 0)
    {
      ghost var done, start := input[..outputIdx], inputIdx;
      UnescapeTurn(s, start);
      if input[inputIdx] == '\\' && inputIdx + 1 < input.Length {
        inputIdx := inputIdx + 1;
        var c := input[inputIdx];
        if Named(c).Some? {
          outputIdx := Put(input, outputIdx, Named(c).value);
        } else if c == 'x' && inputIdx + 2 < input.Length && TwoChars(input[inputIdx + 1], input[inputIdx + 2]).Some? {
          var value := TwoChars(input[inputIdx + 1], input[inputIdx + 2]).value;
          inputIdx := inputIdx + 2;
          outputIdx := Put(input, outputIdx, value);
        } else {
          outputIdx := Put(input, outputIdx, '\\');
          outputIdx := Put(input, outputIdx, input[inputIdx]);
        }
      } else {
        outputIdx := Put(input, outputIdx, input[inputIdx]);
      }
      inputIdx := inputIdx + 1;
      assert input[..outputIdx] == done + Unit(s, start).0;
      Assoc(done, Unit(s, start).0, Unescape(s, inputIdx));
    }
    UnescapeTurn(s, inputIdx);
    len := outputIdx;
    assert input[..outputIdx] + "" == input[..outputIdx];
  }

  lemma UnescapeTurn(s: string, i: nat)
    requires i <= |s|
    ensures i == |s| ==> Unescape(s, i) == ""
    ensures i < |s| ==> Unescape(s, i) == Unit(s, i).0 + Unescape(s, Unit(s, i).1)
  {
  }

  lemma Assoc(a: string, b: string, c: string)
    ensures a + b + c == a + (b + c)
  {
  }

  // ------------------------------------------------------------------------------- escaping

  /** The ways to write one character: as it is, by name, or by its two hexadecimal digits. */
  datatype Written = Plain(c: char) | ByName(name: char) | ByCode(high: char, low: char)

  function Text(w: Written): string {
    match w
    case Plain(c) => [c]
    case ByName(name) => ['\\', name]
    case ByCode(high, low) => ['\\', 'x', high, low]
  }

  /** A backslash is not written as it is. */
  predicate Proper(w: Written) {
    match w
    case Plain(c) => c != '\\'
    case ByName(name) => Named(name).Some?
    case ByCode(high, low) => IsHex(high) && IsHex(low)
  }

  function Meaning(w: Written): char
    requires Proper(w)
  {
    match w
    case Plain(c) => c
    case ByName(name) => Named(name).value
    case ByCode(high, low) => (16 * HexValue(high) + HexValue(low)) as char
  }

  function Texts(ws: seq<Written>): string {
    if ws == [] then "" else Text(ws[0]) + Texts(ws[1..])
  }

  function Meanings(ws: seq<Written>): string
    requires forall i :: 0 <= i < |ws| ==> Proper(ws[i])
  {
    if ws == [] then "" else [Meaning(ws[0])] + Meanings(ws[1..])
  }

  lemma UnitOfText(s: string, i: nat, w: Written, rest: string)
    requires Proper(w) && i <= |s| && s[i..] == Text(w) + rest
    ensures i + |Text(w)| <= |s| && s[i + |Text(w)|..] == rest
    ensures Unit(s, i) == ([Meaning(w)], i + |Text(w)|)
  {
    var t := Text(w);
    assert forall k :: 0 <= k < |t| ==> s[i + k] == s[i..][k] == t[k];
    assert s[i + |t|..] == s[i..][|t|..];
    assert s[i] == t[0];
    if |t| > 1 { assert s[i + 1] == t[1]; }
    if |t| > 2 { assert s[i + 2] == t[2] && s[i + 3] == t[3]; }
  }

  /** PROCESSING UNDOES ESCAPING, whatever way every character is written. */
  lemma {:induction false} UnescapeUndoesEscape(s: string, i: nat, ws: seq<Written>)
    requires forall k :: 0 <= k < |ws| ==> Proper(ws[k])
    requires i <= |s| && s[i..] == Texts(ws)
    ensures Unescape(s, i) == Meanings(ws)
    decreases |ws|
  {
    hide Unit, Text, Proper, Meaning;
    if ws == [] {
      assert |s[i..]| == 0;
    } else {
      UnitOfText(s, i, ws[0], Texts(ws[1..]));
      UnescapeUndoesEscape(s, i + |Text(ws[0])|, ws[1..]);
    }
  }

  /** Quotes, backslashes, line ends and tabs by name, all other characters as they are. */
  function NameFor(c: char): Written {
    if c == '\n' then ByName('n')
    else if c == '\r' then ByName('r')
    else if c == '\t' then ByName('t')
    else if c in {'\'', '\"', '\\'} then ByName(c)
    else Plain(c)
  }

  function Escaped(s: string): (ws: seq<Written>)
    ensures |ws| == |s| && forall i :: 0 <= i < |ws| ==> Proper(ws[i])
  {
    seq(|s|, i requires 0 <= i < |s| => NameFor(s[i]))
  }

  lemma {:induction false} EscapedMeans(s: string)
    ensures Meanings(Escaped(s)) == s
  {
    if s != "" {
      assert Escaped(s)[1..] == Escaped(s[1..]);
      EscapedMeans(s[1..]);
      assert s == [s[0]] + s[1..];
    }
  }

  /** An escaped copy of any string gives that string back. */
  lemma EscapeRoundTrip(s: string)
    ensures Unescape(Texts(Escaped(s)), 0) == s
  {
    assert Texts(Escaped(s))[0..] == Texts(Escaped(s));
    UnescapeUndoesEscape(Texts(Escaped(s)), 0, Escaped(s));
    EscapedMeans(s);
  }
}
