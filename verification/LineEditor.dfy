/** The line editor of `common/console.cpp`: bytes, a list of widths and two cursors stand for a sequence of code points
    with one cursor. */
module LineEditor {
  import opened Chars
  import opened Wrappers
  import opened CodepointCodec

  // -------------------------------------------------------------------------- the plain editor

  /** The keys of the read loop, after an escape sequence has been recognised. */
  datatype Key = Insert(cp: nat) | Backspace | Delete | Left | Right | WordLeft | WordRight | Home | End | Up | Down

  /** A line as code points with a cursor, the lines entered before, the one that is being viewed, and the line that
      was being written when viewing began. */
  datatype Doc = Doc(cps: seq<nat>, cur: nat, entries: seq<seq<nat>>, viewing: Option<nat>, backup: seq<nat>) {
    ghost predicate Ok() {
      && Codepoints(cps) && Codepoints(backup) && cur <= |cps|
      && (forall i :: 0 <= i < |entries| ==> Codepoints(entries[i]))
      && (viewing.Some? ==> viewing.value <= |entries|)
    }

    function Show(line: seq<nat>): Doc {
      this.(cps := line, cur := |line|)
    }
  }

  function SkipBack(cps: seq<nat>, k: nat, space: nat -> bool, want: bool): (r: nat)
    requires k <= |cps|
    ensures r <= k
  {
    if k > 0 && space(cps[k - 1]) == want then SkipBack(cps, k - 1, space, want) else k
  }

  function SkipOn(cps: seq<nat>, k: nat, space: nat -> bool, want: bool): (r: nat)
    requires k <= |cps|
    ensures k <= r <= |cps|
    decreases |cps| - k
  {
    if k < |cps| && space(cps[k]) == want then SkipOn(cps, k + 1, space, want) else k
  }

  function WordStart(cps: seq<nat>, k: nat, space: nat -> bool): (r: nat)
    requires k <= |cps|
    ensures r <= k
  {
    SkipBack(cps, SkipBack(cps, k, space, true), space, false)
  }

  function NextWord(cps: seq<nat>, k: nat, space: nat -> bool): (r: nat)
    requires k <= |cps|
    ensures k <= r <= |cps|
  {
    SkipOn(cps, SkipOn(cps, SkipOn(cps, k, space, true), space, false), space, true)
  }

  function PressUp(d: Doc): Doc {
    var v := if d.viewing.None? then d.(viewing := Some(|d.entries|), backup := d.cps) else d;
    if |d.entries| == 0 then v
    else
      var i := if v.viewing.value > 0 then v.viewing.value - 1 else 0;
      if i < |d.entries| then v.(viewing := Some(i)).Show(d.entries[i]) else v
  }

  function PressDown(d: Doc): Doc {
    if d.viewing.None? || |d.entries| == 0 then d
    else
      var i := d.viewing.value + 1;
      if i >= |d.entries| then d.(viewing := None, backup := []).Show(d.backup)
      else d.(viewing := Some(i)).Show(d.entries[i])
  }

  function Press(d: Doc, key: Key, space: nat -> bool): Doc
    requires d.cur <= |d.cps|
  {
    match key
    case Insert(cp) => d.(cps := d.cps[..d.cur] + [cp] + d.cps[d.cur..], cur := d.cur + 1)
    case Backspace => if d.cur == 0 then d else d.(cps := d.cps[..d.cur - 1] + d.cps[d.cur..], cur := d.cur - 1)
    case Delete => if d.cur == |d.cps| then d else d.(cps := d.cps[..d.cur] + d.cps[d.cur + 1..])
    case Left => if d.cur == 0 then d else d.(cur := d.cur - 1)
    case Right => if d.cur == |d.cps| then d else d.(cur := d.cur + 1)
    case WordLeft => d.(cur := WordStart(d.cps, d.cur, space))
    case WordRight => d.(cur := NextWord(d.cps, d.cur, space))
    case Home => d.(cur := 0)
    case End => d.(cur := |d.cps|)
    case Up => PressUp(d)
    case Down => PressDown(d)
  }

  predicate Typable(key: Key) {
    key.Insert? ==> key.cp <= MAX
  }

  lemma PressOk(d: Doc, key: Key, space: nat -> bool)
    requires d.Ok() && Typable(key)
    ensures Press(d, key, space).Ok()
  {
  }

  function PressAll(d: Doc, keys: seq<Key>, space: nat -> bool): Doc
    requires d.Ok() && forall i :: 0 <= i < |keys| ==> Typable(keys[i])
    decreases |keys|
  {
    if keys == [] then d
    else
      PressOk(d, keys[0], space);
      PressAll(Press(d, keys[0], space), keys[1..], space)
  }

  lemma PressNext(d: Doc, keys: seq<Key>, i: nat, space: nat -> bool)
    requires d.Ok() && i < |keys| && forall j :: 0 <= j < |keys| ==> Typable(keys[j])
    ensures Press(d, keys[i], space).Ok()
    ensures PressAll(d, keys[i..], space) == PressAll(Press(d, keys[i], space), keys[i + 1..], space)
  {
    hide Press;
    PressOk(d, keys[i], space);
    assert keys[i..][1..] == keys[i + 1..];
  }

  lemma PressNone(d: Doc, keys: seq<Key>, space: nat -> bool)
    requires d.Ok()
    ensures keys[|keys|..] == [] && PressAll(d, [], space) == d && keys[0..] == keys
  {
  }

  // ------------------------------------------------------------------- what the plain editor does

  lemma InsertUndone(d: Doc, cp: nat, space: nat -> bool)
    requires d.Ok()
    ensures Press(Press(d, Insert(cp), space), Backspace, space) == d
    ensures Press(Press(Press(d, Insert(cp), space), Left, space), Delete, space) == d
  {
    hide WordStart, NextWord, PressUp, PressDown;
    PutAndTaken(d.cps, d.cur, cp);
  }

  lemma PutAndTaken(cps: seq<nat>, k: nat, cp: nat)
    requires k <= |cps|
    ensures var more := cps[..k] + [cp] + cps[k..];
            more[..k] + more[k + 1..] == cps
  {
    var more := cps[..k] + [cp] + cps[k..];
    assert more[..k] == cps[..k] && more[k + 1..] == cps[k..];
  }

  lemma BackspaceUndone(d: Doc, space: nat -> bool)
    requires d.Ok() && d.cur > 0
    ensures Press(Press(d, Backspace, space), Insert(d.cps[d.cur - 1]), space) == d
  {
    hide WordStart, NextWord, PressUp, PressDown;
    var b := Press(d, Backspace, space);
    assert b.cps[..b.cur] == d.cps[..d.cur - 1] && b.cps[b.cur..] == d.cps[d.cur..];
    assert d.cps[..d.cur - 1] + [d.cps[d.cur - 1]] + d.cps[d.cur..] == d.cps;
  }

  /** What one key does another one undoes. */
  lemma Undone(d: Doc, cp: nat, space: nat -> bool)
    requires d.Ok()
    ensures Press(Press(d, Insert(cp), space), Backspace, space) == d
    ensures Press(Press(Press(d, Insert(cp), space), Left, space), Delete, space) == d
    ensures d.cur > 0 ==> Press(Press(d, Left, space), Right, space) == d
    ensures d.cur > 0 ==> Press(Press(d, Backspace, space), Insert(d.cps[d.cur - 1]), space) == d
    ensures d.cur > 0 ==> Press(Press(d, Left, space), Delete, space) == Press(d, Backspace, space)
  {
    InsertUndone(d, cp, space);
    if d.cur > 0 { BackspaceUndone(d, space); }
  }

  /** Looking at the history and coming back brings back the line that was being written. */
  lemma HistoryComesBack(d: Doc, space: nat -> bool)
    requires d.Ok() && d.viewing.None? && d.entries != []
    ensures var up := Press(d, Up, space);
            && up.cps == d.entries[|d.entries| - 1] && up.viewing == Some(|d.entries| - 1)
            && Press(up, Down, space) == d.(cur := |d.cps|, backup := [])
  {
  }

  lemma {:induction false} SkipBackStops(cps: seq<nat>, k: nat, space: nat -> bool, want: bool)
    requires k <= |cps|
    ensures var r := SkipBack(cps, k, space, want);
            && (forall i :: r <= i < k ==> space(cps[i]) == want)
            && (r > 0 ==> space(cps[r - 1]) != want)
  {
    if k > 0 && space(cps[k - 1]) == want { SkipBackStops(cps, k - 1, space, want); }
  }

  lemma {:induction false} SkipOnStops(cps: seq<nat>, k: nat, space: nat -> bool, want: bool)
    requires k <= |cps|
    ensures var r := SkipOn(cps, k, space, want);
            && (forall i :: k <= i < r ==> space(cps[i]) == want)
            && (r < |cps| ==> space(cps[r]) != want)
    decreases |cps| - k
  {
    if k < |cps| && space(cps[k]) == want { SkipOnStops(cps, k + 1, space, want); }
  }

  /** Word-left goes to the start of the word that begins before the cursor; word-right to the start of the next word. */
  lemma WordsStop(cps: seq<nat>, k: nat, space: nat -> bool) returns (m: nat, n: nat, p: nat)
    requires k <= |cps|
    ensures var r := WordStart(cps, k, space);
            && r <= m <= k && (m == 0 || r < m)
            && (forall i :: r <= i < m ==> !space(cps[i])) && (forall i :: m <= i < k ==> space(cps[i]))
            && (r > 0 ==> space(cps[r - 1]))
    ensures var r := NextWord(cps, k, space);
            && k <= n <= p <= r <= |cps| && (n == |cps| || n < p)
            && (forall i :: k <= i < n ==> space(cps[i])) && (forall i :: n <= i < p ==> !space(cps[i]))
            && (forall i :: p <= i < r ==> space(cps[i])) && (r < |cps| ==> !space(cps[r]))
  {
    m := SkipBack(cps, k, space, true);
    SkipBackStops(cps, k, space, true);
    SkipBackStops(cps, m, space, false);
    n := SkipOn(cps, k, space, true);
    p := SkipOn(cps, n, space, false);
    SkipOnStops(cps, k, space, true);
    SkipOnStops(cps, n, space, false);
    SkipOnStops(cps, p, space, true);
  }

  // ------------------------------------------------------------------------------ end of a line

  const BACKSLASH: nat := 92
  const SLASH: nat := 47
  const NEWLINE: nat := 10
  const SPACE: nat := 32

  predicate EndsSpecial(cps: seq<nat>) {
    cps != [] && cps[|cps| - 1] in {BACKSLASH, SLASH}
  }

  function AddToHistory(d: Doc, line: seq<nat>): Doc {
    if line == [] then d
    else
      var entries := if d.entries == [] || d.entries[|d.entries| - 1] != line then d.entries + [line] else d.entries;
      d.(entries := entries, viewing := None, backup := [])
  }

  /** The line without its final mark, and whether another line follows. */
  function EndMark(cps: seq<nat>, endOfStream: bool, multiline: bool): (seq<nat>, bool) {
    if EndsSpecial(cps) then
      var body := cps[..|cps| - 1];
      if cps[|cps| - 1] == BACKSLASH then (body + [NEWLINE], !multiline)
      else (if body == [SPACE] then [] else body, false)
    else if endOfStream then (cps, false)
    else (cps + [NEWLINE], multiline)
  }

  function WithoutNewline(cps: seq<nat>): seq<nat> {
    if cps != [] && cps[|cps| - 1] == NEWLINE then cps[..|cps| - 1] else cps
  }

  /** A newline that ends the line is taken off again before the line is remembered. */
  function Finish(d: Doc, endOfStream: bool, multiline: bool): (Doc, bool) {
    var (line, more) := EndMark(d.cps, endOfStream, multiline);
    var shown := if endOfStream then line else WithoutNewline(line);
    var d' := d.(cps := shown, cur := 0);
    (if endOfStream then d' else AddToHistory(d', shown), more)
  }

  // -------------------------------------------------------------------- the newline of a line

  /** Neither the line nor the history holds a newline. */
  predicate NoNewline(d: Doc) {
    NEWLINE !in d.cps && NEWLINE !in d.backup && forall i :: 0 <= i < |d.entries| ==> NEWLINE !in d.entries[i]
  }

  /** The read loop ends at a newline and never inserts one. */
  predicate TypesNewline(key: Key) {
    key == Insert(NEWLINE)
  }

  lemma PressKeepsNoNewline(d: Doc, key: Key, space: nat -> bool)
    requires d.cur <= |d.cps| && NoNewline(d) && !TypesNewline(key)
    ensures NoNewline(Press(d, key, space))
  {
  }

  lemma {:induction false} KeysKeepNoNewline(d: Doc, keys: seq<Key>, space: nat -> bool)
    requires d.Ok() && NoNewline(d)
    requires forall i :: 0 <= i < |keys| ==> Typable(keys[i]) && !TypesNewline(keys[i])
    ensures NoNewline(PressAll(d, keys, space))
    decreases |keys|
  {
    hide NoNewline, Press;
    if keys != [] {
      PressOk(d, keys[0], space);
      PressKeepsNoNewline(d, keys[0], space);
      KeysKeepNoNewline(Press(d, keys[0], space), keys[1..], space);
    }
  }

  lemma PartHasNoNewline(cps: seq<nat>, k: nat)
    requires NEWLINE !in cps && k <= |cps|
    ensures NEWLINE !in cps[..k]
  {
  }

  lemma TakenOff(cps: seq<nat>)
    requires NEWLINE !in cps
    ensures WithoutNewline(cps + [NEWLINE]) == cps && WithoutNewline(cps) == cps
    ensures NEWLINE in cps + [NEWLINE]
  {
    assert (cps + [NEWLINE])[|cps|] == NEWLINE;
  }

  lemma RememberNoNewline(d: Doc, line: seq<nat>)
    requires NoNewline(d) && NEWLINE !in line
    ensures var d' := d.(cps := line, cur := 0);
            NoNewline(d') && NoNewline(AddToHistory(d', line)) && AddToHistory(d', line).cps == line
  {
  }

  /** THE NEWLINE OF A LINE, EXACTLY. A line without newlines is handed back without one, unless the input ended behind
      a backslash; and none gets into the history. */
  lemma NewlineHandedBack(d: Doc, endOfStream: bool, multiline: bool)
    requires NoNewline(d)
    ensures var (r, more) := Finish(d, endOfStream, multiline);
            && (NEWLINE in r.cps <==> endOfStream && d.cps != [] && d.cps[|d.cps| - 1] == BACKSLASH)
            && (!(NEWLINE in r.cps) ==> NoNewline(r))
  {
    hide NoNewline, AddToHistory, WithoutNewline;
    assert NEWLINE !in d.cps by { LineHasNone(d); }
    var body := if EndsSpecial(d.cps) then d.cps[..|d.cps| - 1] else d.cps;
    if EndsSpecial(d.cps) { PartHasNoNewline(d.cps, |d.cps| - 1); }
    TakenOff(body);
    RememberNoNewline(d, body);
    TakenOff([]);
    RememberNoNewline(d, []);
  }

  lemma LineHasNone(d: Doc)
    requires NoNewline(d)
    ensures NEWLINE !in d.cps
  {
  }

  // --------------------------------------------------------------------------- the byte editor

  function Sum(s: seq<nat>): nat {
    if s == [] then 0 else Sum(s[..|s| - 1]) + s[|s| - 1]
  }

  lemma {:induction false} SumConcat(a: seq<nat>, b: seq<nat>)
    ensures Sum(a + b) == Sum(a) + Sum(b)
    decreases |b|
  {
    if b == [] {
      assert a + b == a;
    } else {
      assert (a + b)[..|a + b| - 1] == a + b[..|b| - 1];
      SumConcat(a, b[..|b| - 1]);
    }
  }

  lemma SumSnoc(s: seq<nat>, i: nat, j: nat)
    requires i <= j < |s|
    ensures Sum(s[i..j + 1]) == Sum(s[i..j]) + s[j]
  {
    assert s[i..j + 1][..j - i] == s[i..j];
  }

  lemma SumSplit(s: seq<nat>, i: nat, j: nat)
    requires i <= j <= |s|
    ensures Sum(s[..j]) == Sum(s[..i]) + Sum(s[i..j])
  {
    assert s[..j] == s[..i] + s[i..j];
    SumConcat(s[..i], s[i..j]);
  }

  lemma RemoveBytes(cps: seq<nat>, k: nat)
    requires k < |cps|
    ensures var rest := cps[..k] + cps[k + 1..];
            && Offset(cps, k) <= Offset(cps, k + 1) <= |Encode(cps)|
            && Encode(rest) == Encode(cps)[..Offset(cps, k)] + Encode(cps)[Offset(cps, k + 1)..]
            && Offset(rest, k) == Offset(cps, k)
  {
    hide Encode, EncodeChar;
    CharAt(cps, k);
    EncodeConcat(cps[..k], cps[k + 1..]);
    assert (cps[..k] + cps[k + 1..])[..k] == cps[..k];
  }

  lemma InsertBytes(cps: seq<nat>, k: nat, cp: nat)
    requires k <= |cps|
    ensures var more := cps[..k] + [cp] + cps[k..];
            && Offset(cps, k) <= |Encode(cps)|
            && Encode(more) == Encode(cps)[..Offset(cps, k)] + EncodeChar(cp) + Encode(cps)[Offset(cps, k)..]
            && Offset(more, k + 1) == Offset(cps, k) + |EncodeChar(cp)|
  {
    hide Encode, EncodeChar;
    SplitAt(cps, k);
    EncodeConcat(cps[..k] + [cp], cps[k..]);
    EncodeConcat(cps[..k], [cp]);
    EncodeOne(cp);
    var more := cps[..k] + [cp] + cps[k..];
    assert more[..k + 1] == cps[..k] + [cp];
  }

  /** `column` is the place of the terminal's cursor, counted from where the line begins. `measure` is the width of a
      character on the terminal (negative for one that cannot be shown). */
  class Editor {
    const space: nat -> bool
    const measure: nat -> int
    var line: seq<byte>
    var widths: seq<nat>
    var charPos: nat
    var bytePos: nat
    var column: int
    var entries: seq<seq<byte>>
    var viewing: Option<nat>
    var backup: seq<byte>
    ghost var doc: Doc

    function Width(cp: nat): nat {
      if measure(cp) < 0 then 0 else measure(cp)
    }

    function Widths(cps: seq<nat>): (r: seq<nat>)
      ensures |r| == |cps|
    {
      seq(|cps|, i requires 0 <= i < |cps| => Width(cps[i]))
    }

    ghost predicate TextOk()
      reads this
    {
      line == Encode(doc.cps) && widths == Widths(doc.cps) && doc.Ok()
    }

    ghost predicate HistoryOk()
      reads this
    {
      && |entries| == |doc.entries| && (forall i :: 0 <= i < |entries| ==> entries[i] == Encode(doc.entries[i]))
      && viewing == doc.viewing && backup == Encode(doc.backup)
    }

    ghost predicate CursorOk()
      reads this
    {
      && charPos == doc.cur <= |doc.cps| && bytePos == Offset(doc.cps, charPos)
      && charPos <= |widths| && column == Sum(widths[..charPos])
    }

    /** The bytes are the encoding of the code points, there is one width for each, both cursors stand at the same
        code point, and so does the cursor of the terminal. */
    ghost predicate Valid()
      reads this
    {
      TextOk() && HistoryOk() && CursorOk()
    }

    /** The assertions at the head of the read loop. */
    lemma CursorAssertions()
      requires Valid()
      ensures charPos <= bytePos && charPos <= |widths|
    {
      OffsetAtLeast(doc.cps, charPos);
    }

    constructor (space: nat -> bool, measure: nat -> int)
      ensures Valid() && doc == Doc([], 0, [], None, [])
    {
      this.space, this.measure := space, measure;
      line, widths, charPos, bytePos, column := [], [], 0, 0, 0;
      entries, viewing, backup := [], None, [];
      doc := Doc([], 0, [], None, []);
    }

    /** Prints the characters from index `from` on; they begin at byte `start`. */
    method RedrawTail(start: nat, from: nat) returns (tailWidth: nat)
      requires TextOk() && from <= |widths| && start == Offset(doc.cps, from)
      modifies this`column
      ensures tailWidth == Sum(widths[from..]) && column == old(column) + tailWidth
    {
      hide Encode, Sum, NextPos;
      var p := start;
      tailWidth := 0;
      assert widths[from..from] == [] && Sum([]) == 0 by { NoSum(); }
      for i := from to |widths|
        invariant p == Offset(doc.cps, i)
        invariant tailWidth == Sum(widths[from..i]) && column == old(column) + tailWidth
      {
        NextIsAfter(doc.cps, i);
        SumSnoc(widths, from, i);
        var following := NextUtf8CharPos(line, p);
        column := column + widths[i];
        tailWidth := tailWidth + widths[i];
        p := following;
      }
      assert widths[from..|widths|] == widths[from..];
    }

    lemma NoSum()
      ensures Sum([]) == 0
    {
    }

    lemma WidthsConcat(a: seq<nat>, b: seq<nat>)
      ensures Widths(a + b) == Widths(a) + Widths(b)
    {
      hide Width;
    }

    lemma RemoveWidth(cps: seq<nat>, k: nat)
      requires k < |cps|
      ensures var rest := cps[..k] + cps[k + 1..];
              && Widths(rest) == Widths(cps)[..k] + Widths(cps)[k + 1..]
              && Widths(rest)[..k] == Widths(cps)[..k]
    {
      hide Widths;
      WidthsConcat(cps[..k], cps[k + 1..]);
      WidthsPart(cps, k);
      WidthsPart(cps, k + 1);
    }

    lemma WidthsPart(cps: seq<nat>, k: nat)
      requires k <= |cps|
      ensures Widths(cps[..k]) == Widths(cps)[..k] && Widths(cps[k..]) == Widths(cps)[k..]
    {
      hide Width;
    }

    lemma InsertWidth(cps: seq<nat>, k: nat, cp: nat)
      requires k <= |cps|
      ensures var more := cps[..k] + [cp] + cps[k..];
              && Widths(more) == Widths(cps)[..k] + [Width(cp)] + Widths(cps)[k..]
              && Widths(more)[..k + 1] == Widths(cps)[..k] + [Width(cp)]
    {
      hide Widths;
      WidthsConcat(cps[..k] + [cp], cps[k..]);
      WidthsConcat(cps[..k], [cp]);
      WidthsPart(cps, k);
      assert Widths([cp]) == [Width(cp)] by { SingleWidth(cp); }
    }

    lemma SingleWidth(cp: nat)
      ensures Widths([cp]) == [Width(cp)]
    {
    }

    /** `line.erase` and the erasure of the width, for the character at the cursor. */
    method EraseAtCursor(charLen: nat)
      requires TextOk() && charPos < |doc.cps| && bytePos == Offset(doc.cps, charPos)
      requires bytePos + charLen == Offset(doc.cps, charPos + 1)
      modifies this`line, this`widths, this`doc
      ensures TextOk() && doc == old(doc).(cps := old(doc).cps[..charPos] + old(doc).cps[charPos + 1..], cur := charPos)
      ensures bytePos == Offset(doc.cps, charPos) && widths[..charPos] == old(widths)[..charPos]
    {
      hide Encode, Widths, Offset;
      RemoveBytes(doc.cps, charPos);
      RemoveWidth(doc.cps, charPos);
      line := line[..bytePos] + line[bytePos + charLen..];
      widths := widths[..charPos] + widths[charPos + 1..];
      doc := doc.(cps := doc.cps[..charPos] + doc.cps[charPos + 1..], cur := charPos);
    }

    /** `line.insert` and the insertion of the width, at the cursor. */
    method InsertAtCursor(newChar: seq<byte>, realW: nat, ghost cp: nat)
      requires TextOk() && doc.cur == charPos <= |doc.cps| && bytePos == Offset(doc.cps, charPos)
      requires cp <= MAX && newChar == EncodeChar(cp) && realW == Width(cp)
      modifies this`line, this`widths, this`doc
      ensures TextOk() && doc == Press(old(doc), Insert(cp), space)
      ensures bytePos + |newChar| == Offset(doc.cps, charPos + 1) && widths[..charPos + 1] == old(widths)[..charPos] + [realW]
    {
      hide Encode, Widths, Offset, EncodeChar, Width;
      InsertBytes(doc.cps, charPos, cp);
      InsertWidth(doc.cps, charPos, cp);
      line := line[..bytePos] + newChar + line[bytePos..];
      widths := widths[..charPos] + [realW] + widths[charPos..];
      doc := doc.(cps := doc.cps[..charPos] + [cp] + doc.cps[charPos..], cur := doc.cur + 1);
    }

    /** `delete_at_cursor`. */
    method DeleteAtCursor()
      requires Valid()
      modifies this
      ensures Valid() && doc == Press(old(doc), Delete, space)
    {
      hide Encode, Sum, NextPos, Widths, Offset;
      if charPos >= |widths| { return; }
      NextIsAfter(doc.cps, charPos);
      RemoveBytes(doc.cps, charPos);
      var nextPos := NextUtf8CharPos(line, bytePos);
      var w := widths[charPos];
      var charLen := nextPos - bytePos;
      EraseAtCursor(charLen);
      var tailWidth := RedrawTail(bytePos, charPos);
      column := column + w;
      column := column - (tailWidth + w);
    }

    /** The branch of the read loop for the backspace key. */
    method BackspaceKey()
      requires Valid()
      modifies this
      ensures Valid() && doc == Press(old(doc), Backspace, space)
    {
      hide Encode, Sum, PrevPos, Widths, Offset;
      if charPos == 0 { return; }
      PrevIsBefore(doc.cps, charPos);
      SumSnoc(widths, 0, charPos - 1);
      var w := widths[charPos - 1];
      column := column - w;
      charPos := charPos - 1;
      assert widths[..charPos] == widths[0..charPos];
      var prevPos := PrevUtf8CharPos(line, bytePos);
      var charLen := bytePos - prevPos;
      bytePos := prevPos;
      EraseAtCursor(charLen);
      var tailWidth := RedrawTail(bytePos, charPos);
      column := column + w;
      column := column - (tailWidth + w);
    }

    /** The branch of the read loop that inserts a character. */
    method InsertKey(cp: nat)
      requires Valid() && cp <= MAX
      modifies this
      ensures Valid() && doc == Press(old(doc), Insert(cp), space)
    {
      hide Encode, Sum, EncodeChar, Widths, Offset;
      var newChar := EncodeChar(cp);
      SumConcat(widths[..charPos], [Width(cp)]);
      OneWidth(Width(cp));
      if charPos == |widths| {
        AtTheEnd(cp);
        line := line + newChar;
        var realW := measure(cp);
        if realW < 0 { realW := 0; }
        column := column + realW;
        widths := widths + [realW];
        doc := doc.(cps := doc.cps + [cp], cur := doc.cur + 1);
        bytePos := bytePos + |newChar|;
        charPos := charPos + 1;
      } else {
        var realW := measure(cp);
        if realW < 0 { realW := 0; }
        column := column + realW;
        InsertAtCursor(newChar, realW, cp);
        var tailWidth := RedrawTail(bytePos + |newChar|, charPos + 1);
        column := column - tailWidth;
        bytePos := bytePos + |newChar|;
        charPos := charPos + 1;
      }
    }

    lemma OneWidth(w: nat)
      ensures Sum([w]) == w
    {
      assert [w][..0] == [];
    }

    /** At the end of the line inserting is appending. */
    lemma AtTheEnd(cp: nat)
      requires Valid() && charPos == |widths|
      ensures var more := doc.cps + [cp];
              && doc.cps[..charPos] + [cp] + doc.cps[charPos..] == more
              && Encode(more) == line + EncodeChar(cp) && Widths(more) == widths + [Width(cp)]
              && Offset(more, charPos + 1) == bytePos + |EncodeChar(cp)|
      ensures widths[..charPos] == widths && (widths + [Width(cp)])[..charPos + 1] == widths + [Width(cp)]
    {
      hide Encode, EncodeChar, Width, Widths;
      WholeOffset(doc.cps);
      EncodeConcat(doc.cps, [cp]);
      EncodeOne(cp);
      WidthsConcat(doc.cps, [cp]);
      SingleWidth(cp);
      WholeOffset(doc.cps + [cp]);
    }

    method MoveLeft()
      requires Valid()
      modifies this
      ensures Valid() && doc == Press(old(doc), Left, space)
    {
      hide Encode, Sum, PrevPos;
      if charPos > 0 {
        PrevIsBefore(doc.cps, charPos);
        SumSnoc(widths, 0, charPos - 1);
        column := column - widths[charPos - 1];
        charPos := charPos - 1;
        bytePos := PrevUtf8CharPos(line, bytePos);
        doc := doc.(cur := charPos);
        assert widths[..charPos] == widths[0..charPos];
      }
    }

    method MoveRight()
      requires Valid()
      modifies this
      ensures Valid() && doc == Press(old(doc), Right, space)
    {
      hide Encode, Sum, NextPos;
      if charPos < |widths| {
        NextIsAfter(doc.cps, charPos);
        SumSnoc(widths, 0, charPos);
        column := column + widths[charPos];
        charPos := charPos + 1;
        bytePos := NextUtf8CharPos(line, bytePos);
        doc := doc.(cur := charPos);
        assert widths[..charPos] == widths[0..charPos];
      }
    }

    method MoveToLineStart()
      requires Valid()
      modifies this`column, this`charPos, this`bytePos, this`doc
      ensures Valid() && doc == Press(old(doc), Home, space)
    {
      hide Encode, Sum;
      var backWidth := 0;
      assert widths[0..0] == [] && Sum([]) == 0 by { NoSum(); }
      for i := 0 to charPos
        modifies {}
        invariant backWidth == Sum(widths[0..i])
      {
        SumSnoc(widths, 0, i);
        backWidth := backWidth + widths[i];
      }
      assert widths[0..charPos] == widths[..charPos];
      column := column - backWidth;
      charPos := 0;
      bytePos := 0;
      doc := doc.(cur := 0);
      assert Offset(doc.cps, 0) == 0 by { assert doc.cps[..0] == []; EmptyText(); }
    }

    method MoveToLineEnd()
      requires Valid()
      modifies this
      ensures Valid() && doc == Press(old(doc), End, space)
    {
      hide Encode, Sum;
      var forwardWidth := 0;
      assert widths[charPos..charPos] == [] && Sum([]) == 0 by { NoSum(); }
      for i := charPos to |widths|
        modifies {}
        invariant forwardWidth == Sum(widths[charPos..i])
      {
        SumSnoc(widths, charPos, i);
        forwardWidth := forwardWidth + widths[i];
      }
      SumSplit(widths, charPos, |widths|);
      column := column + forwardWidth;
      charPos := |widths|;
      bytePos := |line|;
      doc := doc.(cur := |doc.cps|);
      WholeOffset(doc.cps);
    }

    /** One of the loops of `move_word_left`: back over characters that are spaces, or over ones that are not. */
    method ScanLeft(fromChar: nat, fromByte: nat, want: bool) returns (newChar: nat, newByte: nat, width: nat)
      requires TextOk() && fromChar <= |doc.cps| && fromByte == Offset(doc.cps, fromChar)
      ensures newChar == SkipBack(doc.cps, fromChar, space, want) && newByte == Offset(doc.cps, newChar)
      ensures width == Sum(widths[newChar..fromChar])
    {
      hide Encode, Sum, PrevPos, DecodeAt;
      newChar, newByte, width := fromChar, fromByte, 0;
      assert widths[fromChar..fromChar] == [] && Sum([]) == 0 by { NoSum(); }
      while newChar > 0
        invariant newChar <= fromChar && newByte == Offset(doc.cps, newChar)
        invariant SkipBack(doc.cps, newChar, space, want) == SkipBack(doc.cps, fromChar, space, want)
        invariant width == Sum(widths[newChar..fromChar])
      {
        PrevIsBefore(doc.cps, newChar);
        DecodeIsChar(doc.cps, newChar - 1);
        var prevByte := PrevUtf8CharPos(line, newByte);
        if space(DecodeAt(line, prevByte).cp) != want { break; }
        SumCons(widths, newChar - 1, fromChar);
        width := width + widths[newChar - 1];
        newChar := newChar - 1;
        newByte := prevByte;
      }
    }

    lemma SumCons(s: seq<nat>, i: nat, j: nat)
      requires i < j <= |s|
      ensures Sum(s[i..j]) == s[i] + Sum(s[i + 1..j])
    {
      hide Sum;
      assert s[i..j] == [s[i]] + s[i + 1..j];
      SumConcat([s[i]], s[i + 1..j]);
      OneWidth(s[i]);
    }

    method MoveWordLeft()
      requires Valid()
      modifies this
      ensures Valid() && doc == Press(old(doc), WordLeft, space)
    {
      hide Encode, Sum, SkipBack;
      if charPos == 0 { NoWordLeft(); return; }
      var c, b, w := ScanLeft(charPos, bytePos, true);
      var c', b', w' := ScanLeft(c, b, false);
      SumSplit(widths, c, charPos);
      SumSplit(widths, c', c);
      column := column - (w + w');
      charPos := c';
      bytePos := b';
      doc := doc.(cur := c');
    }

    lemma NoWordLeft()
      ensures forall cps: seq<nat> :: WordStart(cps, 0, space) == 0
    {
    }

    /** One of the loops of `move_word_right`. */
    method ScanRight(fromChar: nat, fromByte: nat, want: bool) returns (newChar: nat, newByte: nat, width: nat)
      requires TextOk() && fromChar <= |doc.cps| && fromByte == Offset(doc.cps, fromChar)
      ensures newChar == SkipOn(doc.cps, fromChar, space, want) && newByte == Offset(doc.cps, newChar)
      ensures width == Sum(widths[fromChar..newChar])
    {
      hide Encode, Sum, DecodeAt;
      newChar, newByte, width := fromChar, fromByte, 0;
      assert widths[fromChar..fromChar] == [] && Sum([]) == 0 by { NoSum(); }
      while newChar < |widths|
        invariant fromChar <= newChar <= |widths| && newByte == Offset(doc.cps, newChar)
        invariant SkipOn(doc.cps, newChar, space, want) == SkipOn(doc.cps, fromChar, space, want)
        invariant width == Sum(widths[fromChar..newChar])
      {
        DecodeIsChar(doc.cps, newChar);
        var d := DecodeAt(line, newByte);
        if space(d.cp) != want { break; }
        SumSnoc(widths, fromChar, newChar);
        width := width + widths[newChar];
        newChar := newChar + 1;
        newByte := newByte + d.advance;
      }
    }

    method MoveWordRight()
      requires Valid()
      modifies this
      ensures Valid() && doc == Press(old(doc), WordRight, space)
    {
      hide Encode, Sum, SkipOn;
      if charPos >= |widths| { return; }
      var c, b, w := ScanRight(charPos, bytePos, true);
      var c', b', w' := ScanRight(c, b, false);
      var c'', b'', w'' := ScanRight(c', b', true);
      SumSplit(widths, charPos, c);
      SumSplit(widths, c, c');
      SumSplit(widths, c', c'');
      column := column + (w + w' + w'');
      charPos := c'';
      bytePos := b'';
      doc := doc.(cur := c'');
    }

    // ------------------------------------------------------------------------------- history

    /** `set_line_contents`. */
    method SetLineContents(newLine: seq<byte>, ghost cps: seq<nat>)
      requires Valid() && newLine == Encode(cps) && Codepoints(cps)
      modifies this`line, this`widths, this`charPos, this`bytePos, this`column, this`doc
      ensures Valid() && doc == old(doc).Show(cps)
    {
      hide Encode, Sum, DecodeAt, Offset, Widths, Codepoints;
      MoveToLineStart();
      assert Offset(doc.cps, 0) == 0 && Sum(widths[..0]) == 0 by { NoText(doc.cps); }
      // clearing the line prints blanks and moves back over them
      line := newLine;
      widths := [];
      bytePos := 0;
      charPos := 0;
      doc := doc.(cps := cps);
      PrintLine();
      doc := doc.(cur := |cps|);
    }

    /** The loop that decodes the new line. */
    method PrintLine()
      requires line == Encode(doc.cps) && Codepoints(doc.cps)
      requires widths == [] && charPos == 0 && bytePos == 0 && column == 0
      modifies this`widths, this`charPos, this`bytePos, this`column
      ensures charPos == |doc.cps| && bytePos == Offset(doc.cps, charPos)
      ensures widths == Widths(doc.cps) && widths[..charPos] == widths && column == Sum(widths)
    {
      hide Encode, Sum, DecodeAt, Offset, Widths, Codepoints;
      NoText(doc.cps);
      var idx := 0;
      while idx < |line|
        invariant charPos <= |doc.cps| && idx == bytePos == Offset(doc.cps, charPos)
        invariant charPos < |doc.cps| <==> idx < |line|
        invariant widths == Widths(doc.cps[..charPos]) && column == Sum(widths)
        decreases |doc.cps| - charPos
      {
        NextChar(doc.cps, charPos);
        var d := DecodeAt(line, idx);
        var realWidth := measure(d.cp);
        if realWidth < 0 { realWidth := 0; }
        column := column + realWidth;
        widths := widths + [realWidth];
        idx := idx + d.advance;
        charPos := charPos + 1;
        bytePos := idx;
      }
      assert doc.cps[..charPos] == doc.cps;
    }

    lemma NoText(cps: seq<nat>)
      requires Codepoints(cps)
      ensures Sum([]) == 0 && Widths(cps[..0]) == [] && Offset(cps, 0) == 0 && widths[..0] == []
      ensures 0 < |cps| <==> 0 < |Encode(cps)|
    {
      assert cps[..0] == [];
      EmptyText();
      LastByte(cps, 0);
    }

    /** One turn of the loop over an encoded line. */
    lemma NextChar(cps: seq<nat>, k: nat)
      requires Codepoints(cps) && k < |cps|
      ensures Offset(cps, k) < |Encode(cps)|
      ensures var d := DecodeAt(Encode(cps), Offset(cps, k));
              && Offset(cps, k + 1) == Offset(cps, k) + d.advance <= |Encode(cps)|
              && (k + 1 < |cps| <==> Offset(cps, k + 1) < |Encode(cps)|)
              && Widths(cps[..k + 1]) == Widths(cps[..k]) + [Width(d.cp)]
              && Sum(Widths(cps[..k + 1])) == Sum(Widths(cps[..k])) + Width(d.cp)
    {
      hide Encode, DecodeAt, Sum, Offset, Width;
      DecodeIsChar(cps, k);
      CharShape(cps, k);
      if k + 1 < |cps| { CharShape(cps, k + 1); } else { WholeOffset(cps); }
      assert Widths(cps[..k + 1]) == Widths(cps[..k]) + [Width(cps[k])];
      SumConcat(Widths(cps[..k]), [Width(cps[k])]);
      OneWidth(Width(cps[k]));
    }

    method HistoryPrev()
      requires Valid()
      modifies this
      ensures Valid() && doc == Press(old(doc), Up, space)
    {
      hide Encode, Offset, Sum, Widths;
      if viewing.None? {
        backup := line;
        viewing := Some(|entries|);
        doc := doc.(backup := doc.cps, viewing := Some(|doc.entries|));
      }
      if |entries| == 0 { return; }
      if viewing.value > 0 { viewing := Some(viewing.value - 1); }
      doc := doc.(viewing := viewing);
      SetLineContents(entries[viewing.value], doc.entries[viewing.value]);
    }

    method HistoryNext()
      requires Valid()
      modifies this
      ensures Valid() && doc == Press(old(doc), Down, space)
    {
      hide Encode, Offset, Sum, Widths;
      EmptyText();
      if viewing.None? || |entries| == 0 { return; }
      viewing := Some(viewing.value + 1);
      if viewing.value >= |entries| {
        var curLine := backup;
        ghost var cps := doc.backup;
        viewing, backup := None, [];
        doc := doc.(viewing := None, backup := []);
        SetLineContents(curLine, cps);
      } else {
        doc := doc.(viewing := viewing);
        SetLineContents(entries[viewing.value], doc.entries[viewing.value]);
      }
    }

    /** `history_t::add`. */
    method AddHistory(newLine: seq<byte>, ghost cps: seq<nat>)
      requires HistoryOk() && doc.Ok() && newLine == Encode(cps) && Codepoints(cps)
      modifies this`entries, this`viewing, this`backup, this`doc
      ensures HistoryOk() && doc.Ok() && doc == AddToHistory(old(doc), cps)
    {
      hide Encode, Codepoints;
      NoLine(cps);
      EmptyText();
      if newLine == [] { return; }
      if entries != [] { EncodeInjective(doc.entries[|entries| - 1], cps); }
      if entries == [] || entries[|entries| - 1] != newLine {
        entries := entries + [newLine];
        doc := doc.(entries := doc.entries + [cps]);
      }
      viewing, backup := None, [];
      doc := doc.(viewing := None, backup := []);
    }

    // ---------------------------------------------------------------------------------- a line

    /** One key of the read loop. */
    method HandleKey(key: Key)
      requires Valid() && Typable(key)
      modifies this
      ensures Valid() && doc == Press(old(doc), key, space)
    {
      match key
      case Insert(cp) => InsertKey(cp);
      case Backspace => BackspaceKey();
      case Delete => DeleteAtCursor();
      case Left => MoveLeft();
      case Right => MoveRight();
      case WordLeft => MoveWordLeft();
      case WordRight => MoveWordRight();
      case Home => MoveToLineStart();
      case End => MoveToLineEnd();
      case Up => HistoryPrev();
      case Down => HistoryNext();
    }

    /** `readline_advanced`: the keys up to the end of the line or of the input. The bytes and the history that are left
        are those of the plain editor. */
    method ReadLine(keys: seq<Key>, endOfStream: bool, multiline: bool) returns (hasMore: bool)
      requires HistoryOk() && doc.Ok() && forall i :: 0 <= i < |keys| ==> Typable(keys[i])
      modifies this
      ensures old(doc).(cps := [], cur := 0).Ok()
      ensures (doc, hasMore) == Finish(PressAll(old(doc).(cps := [], cur := 0), keys, space), endOfStream, multiline)
      ensures HistoryOk() && doc.Ok() && line == Encode(doc.cps)
    {
      hide Encode, Sum, Press, Offset, PressAll;
      line, widths, charPos, bytePos, column := [], [], 0, 0, 0;
      doc := doc.(cps := [], cur := 0);
      StartOk();
      PressNone(doc, keys, space);
      ghost var start := doc;
      var isSpecial := false;
      for i := 0 to |keys|
        invariant Valid() && start.Ok()
        invariant PressAll(doc, keys[i..], space) == PressAll(start, keys, space)
        invariant isSpecial == EndsSpecial(doc.cps)
      {
        isSpecial := false;
        PressNext(doc, keys, i, space);
        HandleKey(keys[i]);
        LastByte(doc.cps, BACKSLASH);
        LastByte(doc.cps, SLASH);
        if line != [] && line[|line| - 1] in {BACKSLASH, SLASH} { isSpecial := true; }
      }
      PressNone(doc, keys, space);
      hasMore := FinishLine(isSpecial, endOfStream, multiline);
    }

    lemma StartOk()
      requires line == [] && widths == [] && charPos == 0 && bytePos == 0 && column == 0
      requires doc.cps == [] && doc.cur == 0 && doc.Ok() && HistoryOk()
      ensures Valid()
    {
      assert doc.cps[..0] == [];
    }

    /** The end of `readline_advanced`. */
    method FinishLine(isSpecial: bool, endOfStream: bool, multiline: bool) returns (hasMore: bool)
      requires line == Encode(doc.cps) && doc.Ok() && HistoryOk() && isSpecial == EndsSpecial(doc.cps)
      modifies this`line, this`entries, this`viewing, this`backup, this`doc
      ensures (doc, hasMore) == Finish(old(doc), endOfStream, multiline)
      ensures HistoryOk() && doc.Ok() && line == Encode(doc.cps)
    {
      hide Encode, Codepoints, EndMark, WithoutNewline;
      hasMore := ApplyEndMark(isSpecial, endOfStream, multiline);
      if !endOfStream {
        NoLine(doc.cps);
        if line != [] {
          DropNewline();
          AddHistory(line, doc.cps);
        }
      }
    }

    lemma NoLine(cps: seq<nat>)
      requires Codepoints(cps)
      ensures Encode(cps) == [] <==> cps == []
      ensures WithoutNewline([]) == [] && Codepoints([])
    {
      LastByte(cps, NEWLINE);
    }

    method DropNewline()
      requires line == Encode(doc.cps) && doc.Ok() && line != [] && doc.cur == 0
      modifies this`line, this`doc
      ensures doc == old(doc).(cps := WithoutNewline(old(doc.cps))) && doc.Ok() && line == Encode(doc.cps)
    {
      hide Encode, Codepoints;
      LastByte(doc.cps, NEWLINE);
      ShorterOk(doc);
      if line[|line| - 1] == NEWLINE {
        line := line[..|line| - 1];
        doc := doc.(cps := doc.cps[..|doc.cps| - 1]);
      }
    }

    lemma ShorterOk(d: Doc)
      requires Codepoints(d.cps) && d.cps != []
      ensures Codepoints(d.cps[..|d.cps| - 1]) && Codepoints([])
      ensures Codepoints(d.cps + [NEWLINE]) && Codepoints(d.cps[..|d.cps| - 1] + [NEWLINE])
    {
    }

    /** The mark at the end of the line: a backslash changes whether another line follows, a slash ends the input. */
    method ApplyEndMark(isSpecial: bool, endOfStream: bool, multiline: bool) returns (hasMore: bool)
      requires line == Encode(doc.cps) && doc.Ok() && isSpecial == EndsSpecial(doc.cps)
      modifies this`line, this`doc
      ensures (doc.cps, hasMore) == EndMark(old(doc.cps), endOfStream, multiline)
      ensures doc == old(doc).(cps := doc.cps, cur := 0) && doc.Ok() && line == Encode(doc.cps)
    {
      hide Encode, Codepoints;
      hasMore := multiline;
      doc := doc.(cur := 0);
      if isSpecial {
        TakeLast();
        var last := line[|line| - 1];
        ShorterOk(doc);
        line := line[..|line| - 1];
        doc := doc.(cps := doc.cps[..|doc.cps| - 1]);
        if last == BACKSLASH {
          PutNewline(doc.cps);
          line := line + [NEWLINE];
          doc := doc.(cps := doc.cps + [NEWLINE]);
          hasMore := !hasMore;
        } else {
          OneSpace(doc.cps);
          if |line| == 1 && line[|line| - 1] == SPACE {
            assert line == [SPACE];
            line := [];
            doc := doc.(cps := []);
          }
          hasMore := false;
        }
      } else if endOfStream {
        hasMore := false;
      } else {
        PutNewline(doc.cps);
        line := line + [NEWLINE];
        doc := doc.(cps := doc.cps + [NEWLINE]);
      }
    }

    lemma TakeLast()
      requires line == Encode(doc.cps) && doc.Ok() && EndsSpecial(doc.cps)
      ensures line != [] && line[..|line| - 1] == Encode(doc.cps[..|doc.cps| - 1])
      ensures line[|line| - 1] == BACKSLASH <==> doc.cps[|doc.cps| - 1] == BACKSLASH
    {
      hide Encode;
      LastByte(doc.cps, BACKSLASH);
      LastByte(doc.cps, SLASH);
    }

    lemma PutNewline(cps: seq<nat>)
      ensures Encode(cps + [NEWLINE]) == Encode(cps) + [NEWLINE]
      ensures Codepoints(cps) ==> Codepoints(cps + [NEWLINE])
    {
      hide Encode;
      EncodeConcat(cps, [NEWLINE]);
      EncodeOne(NEWLINE);
    }

    lemma OneSpace(cps: seq<nat>)
      requires Codepoints(cps)
      ensures Encode(cps) == [SPACE] <==> cps == [SPACE]
      ensures Encode([]) == []
    {
      EncodeOne(SPACE);
      EmptyText();
      if Encode(cps) == [SPACE] { EncodeInjective(cps, [SPACE]); }
    }
  }
}
