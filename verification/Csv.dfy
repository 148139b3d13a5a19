/** Rows of comma-separated values (`parse_csv_row` in `common/arg.cpp`), after section 2 of RFC 4180. */
module Csv {

  /** The state of the loop: the fields that are complete, the one being read, and whether it is inside quotes. */
  datatype State = State(fields: seq<string>, field: string, inQuotes: bool)

  const START := State([], "", false)

  /** One turn of the loop, and how many characters it takes. */
  function Turn(st: State, s: string, i: nat): (r: (State, nat))
    requires i < |s|
    ensures r.1 in {1, 2} && i + r.1 <= |s|
  {
    var c := s[i];
    if c == '"' then
      if !st.inQuotes then
        (if st.field != "" then st.(field := st.field + "\"") else st.(inQuotes := true), 1)
      else if i + 1 < |s| && s[i + 1] == '"' then (st.(field := st.field + "\""), 2)
      else (st.(inQuotes := false), 1)
    else if c == ',' then
      (if st.inQuotes then st.(field := st.field + ",") else st.(fields := st.fields + [st.field], field := ""), 1)
    else (st.(field := st.field + [c]), 1)
  }

  function ParseFrom(st: State, s: string, i: nat): State
    requires i <= |s|
    decreases |s| - i
  {
    if i == |s| then st else ParseFrom(Turn(st, s, i).0, s, i + Turn(st, s, i).1)
  }

  function ParseRow(s: string): (r: seq<string>) {
    var st := ParseFrom(START, s, 0);
    st.fields + [st.field]
  }

  method ParseCsvRow(input: string) returns (fields: seq<string>)
    ensures fields == ParseRow(input)
  {
    hide ParseFrom;
    fields := [];
    var field, inQuotes := "", false;
    var i := 0;
    while i < |input|
      invariant i <= |input| && ParseFrom(State(fields, field, inQuotes), input, i) == ParseFrom(START, input, 0)
    {
      ParseTurn(State(fields, field, inQuotes), input, i);
      var ch := input[i];
      if ch == '"' {
        if !inQuotes {
          if field != "" { field := field + "\""; } else { inQuotes := true; }
        } else {
          if i + 1 < |input| && input[i + 1] == '"' {
            field := field + "\"";
            i := i + 1;
          } else {
            inQuotes := false;
          }
        }
      } else if ch == ',' {
        if inQuotes {
          field := field + ",";
        } else {
          fields := fields + [field];
          field := "";
        }
      } else {
        field := field + [ch];
      }
      i := i + 1;
    }
    ParseTurn(State(fields, field, inQuotes), input, i);
    fields := fields + [field];
  }

  lemma ParseTurn(st: State, s: string, i: nat)
    requires i <= |s|
    ensures i == |s| ==> ParseFrom(st, s, i) == st
    ensures i < |s| ==> ParseFrom(st, s, i) == ParseFrom(Turn(st, s, i).0, s, i + Turn(st, s, i).1)
  {
  }

  // ------------------------------------------------------------------------------------ writing

  /** A character inside quotes, doubled when it is a quote. */
  function Escaped(c: char): string {
    if c == '"' then "\"\"" else [c]
  }

  /** A field inside quotes: its own quotes are doubled. */
  function Doubled(f: string): string {
    if f == "" then "" else Escaped(f[0]) + Doubled(f[1..])
  }

  function Quoted(f: string): string {
    "\"" + Doubled(f) + "\""
  }

  /** A field that can be written as it is: no commas, and no quote at its beginning. */
  predicate Bare(f: string) {
    (f != "" ==> f[0] != '"') && forall i :: 0 <= i < |f| ==> f[i] != ','
  }

  /** A field of a row, written in quotes or as it is. */
  datatype Cell = Cell(text: string, quoted: bool) {
    predicate Ok() {
      quoted || Bare(text)
    }

    function Written(): string {
      if quoted then Quoted(text) else text
    }
  }

  function Row(cells: seq<Cell>): string {
    if cells == [] then "" else if |cells| == 1 then cells[0].Written() else cells[0].Written() + "," + Row(cells[1..])
  }

  function Texts(cells: seq<Cell>): (r: seq<string>)
    ensures |r| == |cells|
  {
    seq(|cells|, i requires 0 <= i < |cells| => cells[i].text)
  }

  // ------------------------------------------------------------------------------ the round trip

  lemma Behind(s: string, i: nat, a: string, b: string)
    requires i <= |s| && s[i..] == a + b
    ensures i + |a| <= |s| && s[i..i + |a|] == a && s[i + |a|..] == b
  {
    assert s[i..][..|a|] == a && s[i..][|a|..] == b;
  }

  lemma InsideTurn(st: State, s: string, i: nat, c: char)
    requires st.inQuotes && i + |Escaped(c)| <= |s| && s[i..i + |Escaped(c)|] == Escaped(c)
    ensures ParseFrom(st, s, i) == ParseFrom(st.(field := st.field + [c]), s, i + |Escaped(c)|)
  {
    hide ParseFrom;
    ParseTurn(st, s, i);
    var part := s[i..i + |Escaped(c)|];
    assert part[0] == s[i];
    if c == '"' { assert part[1] == s[i + 1]; }
  }

  lemma ClosingTurn(st: State, s: string, i: nat, rest: string)
    requires st.inQuotes && i < |s| && s[i] == '"' && s[i + 1..] == rest && (rest != "" ==> rest[0] != '"')
    ensures ParseFrom(st, s, i) == ParseFrom(st.(inQuotes := false), s, i + 1)
  {
    hide ParseFrom;
    ParseTurn(st, s, i);
    if i + 1 < |s| { assert s[i + 1] == rest[0]; }
  }

  /** Inside quotes, up to the quote that closes them; what follows does not begin with a quote. */
  lemma {:induction false} ReadsDoubled(st: State, s: string, i: nat, f: string, rest: string)
    requires st.inQuotes && i <= |s| && s[i..] == Doubled(f) + "\"" + rest && (rest != "" ==> rest[0] != '"')
    ensures i + |Doubled(f)| + 1 <= |s| && s[i + |Doubled(f)| + 1..] == rest
    ensures ParseFrom(st, s, i) == ParseFrom(st.(field := st.field + f, inQuotes := false), s, i + |Doubled(f)| + 1)
    decreases |f|
  {
    hide ParseFrom, Escaped;
    if f == "" {
      assert st.field + "" == st.field;
      assert s[i..] == "\"" + rest;
      Behind(s, i, "\"", rest);
      assert s[i..i + 1][0] == s[i];
      ClosingTurn(st, s, i, rest);
    } else {
      var c, more := f[0], f[1..];
      assert s[i..] == Escaped(c) + (Doubled(more) + "\"" + rest);
      Behind(s, i, Escaped(c), Doubled(more) + "\"" + rest);
      InsideTurn(st, s, i, c);
      ReadsDoubled(st.(field := st.field + [c]), s, i + |Escaped(c)|, more, rest);
      assert st.field + [c] + more == st.field + f;
    }
  }

  /** Outside quotes, a text without commas whose quotes come behind other characters. */
  lemma {:induction false} ReadsBare(st: State, s: string, i: nat, f: string, rest: string)
    requires !st.inQuotes && i <= |s| && s[i..] == f + rest
    requires (f != "" && st.field == "" ==> f[0] != '"') && forall k :: 0 <= k < |f| ==> f[k] != ','
    ensures i + |f| <= |s| && s[i + |f|..] == rest
    ensures ParseFrom(st, s, i) == ParseFrom(st.(field := st.field + f), s, i + |f|)
    decreases |f|
  {
    hide ParseFrom;
    assert |s[i..]| == |f| + |rest|;
    if f == "" {
      assert st.field + "" == st.field;
    } else {
      ParseTurn(st, s, i);
      assert s[i] == s[i..][0] == f[0];
      assert s[i + 1..] == s[i..][1..] == f[1..] + rest;
      ReadsBare(st.(field := st.field + [f[0]]), s, i + 1, f[1..], rest);
      assert st.field + [f[0]] + f[1..] == st.field + f;
      assert s[i + |f|..] == s[i + 1 + |f[1..]|..];
    }
  }

  lemma ReadsQuoted(fields: seq<string>, s: string, i: nat, f: string, rest: string)
    requires i <= |s| && s[i..] == Quoted(f) + rest && (rest != "" ==> rest[0] != '"')
    ensures i + |Quoted(f)| <= |s| && s[i + |Quoted(f)|..] == rest
    ensures ParseFrom(State(fields, "", false), s, i) == ParseFrom(State(fields, f, false), s, i + |Quoted(f)|)
  {
    hide ParseFrom, Doubled;
    var st := State(fields, "", false);
    var more := Doubled(f) + "\"" + rest;
    assert s[i..] == "\"" + more;
    Behind(s, i, "\"", more);
    assert s[i..i + 1][0] == s[i];
    ParseTurn(st, s, i);
    ReadsDoubled(st.(inQuotes := true), s, i + 1, f, rest);
    assert "" + f == f;
  }

  lemma ReadsCell(fields: seq<string>, s: string, i: nat, c: Cell, rest: string)
    requires c.Ok() && i <= |s| && s[i..] == c.Written() + rest && (rest != "" ==> rest[0] != '"')
    ensures i + |c.Written()| <= |s| && s[i + |c.Written()|..] == rest
    ensures ParseFrom(State(fields, "", false), s, i) == ParseFrom(State(fields, c.text, false), s, i + |c.Written()|)
  {
    hide ParseFrom, Quoted;
    if c.quoted {
      ReadsQuoted(fields, s, i, c.text, rest);
    } else {
      ReadsBare(State(fields, "", false), s, i, c.text, rest);
      assert "" + c.text == c.text;
    }
  }

  lemma {:induction false} ReadsRow(fields: seq<string>, s: string, i: nat, cells: seq<Cell>)
    requires cells != [] && (forall k :: 0 <= k < |cells| ==> cells[k].Ok()) && i <= |s| && s[i..] == Row(cells)
    ensures var st := ParseFrom(State(fields, "", false), s, i);
            st.fields + [st.field] == fields + Texts(cells)
    decreases |cells|
  {
    hide ParseFrom, Bare, Quoted;
    var c := cells[0];
    if |cells| == 1 {
      assert s[i..] == c.Written() + "";
      ReadsCell(fields, s, i, c, "");
      ParseTurn(State(fields, c.text, false), s, |s|);
      assert Texts(cells) == [c.text];
    } else {
      var rest := "," + Row(cells[1..]);
      assert s[i..] == c.Written() + rest;
      ReadsCell(fields, s, i, c, rest);
      var j := i + |c.Written()|;
      assert s[j] == s[j..][0] == ',';
      ParseTurn(State(fields, c.text, false), s, j);
      assert s[j + 1..] == s[j..][1..] == Row(cells[1..]);
      ReadsRow(fields + [c.text], s, j + 1, cells[1..]);
      assert fields + [c.text] + Texts(cells[1..]) == fields + Texts(cells);
    }
  }

  /** PARSING UNDOES WRITING, for every non-empty list of fields, each in quotes or, when it has no comma and does not
      begin with a quote, as it is. */
  lemma ParseUndoesRow(cells: seq<Cell>)
    requires cells != [] && forall k :: 0 <= k < |cells| ==> cells[k].Ok()
    ensures ParseRow(Row(cells)) == Texts(cells)
  {
    var s := Row(cells);
    assert s[0..] == s;
    ReadsRow([], s, 0, cells);
    assert [] + Texts(cells) == Texts(cells);
  }

  // ------------------------------------------------------------------------------ number of fields

  /** Where a row stands, without regard to what it says: at the beginning of a field (or behind quotes that held
      nothing), inside quotes, or further on. `empty` tells whether the text within the quotes is still empty. */
  datatype Place = Begin | Inside(empty: bool) | Further

  /** The commas from `i` on that are met outside quotes. */
  function Separators(s: string, i: nat, p: Place): nat
    requires i <= |s|
    decreases |s| - i
  {
    if i == |s| then 0
    else
      match p
      case Inside(empty) =>
        if s[i] != '"' then Separators(s, i + 1, Inside(false))
        else if i + 1 < |s| && s[i + 1] == '"' then Separators(s, i + 2, Inside(false))
        else Separators(s, i + 1, if empty then Begin else Further)
      case _ =>
        if s[i] == ',' then 1 + Separators(s, i + 1, Begin)
        else if s[i] == '"' && p.Begin? then Separators(s, i + 1, Inside(true))
        else Separators(s, i + 1, Further)
  }

  function PlaceOf(st: State): Place {
    if st.inQuotes then Inside(st.field == "") else if st.field == "" then Begin else Further
  }

  lemma {:induction false} CountFrom(st: State, s: string, i: nat)
    requires i <= |s|
    ensures |ParseFrom(st, s, i).fields| == |st.fields| + Separators(s, i, PlaceOf(st))
    decreases |s| - i
  {
    if i < |s| { CountFrom(Turn(st, s, i).0, s, i + Turn(st, s, i).1); }
  }

  /** There is one field more than there are commas outside quotes. */
  lemma FieldCount(s: string)
    ensures |ParseRow(s)| == 1 + Separators(s, 0, Begin)
  {
    CountFrom(START, s, 0);
  }
}
