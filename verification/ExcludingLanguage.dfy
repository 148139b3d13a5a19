/** What the excluding grammar's language is good for: its texts have one decomposition, no word begins where a chunk
    begins, everything harmless can be continued, and when no word occurs at all. */
module ExcludingLanguage {

  import opened Chars
  import opened ExcludingGrammar

  /** Chunks form a prefix code. */
  lemma ChunksArePrefixFree(ws: seq<Word>, a: Word, b: Word)
    requires Chunk(ws, a) && Chunk(ws, b) && a <= b
    ensures a == b
  {
    if |a| < |b| { ShorterBegins(ws, a, b); }
  }

  lemma ShorterBegins(ws: seq<Word>, a: Word, b: Word)
    requires Chunk(ws, b) && a < b
    ensures Begins(ws, a)
  {
    var i :| 0 <= i < |ws| && b[..|b| - 1] < ws[i];
    PrefixTrans(a, b[..|b| - 1], ws[i]);
  }

  ghost predicate Chunks(ws: seq<Word>, cs: seq<Word>) { forall i :: 0 <= i < |cs| ==> Chunk(ws, cs[i]) }

  function Join(cs: seq<Word>): Word
    decreases |cs|
  {
    if cs == [] then [] else cs[0] + Join(cs[1..])
  }

  /** A text has at most one decomposition into chunks. */
  lemma {:induction false} DecompositionIsUnique(ws: seq<Word>, cs: seq<Word>, ds: seq<Word>)
    requires Chunks(ws, cs) && Chunks(ws, ds) && Join(cs) == Join(ds)
    ensures cs == ds
    decreases |cs|
  {
    hide Chunk;
    if cs != [] && ds != [] {
      var s := Join(cs);
      assert cs[0] == s[..|cs[0]|] && ds[0] == s[..|ds[0]|];
      if |cs[0]| <= |ds[0]| { ChunksArePrefixFree(ws, cs[0], ds[0]); } else { ChunksArePrefixFree(ws, ds[0], cs[0]); }
      assert Join(cs[1..]) == s[|cs[0]|..] == Join(ds[1..]);
      DecompositionIsUnique(ws, cs[1..], ds[1..]);
      assert cs == [cs[0]] + cs[1..] && ds == [ds[0]] + ds[1..];
    } else {
      SomethingJoins(ws, cs);
      SomethingJoins(ws, ds);
    }
  }

  lemma SomethingJoins(ws: seq<Word>, cs: seq<Word>)
    requires Chunks(ws, cs)
    ensures cs != [] ==> Join(cs) != []
  {
    if cs != [] { assert Chunk(ws, cs[0]); }
  }

  /** No word but the empty one is a proper beginning of another. */
  ghost predicate Antichain(ws: seq<Word>) {
    forall i, j :: 0 <= i < |ws| && 0 <= j < |ws| && ws[i] != [] ==> !(ws[i] < ws[j])
  }

  /** What follows a chunk boundary of an accepted text never begins with a forbidden word. */
  lemma BoundaryIsSafe(ws: seq<Word>, s: Word, i: nat)
    requires Antichain(ws) && i < |ws| && ws[i] != []
    requires Accepted(ws, s)
    ensures !(ws[i] <= s)
  {
    hide Antichain;
    if s != [] && ws[i] <= s {
      var k :| 1 <= k <= |s| && Chunk(ws, s[..k]) && Accepted(ws, s[k..]);
      WordMeetsChunk(ws, s, i, k);
    }
  }

  lemma WordMeetsChunk(ws: seq<Word>, s: Word, i: nat, k: nat)
    requires i < |ws| && ws[i] != [] && ws[i] <= s && 1 <= k <= |s| && Chunk(ws, s[..k])
    ensures |ws[i]| < k && !Antichain(ws)
  {
    if k <= |ws[i]| {
      WordBegins(ws, s, i, k);
    } else {
      var j :| 0 <= j < |ws| && s[..k][..k - 1] < ws[j];
      PrefixTrans(ws[i], s[..k][..k - 1], ws[j]);
      assert ws[i] < ws[j];
    }
  }

  lemma WordBegins(ws: seq<Word>, s: Word, i: nat, k: nat)
    requires i < |ws| && ws[i] <= s && k <= |ws[i]|
    ensures Begins(ws, s[..k])
  {
    assert s[..k] <= ws[i];
  }

  ghost predicate Occurs(w: Word, s: Word) {
    exists i :: OccursAt(s, w, i)
  }

  lemma OccursShift(w: Word, s: Word, k: nat, i: int)
    requires k <= |s|
    ensures 0 <= i ==> (OccursAt(s[k..], w, i) <==> OccursAt(s, w, k + i))
  {
    if 0 <= i && k + i + |w| <= |s| { assert s[k..][i..i + |w|] == s[k + i..k + i + |w|]; }
  }

  /** No word but the empty one occurs. */
  ghost predicate Free(ws: seq<Word>, s: Word) {
    forall j :: 0 <= j < |ws| && ws[j] != [] ==> !Occurs(ws[j], s)
  }

  lemma FreeSuffix(ws: seq<Word>, s: Word, k: nat)
    requires k <= |s| && Free(ws, s)
    ensures Free(ws, s[k..])
  {
    forall j | 0 <= j < |ws| && ws[j] != [] ensures !Occurs(ws[j], s[k..]) {
      if i :| OccursAt(s[k..], ws[j], i) { OccursShift(ws[j], s, k, i); }
    }
  }

  /** A code point that is not in a short list. */
  lemma FreshSymbol(used: seq<symbol>) returns (c: symbol)
    requires |used| < ALPHABET
    ensures c !in used
  {
    c := FreshBelow(used, ALPHABET);
  }

  lemma FreshBelow(used: seq<symbol>, n: nat) returns (c: symbol)
    requires |used| < n <= ALPHABET
    ensures c !in used
  {
    hide Upto;
    var all := Upto(n);
    var have: set<nat> := set i | 0 <= i < |used| :: used[i];
    FewSymbols(used, have);
    if all <= have { Subset(all, have); }
    var x :| x in all && x !in have;
    c := x;
    UsedInHave(used, c, have);
  }

  lemma UsedInHave(used: seq<symbol>, c: symbol, have: set<nat>)
    requires have == set i | 0 <= i < |used| :: used[i]
    ensures c in used ==> c in have
  {
  }

  lemma Subset(a: set<nat>, b: set<nat>)
    requires a <= b
    ensures |a| <= |b|
  {
    assert b == a + (b - a);
  }

  lemma {:induction false} FewSymbols(used: seq<symbol>, have: set<nat>)
    requires have == set i | 0 <= i < |used| :: used[i]
    ensures |have| <= |used|
    decreases |used|
  {
    if used != [] {
      var rest := used[1..];
      var less := set i | 0 <= i < |rest| :: rest[i];
      FewSymbols(rest, less);
      assert have == less + {used[0]} by {
        assert forall i :: 0 <= i < |rest| ==> rest[i] == used[i + 1];
        forall x | x in have ensures x in less + {used[0]} {
          var i :| 0 <= i < |used| && used[i] == x;
          if i > 0 { assert rest[i - 1] == x; }
        }
        forall x | x in less ensures x in have {
          var i :| 0 <= i < |rest| && rest[i] == x;
          assert used[i + 1] == x;
        }
      }
    }
  }

  /** The characters that follow `p` in the words. */
  function After(ws: seq<Word>, p: Word): (r: seq<symbol>)
    ensures |r| <= |ws|
    decreases |ws|
  {
    if ws == [] then []
    else (if p <= ws[0] && |p| < |ws[0]| then [ws[0][|p|]] else []) + After(ws[1..], p)
  }

  lemma {:induction false} AfterCovers(ws: seq<Word>, p: Word, c: symbol)
    requires Begins(ws, p + [c])
    ensures c in After(ws, p)
    decreases |ws|
  {
    var i :| 0 <= i < |ws| && p + [c] <= ws[i];
    Extend(p, ws[i], c);
    if i > 0 {
      assert ws[1..][i - 1] == ws[i];
      AfterCovers(ws[1..], p, c);
    }
  }

  lemma AcceptChunk(ws: seq<Word>, a: Word, s: Word)
    requires Chunk(ws, a) && Accepted(ws, s)
    ensures Accepted(ws, a + s)
  {
    hide Chunk;
    assert (a + s)[..|a|] == a && (a + s)[|a|..] == s;
    assert a != [] by { ChunkIsSomething(ws, a); }
  }

  lemma ChunkIsSomething(ws: seq<Word>, a: Word)
    requires Chunk(ws, a)
    ensures a != []
  {
  }

  /** The longest beginning of `s`, from `k` on, that some word begins with. */
  lemma {:induction false} LongestBegin(ws: seq<Word>, s: Word, k: nat) returns (m: nat)
    requires k <= |s| && Begins(ws, s[..k])
    ensures k <= m <= |s| && Begins(ws, s[..m])
    ensures m < |s| ==> !Begins(ws, s[..m + 1])
    decreases |s| - k
  {
    hide Begins;
    if k < |s| && Begins(ws, s[..k + 1]) {
      m := LongestBegin(ws, s, k + 1);
    } else {
      m := k;
    }
  }

  /** Every text free of the forbidden words can be continued to an accepted one,
      provided there are fewer words than code points. */
  lemma {:induction false} FreeExtends(ws: seq<Word>, s: Word) returns (t: Word)
    requires HasLetters(ws) && |ws| < ALPHABET && Free(ws, s)
    ensures Accepted(ws, s + t)
    decreases |s|
  {
    hide Accepted, Free, BeginsProperly, Begins, After, HasLetters;
    if s == [] {
      t := [];
      NothingAccepted(ws);
      assert s + t == [];
    } else {
      EveryWordBegins(ws, s);
      var m := LongestBegin(ws, s, 0);
      ProperWhenFree(ws, s, m);
      if m < |s| {
        FreeSuffix(ws, s, m + 1);
        t := FreeExtends(ws, s[m + 1..]);
        assert s[..m + 1][..m] == s[..m];
        AcceptChunk(ws, s[..m + 1], s[m + 1..] + t);
        assert s[..m + 1] + (s[m + 1..] + t) == s + t;
      } else {
        var c := FreshSymbol(After(ws, s));
        t := [c];
        assert !Begins(ws, s + [c]) by {
          if Begins(ws, s + [c]) { AfterCovers(ws, s, c); }
        }
        assert (s + [c])[..|s + [c]| - 1] == s == s[..m];
        NothingAccepted(ws);
        AcceptChunk(ws, s + [c], []);
        assert s + [c] + [] == s + t;
      }
    }
  }

  lemma EveryWordBegins(ws: seq<Word>, s: Word)
    requires HasLetters(ws)
    ensures Begins(ws, s[..0])
  {
    assert s[..0] <= ws[0];
  }

  lemma NothingAccepted(ws: seq<Word>)
    ensures Accepted(ws, [])
  {
  }

  lemma ProperWhenFree(ws: seq<Word>, s: Word, m: nat)
    requires HasLetters(ws) && Free(ws, s) && m <= |s| && Begins(ws, s[..m])
    ensures BeginsProperly(ws, s[..m])
  {
    hide Occurs;
    if m == 0 {
      var i :| 0 <= i < |ws| && ws[i] != [];
      assert s[..0] < ws[i];
    } else {
      var i :| 0 <= i < |ws| && s[..m] <= ws[i];
      if |ws[i]| == m { PrefixOccurs(ws[i], s); }
    }
  }

  lemma PrefixOccurs(w: Word, s: Word)
    requires w <= s
    ensures Occurs(w, s)
  {
    assert OccursAt(s, w, 0);
  }

  // ----------------------------------------- when the grammar does what its comment says

  /** A word occurs in another one before its end. */
  ghost predicate Inside(ws: seq<Word>) {
    exists v, w :: v in ws && w in ws && v != [] && w != [] && Occurs(w, v[..|v| - 1])
  }

  /** After `k` letters of `v`, the next `j`th letter of `w` leaves all words, and the letters before it were the
      beginning of `w`. */
  ghost predicate Overlap(ws: seq<Word>, v: Word, w: Word, k: nat, j: nat) {
    1 <= j <= |w| && j <= k < |v| && v[k - j + 1..k] == w[..j - 1] && !Begins(ws, v[..k] + [w[j - 1]])
  }

  /** A word that holds no other one after its first letter begins inside a chunk and goes on after it. */
  ghost predicate Straddles(ws: seq<Word>) {
    exists v, w, k: nat, j: nat :: v in ws && w in ws && w != [] && Free(ws, w[1..]) && Overlap(ws, v, w, k, j)
  }

  /** THE COMMENT OF THE EXCLUDING GRAMMAR. For every list of words, the accepted texts contain none of the words if
      and only if no word occurs in another one before its end, and none can begin inside a chunk and go on after it. */
  lemma ExcludesIff(ws: seq<Word>)
    requires |ws| < ALPHABET
    ensures (forall s :: Accepted(ws, s) ==> Free(ws, s)) <==> !Inside(ws) && !Straddles(ws)
  {
    hide Accepted, Free, Inside, Straddles;
    if Inside(ws) {
      var s := InsideSlips(ws);
    } else if Straddles(ws) {
      var s := StraddlingSlips(ws);
    } else {
      forall s | Accepted(ws, s) ensures Free(ws, s) {
        if !Free(ws, s) {
          var w := ShortestIn(ws, s);
          MeetsNowhere(ws, s, w);
        }
      }
    }
  }

  /** Of the words that occur in a text, a shortest one holds no other after its first letter. */
  lemma ShortestIn(ws: seq<Word>, s: Word) returns (w: Word)
    requires !Free(ws, s)
    ensures w in ws && w != [] && Occurs(w, s) && Free(ws, w[1..])
  {
    var j :| 0 <= j < |ws| && ws[j] != [] && Occurs(ws[j], s);
    w := ShorterIn(ws, s, ws[j]);
  }

  lemma {:induction false} ShorterIn(ws: seq<Word>, s: Word, v: Word) returns (w: Word)
    requires v in ws && v != [] && Occurs(v, s)
    ensures w in ws && w != [] && Occurs(w, s) && Free(ws, w[1..])
    decreases |v|
  {
    hide Occurs;
    if Free(ws, v[1..]) {
      w := v;
    } else {
      var j :| 0 <= j < |ws| && ws[j] != [] && Occurs(ws[j], v[1..]);
      OccursInTail(ws[j], v, s);
      w := ShorterIn(ws, s, ws[j]);
    }
  }

  lemma OccursInTail(u: Word, v: Word, s: Word)
    requires v != [] && Occurs(u, v[1..]) && Occurs(v, s)
    ensures Occurs(u, s) && |u| < |v|
  {
    var i :| OccursAt(v[1..], u, i);
    var k :| OccursAt(s, v, k);
    OccursShift(u, v, 1, i);
    SliceOfSlice(s, k, |v|, 1 + i, |u|);
    assert OccursAt(s, u, k + 1 + i);
  }

  lemma SliceOfSlice(s: Word, k: nat, n: nat, i: nat, m: nat)
    requires k + n <= |s| && i + m <= n
    ensures s[k..k + n][i..i + m] == s[k + i..k + i + m]
  {
    var part := s[k..k + n];
    var a, b := part[i..i + m], s[k + i..k + i + m];
    forall x | 0 <= x < m ensures a[x] == b[x] {
      assert part[i + x] == s[k + (i + x)];
    }
  }

  /** Without the two families a word that holds no other one occurs nowhere in an accepted text. */
  lemma {:induction false} MeetsNowhere(ws: seq<Word>, s: Word, w: Word)
    requires Accepted(ws, s) && w in ws && w != [] && Free(ws, w[1..])
    requires !Inside(ws) && !Straddles(ws)
    ensures !Occurs(w, s)
    decreases |s|
  {
    hide Chunk, OccursAt, Inside, Straddles, Free;
    if s != [] {
      var k :| 1 <= k <= |s| && Chunk(ws, s[..k]) && Accepted(ws, s[k..]);
      MeetsNowhere(ws, s[k..], w);
      if i :| OccursAt(s, w, i) {
        OccursWithin(w, s, i);
        if k <= i {
          OccursShift(w, s, k, i - k);
        } else {
          InFirstChunk(ws, s, k, w, i);
        }
      }
    } else {
      NothingOccurs(w);
    }
  }

  lemma NothingOccurs(w: Word)
    requires w != []
    ensures !Occurs(w, [])
  {
  }

  lemma OccursWithin(w: Word, s: Word, i: int)
    requires OccursAt(s, w, i)
    ensures 0 <= i && i + |w| <= |s|
  {
  }

  /** An occurrence that begins in the first chunk ends before the end of the chunk or goes beyond it. */
  lemma InFirstChunk(ws: seq<Word>, s: Word, k: nat, w: Word, i: nat)
    requires 1 <= k <= |s| && Chunk(ws, s[..k]) && i < k
    requires w in ws && w != [] && Free(ws, w[1..]) && OccursAt(s, w, i)
    ensures Inside(ws) || Straddles(ws)
  {
    hide Free, Straddles, Inside, Begins, Occurs;
    var n: nat := k - 1;
    assert s[..k][..n] == s[..n];
    var m :| 0 <= m < |ws| && s[..n] < ws[m];
    if i + |w| <= n {
      EndsInside(ws, s, n, ws[m], w, i);
    } else {
      assert s[..k] == s[..n] + [s[n]];
      GoesBeyond(ws, s, n, ws[m], w, i);
    }
  }

  lemma EndsInside(ws: seq<Word>, s: Word, n: nat, v: Word, w: Word, i: nat)
    requires n <= |s| && s[..n] < v && v in ws && w in ws && w != [] && OccursAt(s, w, i) && i + |w| <= n
    ensures Inside(ws)
  {
    var p := v[..|v| - 1];
    assert v[..n] == s[..n];
    assert p[i..i + |w|] == v[..n][i..i + |w|] == s[..n][i..i + |w|] == s[i..i + |w|];
    assert OccursAt(p, w, i);
  }

  lemma GoesBeyond(ws: seq<Word>, s: Word, n: nat, v: Word, w: Word, i: nat)
    requires n < |s| && s[..n] < v && v in ws && w in ws && w != [] && Free(ws, w[1..])
    requires OccursAt(s, w, i) && i <= n < i + |w| && !Begins(ws, s[..n] + [s[n]])
    ensures Straddles(ws)
  {
    hide Free;
    var j := n + 1 - i;
    assert s[n] == s[i..i + |w|][n - i] == w[j - 1];
    assert v[..n] == s[..n];
    if i == 0 { BeginsWord(ws, s, n, w); }
    assert v[n - j + 1..n] == s[i..n] == s[i..i + |w|][..j - 1] == w[..j - 1];
    assert Overlap(ws, v, w, n, j);
  }

  lemma BeginsWord(ws: seq<Word>, s: Word, n: nat, w: Word)
    requires w in ws && n < |w| && OccursAt(s, w, 0)
    ensures Begins(ws, s[..n] + [s[n]])
  {
    assert s[0..|w|][..n + 1] == w[..n + 1] == s[..n] + [s[n]];
  }

  /** A chunk that holds a whole word. */
  lemma InsideSlips(ws: seq<Word>) returns (s: Word)
    requires |ws| < ALPHABET && Inside(ws)
    ensures Accepted(ws, s) && !Free(ws, s)
  {
    hide Accepted, Free;
    var v, w :| v in ws && w in ws && v != [] && w != [] && Occurs(w, v[..|v| - 1]);
    var p := v[..|v| - 1];
    assert p < v;
    s := FreshChunk(ws, p, v);
    OccursBefore(ws, w, p, s);
  }

  lemma FreshChunk(ws: seq<Word>, p: Word, v: Word) returns (s: Word)
    requires |ws| < ALPHABET && v in ws && p < v
    ensures p <= s && Accepted(ws, s)
  {
    hide Accepted, Begins, After;
    var c := FreshSymbol(After(ws, p));
    s := p + [c];
    if Begins(ws, s) { AfterCovers(ws, p, c); }
    assert s[..|s| - 1] == p;
    assert Chunk(ws, s) by { ProperByMember(ws, p, v); }
    NothingAccepted(ws);
    AcceptChunk(ws, s, []);
    assert s + [] == s;
  }

  lemma ProperByMember(ws: seq<Word>, p: Word, v: Word)
    requires v in ws && p < v
    ensures BeginsProperly(ws, p)
  {
  }

  lemma OccursBefore(ws: seq<Word>, w: Word, p: Word, s: Word)
    requires w in ws && w != [] && Occurs(w, p) && p <= s
    ensures !Free(ws, s)
  {
    var i :| OccursAt(p, w, i);
    assert s[i..i + |w|] == p[i..i + |w|];
    assert OccursAt(s, w, i);
  }

  /** A chunk and a continuation that spell a word across the boundary. */
  lemma StraddlingSlips(ws: seq<Word>) returns (s: Word)
    requires |ws| < ALPHABET && Straddles(ws)
    ensures Accepted(ws, s) && !Free(ws, s)
  {
    hide Accepted, Free, Begins, Chunk;
    var v, w, k: nat, j: nat :| v in ws && w in ws && w != [] && Free(ws, w[1..]) && Overlap(ws, v, w, k, j);
    var a := v[..k] + [w[j - 1]];
    ChunkOf(ws, v, k, w[j - 1]);
    assert w[1..][j - 1..] == w[j..];
    FreeSuffix(ws, w[1..], j - 1);
    var t := FreeExtends(ws, w[j..]);
    AcceptChunk(ws, a, w[j..] + t);
    s := a + (w[j..] + t);
    SpelledAcross(v[..k], w, j, t);
    FoundSomewhere(ws, w, s, k - j + 1);
  }

  lemma ChunkOf(ws: seq<Word>, v: Word, k: nat, c: symbol)
    requires v in ws && k < |v| && !Begins(ws, v[..k] + [c])
    ensures Chunk(ws, v[..k] + [c]) && HasLetters(ws)
  {
    hide Begins;
    var a := v[..k] + [c];
    assert a[..|a| - 1] == v[..k];
    ProperByMember(ws, v[..k], v);
  }

  lemma SpelledAcross(p: Word, w: Word, j: nat, t: Word)
    requires 1 <= j <= |w| && j <= |p| && p[|p| - j + 1..] == w[..j - 1]
    ensures OccursAt(p + [w[j - 1]] + (w[j..] + t), w, |p| - j + 1)
  {
    assert w == w[..j - 1] + [w[j - 1]] + w[j..];
    assert p + [w[j - 1]] + (w[j..] + t) == p[..|p| - j + 1] + w + t;
  }

  lemma FoundSomewhere(ws: seq<Word>, w: Word, s: Word, i: int)
    requires w in ws && w != [] && OccursAt(s, w, i)
    ensures !Free(ws, s)
  {
    assert Occurs(w, s);
  }

  predicate Constant(w: Word) { forall i :: 0 <= i < |w| ==> w[i] == w[0] }

  /** For one word: the grammar excludes every text that contains the word if and only if
      all characters of the word are the same. */
  lemma ExcludesIffConstant(w: Word)
    requires w != []
    ensures (forall s :: Accepted([w], s) ==> !Occurs(w, s)) <==> Constant(w)
  {
    hide Accepted, Occurs, Inside, Straddles, Constant;
    ExcludesIff([w]);
    forall s ensures Free([w], s) <==> !Occurs(w, s) { FreeOfOne(w, s); }
    OneInside(w);
    OneStraddles(w);
  }

  lemma FreeOfOne(w: Word, s: Word)
    requires w != []
    ensures Free([w], s) <==> !Occurs(w, s)
  {
    hide Occurs;
    assert [w][0] == w;
  }

  lemma OneInside(w: Word)
    ensures !Inside([w])
  {
  }

  lemma OneStraddles(w: Word)
    requires w != []
    ensures Straddles([w]) <==> !Constant(w)
  {
    hide Free, Straddles;
    if Constant(w) {
      ConstantStays(w);
    } else {
      var k := FirstChange(w);
      ShorterIsFree(w, w[1..]);
      if Begins([w], w[..k] + [w[0]]) { BeginsOne(w, w[..k] + [w[0]]); }
      OneOverlaps(w, k);
    }
  }

  lemma OneOverlaps(w: Word, k: nat)
    requires 1 <= k < |w| && Free([w], w[1..]) && !Begins([w], w[..k] + [w[0]])
    ensures Straddles([w])
  {
    hide Free, Begins;
    assert w in [w];
    assert w[k..k] == w[..0];
    assert Overlap([w], w, w, k, 1);
  }

  lemma ConstantStays(w: Word)
    requires w != [] && Constant(w)
    ensures !Straddles([w])
  {
    hide Free;
    forall v, u, k: nat, j: nat | v in [w] && u in [w] ensures !Overlap([w], v, u, k, j) {
      if 1 <= j <= |w| && k < |w| { ConstantExtends(w, k, w[j - 1]); }
    }
  }

  lemma ConstantExtends(w: Word, k: nat, c: symbol)
    requires Constant(w) && k < |w| && c == w[0]
    ensures Begins([w], w[..k] + [c])
  {
    assert w[..k] + [c] == w[..k + 1] <= [w][0];
  }

  lemma BeginsOne(w: Word, a: Word)
    requires Begins([w], a)
    ensures |a| <= |w| && forall i :: 0 <= i < |a| ==> a[i] == w[i]
  {
  }

  lemma FirstChange(w: Word) returns (k: nat)
    requires w != [] && !Constant(w)
    ensures 1 <= k < |w| && w[k] != w[0] && forall i :: 0 <= i < k ==> w[i] == w[0]
  {
    k := 1;
    while k < |w| && w[k] == w[0]
      invariant 1 <= k <= |w| && forall i :: 0 <= i < k ==> w[i] == w[0]
    {
      k := k + 1;
    }
  }

  lemma ShorterIsFree(w: Word, s: Word)
    requires |s| < |w|
    ensures Free([w], s)
  {
  }
}
