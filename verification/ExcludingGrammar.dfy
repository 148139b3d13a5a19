/** The grammar that is meant to exclude forbidden words
    (`make_gbnf_excluding` in `common/chat-parser-xml-toolcall.cpp`), as a syntax tree. Words are taken byte by byte,
    and each byte stands for the code point of that number, because that is how the printed grammar is read and
    matched; `GbnfText` prints the tree and reads it again. */
module ExcludingGrammar {

  import opened Chars

  type Word = seq<symbol>

  /** `( [^cls] | "c" rest | .. )`, or `( . )`; `Nothing` is the empty text that the source builds for a node
      without alternatives. */
  datatype Expr = Nothing | Choice(alts: seq<Alt>)

  datatype Alt = Any | NotIn(cls: seq<symbol>) | Branch(c: symbol, rest: Expr)

  ghost predicate Matches(e: Expr, w: Word)
    decreases e
  {
    match e
    case Nothing => false
    case Choice(alts) => exists a :: a in alts && AltMatches(a, w)
  }

  /** A class with nothing to exclude is read as no element at all, and so matches the empty text. */
  ghost predicate AltMatches(a: Alt, w: Word)
    decreases a
  {
    match a
    case Any => |w| == 1
    case NotIn(cls) => if cls == [] then w == [] else |w| == 1 && w[0] !in cls
    case Branch(c, rest) => w != [] && w[0] == c && Matches(rest, w[1..])
  }

  // ----------------------------------------------------------------------------- sorting

  /** `std::string` comparison. */
  predicate Leq(a: Word, b: Word)
    decreases |a|
  {
    a == [] || (b != [] && (a[0] < b[0] || (a[0] == b[0] && Leq(a[1..], b[1..]))))
  }

  predicate Sorted(ws: seq<Word>) {
    forall i, j :: 0 <= i < j < |ws| ==> Leq(ws[i], ws[j])
  }

  lemma {:induction false} LeqTotal(a: Word, b: Word)
    ensures Leq(a, b) || Leq(b, a)
    decreases |a|
  {
    if a != [] && b != [] && a[0] == b[0] { LeqTotal(a[1..], b[1..]); }
  }

  lemma {:induction false} LeqTrans(a: Word, b: Word, c: Word)
    requires Leq(a, b) && Leq(b, c)
    ensures Leq(a, c)
    decreases |a|
  {
    if a != [] && a[0] == b[0] == c[0] { LeqTrans(a[1..], b[1..], c[1..]); }
  }

  function Insert(w: Word, ws: seq<Word>): (r: seq<Word>)
    requires Sorted(ws)
    ensures Sorted(r) && multiset(r) == multiset{w} + multiset(ws)
    decreases |ws|
  {
    if ws == [] then [w]
    else
      assert ws == [ws[0]] + ws[1..];
      if Leq(w, ws[0]) then InsertHead(w, ws); [w] + ws
      else
        var r := Insert(w, ws[1..]);
        LeqTotal(w, ws[0]);
        HeadFirst(ws[0], w, ws[1..], r);
        [ws[0]] + r
  }

  lemma InsertHead(w: Word, ws: seq<Word>)
    requires Sorted(ws) && ws != [] && Leq(w, ws[0])
    ensures Sorted([w] + ws)
  {
    forall j | 0 <= j < |ws| ensures Leq(w, ws[j]) {
      if j > 0 { LeqTrans(w, ws[0], ws[j]); }
    }
  }

  lemma HeadFirst(h: Word, w: Word, tail: seq<Word>, r: seq<Word>)
    requires Sorted(r) && multiset(r) == multiset{w} + multiset(tail)
    requires Leq(h, w) && forall j :: 0 <= j < |tail| ==> Leq(h, tail[j])
    ensures Sorted([h] + r)
  {
    forall j | 0 <= j < |r| ensures Leq(h, r[j]) {
      assert r[j] in multiset(r);
      if r[j] != w { assert r[j] in tail; }
    }
  }

  /** `std::sort`. */
  function Sort(ws: seq<Word>): (r: seq<Word>)
    ensures Sorted(r) && multiset(r) == multiset(ws)
    decreases |ws|
  {
    if ws == [] then []
    else
      assert ws == [ws[0]] + ws[1..];
      Insert(ws[0], Sort(ws[1..]))
  }

  // ------------------------------------------------------------------------ the builder

  datatype Child = Child(c: symbol, from: nat, to: nat)

  /** All words of the range have length at least `depth`. */
  predicate Reaches(ws: seq<Word>, l: nat, r: nat, depth: nat) {
    l <= r <= |ws| && forall i :: l <= i < r ==> depth <= |ws[i]|
  }

  /** End of the group of words that continue with `c`. */
  function GroupEnd(ws: seq<Word>, j: nat, r: nat, depth: nat, c: symbol): (e: nat)
    requires j <= r <= |ws|
    ensures j <= e <= r
    ensures forall k :: j <= k < e ==> depth < |ws[k]| && ws[k][depth] == c
    ensures e < r ==> !(depth < |ws[e]| && ws[e][depth] == c)
    decreases r - j
  {
    if j < r && depth < |ws[j]| && ws[j][depth] == c then GroupEnd(ws, j + 1, r, depth, c) else j
  }

  function Children(ws: seq<Word>, i: nat, r: nat, depth: nat): (cs: seq<Child>)
    requires Reaches(ws, i, r, depth)
    ensures forall k :: 0 <= k < |cs| ==> i <= cs[k].from < cs[k].to <= r && Reaches(ws, cs[k].from, cs[k].to, depth + 1)
    decreases r - i
  {
    if i >= r then []
    else if |ws[i]| == depth then Children(ws, i + 1, r, depth)
    else
      var j := GroupEnd(ws, i, r, depth, ws[i][depth]);
      [Child(ws[i][depth], i, j)] + Children(ws, j, r, depth)
  }

  function NextChars(cs: seq<Child>): (r: seq<symbol>)
    ensures |r| == |cs| && forall i :: 0 <= i < |cs| ==> r[i] == cs[i].c
    decreases |cs|
  {
    if cs == [] then [] else [cs[0].c] + NextChars(cs[1..])
  }

  /** Height of the range above `depth`: bounds the recursion. */
  function Height(ws: seq<Word>, l: nat, r: nat, depth: nat): (h: nat)
    requires Reaches(ws, l, r, depth)
    ensures forall i :: l <= i < r ==> |ws[i]| - depth <= h
    ensures l < r ==> exists i :: l <= i < r && |ws[i]| - depth == h
    ensures l == r ==> h == 0
    decreases r - l
  {
    if l == r then 0
    else
      var h := Height(ws, l + 1, r, depth);
      if |ws[l]| - depth > h || l + 1 == r then |ws[l]| - depth else h
  }

  lemma HeightDrops(ws: seq<Word>, l: nat, r: nat, depth: nat, from: nat, to: nat)
    requires Reaches(ws, l, r, depth) && l <= from < to <= r && Reaches(ws, from, to, depth + 1)
    ensures Height(ws, from, to, depth + 1) < Height(ws, l, r, depth)
  {
    var h := Height(ws, from, to, depth + 1);
    var i :| from <= i < to && |ws[i]| - (depth + 1) == h;
  }

  function Build(ws: seq<Word>, l: nat, r: nat, depth: nat): Expr
    requires Reaches(ws, l, r, depth)
    decreases Height(ws, l, r, depth), 1
  {
    var cs := Children(ws, l, r, depth);
    var alts := (if cs == [] then [] else [NotIn(NextChars(cs))]) + Branches(ws, l, r, depth, cs);
    if alts == [] then Nothing else Choice(alts)
  }

  function Branches(ws: seq<Word>, l: nat, r: nat, depth: nat, cs: seq<Child>): (alts: seq<Alt>)
    requires Reaches(ws, l, r, depth)
    requires forall k :: 0 <= k < |cs| ==> l <= cs[k].from < cs[k].to <= r && Reaches(ws, cs[k].from, cs[k].to, depth + 1)
    decreases Height(ws, l, r, depth), 0, |cs|
  {
    if cs == [] then []
    else
      HeightDrops(ws, l, r, depth, cs[0].from, cs[0].to);
      var child := Build(ws, cs[0].from, cs[0].to, depth + 1);
      (if child.Nothing? then [] else [Branch(cs[0].c, child)]) + Branches(ws, l, r, depth, cs[1..])
  }

  /** The children from `i` on: a word that ends here has none, and a group of words has one. */
  lemma NextChild(ws: seq<Word>, i: nat, r: nat, depth: nat, before: seq<Child>)
    requires Reaches(ws, i, r, depth) && i < r
    ensures Reaches(ws, i + 1, r, depth) && i < |ws| && depth <= |ws[i]|
    ensures |ws[i]| == depth ==> Children(ws, i, r, depth) == Children(ws, i + 1, r, depth)
    ensures |ws[i]| > depth ==>
              var j := GroupEnd(ws, i, r, depth, ws[i][depth]);
              && i < j && Reaches(ws, j, r, depth)
              && before + Children(ws, i, r, depth) == before + [Child(ws[i][depth], i, j)] + Children(ws, j, r, depth)
  {
    hide GroupEnd;
    if |ws[i]| > depth {
      var j := GroupEnd(ws, i, r, depth, ws[i][depth]);
      assert j > i by { GroupBegins(ws, i, r, depth); }
      Associate(before, [Child(ws[i][depth], i, j)], Children(ws, j, r, depth));
    }
  }

  lemma GroupBegins(ws: seq<Word>, i: nat, r: nat, depth: nat)
    requires i < r <= |ws| && depth < |ws[i]|
    ensures i < GroupEnd(ws, i, r, depth, ws[i][depth])
  {
  }

  lemma Associate(a: seq<Child>, b: seq<Child>, c: seq<Child>)
    ensures a + (b + c) == a + b + c
  {
  }

  /** The first loop of `build_expr`. */
  method CollectChildren(ws: seq<Word>, l: nat, r: nat, depth: nat) returns (children: seq<Child>)
    requires Reaches(ws, l, r, depth)
    ensures children == Children(ws, l, r, depth)
  {
    hide GroupEnd, Children, Reaches;
    Reaching(ws, l, r, depth);
    children := [];
    var i := l;
    while i < r
      invariant l <= i <= r <= |ws| && Reaches(ws, i, r, depth)
      invariant children + Children(ws, i, r, depth) == Children(ws, l, r, depth)
    {
      NextChild(ws, i, r, depth, children);
      var s := ws[i];
      if |s| == depth {
        i := i + 1;
        continue;
      }
      var c := s[depth];
      var j := FindGroupEnd(ws, i, r, depth, c);
      children := children + [Child(c, i, j)];
      i := j;
    }
    NoMoreChildren(ws, r, depth, children);
  }

  lemma Reaching(ws: seq<Word>, l: nat, r: nat, depth: nat)
    requires Reaches(ws, l, r, depth)
    ensures l <= r <= |ws|
  {
  }

  lemma NoMoreChildren(ws: seq<Word>, r: nat, depth: nat, children: seq<Child>)
    requires Reaches(ws, r, r, depth)
    ensures children + Children(ws, r, r, depth) == children
  {
  }

  method FindGroupEnd(ws: seq<Word>, i: nat, r: nat, depth: nat, c: symbol) returns (j: nat)
    requires i <= r <= |ws|
    ensures j == GroupEnd(ws, i, r, depth, c)
  {
    j := i;
    while j < r && |ws[j]| > depth && ws[j][depth] == c
      invariant i <= j <= r
      invariant GroupEnd(ws, j, r, depth, c) == GroupEnd(ws, i, r, depth, c)
    {
      j := j + 1;
    }
  }

  method BuildExpr(ws: seq<Word>, l: nat, r: nat, depth: nat) returns (e: Expr)
    requires Reaches(ws, l, r, depth)
    ensures e == Build(ws, l, r, depth)
    decreases Height(ws, l, r, depth)
  {
    hide Children, Height, NextChars, Branches, Build, Reaches;
    var children := CollectChildren(ws, l, r, depth);
    var alts: seq<Alt> := if children == [] then [] else [NotIn(NextChars(children))];
    ghost var first := alts;
    var k := 0;
    assert children[0..] == children;
    while k < |children|
      invariant 0 <= k <= |children|
      invariant alts + Branches(ws, l, r, depth, children[k..]) == first + Branches(ws, l, r, depth, children)
    {
      var ch := children[k];
      HeightDrops(ws, l, r, depth, ch.from, ch.to);
      var childExpr := BuildExpr(ws, ch.from, ch.to, depth + 1);
      BranchesFrom(ws, l, r, depth, children, k, alts);
      if !childExpr.Nothing? {
        alts := alts + [Branch(ch.c, childExpr)];
      }
      k := k + 1;
    }
    NoBranchesLeft(ws, l, r, depth, children, alts);
    if alts == [] { return Nothing; }
    e := Choice(alts);
  }

  lemma BranchesFrom(ws: seq<Word>, l: nat, r: nat, depth: nat, cs: seq<Child>, k: nat, alts: seq<Alt>)
    requires Reaches(ws, l, r, depth) && k < |cs|
    requires forall k :: 0 <= k < |cs| ==> l <= cs[k].from < cs[k].to <= r && Reaches(ws, cs[k].from, cs[k].to, depth + 1)
    ensures var child := Build(ws, cs[k].from, cs[k].to, depth + 1);
            var rest := Branches(ws, l, r, depth, cs[k + 1..]);
            alts + Branches(ws, l, r, depth, cs[k..]) ==
              if child.Nothing? then alts + rest else alts + [Branch(cs[k].c, child)] + rest
  {
    hide Build, Height;
    assert cs[k..][1..] == cs[k + 1..];
    var child := Build(ws, cs[k].from, cs[k].to, depth + 1);
    var rest := Branches(ws, l, r, depth, cs[k + 1..]);
    if child.Nothing? {
      assert [] + rest == rest;
    } else {
      assert alts + ([Branch(cs[k].c, child)] + rest) == alts + [Branch(cs[k].c, child)] + rest;
    }
  }

  /** All branches have been collected. */
  lemma NoBranchesLeft(ws: seq<Word>, l: nat, r: nat, depth: nat, cs: seq<Child>, alts: seq<Alt>)
    requires Reaches(ws, l, r, depth) && cs == Children(ws, l, r, depth)
    requires var first: seq<Alt> := if cs == [] then [] else [NotIn(NextChars(cs))];
             alts + Branches(ws, l, r, depth, cs[|cs|..]) == first + Branches(ws, l, r, depth, cs)
    ensures Build(ws, l, r, depth) == if alts == [] then Nothing else Choice(alts)
  {
    hide Children, Height, NextChars;
    assert cs[|cs|..] == [];
    assert alts + [] == alts;
  }

  /** The whole grammar is the repetition of one expression. */
  function Grammar(forbids: seq<Word>): Expr {
    var ws := Sort(forbids);
    if forbids == [] then Choice([Any])
    else
      var e := Build(ws, 0, |ws|, 0);
      if e.Nothing? then Choice([NotIn(Heads(ws))]) else e
  }

  function Heads(ws: seq<Word>): seq<symbol>
    decreases |ws|
  {
    if ws == [] then [] else (if ws[0] == [] then [] else [ws[0][0]]) + Heads(ws[1..])
  }

  lemma NextHead(ws: seq<Word>, i: nat, before: seq<symbol>)
    requires i < |ws|
    ensures ws[i] == [] ==> Heads(ws[i..]) == Heads(ws[i + 1..])
    ensures ws[i] != [] ==> before + Heads(ws[i..]) == before + [ws[i][0]] + Heads(ws[i + 1..])
  {
    assert ws[i..][1..] == ws[i + 1..];
    if ws[i] != [] { assert before + ([ws[i][0]] + Heads(ws[i + 1..])) == before + [ws[i][0]] + Heads(ws[i + 1..]); }
  }

  lemma NoMoreHeads(ws: seq<Word>, cls: seq<symbol>)
    ensures cls + Heads(ws[|ws|..]) == cls && ws[0..] == ws && [] + Heads(ws) == Heads(ws)
  {
  }

  /** The loop over the words when the tree has no alternatives. */
  method CollectHeads(ws: seq<Word>) returns (cls: seq<symbol>)
    ensures cls == Heads(ws)
  {
    hide Heads;
    cls := [];
    var i := 0;
    NoMoreHeads(ws, []);
    while i < |ws|
      invariant 0 <= i <= |ws| && cls + Heads(ws[i..]) == Heads(ws)
    {
      NextHead(ws, i, cls);
      if ws[i] != [] { cls := cls + [ws[i][0]]; }
      i := i + 1;
    }
    NoMoreHeads(ws, cls);
  }

  method MakeExpr(forbids: seq<Word>) returns (e: Expr)
    ensures e == Grammar(forbids)
  {
    hide Build, Sort, Height, Heads;
    if forbids == [] { return Choice([Any]); }
    var ws := Sort(forbids);
    e := BuildExpr(ws, 0, |ws|, 0);
    if e.Nothing? {
      var cls := CollectHeads(ws);
      e := Choice([NotIn(cls)]);
    }
  }

  // --------------------------------------------------------------------- the chunk language

  /** Some forbidden word begins with `p`. */
  ghost predicate Begins(ws: seq<Word>, p: Word) {
    exists i :: 0 <= i < |ws| && p <= ws[i]
  }

  ghost predicate BeginsProperly(ws: seq<Word>, p: Word) {
    exists i :: 0 <= i < |ws| && p < ws[i]
  }

  /** A proper beginning of a forbidden word and one more character that leaves all of them. */
  ghost predicate Chunk(ws: seq<Word>, w: Word) {
    w != [] && BeginsProperly(ws, w[..|w| - 1]) && !Begins(ws, w)
  }

  ghost predicate Accepted(ws: seq<Word>, s: Word)
    decreases |s|
  {
    s == [] || exists k :: 1 <= k <= |s| && Chunk(ws, s[..k]) && Accepted(ws, s[k..])
  }

  /** The range holds exactly the words that begin with `p`. */
  ghost predicate RangeOf(ws: seq<Word>, l: nat, r: nat, p: Word) {
    l <= r <= |ws| && forall i :: 0 <= i < |ws| ==> (l <= i < r <==> p <= ws[i])
  }

  lemma {:induction false} LeqPrefix(p: Word, a: Word, b: Word)
    requires p <= a && p <= b && Leq(a, b)
    ensures Leq(a[|p|..], b[|p|..])
    decreases |p|
  {
    if p != [] {
      assert a[1..][|p| - 1..] == a[|p|..] && b[1..][|p| - 1..] == b[|p|..];
      assert p[1..] <= a[1..] && p[1..] <= b[1..];
      LeqPrefix(p[1..], a[1..], b[1..]);
    }
  }

  /** In a sorted range of words that begin with `p`, the next characters never go down. */
  lemma NextSorted(ws: seq<Word>, l: nat, r: nat, p: Word, i: nat, j: nat)
    requires Sorted(ws) && RangeOf(ws, l, r, p) && l <= i <= j < r
    ensures |p| < |ws[i]| ==> |p| < |ws[j]| && ws[i][|p|] <= ws[j][|p|]
  {
    if i < j {
      LeqPrefix(p, ws[i], ws[j]);
      assert |p| < |ws[i]| ==> ws[i][|p|..][0] == ws[i][|p|];
      assert |p| < |ws[j]| ==> ws[j][|p|..][0] == ws[j][|p|];
    }
  }

  lemma Extend(p: Word, w: Word, c: symbol)
    ensures p + [c] <= w <==> p <= w && |p| < |w| && w[|p|] == c
  {
    if p <= w && |p| < |w| && w[|p|] == c { assert w[..|p| + 1] == p + [c]; }
    if p + [c] <= w { assert w[|p|] == (p + [c])[|p|] && w[..|p|] == (p + [c])[..|p|]; }
  }

  /** Every child is the complete range of its longer prefix. */
  ghost predicate Ranges(ws: seq<Word>, p: Word, cs: seq<Child>) {
    forall k :: 0 <= k < |cs| ==> RangeOf(ws, cs[k].from, cs[k].to, p + [cs[k].c])
  }

  /** Every next character has a child. */
  ghost predicate Covers(ws: seq<Word>, i: nat, r: nat, p: Word, cs: seq<Child>)
    requires i <= r <= |ws|
  {
    forall j :: i <= j < r && |p| < |ws[j]| ==> exists k :: 0 <= k < |cs| && cs[k].c == ws[j][|p|]
  }

  lemma NothingToCover(ws: seq<Word>, r: nat, p: Word)
    requires r <= |ws|
    ensures Ranges(ws, p, []) && Covers(ws, r, r, p, [])
  {
  }

  lemma CoversSkip(ws: seq<Word>, i: nat, r: nat, p: Word, cs: seq<Child>)
    requires i < r <= |ws| && |ws[i]| == |p| && Covers(ws, i + 1, r, p, cs)
    ensures Covers(ws, i, r, p, cs)
  {
  }

  /** From `i` on, every child is the complete range of its longer prefix, and every next character has a child. */
  lemma {:induction false} ChildrenComplete(ws: seq<Word>, l: nat, i: nat, r: nat, p: Word)
    requires Sorted(ws) && RangeOf(ws, l, r, p) && l <= i <= r
    requires Reaches(ws, i, r, |p|)
    requires i == l || i == r || |ws[i]| == |p| || |ws[i - 1]| == |p| || ws[i - 1][|p|] < ws[i][|p|]
    ensures var cs := Children(ws, i, r, |p|);
            Ranges(ws, p, cs) && Covers(ws, i, r, p, cs)
    decreases r - i
  {
    hide GroupEnd, Sorted, Ranges, Covers;
    if i == r {
      NothingToCover(ws, r, p);
    } else {
      if |ws[i]| == |p| {
        ChildrenComplete(ws, l, i + 1, r, p);
        CoversSkip(ws, i, r, p, Children(ws, i + 1, r, |p|));
      } else {
        var c := ws[i][|p|];
        var e := GroupEnd(ws, i, r, |p|, c);
        GroupIsRange(ws, l, i, e, r, p);
        if e < r { NextSorted(ws, l, r, p, e - 1, e); }
        ChildrenComplete(ws, l, e, r, p);
        ConsComplete(ws, i, e, r, p, Child(c, i, e), Children(ws, e, r, |p|));
      }
    }
  }

  lemma ConsComplete(ws: seq<Word>, i: nat, e: nat, r: nat, p: Word, ch: Child, tail: seq<Child>)
    requires i < e <= r <= |ws|
    requires RangeOf(ws, ch.from, ch.to, p + [ch.c])
    requires forall j :: i <= j < e ==> |p| < |ws[j]| && ws[j][|p|] == ch.c
    requires Ranges(ws, p, tail) && Covers(ws, e, r, p, tail)
    ensures Ranges(ws, p, [ch] + tail) && Covers(ws, i, r, p, [ch] + tail)
  {
    hide RangeOf;
    var cs := [ch] + tail;
    forall j | i <= j < r && |p| < |ws[j]| ensures exists k :: 0 <= k < |cs| && cs[k].c == ws[j][|p|] {
      if j < e {
        assert cs[0].c == ws[j][|p|];
      } else {
        var k :| 0 <= k < |tail| && tail[k].c == ws[j][|p|];
        assert cs[k + 1] == tail[k];
      }
    }
  }

  lemma GroupIsRange(ws: seq<Word>, l: nat, i: nat, e: nat, r: nat, p: Word)
    requires Sorted(ws) && RangeOf(ws, l, r, p) && l <= i < r && |p| < |ws[i]|
    requires i == l || |ws[i - 1]| == |p| || (|p| < |ws[i - 1]| && ws[i - 1][|p|] < ws[i][|p|])
    requires e == GroupEnd(ws, i, r, |p|, ws[i][|p|])
    ensures RangeOf(ws, i, e, p + [ws[i][|p|]])
  {
    var c := ws[i][|p|];
    forall k | 0 <= k < |ws| ensures i <= k < e <==> p + [c] <= ws[k] {
      Extend(p, ws[k], c);
      if l <= k < i { NextSorted(ws, l, r, p, k, i - 1); }
      if e <= k < r { NextSorted(ws, l, r, p, i, e); NextSorted(ws, l, r, p, e, k); }
    }
  }

  /** A node matches exactly what completes its prefix to a chunk. */
  lemma {:induction false} BuildMatches(ws: seq<Word>, l: nat, r: nat, p: Word, v: Word)
    requires Sorted(ws) && RangeOf(ws, l, r, p) && l < r && Reaches(ws, l, r, |p|)
    ensures Matches(Build(ws, l, r, |p|), v) <==> Chunk(ws, p + v)
    decreases Height(ws, l, r, |p|)
  {
    hide Build, Children, Branches, Height, Matches, AltMatches, NextChars, Chunk, Sorted, RangeOf, Ranges, Covers;
    var cs := Children(ws, l, r, |p|);
    ChildrenComplete(ws, l, l, r, p);
    if v == [] {
      NothingMatches(ws, l, r, p, cs);
    } else if k :| 0 <= k < |cs| && cs[k].c == v[0] {
      HeightDrops(ws, l, r, |p|, cs[k].from, cs[k].to);
      RangeOfChild(ws, p, cs, k);
      BuildMatches(ws, cs[k].from, cs[k].to, p + [v[0]], v[1..]);
      assert p + v == (p + [v[0]]) + v[1..];
      MatchesByChild(ws, l, r, p, cs, k, v);
    } else {
      MatchesByClass(ws, l, r, p, cs, v);
    }
  }

  lemma RangeOfChild(ws: seq<Word>, p: Word, cs: seq<Child>, k: nat)
    requires k < |cs| && Ranges(ws, p, cs)
    ensures RangeOf(ws, cs[k].from, cs[k].to, p + [cs[k].c])
  {
  }

  lemma NothingMatches(ws: seq<Word>, l: nat, r: nat, p: Word, cs: seq<Child>)
    requires RangeOf(ws, l, r, p) && l < r && Reaches(ws, l, r, |p|) && cs == Children(ws, l, r, |p|)
    ensures !Matches(Build(ws, l, r, |p|), []) && !Chunk(ws, p + [])
  {
    hide Build, Children, Branches, Height, Matches, NextChars;
    BuildAlts(ws, l, r, |p|, []);
    BranchesMatch(ws, l, r, |p|, cs, []);
    assert p + [] == p <= ws[l];
  }

  lemma MatchesByChild(ws: seq<Word>, l: nat, r: nat, p: Word, cs: seq<Child>, k: nat, v: Word)
    requires Reaches(ws, l, r, |p|) && cs == Children(ws, l, r, |p|) && Ranges(ws, p, cs)
    requires k < |cs| && v != [] && cs[k].c == v[0]
    ensures Matches(Build(ws, l, r, |p|), v) <==> Matches(Build(ws, cs[k].from, cs[k].to, |p| + 1), v[1..])
  {
    hide Build, Children, Branches, Height, Matches, AltMatches, RangeOf;
    BuildAlts(ws, l, r, |p|, v);
    BranchesMatch(ws, l, r, |p|, cs, v);
    SameChild(ws, p, cs, k);
    assert NextChars(cs)[k] == v[0];
    assert ChildMatches(ws, cs[k], |p|, v) <==> Matches(Build(ws, cs[k].from, cs[k].to, |p| + 1), v[1..]);
  }

  lemma MatchesByClass(ws: seq<Word>, l: nat, r: nat, p: Word, cs: seq<Child>, v: Word)
    requires RangeOf(ws, l, r, p) && l < r && Reaches(ws, l, r, |p|) && cs == Children(ws, l, r, |p|)
    requires Ranges(ws, p, cs) && Covers(ws, l, r, p, cs)
    requires v != [] && forall k :: 0 <= k < |cs| ==> cs[k].c != v[0]
    ensures Matches(Build(ws, l, r, |p|), v) <==> Chunk(ws, p + v)
  {
    hide Build, Branches, Height, Matches, AltMatches, Chunk, Children, Sorted, Reaches;
    BuildAlts(ws, l, r, |p|, v);
    BranchesMatch(ws, l, r, |p|, cs, v);
    if cs != [] {
      Extend(p, ws[cs[0].from], cs[0].c);
      assert p + [cs[0].c] <= ws[cs[0].from];
    }
    NoChild(ws, l, r, p, cs, v);
  }

  /** A next character has only one child. */
  lemma SameChild(ws: seq<Word>, p: Word, cs: seq<Child>, k: nat)
    requires k < |cs| && Ranges(ws, p, cs) && forall k :: 0 <= k < |cs| ==> cs[k].from < cs[k].to
    ensures forall m :: 0 <= m < |cs| && cs[m].c == cs[k].c ==> cs[m] == cs[k]
  {
    forall m | 0 <= m < |cs| && cs[m].c == cs[k].c ensures cs[m] == cs[k] {
      assert cs[m].from <= cs[m].from < cs[m].to && cs[k].from <= cs[k].from < cs[k].to;
      assert p + [cs[k].c] <= ws[cs[m].from] && p + [cs[k].c] <= ws[cs[k].from];
      assert p + [cs[k].c] <= ws[cs[m].to - 1] && p + [cs[k].c] <= ws[cs[k].to - 1];
    }
  }

  /** A character that continues no word with the prefix. */
  lemma NoChild(ws: seq<Word>, l: nat, r: nat, p: Word, cs: seq<Child>, v: Word)
    requires RangeOf(ws, l, r, p) && l < r && v != []
    requires cs == [] <==> forall j :: l <= j < r ==> |ws[j]| <= |p|
    requires forall j :: l <= j < r && |p| < |ws[j]| ==> ws[j][|p|] != v[0]
    ensures Chunk(ws, p + v) <==> cs != [] && |v| == 1
  {
    var c := v[0];
    var w := p + v;
    forall i | 0 <= i < |ws| ensures !(p + [c] <= ws[i]) {
      Extend(p, ws[i], c);
    }
    assert w == (p + [c]) + v[1..];
    if |v| == 1 {
      assert w == p + [c] && w[..|w| - 1] == p;
      if cs != [] {
        var j :| l <= j < r && |p| < |ws[j]|;
        assert p < ws[j];
      }
      assert BeginsProperly(ws, p) ==> cs != [] by {
        if i :| 0 <= i < |ws| && p < ws[i] { assert l <= i < r; }
      }
    } else {
      var most := w[..|w| - 1];
      assert p + [c] == most[..|p| + 1];
      forall i | 0 <= i < |ws| ensures !(most < ws[i]) {
        NotBeyond(p + [c], most, ws[i]);
      }
    }
  }

  lemma NotBeyond(a: Word, b: Word, c: Word)
    requires a <= b && !(a <= c)
    ensures !(b <= c)
  {
    assert b[..|a|] == a;
    if |b| <= |c| { assert c[..|b|][..|a|] == c[..|a|]; }
  }

  lemma PrefixTrans(a: Word, b: Word, c: Word)
    requires a <= b <= c
    ensures a <= c
  {
    assert c[..|a|] == b[..|a|];
  }

  lemma BuildAlts(ws: seq<Word>, l: nat, r: nat, depth: nat, v: Word)
    requires Reaches(ws, l, r, depth)
    ensures var cs := Children(ws, l, r, depth);
            Matches(Build(ws, l, r, depth), v) <==>
              || (cs != [] && |v| == 1 && v[0] !in NextChars(cs))
              || (exists a :: a in Branches(ws, l, r, depth, cs) && AltMatches(a, v))
  {
    hide Children, Branches, Height, Matches, AltMatches, Reaches;
    var cs := Children(ws, l, r, depth);
    ClassOfSome(cs, v);
    ChoiceMatches(if cs == [] then [] else [NotIn(NextChars(cs))], Branches(ws, l, r, depth, cs), v);
  }

  lemma ClassOfSome(cs: seq<Child>, v: Word)
    ensures cs != [] ==> (AltMatches(NotIn(NextChars(cs)), v) <==> |v| == 1 && v[0] !in NextChars(cs))
  {
  }

  lemma ChoiceMatches(first: seq<Alt>, bs: seq<Alt>, v: Word)
    requires |first| <= 1
    ensures Matches(if first + bs == [] then Nothing else Choice(first + bs), v) <==>
              (first != [] && AltMatches(first[0], v)) || exists a :: a in bs && AltMatches(a, v)
  {
    hide AltMatches;
    assert forall a :: a in first + bs <==> (first != [] && a == first[0]) || a in bs;
  }

  lemma {:induction false} BranchesMatch(ws: seq<Word>, l: nat, r: nat, depth: nat, cs: seq<Child>, v: Word)
    requires Reaches(ws, l, r, depth)
    requires forall k :: 0 <= k < |cs| ==> l <= cs[k].from < cs[k].to <= r && Reaches(ws, cs[k].from, cs[k].to, depth + 1)
    ensures (exists a :: a in Branches(ws, l, r, depth, cs) && AltMatches(a, v)) <==>
              exists k :: 0 <= k < |cs| && ChildMatches(ws, cs[k], depth, v)
    decreases |cs|
  {
    hide Build, Height, ChildMatches, AltMatches;
    if cs != [] {
      BranchesMatch(ws, l, r, depth, cs[1..], v);
      HeightDrops(ws, l, r, depth, cs[0].from, cs[0].to);
      var child := Build(ws, cs[0].from, cs[0].to, depth + 1);
      var first: seq<Alt> := if child.Nothing? then [] else [Branch(cs[0].c, child)];
      var rest := Branches(ws, l, r, depth, cs[1..]);
      assert Branches(ws, l, r, depth, cs) == first + rest;
      assert forall a :: a in first + rest <==> a in first || a in rest;
      FirstBranch(ws, cs[0], depth, v, first);
      if k :| 0 <= k < |cs| && ChildMatches(ws, cs[k], depth, v) {
        if k > 0 { assert cs[1..][k - 1] == cs[k]; }
      }
    }
  }

  ghost predicate ChildMatches(ws: seq<Word>, ch: Child, depth: nat, v: Word)
    requires Reaches(ws, ch.from, ch.to, depth + 1)
  {
    v != [] && ch.c == v[0] && Matches(Build(ws, ch.from, ch.to, depth + 1), v[1..])
  }

  lemma FirstBranch(ws: seq<Word>, ch: Child, depth: nat, v: Word, first: seq<Alt>)
    requires Reaches(ws, ch.from, ch.to, depth + 1)
    requires var child := Build(ws, ch.from, ch.to, depth + 1);
             first == if child.Nothing? then [] else [Branch(ch.c, child)]
    ensures (exists a :: a in first && AltMatches(a, v)) <==> ChildMatches(ws, ch, depth, v)
  {
    hide Build;
    var child := Build(ws, ch.from, ch.to, depth + 1);
    if !child.Nothing? { assert Branch(ch.c, child) in first; }
  }

  // ------------------------------------------------------------------------ the language

  /** The language of the whole grammar: repetitions of its expression. */
  ghost predicate Generates(forbids: seq<Word>, s: Word)
    decreases |s|
  {
    s == [] || exists k :: 1 <= k <= |s| && Matches(Grammar(forbids), s[..k]) && Generates(forbids, s[k..])
  }

  ghost predicate HasLetters(ws: seq<Word>) { exists i :: 0 <= i < |ws| && ws[i] != [] }

  lemma SameWords(a: seq<Word>, b: seq<Word>, w: Word)
    requires multiset(a) == multiset(b)
    ensures Begins(a, w) ==> Begins(b, w)
    ensures BeginsProperly(a, w) ==> BeginsProperly(b, w)
    ensures HasLetters(a) ==> HasLetters(b)
  {
    forall i | 0 <= i < |a| ensures exists j :: 0 <= j < |b| && b[j] == a[i] {
      assert a[i] in multiset(b);
    }
  }

  lemma SortedChunk(ws: seq<Word>, w: Word)
    ensures Chunk(Sort(ws), w) <==> Chunk(ws, w)
    ensures HasLetters(Sort(ws)) <==> HasLetters(ws)
  {
    hide Sort, Begins, BeginsProperly, HasLetters;
    var s := Sort(ws);
    SameWords(s, ws, w);
    SameWords(ws, s, w);
    if w != [] {
      SameWords(s, ws, w[..|w| - 1]);
      SameWords(ws, s, w[..|w| - 1]);
    }
  }

  /** THE EXCLUDING GRAMMAR, EXACTLY. For every list of words with at least one letter the repeated expression
      matches exactly the chunks, for no words any single character, and for empty words nothing but the empty text. */
  lemma GrammarIsExact(forbids: seq<Word>, w: Word)
    ensures HasLetters(forbids) ==> (Matches(Grammar(forbids), w) <==> Chunk(forbids, w))
    ensures forbids == [] ==> (Matches(Grammar(forbids), w) <==> |w| == 1)
    ensures forbids != [] && !HasLetters(forbids) ==> (Matches(Grammar(forbids), w) <==> w == [])
  {
    hide Sort, Build, Height, Children, Chunk;
    var ws := Sort(forbids);
    SortedChunk(forbids, w);
    if forbids == [] {
      OneAlternative(Any, w);
    } else {
      assert ws != [] by { assert forbids[0] in multiset(ws); }
      assert RangeOf(ws, 0, |ws|, []);
      RootAlternatives(ws);
      BuildMatches(ws, 0, |ws|, [], w);
      assert [] + w == w;
      if Build(ws, 0, |ws|, 0).Nothing? {
        NoHeads(ws);
        OneAlternative(NotIn([]), w);
      }
    }
  }

  lemma OneAlternative(a: Alt, w: Word)
    ensures Matches(Choice([a]), w) <==> AltMatches(a, w)
  {
    assert a in [a];
  }

  lemma {:induction false} NoHeads(ws: seq<Word>)
    requires !HasLetters(ws)
    ensures Heads(ws) == []
    decreases |ws|
  {
    if ws != [] {
      assert ws[0] == [];
      assert forall i :: 0 <= i < |ws| - 1 ==> ws[1..][i] == ws[i + 1];
      NoHeads(ws[1..]);
    }
  }

  lemma RootAlternatives(ws: seq<Word>)
    requires Sorted(ws)
    ensures Build(ws, 0, |ws|, 0).Nothing? <==> !HasLetters(ws)
  {
    hide Build, Children;
    assert RangeOf(ws, 0, |ws|, []);
    ChildrenComplete(ws, 0, 0, |ws|, []);
    var cs := Children(ws, 0, |ws|, 0);
    BuildNothing(ws);
    if cs != [] {
      assert [] + [cs[0].c] <= ws[cs[0].from];
    }
  }

  lemma BuildNothing(ws: seq<Word>)
    ensures Build(ws, 0, |ws|, 0).Nothing? <==> Children(ws, 0, |ws|, 0) == []
  {
  }

  /** The language: sequences of chunks; everything for no words; the empty text for words without letters. */
  lemma {:induction false} LanguageIsExact(forbids: seq<Word>, s: Word)
    ensures HasLetters(forbids) ==> (Generates(forbids, s) <==> Accepted(forbids, s))
    ensures forbids == [] ==> Generates(forbids, s)
    ensures forbids != [] && !HasLetters(forbids) ==> (Generates(forbids, s) <==> s == [])
    decreases |s|
  {
    hide Grammar, Chunk, Matches;
    forall k | 1 <= k <= |s| ensures Repeats(forbids, s[..k]) {
      GrammarIsExact(forbids, s[..k]);
    }
    forall k | 1 <= k <= |s| ensures HasLetters(forbids) ==> (Generates(forbids, s[k..]) <==> Accepted(forbids, s[k..])) {
      LanguageIsExact(forbids, s[k..]);
    }
    if s != [] && forbids == [] {
      LanguageIsExact(forbids, s[1..]);
      assert Repeats(forbids, s[..1]);
    }
  }

  /** What `GrammarIsExact` says about one text. */
  ghost predicate Repeats(forbids: seq<Word>, w: Word) {
    Matches(Grammar(forbids), w) <==>
      if forbids == [] then |w| == 1 else if HasLetters(forbids) then Chunk(forbids, w) else w == []
  }
}
