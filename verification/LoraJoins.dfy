/** Joining and stacking pairs along the first dimension (`torch.cat` and `torch.stack` on `LoraTorchTensor`). */
module LoraJoins {
  import opened Wrappers
  import opened Tensors
  import opened Lora

  predicate AllValid(ls: seq<Lora>) {
    ls != [] && forall i :: 0 <= i < |ls| ==> Valid(ls[i])
  }

  function PartsA(ls: seq<Lora>): (r: seq<Tensor>)
    ensures |r| == |ls| && forall i :: 0 <= i < |ls| ==> r[i] == ls[i].a
  {
    seq(|ls|, i requires 0 <= i < |ls| => ls[i].a)
  }

  function PartsB(ls: seq<Lora>): (r: seq<Tensor>)
    ensures |r| == |ls| && forall i :: 0 <= i < |ls| ==> r[i] == ls[i].b
  {
    seq(|ls|, i requires 0 <= i < |ls| => ls[i].b)
  }

  function Products(ls: seq<Lora>): (r: seq<Tensor>)
    requires forall i :: 0 <= i < |ls| ==> Valid(ls[i])
    ensures |r| == |ls|
  {
    seq(|ls|, i requires 0 <= i < |ls| => Product(ls[i]))
  }

  // ---------------------------------------------------------------------------------- stack

  function StackLora(ls: seq<Lora>): Answer
    requires AllValid(ls)
  {
    if !SameShape(PartsA(ls)) || !SameShape(PartsB(ls)) then Err(ShapeError)
    else Make(Stack(PartsA(ls)), Stack(PartsB(ls)))
  }

  lemma LeadCons(d: nat, s: seq<nat>)
    requires |s| >= 2
    ensures Lead([d] + s) == [d] + Lead(s) && Front([d] + s) == [d] + Front(s) && Last([d] + s) == Last(s)
    ensures ([d] + s)[|s| - 1] == s[|s| - 2]
  {
  }

  /** Whenever a stack of pairs is built, it stands for the stack of their products. */
  lemma StackCommutes(ls: seq<Lora>)
    requires AllValid(ls) && StackLora(ls).Ok?
    ensures var r := StackLora(ls).value;
            Valid(r) && SameShape(Products(ls)) && Same(Product(r), Stack(Products(ls)))
  {
    hide ProductAt;
    var as', bs := PartsA(ls), PartsB(ls);
    var r := StackLora(ls).value;
    var a, b := as'[0].shape, bs[0].shape;
    LeadCons(|ls|, a);
    LeadCons(|ls|, b);
    assert forall i :: 0 <= i < |ls| ==> as'[i].shape == ls[i].a.shape && bs[i].shape == ls[i].b.shape;
    assert Valid(ls[0]);
    assert Valid(r) by { BroadcastsCons(|ls|, Lead(a), Lead(b)); }
    assert Shape(r) == [|ls|] + Shape(ls[0]);
    forall ix: seq<nat> | Within(ix, Shape(r)) ensures Product(r).at(ix) == Stack(Products(ls)).at(ix) {
      StackedEntry(ls, r, ix);
    }
  }

  lemma BroadcastsCons(d: nat, u: seq<nat>, v: seq<nat>)
    requires Broadcasts(u, v)
    ensures Broadcasts([d] + u, [d] + v)
  {
  }

  lemma StackedEntry(ls: seq<Lora>, r: Lora, ix: seq<nat>)
    requires AllValid(ls) && SameShape(PartsA(ls)) && SameShape(PartsB(ls))
    requires r == Lora(Stack(PartsA(ls)), Stack(PartsB(ls))) && Valid(r) && Within(ix, Shape(r))
    ensures ix[0] < |ls| && ProductAt(r, ix) == Product(ls[ix[0]]).at(ix[1..])
  {
    hide Dot, Factor;
    assert ix[0] < Shape(r)[0] == |ls|;
    var t, u := ix[0], ix[1..];
    var l := ls[t];
    var as', bs := PartsA(ls), PartsB(ls);
    assert as'[t].shape == as'[0].shape && bs[t].shape == bs[0].shape;
    LeadCons(|ls|, l.a.shape);
    LeadCons(|ls|, l.b.shape);
    LeadCons(t, u);
    assert ix == [t] + u;
    ClampCons(|ls|, Lead(l.a.shape), Lead(ix));
    assert Lead(ix)[1..] == Lead(u);
    forall q: nat ensures r.b.at(Front(ix) + [q]) == l.b.at(Front(u) + [q]) {
      assert (Front(ix) + [q])[1..] == Front(u) + [q];
    }
    var w := Clamp(Lead(l.a.shape), Lead(u));
    forall q: nat ensures r.a.at(Clamp(Lead(r.a.shape), Lead(ix)) + [q, Last(ix)]) == l.a.at(w + [q, Last(u)]) {
      assert (Clamp(Lead(r.a.shape), Lead(ix)) + [q, Last(ix)])[1..] == w + [q, Last(u)];
    }
    EntriesAgree(r, ix, l, u);
  }

  // ------------------------------------------------------------------------------------ cat

  /** `cat`: matrices have to share `A`; with more dimensions both parts are joined. */
  ghost function CatLora(ls: seq<Lora>): Answer
    requires AllValid(ls)
  {
    if |Shape(ls[0])| > 2 then
      if Alike(PartsA(ls)) && Alike(PartsB(ls)) then Make(Cat(PartsA(ls)), Cat(PartsB(ls))) else Err(ShapeError)
    else if forall i :: 0 <= i < |ls| ==> Same(ls[0].a, ls[i].a) then
      if Alike(PartsB(ls)) then Make(ls[0].a, Cat(PartsB(ls))) else Err(ShapeError)
    else Err(NotImplemented)
  }

  /** The factors of an entry of the joined pair are those of the pair that the entry comes from. `shared` is the
      common `A` of matrices. */
  ghost predicate Shares(a: Tensor, ls: seq<Lora>) {
    && |a.shape| == 2
    && forall i :: 0 <= i < |ls| ==> Valid(ls[i]) && Same(a, ls[i].a)
  }

  lemma JoinedMatrix(a: Tensor, ls: seq<Lora>)
    requires ls != [] && Shares(a, ls)
    ensures Alike(PartsB(ls)) && Valid(Lora(a, Cat(PartsB(ls)))) && Make(a, Cat(PartsB(ls))) == Ok(Lora(a, Cat(PartsB(ls))))
    ensures Alike(Products(ls)) && Rows(Products(ls)) == Rows(PartsB(ls))
    ensures Cat(PartsB(ls)).shape == [Rows(PartsB(ls)), a.shape[0]] && Cat(Products(ls)).shape == [Rows(PartsB(ls)), a.shape[1]]
  {
    var bs := PartsB(ls);
    forall i | 0 <= i < |ls| ensures bs[i].shape != [] && bs[i].shape[1..] == [a.shape[0]] {
      assert Valid(ls[i]) && Same(a, ls[i].a);
    }
    forall i | 0 <= i < |ls| ensures Products(ls)[i].shape == [bs[i].shape[0], a.shape[1]] {
      assert Valid(ls[i]) && Same(a, ls[i].a);
      assert bs[i].shape[1..] == [a.shape[0]];
    }
    RowsAgree(bs, Products(ls));
  }

  lemma {:induction false} RowsAgree(ts: seq<Tensor>, us: seq<Tensor>)
    requires |ts| == |us| && forall i :: 0 <= i < |ts| ==> ts[i].shape != [] && us[i].shape != [] && ts[i].shape[0] == us[i].shape[0]
    ensures Rows(ts) == Rows(us)
  {
    if ts != [] {
      assert forall i :: 0 <= i < |ts| - 1 ==> ts[1..][i] == ts[i + 1] && us[1..][i] == us[i + 1];
      RowsAgree(ts[1..], us[1..]);
    }
  }

  lemma TailParts(ls: seq<Lora>)
    requires ls != [] && forall i :: 0 <= i < |ls| ==> Valid(ls[i])
    ensures PartsA(ls)[1..] == PartsA(ls[1..]) && PartsB(ls)[1..] == PartsB(ls[1..]) && Products(ls)[1..] == Products(ls[1..])
  {
  }

  lemma {:induction false} JoinedMatrixEntry(a: Tensor, ls: seq<Lora>, i: nat, j: nat)
    requires ls != [] && Shares(a, ls)
    requires Alike(PartsB(ls)) && Valid(Lora(a, Cat(PartsB(ls)))) && i < Rows(PartsB(ls)) && j < a.shape[1]
    ensures ProductAt(Lora(a, Cat(PartsB(ls))), [i, j]) == CatAt(Products(ls), [i, j])
    decreases |ls|
  {
    assert Valid(ls[0]);
    hide ProductAt, Shares, Valid, Alike;
    if i < ls[0].b.shape[0] {
      JoinedMatrixHere(a, ls, i, j);
    } else {
      JoinedMatrixLater(a, ls, i, j);
      JoinedMatrixEntry(a, ls[1..], i - ls[0].b.shape[0], j);
    }
  }

  lemma JoinedMatrixHere(a: Tensor, ls: seq<Lora>, i: nat, j: nat)
    requires ls != [] && Shares(a, ls)
    requires Alike(PartsB(ls)) && Valid(Lora(a, Cat(PartsB(ls)))) && j < a.shape[1]
    requires ls[0].b.shape != [] && i < ls[0].b.shape[0]
    ensures ProductAt(Lora(a, Cat(PartsB(ls))), [i, j]) == CatAt(Products(ls), [i, j])
  {
    hide Dot, Factor, Same, Clamp;
    var bs := PartsB(ls);
    var r, l := Lora(a, Cat(bs)), ls[0];
    JoinedMatrix(a, ls);
    assert Valid(l) && Same(a, l.a);
    assert forall q: nat :: Front([i, j]) + [q] == [i, q];
    SharedEntry(a, l, j);
    assert Lead([i, j]) == [];
    EntriesAgree(r, [i, j], l, [i, j]);
    assert Products(ls)[0] == Product(l);
  }

  lemma RowsTail(ts: seq<Tensor>)
    requires ts != [] && ts[0].shape != []
    ensures Rows(ts) == ts[0].shape[0] + Rows(ts[1..])
    ensures |ts| == 1 ==> Rows(ts) == ts[0].shape[0]
  {
  }

  lemma CatLater(ts: seq<Tensor>, ix: seq<nat>)
    requires ts != [] && ts[0].shape != [] && ix != [] && ix[0] >= ts[0].shape[0]
    ensures CatAt(ts, ix) == CatAt(ts[1..], [ix[0] - ts[0].shape[0]] + ix[1..])
  {
  }

  lemma JoinedMatrixLater(a: Tensor, ls: seq<Lora>, i: nat, j: nat)
    requires ls != [] && Shares(a, ls)
    requires Alike(PartsB(ls)) && Valid(Lora(a, Cat(PartsB(ls)))) && j < a.shape[1]
    requires ls[0].b.shape != [] && ls[0].b.shape[0] <= i < Rows(PartsB(ls))
    ensures var k, tail := i - ls[0].b.shape[0], ls[1..];
            && tail != [] && Shares(a, tail) && Alike(PartsB(tail)) && Valid(Lora(a, Cat(PartsB(tail)))) && k < Rows(PartsB(tail))
            && ProductAt(Lora(a, Cat(PartsB(ls))), [i, j]) == ProductAt(Lora(a, Cat(PartsB(tail))), [k, j])
            && CatAt(Products(ls), [i, j]) == CatAt(Products(tail), [k, j])
  {
    hide Dot, Factor, Same, ProductAt, CatAt, Rows, Alike;
    var bs, tail := PartsB(ls), ls[1..];
    assert Valid(ls[0]);
    var k: nat := i - ls[0].b.shape[0];
    TailParts(ls);
    JoinedMatrix(a, ls);
    RowsTail(bs);
    assert forall t :: 0 <= t < |tail| ==> tail[t] == ls[t + 1];
    JoinedMatrix(a, tail);
    RowLater(a, bs, PartsB(tail), i, j);
    assert Products(ls)[0] == Product(ls[0]) && Product(ls[0]).shape[0] == bs[0].shape[0];
    assert [k] + [i, j][1..] == [k, j];
    CatLater(Products(ls), [i, j]);
  }

  /** A row behind the first part, of matrices that share `A`. */
  lemma RowLater(a: Tensor, bs: seq<Tensor>, tail: seq<Tensor>, i: nat, j: nat)
    requires bs != [] && tail == bs[1..] && bs[0].shape != [] && bs[0].shape[0] <= i && tail != []
    requires Alike(bs) && Alike(tail)
    requires Valid(Lora(a, Cat(bs))) && Valid(Lora(a, Cat(tail))) && |a.shape| == 2
    ensures ProductAt(Lora(a, Cat(bs)), [i, j]) == ProductAt(Lora(a, Cat(tail)), [i - bs[0].shape[0], j])
  {
    hide Dot, Factor, ProductAt, CatAt, Rows;
    var k: nat := i - bs[0].shape[0];
    var r, r' := Lora(a, Cat(bs)), Lora(a, Cat(tail));
    assert Lead([k, j]) == [] == Lead([i, j]);
    forall q: nat ensures r.b.at(Front([i, j]) + [q]) == r'.b.at(Front([k, j]) + [q]) {
      assert Front([i, j]) + [q] == [i, q] && Front([k, j]) + [q] == [k, q];
      assert [k] + [i, q][1..] == [k, q];
      CatLater(bs, [i, q]);
    }
    EntriesAgree(r, [i, j], r', [k, j]);
  }

  lemma SharedEntry(a: Tensor, l: Lora, j: nat)
    requires Valid(l) && |a.shape| == 2 && Same(a, l.a) && j < a.shape[1]
    ensures Lead(a.shape) == [] == Lead(l.a.shape)
    ensures forall q: nat :: q < l.Rank() ==> a.at(Clamp([], []) + [q, j]) == l.a.at(Clamp([], []) + [q, j])
  {
    forall q: nat | q < l.Rank() ensures a.at(Clamp([], []) + [q, j]) == l.a.at(Clamp([], []) + [q, j]) {
      assert Within(Clamp([], []) + [q, j], a.shape);
    }
  }

  /** Joining matrices that share `A`, as `cat` demands, commutes with the product. */
  lemma CatMatricesCommutes(ls: seq<Lora>)
    requires AllValid(ls) && |Shape(ls[0])| == 2 && CatLora(ls).Ok?
    ensures var r := CatLora(ls).value;
            Valid(r) && Alike(Products(ls)) && Same(Product(r), Cat(Products(ls)))
  {
    hide ProductAt, Same;
    var a := ls[0].a;
    JoinedMatrix(a, ls);
    var r := CatLora(ls).value;
    forall ix: seq<nat> | Within(ix, Shape(r)) ensures Product(r).at(ix) == Cat(Products(ls)).at(ix) {
      assert ix[0] < Shape(r)[0] && ix[1] < Shape(r)[1];
      assert ix == [ix[0], ix[1]];
      JoinedMatrixEntry(a, ls, ix[0], ix[1]);
    }
    SameBy(Product(r), Cat(Products(ls)));
  }

  lemma SameBy(t: Tensor, u: Tensor)
    requires t.shape == u.shape && forall ix: seq<nat> :: Within(ix, t.shape) ==> t.at(ix) == u.at(ix)
    ensures Same(t, u)
  {
  }

  // ------------------------------------------------------------------ cat of more dimensions

  /** Pairs of more than two dimensions whose parts can be laid end to end. */
  ghost predicate Joinable(ls: seq<Lora>) {
    AllValid(ls) && |ls[0].b.shape| > 2 && Alike(PartsA(ls)) && Alike(PartsB(ls))
  }

  /** Every `A` is as long as its `B`. */
  predicate FirstsEqual(ls: seq<Lora>) {
    forall i :: 0 <= i < |ls| ==> FirstEqual(ls[i])
  }

  predicate FirstEqual(l: Lora) {
    l.a.shape != [] && l.b.shape != [] && l.a.shape[0] == l.b.shape[0]
  }

  function Joined(ls: seq<Lora>): Lora
    requires Alike(PartsA(ls)) && Alike(PartsB(ls))
  {
    Lora(Cat(PartsA(ls)), Cat(PartsB(ls)))
  }

  lemma JoinableAt(ls: seq<Lora>, i: nat)
    requires Joinable(ls) && i < |ls|
    ensures Valid(ls[i]) && |ls[i].b.shape| == |ls[0].b.shape|
    ensures ls[i].a.shape == [ls[i].a.shape[0]] + ls[0].a.shape[1..] && ls[i].b.shape == [ls[i].b.shape[0]] + ls[0].b.shape[1..]
    ensures Shape(ls[i]) == [ls[i].b.shape[0]] + Shape(ls[0])[1..]
  {
    assert PartsA(ls)[i].shape[1..] == PartsA(ls)[0].shape[1..] && PartsB(ls)[i].shape[1..] == PartsB(ls)[0].shape[1..];
    var b, b0 := ls[i].b.shape, ls[0].b.shape;
    assert b[1..] == b0[1..] && ls[i].a.shape[1..] == ls[0].a.shape[1..];
    assert Last(ls[i].a.shape) == Last(ls[i].a.shape[1..]) == Last(ls[0].a.shape);
    forall k | 1 <= k < |b| ensures Shape(ls[i])[k] == Shape(ls[0])[k] {
      assert b[k] == b[1..][k - 1] == b0[1..][k - 1] == b0[k];
    }
  }

  /** The joined pair is a pair if and only if its `A` is as long as its `B`, or 1. */
  lemma JoinedShape(ls: seq<Lora>)
    requires Joinable(ls)
    ensures var r := Joined(ls);
            && r.a.shape == [Rows(PartsA(ls))] + ls[0].a.shape[1..] && r.b.shape == [Rows(PartsB(ls))] + ls[0].b.shape[1..]
            && Make(r.a, r.b) == Ok(r)
            && (Valid(r) <==> Rows(PartsA(ls)) == 1 || Rows(PartsA(ls)) == Rows(PartsB(ls)))
            && Alike(Products(ls)) && Cat(Products(ls)).shape == [Rows(PartsB(ls))] + Shape(ls[0])[1..]
            && (Valid(r) ==> Shape(r) == Cat(Products(ls)).shape)
  {
    hide Rows, Products;
    var r := Joined(ls);
    var a, b := ls[0].a.shape, ls[0].b.shape;
    JoinableAt(ls, 0);
    LeadCons(Rows(PartsA(ls)), a[1..]);
    LeadCons(Rows(PartsB(ls)), b[1..]);
    LeadCons(a[0], a[1..]);
    LeadCons(b[0], b[1..]);
    BroadcastsTail(a[0], b[0], Lead(a[1..]), Lead(b[1..]));
    HeadBroadcasts(Rows(PartsA(ls)), Rows(PartsB(ls)), Lead(a[1..]), Lead(b[1..]));
    JoinedProducts(ls);
    assert r.a.shape[|r.a.shape| - 2] == a[|a| - 2] && Last(r.b.shape) == Last(b);
    if Valid(r) { assert Shape(r) == [Rows(PartsB(ls))] + Shape(ls[0])[1..]; }
  }

  lemma JoinedProducts(ls: seq<Lora>)
    requires Joinable(ls)
    ensures Alike(Products(ls)) && Cat(Products(ls)).shape == [Rows(PartsB(ls))] + Shape(ls[0])[1..]
  {
    JoinableAt(ls, 0);
    forall i | 0 <= i < |ls|
      ensures Products(ls)[i].shape != [] && Products(ls)[i].shape[1..] == Products(ls)[0].shape[1..]
      ensures Products(ls)[i].shape[0] == PartsB(ls)[i].shape[0]
    {
      JoinableAt(ls, i);
    }
    RowsAgree(PartsB(ls), Products(ls));
  }

  lemma HeadBroadcasts(d: nat, e: nat, u: seq<nat>, v: seq<nat>)
    requires Broadcasts(u, v)
    ensures Broadcasts([d] + u, [e] + v) <==> d == 1 || d == e
  {
    if d == 1 || d == e {
      forall i | 0 <= i < |u| + 1 ensures ([d] + u)[i] == 1 || ([d] + u)[i] == ([e] + v)[i] {
        if i > 0 { assert u[i - 1] == 1 || u[i - 1] == v[i - 1]; }
      }
    }
    if Broadcasts([d] + u, [e] + v) { BroadcastsTail(d, e, u, v); }
  }

  lemma {:induction false} RowsBounds(ls: seq<Lora>)
    requires forall i :: 0 <= i < |ls| ==> Valid(ls[i]) && |ls[i].b.shape| > 2 && ls[i].b.shape[0] > 0
    ensures |ls| <= Rows(PartsA(ls)) <= Rows(PartsB(ls))
    ensures Rows(PartsA(ls)) == Rows(PartsB(ls)) ==> FirstsEqual(ls)
  {
    if ls != [] {
      TailParts(ls);
      RowsBounds(ls[1..]);
      var l := ls[0];
      assert Lead(l.a.shape)[0] == 1 || Lead(l.a.shape)[0] == Lead(l.b.shape)[0];
      assert forall i :: 1 <= i < |ls| ==> ls[i] == ls[1..][i - 1];
    }
  }

  lemma {:induction false} RowsEqual(ls: seq<Lora>)
    requires FirstsEqual(ls)
    ensures Rows(PartsA(ls)) == Rows(PartsB(ls))
  {
    assert forall i :: 0 <= i < |ls| ==> FirstEqual(ls[i]);
    RowsAgree(PartsA(ls), PartsB(ls));
  }

  /** Below the length of its dimension an index is its own clamp. */
  lemma ClampHead(d: nat, lead: seq<nat>, i: nat, u: seq<nat>)
    requires i < d && |u| == |lead|
    ensures Clamp([d] + lead, [i] + u) == [i] + Clamp(lead, u)
  {
    ClampCons(d, lead, [i] + u);
    assert ([i] + u)[1..] == u;
  }

  /** The two indices of a factor, taken apart at the first axis. */
  lemma FactorIndices(l: Lora, d: nat, ta: seq<nat>, i: nat, u: seq<nat>)
    requires Valid(l) && |ta| >= 2 && |u| == |ta| && l.a.shape == [d] + ta && i < d
    ensures Lead(l.a.shape) == [d] + Lead(ta) && Lead([i] + u) == [i] + Lead(u) && Last([i] + u) == Last(u)
    ensures forall q: nat :: Front([i] + u) + [q] == [i] + (Front(u) + [q])
    ensures forall q: nat, c: nat :: Clamp(Lead(l.a.shape), Lead([i] + u)) + [q, c] == [i] + (Clamp(Lead(ta), Lead(u)) + [q, c])
  {
    LeadCons(d, ta);
    LeadCons(i, u);
    ClampHead(d, Lead(ta), i, Lead(u));
    assert forall q: nat :: [i] + Front(u) + [q] == [i] + (Front(u) + [q]);
    var w := Clamp(Lead(ta), Lead(u));
    assert forall q: nat, c: nat :: [i] + w + [q, c] == [i] + (w + [q, c]);
  }

  lemma CatHere(ts: seq<Tensor>, i: nat, u: seq<nat>)
    requires ts != [] && ts[0].shape != []
    ensures i < ts[0].shape[0] ==> CatAt(ts, [i] + u) == ts[0].at([i] + u)
    ensures i >= ts[0].shape[0] ==> CatAt(ts, [i] + u) == CatAt(ts[1..], [i - ts[0].shape[0]] + u)
  {
    assert ([i] + u)[0] == i && ([i] + u)[1..] == u;
  }

  /** The factors of an entry of the joined pair, found in the joined parts. */
  lemma JoinedFactors(ls: seq<Lora>, i: nat, u: seq<nat>)
    requires Joinable(ls) && FirstsEqual(ls) && i < Rows(PartsB(ls)) && |u| + 1 == |ls[0].b.shape|
    ensures Valid(Joined(ls)) && |Joined(ls).b.shape| == |u| + 1 && Joined(ls).Rank() == ls[0].Rank()
    ensures |ls[0].a.shape| == |u| + 1 >= 3
    ensures var r, w := Joined(ls), Clamp(Lead(ls[0].a.shape[1..]), Lead(u));
            && (forall q: nat :: r.b.at(Front([i] + u) + [q]) == CatAt(PartsB(ls), [i] + (Front(u) + [q])))
            && Last([i] + u) == Last(u)
            && (forall q: nat :: r.a.at(Clamp(Lead(r.a.shape), Lead([i] + u)) + [q, Last(u)]) == CatAt(PartsA(ls), [i] + (w + [q, Last(u)])))
  {
    hide CatAt, Clamp;
    JoinableAt(ls, 0);
    JoinedShape(ls);
    RowsEqual(ls);
    FactorIndices(Joined(ls), Rows(PartsA(ls)), ls[0].a.shape[1..], i, u);
  }

  lemma {:induction false} JoinedEntry(ls: seq<Lora>, i: nat, u: seq<nat>)
    requires Joinable(ls) && FirstsEqual(ls) && Valid(Joined(ls))
    requires i < Rows(PartsB(ls)) && |u| + 1 == |ls[0].b.shape|
    ensures ProductAt(Joined(ls), [i] + u) == CatAt(Products(ls), [i] + u)
    decreases |ls|
  {
    hide ProductAt, Joinable, Valid, FirstsEqual, CatAt;
    if i < FirstRows(ls) {
      JoinedEntryHere(ls, i, u);
    } else {
      JoinedEntryLater(ls, i, u);
      JoinedEntry(ls[1..], i - FirstRows(ls), u);
    }
  }

  ghost function FirstRows(ls: seq<Lora>): nat
    requires Joinable(ls)
  {
    ls[0].b.shape[0]
  }

  lemma JoinedEntryHere(ls: seq<Lora>, i: nat, u: seq<nat>)
    requires Joinable(ls) && FirstsEqual(ls) && Valid(Joined(ls))
    requires i < FirstRows(ls) && i < Rows(PartsB(ls)) && |u| + 1 == |ls[0].b.shape|
    ensures ProductAt(Joined(ls), [i] + u) == CatAt(Products(ls), [i] + u)
  {
    hide Dot, Factor, CatAt, Clamp, Joined;
    var r, l := Joined(ls), ls[0];
    JoinableAt(ls, 0);
    JoinedFactors(ls, i, u);
    var ta := l.a.shape[1..];
    FactorIndices(l, l.a.shape[0], ta, i, u);
    forall q: nat ensures r.b.at(Front([i] + u) + [q]) == l.b.at(Front([i] + u) + [q]) {
      CatHere(PartsB(ls), i, Front(u) + [q]);
    }
    var c := Last(u);
    forall q: nat
      ensures r.a.at(Clamp(Lead(r.a.shape), Lead([i] + u)) + [q, c]) == l.a.at(Clamp(Lead(l.a.shape), Lead([i] + u)) + [q, c])
    {
      CatHere(PartsA(ls), i, Clamp(Lead(ta), Lead(u)) + [q, c]);
    }
    EntriesAgree(r, [i] + u, l, [i] + u);
    CatHere(Products(ls), i, u);
  }

  lemma JoinableTail(ls: seq<Lora>)
    requires Joinable(ls) && FirstsEqual(ls) && |ls| > 1
    ensures Joinable(ls[1..]) && FirstsEqual(ls[1..]) && Valid(Joined(ls[1..]))
    ensures ls[1].a.shape[1..] == ls[0].a.shape[1..] && |ls[1].b.shape| == |ls[0].b.shape|
    ensures ls[1].b.shape != [] && ls[0].b.shape != [] && ls[1].Rank() == ls[0].Rank()
  {
    var tail := ls[1..];
    forall i | 0 <= i < |tail|
      ensures Valid(tail[i]) && FirstEqual(tail[i])
      ensures PartsA(tail)[i].shape != [] && PartsA(tail)[i].shape[1..] == ls[0].a.shape[1..]
      ensures PartsB(tail)[i].shape != [] && PartsB(tail)[i].shape[1..] == ls[0].b.shape[1..]
    {
      JoinableAt(ls, i + 1);
      assert tail[i] == ls[i + 1];
    }
    JoinableAt(ls, 1);
    RowsEqual(tail);
    JoinedShape(tail);
  }

  lemma JoinedEntryLater(ls: seq<Lora>, i: nat, u: seq<nat>)
    requires Joinable(ls) && FirstsEqual(ls) && Valid(Joined(ls))
    requires FirstRows(ls) <= i < Rows(PartsB(ls)) && |u| + 1 == |ls[0].b.shape|
    ensures var k, tail := i - FirstRows(ls), ls[1..];
            && Joinable(tail) && FirstsEqual(tail) && Valid(Joined(tail))
            && k < Rows(PartsB(tail)) && |u| + 1 == |tail[0].b.shape|
            && ProductAt(Joined(ls), [i] + u) == ProductAt(Joined(tail), [k] + u)
            && CatAt(Products(ls), [i] + u) == CatAt(Products(tail), [k] + u)
  {
    hide Dot, Factor, CatAt, Clamp, ProductAt, Joined, FirstsEqual, Rows, PartsA, PartsB, Products, Valid, Alike;
    var r, tail := Joined(ls), ls[1..];
    var k: nat := i - FirstRows(ls);
    LaterRows(ls, i);
    JoinableTail(ls);
    var r' := Joined(tail);
    JoinedFactors(ls, i, u);
    JoinedFactors(tail, k, u);
    var w := Clamp(Lead(ls[0].a.shape[1..]), Lead(u));
    forall q: nat ensures CatAt(PartsB(ls), [i] + (Front(u) + [q])) == CatAt(PartsB(tail), [k] + (Front(u) + [q])) {
      LaterEntry(ls, i, Front(u) + [q]);
    }
    forall q: nat ensures CatAt(PartsA(ls), [i] + (w + [q, Last(u)])) == CatAt(PartsA(tail), [k] + (w + [q, Last(u)])) {
      LaterEntry(ls, i, w + [q, Last(u)]);
    }
    EntriesAgree(r, [i] + u, r', [k] + u);
    CatHere(Products(ls), i, u);
  }

  /** In both parts a row beyond the first pair is an entry of the others. */
  lemma LaterEntry(ls: seq<Lora>, i: nat, v: seq<nat>)
    requires Joinable(ls) && FirstsEqual(ls) && FirstRows(ls) <= i < Rows(PartsB(ls))
    ensures var k, tail := i - FirstRows(ls), ls[1..];
            && CatAt(PartsB(ls), [i] + v) == CatAt(PartsB(tail), [k] + v)
            && CatAt(PartsA(ls), [i] + v) == CatAt(PartsA(tail), [k] + v)
  {
    hide CatAt, Joined, FirstsEqual, Rows, PartsA, PartsB, Products, Valid, Alike;
    LaterRows(ls, i);
    CatHere(PartsB(ls), i, v);
    CatHere(PartsA(ls), i, v);
  }

  /** A row beyond the first pair is a row of the others. */
  lemma LaterRows(ls: seq<Lora>, i: nat)
    requires Joinable(ls) && FirstsEqual(ls) && FirstRows(ls) <= i < Rows(PartsB(ls))
    ensures |ls| > 1 && i - FirstRows(ls) < Rows(PartsB(ls[1..])) && Valid(ls[0])
    ensures Products(ls)[0].shape != []
    ensures ls[0].a.shape[0] == FirstRows(ls) == Products(ls)[0].shape[0] && PartsA(ls)[0] == ls[0].a && PartsB(ls)[0] == ls[0].b
    ensures PartsA(ls)[1..] == PartsA(ls[1..]) && PartsB(ls)[1..] == PartsB(ls[1..]) && Products(ls)[1..] == Products(ls[1..])
  {
    TailParts(ls);
    assert Valid(ls[0]) && FirstEqual(ls[0]);
  }

  lemma CatSingle(t: Tensor)
    requires t.shape != []
    ensures Alike([t]) && Same(t, Cat([t]))
  {
    assert Rows([t]) == t.shape[0] + Rows([t][1..]);
    forall ix: seq<nat> | Within(ix, t.shape) ensures t.at(ix) == Cat([t]).at(ix) {
      assert ix[0] < t.shape[0];
    }
  }

  lemma SameTrans(t: Tensor, u: Tensor, v: Tensor)
    requires Same(t, u) && Same(t, v)
    ensures Same(u, v)
  {
  }

  lemma JoinSingle(ls: seq<Lora>)
    requires Joinable(ls) && |ls| == 1
    ensures Valid(Joined(ls)) && Alike(Products(ls)) && Same(Product(Joined(ls)), Cat(Products(ls)))
  {
    hide ProductAt, Same, Cat;
    var l := ls[0];
    assert Valid(l);
    assert PartsA(ls) == [l.a] && PartsB(ls) == [l.b] && Products(ls) == [Product(l)];
    CatSingle(l.a);
    CatSingle(l.b);
    CatSingle(Product(l));
    SameParts(l, Joined(ls));
    SameTrans(Product(l), Product(Joined(ls)), Cat(Products(ls)));
  }

  /** THE EXACT CONDITION FOR JOINING PAIRS OF MORE THAN TWO DIMENSIONS, none of them empty: `cat` stands for the joined
      product if and only if there is only one pair, or every `A` is as long as its `B`. */
  lemma CatExact(ls: seq<Lora>)
    requires Joinable(ls) && forall i :: 0 <= i < |ls| ==> ls[i].b.shape[0] > 0
    ensures Alike(Products(ls))
    ensures var r := CatLora(ls);
            (r.Ok? && Valid(r.value) && Same(Product(r.value), Cat(Products(ls)))) <==> |ls| == 1 || FirstsEqual(ls)
  {
    hide ProductAt, Same;
    JoinedShape(ls);
    forall i | 0 <= i < |ls| ensures |ls[i].b.shape| > 2 { JoinableAt(ls, i); }
    RowsBounds(ls);
    var r := Joined(ls);
    if |ls| == 1 {
      JoinSingle(ls);
    } else if FirstsEqual(ls) {
      RowsEqual(ls);
      forall ix: seq<nat> | Within(ix, Shape(r)) ensures Product(r).at(ix) == Cat(Products(ls)).at(ix) {
        assert ix[0] < Shape(r)[0];
        assert ix == [ix[0]] + ix[1..];
        JoinedEntry(ls, ix[0], ix[1..]);
      }
      SameBy(Product(r), Cat(Products(ls)));
    }
  }

  /** Two stacks that share `A` each: the joined `A` belongs to no part of the joined `B`. */
  lemma CatGoesWrong()
    ensures var ls := [SHARED, SHARED];
            && Joinable(ls) && Alike(Products(ls))
            && var r := CatLora(ls);
               r.Ok? && !(Valid(r.value) && Same(Product(r.value), Cat(Products(ls))))
  {
    hide Product, Same;
    var ls := [SHARED, SHARED];
    assert Joinable(ls);
    CatExact(ls);
    assert !FirstEqual(ls[0]);
    assert Shape(SHARED) == [2, 1, 1];
  }
}
