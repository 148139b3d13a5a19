/** `LoraTorchTensor` of `convert_lora_to_gguf.py`: a pair of small tensors that stands for their product, and the
    tensor operations done on the pair. */
module Lora {
  import opened Chars
  import opened Wrappers
  import opened Tensors

  /** `A` has the shape (.., rank, row size), `B` has the shape (.., column size, rank). */
  datatype Lora = Lora(a: Tensor, b: Tensor) {
    function Rank(): nat
      requires b.shape != []
    {
      Last(b.shape)
    }
  }

  /** `AssertionFailed` and `IndexError` are raised by the pair itself or by `torch`. */
  datatype Error = NotImplemented | AssertionFailed | IndexError | ShapeError

  type Answer = Result<Lora, Error>

  /** The assertions of `__init__`. */
  function Make(a: Tensor, b: Tensor): Answer {
    if |a.shape| != |b.shape| then Err(AssertionFailed)
    else if |a.shape| < 2 then Err(IndexError)
    else if a.shape[|a.shape| - 2] != Last(b.shape) then Err(AssertionFailed)
    else Ok(Lora(a, b))
  }

  function Lead(shape: seq<nat>): seq<nat>
    requires |shape| >= 2
  {
    shape[..|shape| - 2]
  }

  predicate Units(lead: seq<nat>) {
    forall i :: 0 <= i < |lead| ==> lead[i] == 1
  }

  /** Every leading dimension of `A` is that of `B`, or 1. */
  predicate Broadcasts(a: seq<nat>, b: seq<nat>) {
    |a| == |b| && forall i :: 0 <= i < |a| ==> a[i] == 1 || a[i] == b[i]
  }

  /** A pair that stands for a product. */
  predicate Valid(l: Lora) {
    && |l.a.shape| == |l.b.shape| >= 2
    && l.a.shape[|l.a.shape| - 2] == l.Rank()
    && Broadcasts(Lead(l.a.shape), Lead(l.b.shape))
  }

  // -------------------------------------------------------------------------------- the meaning

  /** The index into the leading dimensions of `A`. */
  function Clamp(lead: seq<nat>, ix: seq<nat>): (r: seq<nat>)
    requires |ix| == |lead|
    ensures |r| == |lead|
  {
    seq(|lead|, i requires 0 <= i < |lead| => if lead[i] == 1 then 0 else ix[i])
  }

  function Factor(l: Lora, ix: seq<nat>, q: nat): real
    requires Valid(l) && |ix| == |l.b.shape|
  {
    l.b.at(Front(ix) + [q]) * l.a.at(Clamp(Lead(l.a.shape), Lead(ix)) + [q, Last(ix)])
  }

  function Dot(l: Lora, ix: seq<nat>, n: nat): real
    requires Valid(l) && |ix| == |l.b.shape|
  {
    if n == 0 then 0.0 else Dot(l, ix, n - 1) + Factor(l, ix, n - 1)
  }

  /** The property `shape`. */
  function Shape(l: Lora): (s: seq<nat>)
    requires Valid(l)
    ensures |s| == |l.b.shape|
  {
    Front(l.b.shape) + [Last(l.a.shape)]
  }

  function ProductAt(l: Lora, ix: seq<nat>): real
    requires Valid(l)
  {
    if |ix| == |l.b.shape| then Dot(l, ix, l.Rank()) else 0.0
  }

  /** The tensor that a pair stands for: B times A, matrix by matrix. */
  function Product(l: Lora): (t: Tensor)
    requires Valid(l)
    ensures t.shape == Shape(l)
  {
    Tensor(Shape(l), ix => ProductAt(l, ix))
  }

  lemma {:induction false} DotsAgree(l: Lora, ix: seq<nat>, m: Lora, jx: seq<nat>, n: nat)
    requires Valid(l) && Valid(m) && |ix| == |l.b.shape| && |jx| == |m.b.shape|
    requires forall q: nat :: q < n ==> Factor(l, ix, q) == Factor(m, jx, q)
    ensures Dot(l, ix, n) == Dot(m, jx, n)
  {
    hide Factor;
    if n > 0 { DotsAgree(l, ix, m, jx, n - 1); }
  }

  /** Two pairs stand for the same entry when their factors are the same ones. */
  lemma EntriesAgree(l: Lora, ix: seq<nat>, m: Lora, jx: seq<nat>)
    requires Valid(l) && Valid(m) && |ix| == |l.b.shape| && |jx| == |m.b.shape| && l.Rank() == m.Rank()
    requires forall q: nat :: q < l.Rank() ==> l.b.at(Front(ix) + [q]) == m.b.at(Front(jx) + [q])
    requires forall q: nat :: q < l.Rank() ==>
      l.a.at(Clamp(Lead(l.a.shape), Lead(ix)) + [q, Last(ix)]) == m.a.at(Clamp(Lead(m.a.shape), Lead(jx)) + [q, Last(jx)])
    ensures ProductAt(l, ix) == ProductAt(m, jx)
  {
    DotsAgree(l, ix, m, jx, l.Rank());
  }

  // ------------------------------------------------------------------------------- permute

  /** An axis as `torch` counts it, negative ones from the end. */
  function Axis(dim: int, n: nat): int {
    if dim < 0 then dim + n else dim
  }

  predicate AxesOk(dims: seq<int>, n: nat) {
    && |dims| == n
    && (forall i :: 0 <= i < n ==> 0 <= Axis(dims[i], n) < n)
    && (forall i, j :: 0 <= i < j < n ==> Axis(dims[i], n) != Axis(dims[j], n))
  }

  function Axes(dims: seq<int>, n: nat): (p: seq<nat>)
    requires AxesOk(dims, n)
    ensures |p| == n
  {
    seq(n, i requires 0 <= i < n => Axis(dims[i], n))
  }

  /** Distinct axes are all the axes. */
  lemma AxesPermute(dims: seq<int>, n: nat)
    requires AxesOk(dims, n)
    ensures Permutation(Axes(dims, n))
  {
    var p := Axes(dims, n);
    DistinctIsOnto(p, n);
  }

  function Members(p: seq<nat>): (s: set<nat>)
    ensures forall k: nat :: k in s <==> k in p
  {
    if p == [] then {} else Members(p[1..]) + {p[0]}
  }

  lemma {:induction false} DistinctSize(p: seq<nat>)
    requires forall i, j :: 0 <= i < j < |p| ==> p[i] != p[j]
    ensures |Members(p)| == |p|
  {
    if p != [] {
      DistinctSize(p[1..]);
      assert p[0] !in p[1..];
    }
  }

  lemma {:induction false} SubsetOfSameSize(s: set<nat>, t: set<nat>)
    requires s <= t && |s| == |t|
    ensures s == t
  {
    if k :| k in t && k !in s {
      assert s <= t - {k};
      SubsetSize(s, t - {k});
    }
  }

  lemma {:induction false} SubsetSize(s: set<nat>, t: set<nat>)
    requires s <= t
    ensures |s| <= |t|
  {
    if s != {} {
      var k :| k in s;
      SubsetSize(s - {k}, t - {k});
    }
  }

  lemma DistinctIsOnto(p: seq<nat>, n: nat)
    requires |p| == n && forall i :: 0 <= i < n ==> p[i] < n
    requires forall i, j :: 0 <= i < j < n ==> p[i] != p[j]
    ensures forall k: nat :: k < n ==> k in p
  {
    DistinctSize(p);
    assert Members(p) <= Upto(n);
    SubsetOfSameSize(Members(p), Upto(n));
    assert forall k: nat :: k < n ==> k in Upto(n);
  }

  /** `permute`: with the last axis fixed only `B` is permuted, and a matrix is transposed by exchanging the parts. */
  function PermuteLora(l: Lora, dims: seq<int>): (r: Answer)
    requires Valid(l)
  {
    var n := |l.b.shape|;
    if !AxesOk(dims, n) then Err(ShapeError)
    else
      AxesPermute(dims, n);
      var p := Axes(dims, n);
      if p[n - 1] == n - 1 then
        if Units(Lead(l.a.shape)) then Make(l.a, Permute(l.b, p)) else Err(AssertionFailed)
      else if n == 2 then Make(Permute(l.b, p), Permute(l.a, p))
      else Err(NotImplemented)
  }

  lemma PermutedFactors(l: Lora, p: seq<nat>, ix: seq<nat>)
    requires Valid(l) && Permutation(p) && |ix| == |p| == |l.b.shape| && Units(Lead(l.a.shape))
    requires p[|p| - 1] == |p| - 1
    ensures forall q: nat :: Front(Unpermute(p, ix)) + [q] == Unpermute(p, Front(ix) + [q])
    ensures Last(Unpermute(p, ix)) == Last(ix)
    ensures Clamp(Lead(l.a.shape), Lead(Unpermute(p, ix))) == Clamp(Lead(l.a.shape), Lead(ix))
  {
    var n := |p|;
    IndexOfLast(p);
    forall q: nat ensures Front(Unpermute(p, ix)) + [q] == Unpermute(p, Front(ix) + [q]) {
      forall k | 0 <= k < n ensures (Front(Unpermute(p, ix)) + [q])[k] == Unpermute(p, Front(ix) + [q])[k] {
        if k < n - 1 { assert IndexOf(p, k) < n - 1; }
      }
    }
  }

  lemma IndexOfLast(p: seq<nat>)
    requires p != [] && Permutation(p) && p[|p| - 1] == |p| - 1
    ensures IndexOf(p, |p| - 1) == |p| - 1
    ensures forall k: nat :: k < |p| - 1 ==> IndexOf(p, k) < |p| - 1
  {
    forall k: nat | k < |p| - 1 ensures IndexOf(p, k) < |p| - 1 {
      assert p[IndexOf(p, k)] == k;
    }
  }

  /** Whenever `permute` answers, its pair stands for the permuted product. */
  lemma PermuteCommutes(l: Lora, dims: seq<int>)
    requires Valid(l) && PermuteLora(l, dims).Ok?
    ensures AxesOk(dims, |l.b.shape|) && Permutation(Axes(dims, |l.b.shape|))
    ensures var r := PermuteLora(l, dims).value;
            Valid(r) && Same(Product(r), Permute(Product(l), Axes(dims, |l.b.shape|)))
  {
    var n := |l.b.shape|;
    AxesPermute(dims, n);
    var p := Axes(dims, n);
    if p[n - 1] == n - 1 { PermuteKeepsRows(l, p); } else { TransposeSwaps(l, p); }
  }

  lemma PermuteKeepsRows(l: Lora, p: seq<nat>)
    requires Valid(l) && Permutation(p) && |p| == |l.b.shape| && p[|p| - 1] == |p| - 1 && Units(Lead(l.a.shape))
    ensures var r := Lora(l.a, Permute(l.b, p));
            Valid(r) && Make(r.a, r.b) == Ok(r) && Same(Product(r), Permute(Product(l), p))
  {
    hide ProductAt;
    var r := Lora(l.a, Permute(l.b, p));
    var n := |p|;
    assert Last(r.b.shape) == Last(l.b.shape);
    assert Shape(r) == Permute(Product(l), p).shape by {
      forall i | 0 <= i < n ensures Shape(r)[i] == Permute(Product(l), p).shape[i] {
        if i < n - 1 { assert p[i] != p[n - 1]; }
      }
    }
    forall ix: seq<nat> | Within(ix, Shape(r)) ensures Product(r).at(ix) == Permute(Product(l), p).at(ix) {
      var jx := Unpermute(p, ix);
      PermutedFactors(l, p, ix);
      EntriesAgree(r, ix, l, jx);
    }
  }

  lemma TransposeSwaps(l: Lora, p: seq<nat>)
    requires Valid(l) && Permutation(p) && |p| == |l.b.shape| == 2 && p[1] != 1
    ensures var r := Lora(Permute(l.b, p), Permute(l.a, p));
            Valid(r) && Make(r.a, r.b) == Ok(r) && Same(Product(r), Permute(Product(l), p))
  {
    var r := Lora(Permute(l.b, p), Permute(l.a, p));
    assert p == [1, 0];
    assert IndexOf(p, 0) == 1 && IndexOf(p, 1) == 0;
    forall ix: seq<nat> | Within(ix, Shape(r)) ensures Product(r).at(ix) == Permute(Product(l), p).at(ix) {
      var jx := Unpermute(p, ix);
      forall q: nat ensures Factor(r, ix, q) == Factor(l, jx, q) {
        assert Unpermute(p, Front(ix) + [q]) == [q, ix[0]] == Clamp([], []) + [q, Last(jx)];
        assert Unpermute(p, Clamp([], []) + [q, Last(ix)]) == [ix[1], q] == Front(jx) + [q];
        assert Lead(ix) == [] && Lead(jx) == [] && Lead(l.a.shape) == [] && Lead(r.a.shape) == [];
      }
      DotsAgree(r, ix, l, jx, r.Rank());
    }
  }

  /** `transpose`: the axes in order, two of them exchanged. */
  function TransposeLora(l: Lora, dim0: int, dim1: int): (r: Answer)
    requires Valid(l)
  {
    var n := |l.b.shape|;
    if !(0 <= Axis(dim0, n) < n && 0 <= Axis(dim1, n) < n) then Err(IndexError)
    else PermuteLora(l, Swapped(n, Axis(dim0, n), Axis(dim1, n)))
  }

  function Swapped(n: nat, i: nat, j: nat): (p: seq<int>)
    requires i < n && j < n
    ensures |p| == n
  {
    var range := seq(n, k => k);
    range[i := j][j := i]
  }

  lemma SwappedAxes(n: nat, i: nat, j: nat)
    requires i < n && j < n
    ensures AxesOk(Swapped(n, i, j), n) && Axes(Swapped(n, i, j), n) == Swapped(n, i, j)
  {
  }

  /** Whenever `transpose` answers, its pair stands for the product with the two axes exchanged. */
  lemma TransposeCommutes(l: Lora, dim0: int, dim1: int)
    requires Valid(l) && TransposeLora(l, dim0, dim1).Ok?
    ensures var n := |l.b.shape|; 0 <= Axis(dim0, n) < n && 0 <= Axis(dim1, n) < n
    ensures var n := |l.b.shape|;
            var p := Swapped(n, Axis(dim0, n), Axis(dim1, n));
            && AxesOk(p, n) && Permutation(Axes(p, n))
            && Axes(p, n)[Axis(dim0, n)] == Axis(dim1, n) && Axes(p, n)[Axis(dim1, n)] == Axis(dim0, n)
            && forall k :: 0 <= k < n && k != Axis(dim0, n) && k != Axis(dim1, n) ==> Axes(p, n)[k] == k
    ensures var n := |l.b.shape|;
            var p := Swapped(n, Axis(dim0, n), Axis(dim1, n));
            var r := TransposeLora(l, dim0, dim1).value;
            Valid(r) && Same(Product(r), Permute(Product(l), Axes(p, n)))
  {
    hide PermuteLora, Same, Product, Permute;
    var n := |l.b.shape|;
    SwappedAxes(n, Axis(dim0, n), Axis(dim1, n));
    PermuteCommutes(l, Swapped(n, Axis(dim0, n), Axis(dim1, n)));
  }

  // -------------------------------------------------------------------------------- indexing

  /** The indices that a tuple applies to the leading dimensions of `A`. */
  function SelsForA(sels: seq<Sel>, a: seq<nat>): (r: seq<Sel>)
    requires |sels| == |a|
    ensures |r| == |a|
  {
    seq(|a|, i requires 0 <= i < |a| => if sels[i].Int? && a[i] > 0 then Int(sels[i].j % a[i]) else FULL)
  }

  /** A tuple of indices, padded with full slices. */
  function Pad(sels: seq<Sel>, n: nat): seq<Sel> {
    if |sels| < n then sels + seq(n - |sels|, _ => FULL) else sels
  }

  function TupleIndex(l: Lora, indices: seq<Sel>): (r: Answer)
    requires Valid(l)
  {
    var n := |l.b.shape|;
    var sels := Pad(indices, n);
    if !SelsOk(sels, Shape(l)) then Err(IndexError)
    else
      var selsA := SelsForA(sels[..n - 2], Lead(l.a.shape)) + [FULL, sels[n - 1]];
      var selsB := sels[..n - 1] + [FULL];
      SelsFit(l, sels);
      Make(Index(l.a, selsA), Index(l.b, selsB))
  }

  lemma SelsFit(l: Lora, sels: seq<Sel>)
    requires Valid(l) && SelsOk(sels, Shape(l))
    ensures var n := |l.b.shape|;
            && SelsOk(SelsForA(sels[..n - 2], Lead(l.a.shape)) + [FULL, sels[n - 1]], l.a.shape)
            && SelsOk(sels[..n - 1] + [FULL], l.b.shape)
  {
    var n := |l.b.shape|;
    var a := SelsForA(sels[..n - 2], Lead(l.a.shape)) + [FULL, sels[n - 1]];
    assert SelOk(sels[n - 1], Shape(l)[n - 1]);
    forall i | 0 <= i < n ensures SelOk(a[i], l.a.shape[i]) {
      if i < n - 2 {
        assert SelOk(sels[i], Shape(l)[i]);
        assert Lead(l.a.shape)[i] == l.a.shape[i] && Lead(l.b.shape)[i] == l.b.shape[i];
      }
    }
    var b := sels[..n - 1] + [FULL];
    forall i | 0 <= i < n ensures SelOk(b[i], l.b.shape[i]) {
      if i < n - 1 { assert SelOk(sels[i], Shape(l)[i]); }
    }
  }

  /** A slice that takes all `d` places. */
  predicate TakesAll(s: Sel, d: nat) {
    s.Slice? && s.step > 0 && Count(s, d) == d
  }

  /** The slices on leading dimensions fall on dimensions where `A` is 1, or take all of them. */
  predicate SlicesFit(sels: seq<Sel>, a: seq<nat>)
    requires |sels| == |a|
  {
    forall i :: 0 <= i < |a| ==> sels[i].Int? || a[i] == 1 || TakesAll(sels[i], a[i])
  }

  lemma TakesAllInOrder(s: Sel, d: nat, k: nat)
    requires TakesAll(s, d) && k < d && d != 1
    ensures Pick(s, d, k) == k
  {
    var w := Hi(s, d) - Lo(s, d);
    if s.step >= 2 && w > 0 {
      StepTwo(w, s.step, d);
    } else {
      assert k * 1 == k;
    }
  }

  /** A step of two or more takes fewer than all places. */
  lemma StepTwo(w: int, step: nat, d: nat)
    requires 0 < w <= d && d >= 2 && step >= 2
    ensures (w + step - 1) / step < d
  {
    var q := (w + step - 1) / step;
    assert q * step <= w + step - 1;
    assert (d - 1) * (step - 1) >= 1;
    assert d * step == (d - 1) * (step - 1) + d + step - 1;
    LessByFactor(q, d, step);
  }

  lemma LessByFactor(q: int, d: int, step: nat)
    requires q * step < d * step
    ensures q < d
  {
    assert (d - q) * step > 0;
  }

  lemma SelsConcat(s: seq<nat>, s': seq<nat>, x: seq<Sel>, x': seq<Sel>)
    requires SelsOk(x, s) && SelsOk(x', s')
    ensures SelsOk(x + x', s + s')
  {
    hide SelOk;
  }

  lemma {:induction false} SelShapeConcat(s: seq<nat>, s': seq<nat>, x: seq<Sel>, x': seq<Sel>)
    requires SelsOk(x, s) && SelsOk(x', s')
    ensures SelsOk(x + x', s + s') && SelShape(s + s', x + x') == SelShape(s, x) + SelShape(s', x')
    decreases |s|
  {
    assert |x| == |s|;
    SelsConcat(s, s', x, x');
    hide Expand, SelShape, SelsOk, SelOk, Count;
    if s == [] {
      NoDims(x, []);
      assert s + s' == s' && x + x' == x';
    } else {
      Tails(s, s', x, x');
      if x[0].Int? {
        IntDim(s, x, []);
        IntDim(s + s', x + x', []);
      } else {
        SliceDim(s, x, []);
        SliceDim(s + s', x + x', []);
      }
      SelShapeConcat(s[1..], s', x[1..], x');
    }
  }

  lemma {:induction false} ExpandConcat(s: seq<nat>, s': seq<nat>, x: seq<Sel>, x': seq<Sel>, ix: seq<nat>, ix': seq<nat>)
    requires SelsOk(x, s) && SelsOk(x', s') && |ix| == |SelShape(s, x)|
    ensures SelsOk(x + x', s + s') && Expand(s + s', x + x', ix + ix') == Expand(s, x, ix) + Expand(s', x', ix')
    decreases |s|
  {
    assert |x| == |s|;
    hide *;
    if s == [] {
      ExpandNone(s', x, x', ix, ix');
    } else {
      var d, t, y := s[0], s[1..], x[1..];
      if x[0].Int? {
        IntDim(s, x, ix);
        ExpandConcat(t, s', y, x', ix, ix');
        ExpandInt(s, s', x, x', ix, ix');
        AssocCons(Wrap(x[0].j, d), Expand(t, y, ix), Expand(s', x', ix'));
      } else {
        SliceDim(s, x, ix);
        ExpandConcat(t, s', y, x', ix[1..], ix');
        ExpandSlice(s, s', x, x', ix, ix');
        AssocCons(Pick(x[0], d, ix[0]), Expand(t, y, ix[1..]), Expand(s', x', ix'));
      }
    }
  }

  lemma AssocCons(c: nat, u: seq<nat>, v: seq<nat>)
    ensures [c] + (u + v) == [c] + u + v
  {
  }

  lemma ExpandNone(s': seq<nat>, x: seq<Sel>, x': seq<Sel>, ix: seq<nat>, ix': seq<nat>)
    requires x == [] && SelsOk(x', s') && |ix| == |SelShape([], x)|
    ensures SelsOk(x + x', [] + s') && Expand([] + s', x + x', ix + ix') == Expand([], x, ix) + Expand(s', x', ix')
  {
    hide Expand, SelsOk;
    NoDims(x, ix);
    assert [] + s' == s' && x + x' == x' && ix + ix' == ix';
  }

  lemma ExpandInt(s: seq<nat>, s': seq<nat>, x: seq<Sel>, x': seq<Sel>, ix: seq<nat>, ix': seq<nat>)
    requires SelsOk(x, s) && SelsOk(x', s') && s != [] && x[0].Int?
    ensures SelsOk(x + x', s + s') && SelsOk(x[1..], s[1..]) && SelsOk(x[1..] + x', s[1..] + s')
    ensures Wrap(x[0].j, s[0]) >= 0
    ensures Expand(s, x, ix) == [Wrap(x[0].j, s[0])] + Expand(s[1..], x[1..], ix)
    ensures Expand(s + s', x + x', ix + ix') == [Wrap(x[0].j, s[0])] + Expand(s[1..] + s', x[1..] + x', ix + ix')
  {
    SelsConcat(s, s', x, x');
    hide Expand, SelsOk, Wrap;
    IntDim(s, x, ix);
    Tails(s, s', x, x');
    IntDim(s + s', x + x', ix + ix');
  }

  lemma ExpandSlice(s: seq<nat>, s': seq<nat>, x: seq<Sel>, x': seq<Sel>, ix: seq<nat>, ix': seq<nat>)
    requires SelsOk(x, s) && SelsOk(x', s') && s != [] && x[0].Slice? && ix != []
    ensures SelsOk(x + x', s + s') && SelsOk(x[1..], s[1..]) && SelsOk(x[1..] + x', s[1..] + s')
    ensures Expand(s, x, ix) == [Pick(x[0], s[0], ix[0])] + Expand(s[1..], x[1..], ix[1..])
    ensures Expand(s + s', x + x', ix + ix') == [Pick(x[0], s[0], ix[0])] + Expand(s[1..] + s', x[1..] + x', ix[1..] + ix')
  {
    hide *;
    SelsConcat(s, s', x, x');
    SliceDim(s, x, ix);
    SelsSize(x, s);
    Tails(s, s', x, x');
    SliceDim(s + s', x + x', ix + ix');
    FirstOfJoined(ix, ix');
  }

  lemma SelsSize(x: seq<Sel>, s: seq<nat>)
    requires SelsOk(x, s)
    ensures |x| == |s|
  {
  }

  lemma FirstOfJoined(ix: seq<nat>, ix': seq<nat>)
    requires ix != []
    ensures ix + ix' != [] && (ix + ix')[1..] == ix[1..] + ix' && (ix + ix')[0] == ix[0]
  {
  }

  lemma Tails(s: seq<nat>, s': seq<nat>, x: seq<Sel>, x': seq<Sel>)
    requires |x| == |s| > 0
    ensures (s + s')[0] == s[0] && (x + x')[0] == x[0]
    ensures (s + s')[1..] == s[1..] + s' && (x + x')[1..] == x[1..] + x'
  {
  }

  /** The index that is left of one dimension of `A` fits the one that is left of `B`. */
  ghost predicate DimFits(sa: Sel, sb: Sel, a: nat, b: nat) {
    && SelOk(sa, a) && SelOk(sb, b) && sa.Int? == sb.Int?
    && if sa.Int? then (if a == 1 then 0 else Wrap(sb.j, b)) == Wrap(sa.j, a)
       else
         var n := Count(sa, a);
         && (n == 1 || n == Count(sb, b))
         && forall c: nat :: c < Count(sb, b) ==> (if a == 1 then 0 else Pick(sb, b, c)) == Pick(sa, a, if n == 1 then 0 else c)
  }

  ghost predicate LeadFits(xa: seq<Sel>, xb: seq<Sel>, a: seq<nat>, b: seq<nat>) {
    |xa| == |xb| == |a| == |b| && forall i :: 0 <= i < |a| ==> DimFits(xa[i], xb[i], a[i], b[i])
  }

  lemma LeadFitsTail(xa: seq<Sel>, xb: seq<Sel>, a: seq<nat>, b: seq<nat>)
    requires LeadFits(xa, xb, a, b) && a != []
    ensures |xa| == |xb| == |a| == |b|
    ensures DimFits(xa[0], xb[0], a[0], b[0]) && LeadFits(xa[1..], xb[1..], a[1..], b[1..])
  {
    hide DimFits;
    forall i | 0 <= i < |a| - 1 ensures DimFits(xa[1..][i], xb[1..][i], a[1..][i], b[1..][i]) {
      assert DimFits(xa[i + 1], xb[i + 1], a[i + 1], b[i + 1]);
    }
  }

  lemma {:induction false} LeadFitsOk(xa: seq<Sel>, xb: seq<Sel>, a: seq<nat>, b: seq<nat>)
    requires LeadFits(xa, xb, a, b)
    ensures SelsOk(xa, a) && SelsOk(xb, b)
    ensures Broadcasts(SelShape(a, xa), SelShape(b, xb))
    decreases |a|
  {
    assert forall i :: 0 <= i < |a| ==> DimFits(xa[i], xb[i], a[i], b[i]) ==> SelOk(xa[i], a[i]) && SelOk(xb[i], b[i]);
    if a != [] {
      LeadFitsTail(xa, xb, a, b);
      LeadFitsOk(xa[1..], xb[1..], a[1..], b[1..]);
      var u, v := SelShape(a[1..], xa[1..]), SelShape(b[1..], xb[1..]);
      if xa[0].Slice? {
        var n, m := Count(xa[0], a[0]), Count(xb[0], b[0]);
        assert SelShape(a, xa) == [n] + u && SelShape(b, xb) == [m] + v;
        assert n == 1 || n == m;
      } else {
        assert SelShape(a, xa) == u && SelShape(b, xb) == v;
      }
    }
  }

  lemma {:induction false} LeadClamp(xa: seq<Sel>, xb: seq<Sel>, a: seq<nat>, b: seq<nat>, ix: seq<nat>)
    requires LeadFits(xa, xb, a, b) && SelsOk(xa, a) && SelsOk(xb, b)
    requires Within(ix, SelShape(b, xb)) && |SelShape(a, xa)| == |ix|
    ensures Clamp(a, Expand(b, xb, ix)) == Expand(a, xa, Clamp(SelShape(a, xa), ix))
    decreases |a|
  {
    assert |xa| == |xb| == |a| == |b|;
    hide LeadFits, Expand, Clamp, SelShape, DimFits, Count, Pick, Wrap, SelOk, SelsOk, Within;
    if a == [] {
      NoDims(xa, ix);
    } else {
      LeadFitsTail(xa, xb, a, b);
      SameKind(xa[0], xb[0], a[0], b[0]);
      if xa[0].Int? {
        IntDims(xa, xb, a, b, ix);
        LeadClamp(xa[1..], xb[1..], a[1..], b[1..], ix);
      } else {
        SliceDims(xa, xb, a, b, ix);
        LeadClamp(xa[1..], xb[1..], a[1..], b[1..], ix[1..]);
      }
    }
  }

  /** Both sides of `LeadClamp`, taken apart at a dimension that is dropped. */
  lemma IntDims(xa: seq<Sel>, xb: seq<Sel>, a: seq<nat>, b: seq<nat>, ix: seq<nat>)
    requires |xa| == |xb| == |a| == |b| > 0 && xa[0].Int? && xb[0].Int? && SelsOk(xa, a) && SelsOk(xb, b)
    requires (if a[0] == 1 then 0 else Wrap(xb[0].j, b[0])) == Wrap(xa[0].j, a[0])
    requires Within(ix, SelShape(b, xb)) && |SelShape(a, xa)| == |ix|
    ensures SelsOk(xa[1..], a[1..]) && SelsOk(xb[1..], b[1..])
    ensures Within(ix, SelShape(b[1..], xb[1..])) && |SelShape(a[1..], xa[1..])| == |ix|
    ensures Wrap(xa[0].j, a[0]) >= 0
    ensures Clamp(a, Expand(b, xb, ix)) == [Wrap(xa[0].j, a[0])] + Clamp(a[1..], Expand(b[1..], xb[1..], ix))
    ensures Expand(a, xa, Clamp(SelShape(a, xa), ix)) ==
            [Wrap(xa[0].j, a[0])] + Expand(a[1..], xa[1..], Clamp(SelShape(a[1..], xa[1..]), ix))
  {
    hide Expand, Clamp, SelShape, SelsOk;
    IntDim(a, xa, []);
    IntDim(b, xb, ix);
    IntDim(a, xa, Clamp(SelShape(a, xa), ix));
    var e := Expand(b, xb, ix);
    ClampCons(a[0], a[1..], e);
    assert a == [a[0]] + a[1..] && e[1..] == Expand(b[1..], xb[1..], ix);
  }

  /** The same for a dimension that is kept. */
  lemma SliceDims(xa: seq<Sel>, xb: seq<Sel>, a: seq<nat>, b: seq<nat>, ix: seq<nat>)
    requires |xa| == |xb| == |a| == |b| > 0 && xa[0].Slice? && xb[0].Slice? && SelsOk(xa, a) && SelsOk(xb, b)
    requires xa[0].step > 0 && xb[0].step > 0
    requires forall c: nat :: c < Count(xb[0], b[0]) ==>
               (if a[0] == 1 then 0 else Pick(xb[0], b[0], c)) == Pick(xa[0], a[0], if Count(xa[0], a[0]) == 1 then 0 else c)
    requires Within(ix, SelShape(b, xb)) && |SelShape(a, xa)| == |ix|
    ensures SelsOk(xa[1..], a[1..]) && SelsOk(xb[1..], b[1..])
    ensures ix != [] && Within(ix[1..], SelShape(b[1..], xb[1..])) && |SelShape(a[1..], xa[1..])| == |ix| - 1
    ensures var c := Pick(xa[0], a[0], if Count(xa[0], a[0]) == 1 then 0 else ix[0]);
            && Clamp(a, Expand(b, xb, ix)) == [c] + Clamp(a[1..], Expand(b[1..], xb[1..], ix[1..]))
            && Expand(a, xa, Clamp(SelShape(a, xa), ix)) ==
                 [c] + Expand(a[1..], xa[1..], Clamp(SelShape(a[1..], xa[1..]), ix[1..]))
  {
    SliceDim(a, xa, []);
    SliceDim(b, xb, ix);
    WithinTail(ix, Count(xb[0], b[0]), SelShape(b[1..], xb[1..]));
    hide *;
    SliceDimA(xa, a, ix);
    SliceDimB(xb, a, b, ix);
  }

  lemma SliceDimA(xa: seq<Sel>, a: seq<nat>, ix: seq<nat>)
    requires |xa| == |a| > 0 && xa[0].Slice? && SelsOk(xa, a) && xa[0].step > 0 && |SelShape(a, xa)| == |ix| > 0
    ensures SelsOk(xa[1..], a[1..]) && |SelShape(a[1..], xa[1..])| == |ix| - 1
    ensures Expand(a, xa, Clamp(SelShape(a, xa), ix)) ==
            [Pick(xa[0], a[0], if Count(xa[0], a[0]) == 1 then 0 else ix[0])]
            + Expand(a[1..], xa[1..], Clamp(SelShape(a[1..], xa[1..]), ix[1..]))
  {
    hide *;
    SliceDim(a, xa, []);
    var n, u := Count(xa[0], a[0]), SelShape(a[1..], xa[1..]);
    var w := Clamp([n] + u, ix);
    ClampCons(n, u, ix);
    SliceDim(a, xa, w);
    assert w[1..] == Clamp(u, ix[1..]);
  }

  lemma SliceDimB(xb: seq<Sel>, a: seq<nat>, b: seq<nat>, ix: seq<nat>)
    requires |xb| == |b| == |a| > 0 && xb[0].Slice? && SelsOk(xb, b) && ix != []
    ensures SelsOk(xb[1..], b[1..])
    ensures Clamp(a, Expand(b, xb, ix)) ==
            [if a[0] == 1 then 0 else Pick(xb[0], b[0], ix[0])] + Clamp(a[1..], Expand(b[1..], xb[1..], ix[1..]))
  {
    hide *;
    SliceDim(b, xb, ix);
    var e := Expand(b, xb, ix);
    ClampCons(a[0], a[1..], e);
    assert a == [a[0]] + a[1..] && e[1..] == Expand(b[1..], xb[1..], ix[1..]);
  }

  lemma WithinTail(ix: seq<nat>, d: nat, shape: seq<nat>)
    requires Within(ix, [d] + shape)
    ensures ix != [] && ix[0] < d && Within(ix[1..], shape)
  {
    assert ix[0] < ([d] + shape)[0];
    forall i | 0 <= i < |ix| - 1 ensures ix[1..][i] < shape[i] { assert ix[i + 1] < ([d] + shape)[i + 1]; }
  }

  lemma NoDims(xa: seq<Sel>, ix: seq<nat>)
    requires xa == []
    ensures SelShape([], xa) == [] && forall jx :: Expand([], xa, jx) == []
    ensures forall jx: seq<nat> :: |jx| == 0 ==> Clamp([], jx) == []
  {
  }

  lemma SameKind(sa: Sel, sb: Sel, a: nat, b: nat)
    requires DimFits(sa, sb, a, b)
    ensures sa.Int? == sb.Int?
    ensures sa.Int? ==> (if a == 1 then 0 else Wrap(sb.j, b)) == Wrap(sa.j, a)
    ensures sa.Slice? ==> sa.step > 0 && sb.step > 0
    ensures sa.Slice? ==> forall c: nat :: c < Count(sb, b) ==>
              (if a == 1 then 0 else Pick(sb, b, c)) == Pick(sa, a, if Count(sa, a) == 1 then 0 else c)
  {
  }

  lemma IntDim(shape: seq<nat>, sels: seq<Sel>, ix: seq<nat>)
    requires SelsOk(sels, shape) && shape != [] && sels[0].Int?
    ensures SelOk(sels[0], shape[0]) && SelsOk(sels[1..], shape[1..])
    ensures SelShape(shape, sels) == SelShape(shape[1..], sels[1..])
    ensures Expand(shape, sels, ix) == [Wrap(sels[0].j, shape[0])] + Expand(shape[1..], sels[1..], ix)
  {
    assert SelOk(sels[0], shape[0]);
    assert SelsOk(sels[1..], shape[1..]) by {
      forall i | 0 <= i < |shape| - 1 ensures SelOk(sels[1..][i], shape[1..][i]) { assert SelOk(sels[i + 1], shape[i + 1]); }
    }
  }

  lemma SliceDim(shape: seq<nat>, sels: seq<Sel>, ix: seq<nat>)
    requires SelsOk(sels, shape) && shape != [] && sels[0].Slice?
    ensures SelOk(sels[0], shape[0]) && SelsOk(sels[1..], shape[1..])
    ensures SelShape(shape, sels) == [Count(sels[0], shape[0])] + SelShape(shape[1..], sels[1..])
    ensures ix != [] ==> Expand(shape, sels, ix) == [Pick(sels[0], shape[0], ix[0])] + Expand(shape[1..], sels[1..], ix[1..])
  {
    assert SelOk(sels[0], shape[0]);
    assert SelsOk(sels[1..], shape[1..]) by {
      forall i | 0 <= i < |shape| - 1 ensures SelOk(sels[1..][i], shape[1..][i]) { assert SelOk(sels[i + 1], shape[i + 1]); }
    }
  }

  lemma ClampCons(d: nat, lead: seq<nat>, ix: seq<nat>)
    requires |ix| == |lead| + 1
    ensures Clamp([d] + lead, ix) == [if d == 1 then 0 else ix[0]] + Clamp(lead, ix[1..])
  {
  }

  /** The pair indexed by fitting selections, with slices `sn` for the columns of `B` and `sm` for the rows of `A`. */
  function IndexedPair(l: Lora, xa: seq<Sel>, xb: seq<Sel>, sn: Sel, sm: Sel): Lora
    requires SelsOk(xa + [FULL, sm], l.a.shape) && SelsOk(xb + [sn, FULL], l.b.shape)
  {
    Lora(Index(l.a, xa + [FULL, sm]), Index(l.b, xb + [sn, FULL]))
  }

  lemma SplitLast2(s: seq<nat>)
    requires |s| >= 2
    ensures s == Lead(s) + [s[|s| - 2], s[|s| - 1]] && Front(s) == Lead(s) + [s[|s| - 2]]
    ensures Lead(Lead(s) + [s[|s| - 2], s[|s| - 1]]) == Lead(s)
  {
  }

  lemma FullTakesAll(d: nat)
    ensures Count(FULL, d) == d && forall c: nat :: Pick(FULL, d, c) == c
  {
    assert (d + 1 - 1) / 1 == d;
    assert forall c: nat :: c * 1 == c;
  }

  /** Both parts are indexed along their leading dimensions, and along one of the last two. */
  lemma TwoMore(t: Tensor, x: seq<Sel>, s0: Sel, s1: Sel, u: seq<nat>, i: nat, j: nat)
    requires |t.shape| >= 2 && SelsOk(x, Lead(t.shape))
    requires s0.Slice? && s1.Slice? && s0.step > 0 && s1.step > 0 && |u| == |SelShape(Lead(t.shape), x)|
    ensures var n := |t.shape|;
            && SelsOk(x + [s0, s1], t.shape)
            && Index(t, x + [s0, s1]).shape == SelShape(Lead(t.shape), x) + [Count(s0, t.shape[n - 2]), Count(s1, t.shape[n - 1])]
            && Index(t, x + [s0, s1]).at(u + [i, j]) ==
                 t.at(Expand(Lead(t.shape), x, u) + [Pick(s0, t.shape[n - 2], i), Pick(s1, t.shape[n - 1], j)])
  {
    hide SelShape, Expand;
    var n := |t.shape|;
    var last := [t.shape[n - 2], t.shape[n - 1]];
    SplitLast2(t.shape);
    SelShapeConcat(Lead(t.shape), last, x, [s0, s1]);
    ExpandConcat(Lead(t.shape), last, x, [s0, s1], u, [i, j]);
    LastTwo(last, s0, s1, i, j);
  }

  lemma LastTwo(last: seq<nat>, s0: Sel, s1: Sel, i: nat, j: nat)
    requires |last| == 2 && s0.Slice? && s1.Slice? && s0.step > 0 && s1.step > 0
    ensures SelsOk([s0, s1], last) && SelShape(last, [s0, s1]) == [Count(s0, last[0]), Count(s1, last[1])]
    ensures Expand(last, [s0, s1], [i, j]) == [Pick(s0, last[0], i), Pick(s1, last[1], j)]
  {
    hide SelShape, Expand, Count, Pick;
    assert last == [last[0], last[1]];
    assert [s0, s1][1..] == [s1] && [i, j][1..] == [j] && last[1..] == [last[1]];
    LastOne(last[1], s1, j);
    SliceDim(last, [s0, s1], [i, j]);
  }

  lemma LastOne(d: nat, s: Sel, i: nat)
    requires s.Slice? && s.step > 0
    ensures SelsOk([s], [d]) && SelShape([d], [s]) == [Count(s, d)] && Expand([d], [s], [i]) == [Pick(s, d, i)]
  {
    hide Count, Pick;
    assert [s][1..] == [] && [i][1..] == [] && [d][1..] == [];
    SliceDim([d], [s], [i]);
  }

  lemma IndexedShape(l: Lora, xa: seq<Sel>, xb: seq<Sel>, sn: Sel, sm: Sel)
    requires Valid(l) && SelsOk(xa, Lead(l.a.shape)) && SelsOk(xb, Lead(l.b.shape))
    requires sn.Slice? && sm.Slice? && sn.step > 0 && sm.step > 0
    ensures SelsOk(xa + [FULL, sm], l.a.shape) && SelsOk(xb + [sn, FULL], l.b.shape) && SelsOk(xb + [sn, sm], Shape(l))
    ensures var n := |l.b.shape|;
            var u, v := SelShape(Lead(l.a.shape), xa), SelShape(Lead(l.b.shape), xb);
            var r := IndexedPair(l, xa, xb, sn, sm);
            && r.a.shape == u + [l.Rank(), Count(sm, l.a.shape[n - 1])]
            && r.b.shape == v + [Count(sn, l.b.shape[n - 2]), l.Rank()]
            && (Valid(r) <==> Broadcasts(u, v))
            && Make(r.a, r.b) == (if |u| == |v| then Ok(r) else Err(AssertionFailed))
            && Index(Product(l), xb + [sn, sm]).shape == v + [Count(sn, l.b.shape[n - 2]), Count(sm, l.a.shape[n - 1])]
  {
    hide SelShape, Expand, Product, Index, SelsOk, Count;
    var n := |l.b.shape|;
    var u, v := SelShape(Lead(l.a.shape), xa), SelShape(Lead(l.b.shape), xb);
    FullTakesAll(l.Rank());
    TwoMore(l.a, xa, FULL, sm, u, 0, 0);
    TwoMore(l.b, xb, sn, FULL, v, 0, 0);
    ShapeParts(l);
    TwoMore(Product(l), xb, sn, sm, v, 0, 0);
    var r := IndexedPair(l, xa, xb, sn, sm);
    LeadOf(u, l.Rank(), Count(sm, l.a.shape[n - 1]));
    LeadOf(v, Count(sn, l.b.shape[n - 2]), l.Rank());
  }

  lemma ShapeParts(l: Lora)
    requires Valid(l)
    ensures var n := |l.b.shape|;
            && Lead(Shape(l)) == Lead(l.b.shape) && Shape(l)[n - 2] == l.b.shape[n - 2] && Shape(l)[n - 1] == l.a.shape[n - 1]
  {
  }

  lemma LeadOf(u: seq<nat>, i: nat, j: nat)
    ensures Lead(u + [i, j]) == u && Front(u + [i, j]) == u + [i] && Last(u + [i, j]) == j
  {
  }

  /** INDEXING COMMUTES WITH THE PRODUCT wherever the selections on the leading dimensions fit each other. */
  lemma IndexedCommutes(l: Lora, xa: seq<Sel>, xb: seq<Sel>, sn: Sel, sm: Sel)
    requires Valid(l) && LeadFits(xa, xb, Lead(l.a.shape), Lead(l.b.shape))
    requires sn.Slice? && sm.Slice? && sn.step > 0 && sm.step > 0
    ensures SelsOk(xa + [FULL, sm], l.a.shape) && SelsOk(xb + [sn, FULL], l.b.shape) && SelsOk(xb + [sn, sm], Shape(l))
    ensures var r := IndexedPair(l, xa, xb, sn, sm);
            Valid(r) && Make(r.a, r.b) == Ok(r) && Same(Product(r), Index(Product(l), xb + [sn, sm]))
  {
    hide SelShape, Expand, ProductAt, Index, SelsOk, LeadFits;
    LeadFitsOk(xa, xb, Lead(l.a.shape), Lead(l.b.shape));
    IndexedShape(l, xa, xb, sn, sm);
    var r := IndexedPair(l, xa, xb, sn, sm);
    var v := SelShape(Lead(l.b.shape), xb);
    var n := |l.b.shape|;
    LeadOf(v, Count(sn, l.b.shape[n - 2]), l.Rank());
    assert Shape(r) == Index(Product(l), xb + [sn, sm]).shape;
    forall ix: seq<nat> | Within(ix, Shape(r)) ensures Product(r).at(ix) == Index(Product(l), xb + [sn, sm]).at(ix) {
      SplitLast2(ix);
      WithinLead(ix, v, Count(sn, l.b.shape[n - 2]), Count(sm, l.a.shape[n - 1]));
      IndexedEntry(l, xa, xb, sn, sm, Lead(ix), ix[|ix| - 2], ix[|ix| - 1]);
    }
  }

  lemma WithinLead(ix: seq<nat>, v: seq<nat>, n: nat, m: nat)
    requires Within(ix, v + [n, m])
    ensures |ix| == |v| + 2 && Within(Lead(ix), v)
  {
    forall i | 0 <= i < |v| ensures Lead(ix)[i] < v[i] { assert ix[i] < (v + [n, m])[i]; }
  }

  lemma IndexedEntry(l: Lora, xa: seq<Sel>, xb: seq<Sel>, sn: Sel, sm: Sel, u: seq<nat>, i: nat, j: nat)
    requires Valid(l) && LeadFits(xa, xb, Lead(l.a.shape), Lead(l.b.shape))
    requires sn.Slice? && sm.Slice? && sn.step > 0 && sm.step > 0
    requires SelsOk(xa, Lead(l.a.shape)) && SelsOk(xb, Lead(l.b.shape)) && Within(u, SelShape(Lead(l.b.shape), xb))
    requires SelsOk(xa + [FULL, sm], l.a.shape) && SelsOk(xb + [sn, FULL], l.b.shape) && SelsOk(xb + [sn, sm], Shape(l))
    requires Valid(IndexedPair(l, xa, xb, sn, sm))
    ensures Product(IndexedPair(l, xa, xb, sn, sm)).at(u + [i, j]) == Index(Product(l), xb + [sn, sm]).at(u + [i, j])
  {
    hide SelShape, Expand, Index, SelsOk, LeadFits, Dot, Count, Clamp, Factor;
    var n := |l.b.shape|;
    var r := IndexedPair(l, xa, xb, sn, sm);
    var la, lb := Lead(l.a.shape), Lead(l.b.shape);
    IndexedShape(l, xa, xb, sn, sm);
    var e := Expand(lb, xb, u);
    var row, col := Pick(sn, l.b.shape[n - 2], i), Pick(sm, l.a.shape[n - 1], j);
    var jx := e + [row, col];
    ShapeParts(l);
    TwoMore(Product(l), xb, sn, sm, u, i, j);
    LeadFitsOk(xa, xb, la, lb);
    LeadClamp(xa, xb, la, lb, u);
    LeadOf(u, i, j);
    LeadOf(e, row, col);
    var w := Clamp(SelShape(la, xa), u);
    LeadOf(SelShape(la, xa), l.Rank(), Count(sm, l.a.shape[n - 1]));
    LeadOf(SelShape(lb, xb), Count(sn, l.b.shape[n - 2]), l.Rank());
    FullTakesAll(l.Rank());
    forall q: nat ensures r.b.at(Front(u + [i, j]) + [q]) == l.b.at(Front(jx) + [q]) {
      TwoMore(l.b, xb, sn, FULL, u, i, q);
      Snoc2(u, i, q);
      Snoc2(e, row, q);
    }
    forall q: nat ensures r.a.at(w + [q, j]) == l.a.at(Clamp(la, e) + [q, col]) {
      TwoMore(l.a, xa, FULL, sm, w, q, j);
    }
    EntriesAgree(r, u + [i, j], l, jx);
  }

  lemma Snoc2(u: seq<nat>, i: nat, q: nat)
    ensures u + [i] + [q] == u + [i, q]
  {
  }

  // ------------------------------------------------------------------------- tuples of indices

  function Slices(sels: seq<Sel>): nat {
    if sels == [] then 0 else (if sels[0].Slice? then 1 else 0) + Slices(sels[1..])
  }

  lemma {:induction false} SelShapeRank(shape: seq<nat>, sels: seq<Sel>)
    requires SelsOk(sels, shape)
    ensures |SelShape(shape, sels)| == Slices(sels)
    decreases |shape|
  {
    if sels != [] {
      if sels[0].Int? { IntDim(shape, sels, []); } else { SliceDim(shape, sels, []); }
      SelShapeRank(shape[1..], sels[1..]);
    }
  }

  lemma {:induction false} SlicesSnoc(x: seq<Sel>, s0: Sel, s1: Sel)
    ensures Slices(x + [s0, s1]) == Slices(x) + (if s0.Slice? then 1 else 0) + (if s1.Slice? then 1 else 0)
  {
    if x == [] {
      assert x + [s0, s1] == [s0, s1] && [s0, s1][1..] == [s1] && [s1][1..] == [];
    } else {
      assert (x + [s0, s1])[1..] == x[1..] + [s0, s1];
      SlicesSnoc(x[1..], s0, s1);
    }
  }

  lemma {:induction false} SameSlices(x: seq<Sel>, y: seq<Sel>)
    requires |x| == |y| && forall i :: 0 <= i < |x| ==> x[i].Int? == y[i].Int?
    ensures Slices(x) == Slices(y)
  {
    if x != [] {
      assert forall i :: 0 <= i < |x| - 1 ==> x[1..][i] == x[i + 1] && y[1..][i] == y[i + 1];
      SameSlices(x[1..], y[1..]);
    }
  }

  lemma WrapIsMod(j: int, d: nat)
    requires 0 <= j + d && j < d
    ensures j % d == Wrap(j, d)
  {
    if j < 0 { assert (j + d) % d == j + d; }
  }

  lemma TupleDimFits(s: Sel, a: nat, b: nat)
    requires SelOk(s, b) && (a == 1 || a == b)
    ensures s.Int? ==> a > 0
    ensures DimFits(if s.Int? && a > 0 then Int(s.j % a) else FULL, s, a, b) <==> s.Int? || a == 1 || TakesAll(s, a)
  {
    FullTakesAll(a);
    if s.Int? {
      WrapIsMod(s.j, b);
    } else if a != 1 && TakesAll(s, a) {
      forall c: nat | c < Count(s, b) ensures Pick(s, b, c) == c { TakesAllInOrder(s, b, c); }
    }
  }

  lemma {:induction false} BroadcastsFits(x: seq<Sel>, a: seq<nat>, b: seq<nat>)
    requires |x| == |a| && Broadcasts(a, b) && SelsOk(x, b)
    ensures SelsOk(SelsForA(x, a), a) && forall i :: 0 <= i < |a| ==> SelsForA(x, a)[i].Int? == x[i].Int?
    ensures Broadcasts(SelShape(a, SelsForA(x, a)), SelShape(b, x)) <==> SlicesFit(x, a)
    ensures SlicesFit(x, a) ==> LeadFits(SelsForA(x, a), x, a, b)
    decreases |a|
  {
    hide DimFits;
    var xa := SelsForA(x, a);
    forall i | 0 <= i < |a|
      ensures SelOk(xa[i], a[i]) && xa[i].Int? == x[i].Int? && (DimFits(xa[i], x[i], a[i], b[i]) <==> x[i].Int? || a[i] == 1 || TakesAll(x[i], a[i]))
    {
      assert SelOk(x[i], b[i]);
      TupleDimFits(x[i], a[i], b[i]);
    }
    if SlicesFit(x, a) { LeadFitsOk(xa, x, a, b); } else { BroadcastsThenFits(x, a, b); }
  }

  lemma {:induction false} BroadcastsThenFits(x: seq<Sel>, a: seq<nat>, b: seq<nat>)
    requires |x| == |a| && Broadcasts(a, b) && SelsOk(x, b) && SelsOk(SelsForA(x, a), a)
    ensures Broadcasts(SelShape(a, SelsForA(x, a)), SelShape(b, x)) ==> SlicesFit(x, a)
    decreases |a|
  {
    var xa := SelsForA(x, a);
    if a != [] && Broadcasts(SelShape(a, xa), SelShape(b, x)) {
      var a', b', x' := a[1..], b[1..], x[1..];
      assert xa[1..] == SelsForA(x', a');
      assert Broadcasts(a', b');
      var u, v := SelShape(a', xa[1..]), SelShape(b', x');
      assert SelOk(x[0], b[0]);
      if x[0].Int? {
        IntDim(a, xa, []);
        IntDim(b, x, []);
      } else {
        SliceDim(a, xa, []);
        SliceDim(b, x, []);
        FullTakesAll(a[0]);
        BroadcastsTail(a[0], Count(x[0], b[0]), u, v);
      }
      BroadcastsThenFits(x', a', b');
      assert forall i :: 1 <= i < |a| ==> x[i] == x'[i - 1] && a[i] == a'[i - 1];
    }
  }

  lemma BroadcastsTail(d: nat, e: nat, u: seq<nat>, v: seq<nat>)
    requires Broadcasts([d] + u, [e] + v)
    ensures (d == 1 || d == e) && Broadcasts(u, v)
  {
    assert |u| == |v|;
    forall i | 0 <= i < |u| ensures u[i] == 1 || u[i] == v[i] { assert ([d] + u)[i + 1] == u[i] && ([e] + v)[i + 1] == v[i]; }
    assert ([d] + u)[0] == d && ([e] + v)[0] == e;
  }

  /** THE EXACT CONDITION FOR A TUPLE OF INDICES. The pair stands for the indexed product if and only if the last two
      indices are slices, and every slice on a leading dimension falls where `A` is 1 or takes all places. */
  lemma TupleIndexExact(l: Lora, indices: seq<Sel>)
    requires Valid(l) && SelsOk(Pad(indices, |l.b.shape|), Shape(l))
    ensures var n, r := |l.b.shape|, TupleIndex(l, indices);
            var sels := Pad(indices, n);
            (r.Ok? && Valid(r.value) && Same(Product(r.value), Index(Product(l), sels))) <==>
            (sels[n - 2].Slice? && sels[n - 1].Slice? && SlicesFit(sels[..n - 2], Lead(l.a.shape)))
  {
    hide SelShape, Expand, ProductAt, SlicesFit, SelOk;
    var n := |l.b.shape|;
    var sels := Pad(indices, n);
    var x, sn, sm := sels[..n - 2], sels[n - 2], sels[n - 1];
    var xa := SelsForA(x, Lead(l.a.shape));
    SelsFit(l, sels);
    LeadSelsOk(l, sels);
    assert sels == x + [sn, sm] && sels[..n - 1] + [FULL] == x + [sn, FULL];
    BroadcastsFits(x, Lead(l.a.shape), Lead(l.b.shape));
    if sn.Slice? && sm.Slice? {
      IndexedShape(l, xa, x, sn, sm);
      if SlicesFit(x, Lead(l.a.shape)) { IndexedCommutes(l, xa, x, sn, sm); }
    } else {
      WrongRank(l, xa, x, sn, sm);
    }
  }

  lemma LeadSelsOk(l: Lora, sels: seq<Sel>)
    requires Valid(l) && SelsOk(sels, Shape(l))
    ensures var n := |l.b.shape|;
            && SelsOk(sels[..n - 2], Lead(l.b.shape))
            && (sels[n - 2].Slice? ==> sels[n - 2].step > 0) && (sels[n - 1].Slice? ==> sels[n - 1].step > 0)
  {
    var n := |l.b.shape|;
    forall i | 0 <= i < n - 2 ensures SelOk(sels[..n - 2][i], Lead(l.b.shape)[i]) { assert SelOk(sels[i], Shape(l)[i]); }
    assert SelOk(sels[n - 2], Shape(l)[n - 2]) && SelOk(sels[n - 1], Shape(l)[n - 1]);
  }

  /** An integer in one of the last two places leaves tensors of the wrong rank. */
  lemma WrongRank(l: Lora, xa: seq<Sel>, x: seq<Sel>, sn: Sel, sm: Sel)
    requires Valid(l) && (sn.Int? || sm.Int?)
    requires SelsOk(xa + [FULL, sm], l.a.shape) && SelsOk(x + [sn, FULL], l.b.shape) && SelsOk(x + [sn, sm], Shape(l))
    requires |xa| == |x| && forall i :: 0 <= i < |x| ==> xa[i].Int? == x[i].Int?
    ensures var r := Make(Index(l.a, xa + [FULL, sm]), Index(l.b, x + [sn, FULL]));
            r.Ok? && Valid(r.value) ==> Product(r.value).shape != Index(Product(l), x + [sn, sm]).shape
  {
    hide SelShape, Expand, ProductAt;
    SelShapeRank(l.a.shape, xa + [FULL, sm]);
    SelShapeRank(l.b.shape, x + [sn, FULL]);
    SelShapeRank(Shape(l), x + [sn, sm]);
    SlicesSnoc(xa, FULL, sm);
    SlicesSnoc(x, sn, FULL);
    SlicesSnoc(x, sn, sm);
    SameSlices(xa, x);
  }

  // ----------------------------------------------------------------- one index for the first axis

  function OnFirst(s: Sel, n: nat): (r: seq<Sel>)
    requires n > 0
    ensures |r| == n
  {
    [s] + seq(n - 1, _ => FULL)
  }

  lemma OnFirstOk(s: Sel, shape: seq<nat>)
    requires shape != []
    ensures SelsOk(OnFirst(s, |shape|), shape) <==> SelOk(s, shape[0])
  {
    var sels := OnFirst(s, |shape|);
    assert sels[0] == s && forall i :: 1 <= i < |sels| ==> sels[i] == FULL;
  }

  /** A single integer or slice indexes both parts, except that a matrix keeps `A`. */
  function PlainIndex(l: Lora, s: Sel): Answer
    requires Valid(l)
  {
    var n := |l.b.shape|;
    OnFirstOk(s, l.a.shape);
    OnFirstOk(s, l.b.shape);
    if n > 2 then
      if !SelOk(s, l.a.shape[0]) || !SelOk(s, l.b.shape[0]) then Err(IndexError)
      else Make(Index(l.a, OnFirst(s, n)), Index(l.b, OnFirst(s, n)))
    else if s.Int? then Err(NotImplemented)
    else if s.step == 0 then Err(IndexError)
    else Make(l.a, Index(l.b, OnFirst(s, n)))
  }

  predicate PlainFits(l: Lora, s: Sel)
    requires Valid(l)
  {
    var a, b := l.a.shape[0], l.b.shape[0];
    if |l.b.shape| == 2 then s.Slice?
    else SelOk(s, a) && (s.Slice? && s.step > 0 ==> Count(s, a) == 1 || Count(s, a) == Count(s, b))
  }

  lemma PlainDimFits(s: Sel, a: nat, b: nat)
    requires SelOk(s, a) && SelOk(s, b) && (a == 1 || a == b)
    ensures DimFits(s, s, a, b) <==> s.Int? || Count(s, a) == 1 || Count(s, a) == Count(s, b)
  {
    if s.Slice? && Count(s, a) == 1 { assert Pick(s, a, 0) == Lo(s, a); }
  }

  /** THE EXACT CONDITION FOR A PLAIN INDEX into the first axis: a matrix can only be sliced; otherwise an integer has
      to be in range for `A` too, and a slice has to take one place of `A`, or as many of `A` as of `B`. */
  lemma PlainIndexExact(l: Lora, s: Sel)
    requires Valid(l) && SelOk(s, l.b.shape[0])
    ensures SelsOk(OnFirst(s, |l.b.shape|), Shape(l))
    ensures var r := PlainIndex(l, s);
            (r.Ok? && Valid(r.value) && Same(Product(r.value), Index(Product(l), OnFirst(s, |l.b.shape|)))) <==> PlainFits(l, s)
  {
    hide SelShape, Expand, ProductAt, DimFits, Same, Count;
    var n := |l.b.shape|;
    OnFirstOk(s, Shape(l));
    OnFirstOk(s, l.a.shape);
    OnFirstOk(s, l.b.shape);
    if n == 2 {
      if s.Slice? { MatrixSlice(l, s); }
    } else if SelOk(s, l.a.shape[0]) {
      PlainIndexBoth(l, s);
    }
  }

  // ---------------------------------------------------------------------- pairs that go wrong

  /** The pair of a stack of two matrices that share `A`. */
  const SHARED := Lora(Tensor([1, 1, 1], _ => 0.0), Tensor([2, 1, 1], _ => 0.0))

  /** A stack of two matrices with an `A` each. */
  const SEPARATE := Lora(Tensor([2, 1, 1], _ => 0.0), Tensor([2, 1, 1], _ => 0.0))

  const FROM_ONE := Slice(Some(1), None, 1)

  lemma ThreeSlices(t: Tensor, s: Sel)
    requires |t.shape| == 3 && s.Slice? && s.step > 0
    ensures SelsOk([s, FULL, FULL], t.shape)
    ensures Index(t, [s, FULL, FULL]).shape == [Count(s, t.shape[0]), t.shape[1], t.shape[2]]
  {
    hide SelShape, Expand;
    var sels := [s, FULL, FULL];
    assert sels[1..] == [FULL, FULL] && [t.shape[1], t.shape[2]] == t.shape[1..];
    LastTwo(t.shape[1..], FULL, FULL, 0, 0);
    SliceDim(t.shape, sels, []);
    FullTakesAll(t.shape[1]);
    FullTakesAll(t.shape[2]);
  }

  /** The usual leading dimension 1 of `A`: a slice that leaves out the first matrix leaves nothing of `A`. */
  lemma PlainIndexGoesWrong()
    ensures Valid(SHARED) && SelOk(FROM_ONE, 2) && SelsOk(OnFirst(FROM_ONE, 3), Shape(SHARED))
    ensures var r := PlainIndex(SHARED, FROM_ONE);
            r.Ok? && !(Valid(r.value) && Same(Product(r.value), Index(Product(SHARED), OnFirst(FROM_ONE, 3))))
  {
    hide Product, Same, SelShape, Expand;
    assert OnFirst(FROM_ONE, 3) == [FROM_ONE, FULL, FULL];
    ThreeSlices(SHARED.a, FROM_ONE);
    ThreeSlices(SHARED.b, FROM_ONE);
    PlainIndexExact(SHARED, FROM_ONE);
    assert Count(FROM_ONE, 1) == 0 && Count(FROM_ONE, 2) == 1;
  }

  /** A slice of a leading dimension on which `A` is not 1 is not taken of `A`. */
  lemma TupleIndexGoesWrong()
    ensures var sels := Pad([FROM_ONE], 3);
            && Valid(SEPARATE) && SelsOk(sels, Shape(SEPARATE))
            && var r := TupleIndex(SEPARATE, [FROM_ONE]);
               r.Ok? && !(Valid(r.value) && Same(Product(r.value), Index(Product(SEPARATE), sels)))
  {
    hide Product, Same, SelShape, Expand;
    var sels := Pad([FROM_ONE], 3);
    assert sels == [FROM_ONE, FULL, FULL];
    assert Shape(SEPARATE) == [2, 1, 1];
    assert SelOk(FROM_ONE, 2) && SelOk(FULL, 1);
    assert SelsForA(sels[..1], [2]) + [FULL, sels[2]] == [FULL, FULL, FULL] && sels[..2] + [FULL] == [FROM_ONE, FULL, FULL];
    assert Lead(SEPARATE.a.shape) == [2];
    ThreeSlices(SEPARATE.a, FULL);
    ThreeSlices(SEPARATE.b, FROM_ONE);
    TupleIndexExact(SEPARATE, [FROM_ONE]);
    assert !TakesAll(FROM_ONE, 2);
    assert !SlicesFit(sels[..1], Lead(SEPARATE.a.shape)) by { assert sels[..1][0] == FROM_ONE; }
  }

  lemma MatrixSlice(l: Lora, s: Sel)
    requires Valid(l) && s.Slice? && s.step > 0 && |l.b.shape| == 2
    requires SelsOk(OnFirst(s, 2), l.b.shape) && SelsOk(OnFirst(s, 2), Shape(l))
    ensures var r := Lora(l.a, Index(l.b, OnFirst(s, 2)));
            && Make(r.a, r.b) == Ok(r) && Valid(r) && Same(Product(r), Index(Product(l), OnFirst(s, 2)))
  {
    hide SelShape, Expand, ProductAt;
    assert OnFirst(s, 2) == [s, FULL] == [] + [s, FULL];
    assert [FULL, FULL] == [] + [FULL, FULL];
    IndexedCommutes(l, [], [], s, FULL);
    var r := Lora(l.a, Index(l.b, OnFirst(s, 2)));
    var r' := IndexedPair(l, [], [], s, FULL);
    FullTakesAll(l.a.shape[0]);
    FullTakesAll(l.a.shape[1]);
    LastTwo(l.a.shape, FULL, FULL, 0, 0);
    assert l.a.shape == [l.a.shape[0], l.a.shape[1]];
    forall ix: seq<nat> | Within(ix, l.a.shape) ensures r'.a.at(ix) == l.a.at(ix) {
      LastTwo(l.a.shape, FULL, FULL, ix[0], ix[1]);
      assert ix == [ix[0], ix[1]];
    }
    SameParts(r, r');
  }

  /** Equal parts stand for equal products. */
  lemma SameParts(l: Lora, m: Lora)
    requires Valid(l) && Same(l.a, m.a) && Same(l.b, m.b)
    ensures Valid(m) && Same(Product(l), Product(m))
  {
    forall ix: seq<nat> | Within(ix, Shape(l)) ensures ProductAt(l, ix) == ProductAt(m, ix) {
      forall q: nat | q < l.Rank() ensures Factor(l, ix, q) == Factor(m, ix, q) {
        PartsWithin(l, ix, q);
      }
      DotsAgree(l, ix, m, ix, l.Rank());
    }
  }

  lemma PartsWithin(l: Lora, ix: seq<nat>, q: nat)
    requires Valid(l) && Within(ix, Shape(l)) && q < l.Rank()
    ensures Within(Front(ix) + [q], l.b.shape)
    ensures Within(Clamp(Lead(l.a.shape), Lead(ix)) + [q, Last(ix)], l.a.shape)
  {
    var n := |ix|;
    forall i | 0 <= i < n ensures (Front(ix) + [q])[i] < l.b.shape[i] { assert ix[i] < Shape(l)[i]; }
    forall i | 0 <= i < n ensures (Clamp(Lead(l.a.shape), Lead(ix)) + [q, Last(ix)])[i] < l.a.shape[i] {
      assert ix[i] < Shape(l)[i];
      if i < n - 2 { assert Lead(l.a.shape)[i] == l.a.shape[i] && Lead(l.b.shape)[i] == l.b.shape[i]; }
    }
  }

  lemma PlainIndexBoth(l: Lora, s: Sel)
    requires Valid(l) && |l.b.shape| > 2 && SelOk(s, l.a.shape[0]) && SelOk(s, l.b.shape[0])
    requires SelsOk(OnFirst(s, |l.b.shape|), Shape(l))
    ensures var r := PlainIndex(l, s);
            (r.Ok? && Valid(r.value) && Same(Product(r.value), Index(Product(l), OnFirst(s, |l.b.shape|)))) <==> PlainFits(l, s)
  {
    hide SelShape, Expand, ProductAt, DimFits, Same, Count;
    var n := |l.b.shape|;
    var la, lb := Lead(l.a.shape), Lead(l.b.shape);
    var x := OnFirst(s, n - 2);
    assert OnFirst(s, n) == x + [FULL, FULL];
    OnFirstOk(s, l.a.shape);
    OnFirstOk(s, l.b.shape);
    OnFirstOk(s, la);
    OnFirstOk(s, lb);
    IndexedShape(l, x, x, FULL, FULL);
    assert la[0] == 1 || la[0] == lb[0];
    PlainDimFits(s, la[0], lb[0]);
    if PlainFits(l, s) {
      forall i | 0 <= i < n - 2 ensures DimFits(x[i], x[i], la[i], lb[i]) {
        if i > 0 { assert la[i] == 1 || la[i] == lb[i]; FullTakesAll(la[i]); FullTakesAll(lb[i]); PlainDimFits(FULL, la[i], lb[i]); }
      }
      IndexedCommutes(l, x, x, FULL, FULL);
    } else {
      SliceDim(la, x, []);
      SliceDim(lb, x, []);
      assert x[0] == s;
      if Broadcasts(SelShape(la, x), SelShape(lb, x)) {
        BroadcastsTail(Count(s, la[0]), Count(s, lb[0]), SelShape(la[1..], x[1..]), SelShape(lb[1..], x[1..]));
      }
    }
  }
}
