/** Reshaping, joining and stacking pairs (`reshape`, `torch.cat` and `torch.stack` in `convert_lora_to_gguf.py`). */
module LoraShapes {
  import opened Wrappers
  import opened Tensors
  import opened Lora

  // --------------------------------------------------------------------------------- reshape

  function ProdKnown(dims: seq<int>): int {
    if dims == [] then 1 else ProdKnown(Front(dims)) * if Last(dims) == -1 then 1 else Last(dims)
  }

  /** The shape with every -1 replaced by the number of elements that are left for it. */
  function Resolve(dims: seq<int>, elems: nat): (r: Result<seq<nat>, Error>)
    requires forall i :: 0 <= i < |dims| ==> dims[i] >= -1
    ensures r.Ok? ==> |r.value| == |dims|
  {
    if -1 !in dims then Ok(seq(|dims|, i requires 0 <= i < |dims| => dims[i] as nat))
    else if ProdKnown(dims) <= 0 then Err(ShapeError)
    else if elems % ProdKnown(dims) != 0 then Err(AssertionFailed)
    else
      Ok(seq(|dims|, i requires 0 <= i < |dims| => if dims[i] == -1 then elems / ProdKnown(dims) else dims[i] as nat))
  }

  function Ones(n: nat): (r: seq<nat>)
    ensures |r| == n
  {
    seq(n, _ => 1)
  }

  /** `reshape`: the row size has to stay; `torch` checks the number of elements of both parts. */
  function ReshapeLora(l: Lora, dims: seq<int>): Answer
    requires Valid(l)
  {
    if |dims| < 2 then Err(NotImplemented)
    else if exists i :: 0 <= i < |dims| && dims[i] < -1 then Err(ShapeError)
    else
      match Resolve(dims, Prod(Shape(l)))
      case Err(e) => Err(e)
      case Ok(shape) =>
        if Last(shape) != Last(Shape(l)) then Err(NotImplemented)
        else
          var shapeA := Ones(|shape| - 2) + [l.Rank(), Last(Shape(l))];
          var shapeB := Front(shape) + [l.Rank()];
          if Prod(shapeA) != Prod(l.a.shape) || Prod(shapeB) != Prod(l.b.shape) then Err(ShapeError)
          else Make(Reshape(l.a, shapeA), Reshape(l.b, shapeB))
  }

  lemma ProdSnoc(s: seq<nat>, d: nat)
    ensures Prod(s + [d]) == Prod(s) * d
  {
    assert Front(s + [d]) == s;
  }

  lemma {:induction false} ProdOnes(s: seq<nat>)
    requires Units(s)
    ensures Prod(s) == 1
  {
    if s != [] { ProdOnes(Front(s)); }
  }

  lemma {:induction false} ProdOneUnits(s: seq<nat>)
    requires Prod(s) == 1
    ensures Units(s)
  {
    if s != [] {
      OneFactors(Prod(Front(s)), Last(s));
      ProdOneUnits(Front(s));
      assert forall i :: 0 <= i < |s| - 1 ==> s[i] == Front(s)[i];
    }
  }

  lemma MulStep(x: nat, y: nat, k: nat)
    requires x < y
    ensures x * k + k <= y * k
  {
    assert (y - x - 1) * k >= 0;
    assert y * k == x * k + k + (y - x - 1) * k;
  }

  lemma OneFactors(x: nat, y: nat)
    requires x * y == 1
    ensures x == 1 && y == 1
  {
    if x == 0 || y == 0 {
      ZeroFactor(x, y);
    } else {
      if x > 1 { MulStep(1, x, y); }
      if y > 1 { MulStep(1, y, x); }
    }
  }

  lemma ZeroFactor(x: nat, y: nat)
    requires x == 0 || y == 0
    ensures x * y == 0
  {
  }

  lemma ProdSplit(s: seq<nat>)
    requires |s| >= 2
    ensures Prod(s) == Prod(Lead(s)) * s[|s| - 2] * s[|s| - 1]
  {
    assert Front(Front(s)) == Lead(s);
  }

  lemma Cancel(x: nat, y: nat, k: nat)
    requires k > 0 && x * k == y * k
    ensures x == y
  {
    if x < y { MulStep(x, y, k); }
    if y < x { MulStep(y, x, k); }
  }

  /** The parts can be reshaped only when the leading dimensions of `A` are 1 and the product has as many entries. */
  lemma ReshapableParts(l: Lora, shape: seq<nat>)
    requires Valid(l) && |shape| >= 2 && Last(shape) == Last(Shape(l)) && l.Rank() > 0
    requires Prod(Ones(|shape| - 2) + [l.Rank(), Last(shape)]) == Prod(l.a.shape)
    requires Prod(Front(shape) + [l.Rank()]) == Prod(l.b.shape)
    ensures Prod(shape) == Prod(Shape(l))
    ensures Last(shape) > 0 ==> Units(Lead(l.a.shape))
  {
    hide Prod;
    var k, m := l.Rank(), Last(shape);
    ProdSnoc(Front(shape), k);
    ProdSnoc(Front(l.b.shape), k);
    assert l.b.shape == Front(l.b.shape) + [k];
    Cancel(Prod(Front(shape)), Prod(Front(l.b.shape)), k);
    ProdSnoc(Front(shape), m);
    ProdSnoc(Front(l.b.shape), m);
    assert shape == Front(shape) + [m];
    if m > 0 { LeadIsOnes(l.a.shape, Ones(|shape| - 2), k, m); }
  }

  lemma LeadIsOnes(sa: seq<nat>, ones: seq<nat>, k: nat, m: nat)
    requires |sa| >= 2 && sa[|sa| - 2] == k && sa[|sa| - 1] == m && k > 0 && m > 0
    requires Units(ones) && Prod(ones + [k, m]) == Prod(sa)
    ensures Units(Lead(sa))
  {
    hide Prod, Units;
    ProdSplit(ones + [k, m]);
    LeadOf(ones, k, m);
    ProdOnes(ones);
    ProdSplit(sa);
    Cancel(1 * k, Prod(Lead(sa)) * k, m);
    Cancel(1, Prod(Lead(sa)), k);
    ProdOneUnits(Lead(sa));
  }

  lemma RavelSnoc(s: seq<nat>, d: nat, ix: seq<nat>, c: nat)
    requires |ix| == |s|
    ensures Ravel(s + [d], ix + [c]) == Ravel(s, ix) * d + c
  {
    assert Front(s + [d]) == s && Front(ix + [c]) == ix;
  }

  lemma UnravelSnoc(s: seq<nat>, d: nat, n: nat, c: nat)
    requires c < d
    ensures Unravel(s + [d], n * d + c) == Unravel(s, n) + [c]
  {
    assert Front(s + [d]) == s;
    DivMod(n, d, c);
  }

  lemma DivMod(n: nat, d: nat, c: nat)
    requires c < d
    ensures (n * d + c) / d == n && (n * d + c) % d == c
  {
    var x := n * d + c;
    QuotientUnique(x / d, x % d, n, c, d);
  }

  lemma QuotientUnique(p: nat, r: nat, n: nat, c: nat, d: nat)
    requires p * d + r == n * d + c && r < d && c < d
    ensures p == n && r == c
  {
    if p < n { MulStep(p, n, d); }
    if n < p { MulStep(n, p, d); }
  }

  /** Reshaping leaves the last index alone when the last dimension stays. */
  lemma SameLast(s: seq<nat>, s': seq<nat>, d: nat, ix: seq<nat>, c: nat)
    requires |ix| == |s'| && c < d
    ensures Unravel(s + [d], Ravel(s' + [d], ix + [c])) == Unravel(s, Ravel(s', ix)) + [c]
  {
    RavelSnoc(s', d, ix, c);
    UnravelSnoc(s, d, Ravel(s', ix), c);
  }

  lemma {:induction false} RavelOnes(s: seq<nat>, ix: seq<nat>)
    requires Units(s) && Within(ix, s)
    ensures Ravel(s, ix) == 0
  {
    if s != [] {
      assert ix[|s| - 1] < s[|s| - 1];
      assert Within(Front(ix), Front(s)) by { forall i | 0 <= i < |s| - 1 ensures Front(ix)[i] < Front(s)[i] { assert ix[i] < s[i]; } }
      RavelOnes(Front(s), Front(ix));
    }
  }

  lemma {:induction false} UnravelOnes(s: seq<nat>)
    requires Units(s)
    ensures Unravel(s, 0) == seq(|s|, _ => 0)
  {
    if s != [] { UnravelOnes(Front(s)); }
  }

  /** RESHAPING COMMUTES WITH THE PRODUCT. Whenever `reshape` answers, the pair stands for the product read in the new
      shape, which has as many entries as the product unless the rank is zero. */
  lemma ReshapeCommutes(l: Lora, dims: seq<int>)
    requires Valid(l) && ReshapeLora(l, dims).Ok?
    ensures forall i :: 0 <= i < |dims| ==> dims[i] >= -1
    ensures Resolve(dims, Prod(Shape(l))).Ok?
    ensures var r, shape := ReshapeLora(l, dims).value, Resolve(dims, Prod(Shape(l))).value;
            && Valid(r) && Same(Product(r), Reshape(Product(l), shape))
            && (l.Rank() > 0 ==> Prod(shape) == Prod(Shape(l)))
  {
    hide Prod, Unravel, Ravel;
    var shape := Resolve(dims, Prod(Shape(l))).value;
    if l.Rank() > 0 { ReshapableParts(l, shape); }
    ReshapedPair(l, shape);
  }

  lemma ReshapedPair(l: Lora, shape: seq<nat>)
    requires Valid(l) && |shape| >= 2 && Last(shape) == Last(Shape(l))
    requires Last(shape) > 0 && l.Rank() > 0 ==> Units(Lead(l.a.shape))
    ensures var r := Lora(Reshape(l.a, Ones(|shape| - 2) + [l.Rank(), Last(shape)]), Reshape(l.b, Front(shape) + [l.Rank()]));
            Valid(r) && Make(r.a, r.b) == Ok(r) && Same(Product(r), Reshape(Product(l), shape))
  {
    hide Prod, Unravel, Ravel, ProductAt;
    var ones := Ones(|shape| - 2);
    var r := Lora(Reshape(l.a, ones + [l.Rank(), Last(shape)]), Reshape(l.b, Front(shape) + [l.Rank()]));
    LeadOf(ones, l.Rank(), Last(shape));
    assert Shape(r) == shape;
    forall ix: seq<nat> | Within(ix, shape) ensures Product(r).at(ix) == Reshape(Product(l), shape).at(ix) {
      ReshapedEntry(l, shape, r, ix);
    }
  }

  /** Rows of B: reshaping moves them as a whole. */
  lemma ReshapedB(sb: seq<nat>, shape: seq<nat>, ix: seq<nat>, k: nat, m: nat, q: nat)
    requires |shape| >= 1 && |ix| == |shape| && Last(shape) == m && Last(ix) < m && q < k
    ensures var jx := Unravel(sb + [m], Ravel(shape, ix));
            && |jx| == |sb| + 1 && Last(jx) == Last(ix)
            && Unravel(sb + [k], Ravel(Front(shape) + [k], Front(ix) + [q])) == Front(jx) + [q]
  {
    hide Unravel, Ravel;
    var fs := Front(shape);
    assert shape == fs + [m] && ix == Front(ix) + [Last(ix)];
    SameLast(sb, fs, m, Front(ix), Last(ix));
    SameLast(sb, fs, k, Front(ix), q);
    var e := Unravel(sb, Ravel(fs, Front(ix)));
    assert Front(e + [Last(ix)]) == e;
  }

  lemma ReshapedEntry(l: Lora, shape: seq<nat>, r: Lora, ix: seq<nat>)
    requires Valid(l) && |shape| >= 2 && Last(shape) == Last(Shape(l)) && Within(ix, shape)
    requires l.Rank() > 0 ==> Units(Lead(l.a.shape))
    requires r == Lora(Reshape(l.a, Ones(|shape| - 2) + [l.Rank(), Last(shape)]), Reshape(l.b, Front(shape) + [l.Rank()])) && Valid(r)
    ensures ProductAt(r, ix) == ProductAt(l, Unravel(Shape(l), Ravel(shape, ix)))
  {
    hide Prod, Unravel, Ravel, Dot, Clamp, Units;
    var m, k := Last(shape), l.Rank();
    var ones := Ones(|shape| - 2);
    LeadOf(ones, k, m);
    var fb := Front(l.b.shape);
    var jx := Unravel(Shape(l), Ravel(shape, ix));
    assert Shape(l) == fb + [m] && l.b.shape == fb + [k];
    forall q: nat | q < k ensures r.b.at(Front(ix) + [q]) == l.b.at(Front(jx) + [q]) {
      ReshapedB(fb, shape, ix, k, m, q);
    }
    forall q: nat | q < k
      ensures r.a.at(Clamp(Lead(r.a.shape), Lead(ix)) + [q, Last(ix)]) == l.a.at(Clamp(Lead(l.a.shape), Lead(jx)) + [q, Last(jx)])
    {
      ReshapedB(fb, shape, ix, k, m, q);
      ReshapedA(l.a.shape, |shape| - 2, k, m, Lead(ix), Lead(jx), q, Last(ix));
    }
    EntriesAgree(r, ix, l, jx);
  }

  /** In a tensor whose leading dimensions are 1, only the last two indices count. */
  lemma ReshapedA(sa: seq<nat>, n: nat, k: nat, m: nat, ix: seq<nat>, jx: seq<nat>, q: nat, c: nat)
    requires |sa| >= 2 && Units(Lead(sa)) && sa == Lead(sa) + [k, m] && q < k && c < m && |ix| == n && |jx| == |Lead(sa)|
    ensures Unravel(sa, Ravel(Ones(n) + [k, m], Clamp(Ones(n), ix) + [q, c])) == Clamp(Lead(sa), jx) + [q, c]
  {
    hide Unravel, Ravel;
    var z := Clamp(Ones(n), ix);
    Snoc2(Ones(n), k, m);
    Snoc2(Lead(sa), k, m);
    Snoc2(z, q, c);
    SameLast(Lead(sa) + [k], Ones(n) + [k], m, z + [q], c);
    SameLast(Lead(sa), Ones(n), k, z, q);
    RavelOnes(Ones(n), z);
    UnravelOnes(Lead(sa));
    assert Clamp(Lead(sa), jx) == seq(|Lead(sa)|, _ => 0);
    Snoc2(Clamp(Lead(sa), jx), q, c);
  }
}
