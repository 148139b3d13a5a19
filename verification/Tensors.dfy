/** Tensors of any rank over exact numbers: a shape, and an entry for every index within it. Shapes are written in
    the order of `torch`, entries are read in row-major order. */
module Tensors {
  import opened Wrappers

  datatype Tensor = Tensor(shape: seq<nat>, at: seq<nat> -> real)

  predicate Within(ix: seq<nat>, shape: seq<nat>) {
    |ix| == |shape| && forall i :: 0 <= i < |ix| ==> ix[i] < shape[i]
  }

  /** `torch.equal`: the same shape and the same entries. */
  ghost predicate Same(t: Tensor, u: Tensor) {
    t.shape == u.shape && forall ix: seq<nat> :: Within(ix, t.shape) ==> t.at(ix) == u.at(ix)
  }

  function Front<T>(s: seq<T>): seq<T>
    requires s != []
  {
    s[..|s| - 1]
  }

  function Last<T>(s: seq<T>): T
    requires s != []
  {
    s[|s| - 1]
  }

  // -------------------------------------------------------------------------------- reshape

  function Prod(shape: seq<nat>): nat {
    if shape == [] then 1 else Prod(Front(shape)) * Last(shape)
  }

  /** The position of an entry in row-major order. */
  function Ravel(shape: seq<nat>, ix: seq<nat>): nat
    requires |ix| == |shape|
  {
    if shape == [] then 0 else Ravel(Front(shape), Front(ix)) * Last(shape) + Last(ix)
  }

  function Unravel(shape: seq<nat>, n: nat): (ix: seq<nat>)
    ensures |ix| == |shape|
  {
    if shape == [] then []
    else if Last(shape) == 0 then Unravel(Front(shape), 0) + [0]
    else Unravel(Front(shape), n / Last(shape)) + [n % Last(shape)]
  }

  function ReshapeAt(t: Tensor, shape: seq<nat>, ix: seq<nat>): real {
    if |ix| == |shape| then t.at(Unravel(t.shape, Ravel(shape, ix))) else 0.0
  }

  function Reshape(t: Tensor, shape: seq<nat>): Tensor {
    Tensor(shape, ix => ReshapeAt(t, shape, ix))
  }

  // -------------------------------------------------------------------------------- permute

  predicate Permutation(p: seq<nat>) {
    && (forall i :: 0 <= i < |p| ==> p[i] < |p|)
    && (forall i, j :: 0 <= i < j < |p| ==> p[i] != p[j])
    && (forall k :: 0 <= k < |p| ==> k in p)
  }

  function IndexOf(p: seq<nat>, k: nat): (i: nat)
    requires k in p
    ensures i < |p| && p[i] == k
  {
    if p[0] == k then 0 else 1 + IndexOf(p[1..], k)
  }

  /** The index into the tensor before the axes were moved. */
  function Unpermute(p: seq<nat>, ix: seq<nat>): (r: seq<nat>)
    requires Permutation(p) && |ix| == |p|
    ensures |r| == |p|
  {
    seq(|p|, k requires 0 <= k < |p| => ix[IndexOf(p, k)])
  }

  function PermuteAt(t: Tensor, p: seq<nat>, ix: seq<nat>): real {
    if Permutation(p) && |ix| == |p| then t.at(Unpermute(p, ix)) else 0.0
  }

  function Permute(t: Tensor, p: seq<nat>): Tensor
    requires Permutation(p) && |p| == |t.shape|
  {
    Tensor(seq(|p|, i requires 0 <= i < |p| => t.shape[p[i]]), ix => PermuteAt(t, p, ix))
  }

  // --------------------------------------------------------------------------------- indexing

  /** An integer, or a slice with a positive step. */
  datatype Sel = Int(j: int) | Slice(start: Option<int>, stop: Option<int>, step: nat)

  const FULL := Slice(None, None, 1)

  function ClampBound(b: int, d: nat): (r: nat)
    ensures r <= d
  {
    if b < 0 then if b + d < 0 then 0 else b + d else if b > d then d else b
  }

  function Lo(s: Sel, d: nat): nat
    requires s.Slice?
  {
    if s.start.None? then 0 else ClampBound(s.start.value, d)
  }

  function Hi(s: Sel, d: nat): nat
    requires s.Slice?
  {
    if s.stop.None? then d else ClampBound(s.stop.value, d)
  }

  /** How many of `d` places a slice takes. */
  function Count(s: Sel, d: nat): nat
    requires s.Slice? && s.step > 0
  {
    if Hi(s, d) <= Lo(s, d) then 0 else (Hi(s, d) - Lo(s, d) + s.step - 1) / s.step
  }

  /** The `c`-th place that a slice takes. */
  function Pick(s: Sel, d: nat, c: nat): nat
    requires s.Slice?
  {
    Lo(s, d) + c * s.step
  }

  predicate SelOk(s: Sel, d: nat) {
    match s case Int(j) => 0 <= j + d && j < d case Slice(_, _, step) => step > 0
  }

  predicate SelsOk(sels: seq<Sel>, shape: seq<nat>) {
    |sels| == |shape| && forall i :: 0 <= i < |sels| ==> SelOk(sels[i], shape[i])
  }

  /** Integers drop their dimension. */
  function SelShape(shape: seq<nat>, sels: seq<Sel>): seq<nat>
    requires SelsOk(sels, shape)
  {
    if sels == [] then []
    else (if sels[0].Int? then [] else [Count(sels[0], shape[0])]) + SelShape(shape[1..], sels[1..])
  }

  function Wrap(j: int, d: nat): int {
    if j < 0 then j + d else j
  }

  /** The index into the tensor before it was indexed. */
  function Expand(shape: seq<nat>, sels: seq<Sel>, ix: seq<nat>): (r: seq<nat>)
    requires SelsOk(sels, shape)
    ensures |r| == |shape|
  {
    if sels == [] then []
    else if sels[0].Int? then
      assert SelOk(sels[0], shape[0]);
      [Wrap(sels[0].j, shape[0])] + Expand(shape[1..], sels[1..], ix)
    else if ix == [] then [0] + Expand(shape[1..], sels[1..], [])
    else [Pick(sels[0], shape[0], ix[0])] + Expand(shape[1..], sels[1..], ix[1..])
  }

  function IndexAt(t: Tensor, sels: seq<Sel>, ix: seq<nat>): real {
    if SelsOk(sels, t.shape) then t.at(Expand(t.shape, sels, ix)) else 0.0
  }

  function Index(t: Tensor, sels: seq<Sel>): Tensor
    requires SelsOk(sels, t.shape)
  {
    Tensor(SelShape(t.shape, sels), ix => IndexAt(t, sels, ix))
  }

  // ----------------------------------------------------------------------------- cat and stack

  /** Tensors that can be laid end to end along their first dimension. */
  predicate Alike(ts: seq<Tensor>) {
    && ts != [] && ts[0].shape != []
    && forall i :: 0 <= i < |ts| ==> ts[i].shape != [] && ts[i].shape[1..] == ts[0].shape[1..]
  }

  function Rows(ts: seq<Tensor>): nat {
    if ts == [] then 0 else (if ts[0].shape == [] then 0 else ts[0].shape[0]) + Rows(ts[1..])
  }

  function CatAt(ts: seq<Tensor>, ix: seq<nat>): real {
    if ts == [] || ix == [] || ts[0].shape == [] then 0.0
    else if ix[0] < ts[0].shape[0] then ts[0].at(ix)
    else CatAt(ts[1..], [ix[0] - ts[0].shape[0]] + ix[1..])
  }

  function Cat(ts: seq<Tensor>): Tensor
    requires Alike(ts)
  {
    Tensor([Rows(ts)] + ts[0].shape[1..], ix => CatAt(ts, ix))
  }

  predicate SameShape(ts: seq<Tensor>) {
    ts != [] && forall i :: 0 <= i < |ts| ==> ts[i].shape == ts[0].shape
  }

  function StackAt(ts: seq<Tensor>, ix: seq<nat>): real {
    if ix != [] && ix[0] < |ts| then ts[ix[0]].at(ix[1..]) else 0.0
  }

  function Stack(ts: seq<Tensor>): Tensor
    requires SameShape(ts)
  {
    Tensor([|ts|] + ts[0].shape, ix => StackAt(ts, ix))
  }
}
