/**
  Vector math (core/vector_utils.py) over the reals.

  numpy's floating-point division by the norm and its dot product are not
  modelled numerically: they are the two fields of a `Kernel` value that
  every operation takes as a parameter.  What the model keeps exactly is the
  guard of normalize_vector: it raises when the norm is zero, and over the
  reals the norm sqrt(sum of squares) is zero exactly when every component is
  zero, so the model tests that directly.
 */
module Vectors {
  import opened Failures

  type Vector = seq<real>

  /** The floating-point kernel: `unitOf(v)` is the list numpy computes as
      v / ||v||, and `dot(a, b)` is float(np.dot(a, b)). */
  datatype Numerics = Numerics(unitOf: Vector -> Vector, dot: (Vector, Vector) -> real)

  /** A kernel whose normalisation keeps the length, as `arr / norm` does. */
  type Kernel = k: Numerics | forall v :: |k.unitOf(v)| == |v|
    witness Numerics(v => v, (a, b) => 0.0)

  predicate IsZero(v: Vector) {
    forall i :: 0 <= i < |v| ==> v[i] == 0.0
  }

  /** normalize_vector: fails with InvalidVector when the norm is zero, that
      is, when every component is zero (the empty vector included). */
  function Normalize(k: Kernel, v: Vector): (r: Result<Vector>)
    ensures r.Err? <==> IsZero(v)
    ensures r.Err? ==> r.failure == InvalidVector
    ensures r.Ok? ==> r.value == k.unitOf(v) && |r.value| == |v|
  {
    if IsZero(v) then Err(InvalidVector) else Ok(k.unitOf(v))
  }

  /** cosine_similarity: normalises both arguments itself, then takes the dot
      product; a zero argument raises the normalisation error, and np.dot
      raises a ValueError as well when the two lengths differ. */
  function CosineSimilarity(k: Kernel, a: Vector, b: Vector): (r: Result<real>)
    ensures r.Ok? <==> !IsZero(a) && !IsZero(b) && |a| == |b|
    ensures r.Err? ==> r.failure == InvalidVector
    ensures r.Ok? ==> r.value == k.dot(k.unitOf(a), k.unitOf(b))
  {
    var ua :- Normalize(k, a);
    var ub :- Normalize(k, b);
    if |ua| != |ub| then Err(InvalidVector) else Ok(k.dot(ua, ub))
  }
}
