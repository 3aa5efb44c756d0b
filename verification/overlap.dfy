/** The overlap engine (overlap.py `calc_overlap`) and the per-band overlap
    vector (`get_overlap_list`).

    A plane-wave orbital is a list of complex coefficients paired by position
    with a list of integer G-vectors. A symmetry operator is given by its
    inverse R^-1 as an integer matrix. The overlap of the orbital with its image
    is the sum over stored G of phase(G, Δ)·C(G)·C(G·R^-1)*, where
    Δ = center − R^-1·center. Only half of the G-sphere is stored, because
    C(−G) = C(G)*. So C(G_R)* is read either as the conjugate of the stored
    value at G_R or as the stored value at −G_R, depending on which half G_R
    lies in. The phase exp(2πi·G·Δ) is a parameter of the model. */
module Overlap {
  import opened Outcomes
  import opened ComplexArith
  import opened Geometry
  import opened Seqs

  /** A symmetry operator as the overlap engine sees it: its symbol, the
      inverse of its matrix, its rotation axis and its rotation angle. */
  datatype SymOp = SymOp(symbol: string, inverse: IMat, axis: RVec, angle: real)

  /** Index, symbol, axis and angle of one operator, as recorded beside the
      overlaps. */
  datatype SymInfo = SymInfo(index: nat, symbol: string, axis: RVec, angle: real)

  /** Why no overlap vector could be produced: a transformed G-vector that the
      truncated basis does not hold (IndexError in the source), or an orbital of
      zero norm (ZeroDivisionError). */
  datatype OverlapError = MissingGVector(target: IVec) | ZeroNorm

  /** The phase factor exp(2πi·G·Δ), left uninterpreted. */
  type Phase = (IVec, RVec) -> Complex

  /** v is lexicographically below zero: its first nonzero coordinate is
      negative. These are the vectors whose coefficient is not stored. */
  predicate LexNegative(v: IVec) {
    v.x < 0 || (v.x == 0 && (v.y < 0 || (v.y == 0 && v.z < 0)))
  }

  /** The three arms of the source's test on G_R. */
  datatype Branch = ConjugateAtPositive | PlainAtNegated | ConjugateAtRest

  /** Which arm of the test at overlap.py:41-49 a transformed vector takes. */
  function BranchOf(gr: IVec): (b: Branch)
    ensures b == ConjugateAtPositive <==> gr.x > 0
    ensures b == PlainAtNegated <==> LexNegative(gr)
    ensures b == ConjugateAtRest <==> gr.x == 0 && !LexNegative(gr)
  {
    if gr.x > 0 then ConjugateAtPositive
    else if gr.x < 0 || gr.y < 0 || (gr.y == 0 && gr.z < 0) then PlainAtNegated
    else ConjugateAtRest
  }

  /** A nonzero vector lies in exactly one half of the G-sphere; zero lies in
      the stored half. */
  lemma HalfSphere(v: IVec)
    ensures v == IVec(0, 0, 0) ==> !LexNegative(v) && !LexNegative(Neg(v))
    ensures v != IVec(0, 0, 0) ==> (LexNegative(v) <==> !LexNegative(Neg(v)))
  {
  }

  /** G_R = G·R^-1 */
  function Image(g: IVec, op: SymOp): IVec {
    RowTimes(g, op.inverse)
  }

  /** Δ = center − R^-1·center */
  function Shift(op: SymOp, center: RVec): RVec {
    Sub(center, TimesColumn(op.inverse, center))
  }

  /** The stored vector whose coefficient gives C(v)*. */
  function StoredPartner(v: IVec): (w: IVec)
    ensures !LexNegative(v) ==> w == v
    ensures LexNegative(v) ==> w == Neg(v) && !LexNegative(w)
  {
    if LexNegative(v) then Neg(v) else v
  }

  /** C(v)* read from half-sphere storage: the stored value at −v when v is
      in the missing half, otherwise the conjugate of the stored value at v;
      None when the needed vector is not stored. */
  function ConjugateCoefficient(coeff: seq<Complex>, gvec: seq<IVec>, v: IVec): (r: Option<Complex>)
    requires |gvec| <= |coeff|
    ensures r.None? <==> StoredPartner(v) !in gvec
  {
    match IndexOf(gvec, StoredPartner(v))
    case None => None
    case Some(j) => Some(if LexNegative(v) then coeff[j] else Conj(coeff[j]))
  }

  /** The term for stored position i: phase·C(G_i)·C(G_i·R^-1)*. */
  function Term(phase: Phase, g: IVec, delta: RVec, c: Complex, conjugated: Complex): Complex {
    Mul(Mul(phase(g, delta), c), conjugated)
  }

  /** The reference definition of the overlap over the first n stored
      G-vectors: the sum of their terms, or the first vector whose partner is
      missing. */
  function OverlapUpTo(coeff: seq<Complex>, gvec: seq<IVec>, op: SymOp, center: RVec, phase: Phase, n: nat)
    : (r: Result<Complex, IVec>)
    requires n <= |gvec| <= |coeff|
    ensures r.Err? ==> r.error !in gvec
  {
    if n == 0 then Ok(Zero)
    else
      var prev := OverlapUpTo(coeff, gvec, op, center, phase, n - 1);
      if prev.Err? then prev
      else
        var g := gvec[n - 1];
        match ConjugateCoefficient(coeff, gvec, Image(g, op))
        case None => Err(StoredPartner(Image(g, op)))
        case Some(cc) => Ok(Add(prev.value, Term(phase, g, Shift(op, center), coeff[n - 1], cc)))
  }

  /** The overlap of the orbital with its image under op (reference
      definition over all stored G-vectors). */
  function Overlap(coeff: seq<Complex>, gvec: seq<IVec>, op: SymOp, center: RVec, phase: Phase)
    : Result<Complex, IVec>
    requires |gvec| <= |coeff|
  {
    OverlapUpTo(coeff, gvec, op, center, phase, |gvec|)
  }

  /** The reference sum over a prefix fails exactly when some stored vector
      of the prefix has no stored partner. */
  lemma {:induction false} OverlapFailsIff(coeff: seq<Complex>, gvec: seq<IVec>, op: SymOp, center: RVec, phase: Phase, n: nat)
    requires n <= |gvec| <= |coeff|
    ensures OverlapUpTo(coeff, gvec, op, center, phase, n).Err? <==>
      exists i :: 0 <= i < n && StoredPartner(Image(gvec[i], op)) !in gvec
  {
    if n > 0 {
      OverlapFailsIff(coeff, gvec, op, center, phase, n - 1);
      OverlapErrStep(coeff, gvec, op, center, phase, n);
      MissingStep(gvec, op, n);
    }
  }

  /** The sum over n vectors fails exactly when the sum over the first n - 1
      fails or the n-th vector has no stored partner. */
  lemma OverlapErrStep(coeff: seq<Complex>, gvec: seq<IVec>, op: SymOp, center: RVec, phase: Phase, n: nat)
    requires 0 < n <= |gvec| <= |coeff|
    ensures OverlapUpTo(coeff, gvec, op, center, phase, n).Err? <==>
      OverlapUpTo(coeff, gvec, op, center, phase, n - 1).Err? ||
      ConjugateCoefficient(coeff, gvec, Image(gvec[n - 1], op)).None?
  {
  }

  /** Some of the first n vectors lacks a partner exactly when some of the
      first n - 1 does or the n-th does. */
  lemma MissingStep(gvec: seq<IVec>, op: SymOp, n: nat)
    requires 0 < n <= |gvec|
    ensures (exists i :: 0 <= i < n && StoredPartner(Image(gvec[i], op)) !in gvec) <==>
      (exists i :: 0 <= i < n - 1 && StoredPartner(Image(gvec[i], op)) !in gvec) ||
      StoredPartner(Image(gvec[n - 1], op)) !in gvec
  {
  }

  /** Once a vector is found missing, the overlap over any longer prefix
      reports the same vector. */
  lemma {:induction false} ErrorPersists(coeff: seq<Complex>, gvec: seq<IVec>, op: SymOp, center: RVec, phase: Phase, n: nat, m: nat)
    requires n <= m <= |gvec| <= |coeff|
    requires OverlapUpTo(coeff, gvec, op, center, phase, n).Err?
    ensures OverlapUpTo(coeff, gvec, op, center, phase, m) == OverlapUpTo(coeff, gvec, op, center, phase, n)
    decreases m - n
  {
    if n < m {
      ErrorPersists(coeff, gvec, op, center, phase, n, m - 1);
    }
  }

  /** The three-way branch of `calc_overlap` on G_R: C(G_R)* read as the
      conjugate of the stored value at G_R, or as the stored value at −G_R;
      None when that vector is not stored (the source's IndexError, raised
      for the vector named by StoredPartner). */
  method ReadPartner(coeff: seq<Complex>, gvec: seq<IVec>, gr: IVec) returns (cp: Option<Complex>)
    requires |gvec| <= |coeff|
    ensures cp == ConjugateCoefficient(coeff, gvec, gr)
    ensures cp.None? <==> StoredPartner(gr) !in gvec
  {
    match BranchOf(gr) {
      case ConjugateAtPositive =>
        var j := IndexOf(gvec, gr);
        if j.None? {
          return None;
        }
        cp := Some(Conj(coeff[j.value]));
      case PlainAtNegated =>
        var j := IndexOf(gvec, Neg(gr));
        if j.None? {
          return None;
        }
        cp := Some(coeff[j.value]);
      case ConjugateAtRest =>
        var j := IndexOf(gvec, gr);
        if j.None? {
          return None;
        }
        cp := Some(Conj(coeff[j.value]));
    }
  }

  /** One more stored G-vector whose partner is stored: the overlap so far
      extended by its term. */
  lemma OverlapStepOk(coeff: seq<Complex>, gvec: seq<IVec>, op: SymOp, center: RVec, phase: Phase,
                      i: nat, acc: Complex, cc: Complex)
    requires i < |gvec| <= |coeff|
    requires OverlapUpTo(coeff, gvec, op, center, phase, i) == Ok(acc)
    requires ConjugateCoefficient(coeff, gvec, Image(gvec[i], op)) == Some(cc)
    ensures OverlapUpTo(coeff, gvec, op, center, phase, i + 1) ==
      Ok(Add(acc, Term(phase, gvec[i], Shift(op, center), coeff[i], cc)))
  {
  }

  /** One more stored G-vector whose partner is missing: the overlap fails
      with that partner. */
  lemma OverlapStepErr(coeff: seq<Complex>, gvec: seq<IVec>, op: SymOp, center: RVec, phase: Phase,
                       i: nat, acc: Complex)
    requires i < |gvec| <= |coeff|
    requires OverlapUpTo(coeff, gvec, op, center, phase, i) == Ok(acc)
    requires ConjugateCoefficient(coeff, gvec, Image(gvec[i], op)).None?
    ensures OverlapUpTo(coeff, gvec, op, center, phase, i + 1) == Err(StoredPartner(Image(gvec[i], op)))
  {
  }

  /** A failure on a prefix is the failure of the whole overlap, and some
      stored vector then has no stored partner. */
  lemma FailureIsFinal(coeff: seq<Complex>, gvec: seq<IVec>, op: SymOp, center: RVec, phase: Phase,
                       n: nat, r: Result<Complex, IVec>)
    requires n <= |gvec| <= |coeff|
    requires r.Err? && OverlapUpTo(coeff, gvec, op, center, phase, n) == r
    ensures Overlap(coeff, gvec, op, center, phase) == r
    ensures exists i :: 0 <= i < |gvec| && StoredPartner(Image(gvec[i], op)) !in gvec
  {
    ErrorPersists(coeff, gvec, op, center, phase, n, |gvec|);
    OverlapFailsIff(coeff, gvec, op, center, phase, |gvec|);
  }

  /** `calc_overlap`, following the source's loop and its three-way branch.
      It agrees with the reference definition, fails exactly when some stored
      G-vector's partner is absent, and then names an absent vector. */
  method CalcOverlap(coeff: seq<Complex>, gvec: seq<IVec>, op: SymOp, center: RVec, phase: Phase)
    returns (r: Result<Complex, IVec>)
    requires |gvec| <= |coeff|
    ensures r == Overlap(coeff, gvec, op, center, phase)
    ensures r.Err? <==> exists i :: 0 <= i < |gvec| && StoredPartner(Image(gvec[i], op)) !in gvec
    ensures r.Err? ==> r.error !in gvec
  {
    var delta := Shift(op, center);
    var acc := Zero;
    var i := 0;
    while i < |gvec|
      invariant 0 <= i <= |gvec|
      invariant OverlapUpTo(coeff, gvec, op, center, phase, i) == Ok(acc)
    {
      var g := gvec[i];
      var gr := Image(g, op);
      var cp := ReadPartner(coeff, gvec, gr);
      if cp.None? {
        OverlapStepErr(coeff, gvec, op, center, phase, i, acc);
        r := Err(StoredPartner(gr));
        FailureIsFinal(coeff, gvec, op, center, phase, i + 1, r);
        return;
      }
      OverlapStepOk(coeff, gvec, op, center, phase, i, acc, cp.value);
      acc := Add(acc, Term(phase, g, delta, coeff[i], cp.value));
      i := i + 1;
    }
    r := Ok(acc);
    OverlapFailsIff(coeff, gvec, op, center, phase, |gvec|);
  }

  /** Σ C·C* over the whole coefficient list: the self-overlap stored as
      entry 0. */
  function SelfNorm(coeff: seq<Complex>): (r: Complex)
    ensures r.im == 0.0 && r.re >= 0.0
  {
    if |coeff| == 0 then Zero
    else
      var c := coeff[|coeff| - 1];
      MulConj(c);
      Add(SelfNorm(coeff[..|coeff| - 1]), Mul(c, Conj(c)))
  }

  /** For the identity operator, with half-sphere storage without repeats and a
      phase that is 1 at zero shift, the engine returns the self-norm. So
      skipping operator 0 and storing the self-norm in its place agrees with
      the engine. */
  lemma IdentityOverlapIsSelfNorm(coeff: seq<Complex>, gvec: seq<IVec>, symbol: string, axis: RVec, angle: real,
                                  center: RVec, phase: Phase)
    requires |gvec| == |coeff|
    requires Distinct(gvec)
    requires forall i :: 0 <= i < |gvec| ==> !LexNegative(gvec[i])
    requires forall i :: 0 <= i < |gvec| ==> phase(gvec[i], Origin) == One
    ensures Overlap(coeff, gvec, SymOp(symbol, Identity, axis, angle), center, phase) == Ok(SelfNorm(coeff))
  {
    var op := SymOp(symbol, Identity, axis, angle);
    IdentityPrefix(coeff, gvec, op, center, phase, |gvec|);
    assert coeff[..|gvec|] == coeff;
  }

  lemma {:induction false} IdentityPrefix(coeff: seq<Complex>, gvec: seq<IVec>, op: SymOp, center: RVec, phase: Phase, n: nat)
    requires n <= |gvec| == |coeff|
    requires op.inverse == Identity
    requires Distinct(gvec)
    requires forall i :: 0 <= i < |gvec| ==> !LexNegative(gvec[i])
    requires forall i :: 0 <= i < |gvec| ==> phase(gvec[i], Origin) == One
    ensures OverlapUpTo(coeff, gvec, op, center, phase, n) == Ok(SelfNorm(coeff[..n]))
  {
    if n > 0 {
      IdentityPrefix(coeff, gvec, op, center, phase, n - 1);
      var g := gvec[n - 1];
      RowTimesIdentity(g);
      IdentityFixesEveryCenter(center);
      IndexOfDistinct(gvec, n - 1);
      var c := coeff[n - 1];
      MulOneLeft(c);
      assert coeff[..n][..n - 1] == coeff[..n - 1];
      assert coeff[..n][n - 1] == c;
    }
  }

  /** Index, symbol, axis and angle of every operator. */
  function Infos(ops: seq<SymOp>): (r: seq<SymInfo>)
    ensures |r| == |ops|
    ensures forall k :: 0 <= k < |ops| ==> r[k] == SymInfo(k, ops[k].symbol, ops[k].axis, ops[k].angle)
  {
    seq(|ops|, k requires 0 <= k < |ops| => SymInfo(k, ops[k].symbol, ops[k].axis, ops[k].angle))
  }

  /** Every entry divided by n; multiplying back by n recovers it. */
  function Normalize(raw: seq<Complex>, n: real): (r: seq<Complex>)
    requires n != 0.0
    ensures |r| == |raw|
    ensures forall k :: 0 <= k < |raw| ==> Scale(n, r[k]) == raw[k]
    ensures forall k :: 0 <= k < |raw| && raw[k] == OfReal(n) ==> r[k] == One
  {
    var r := seq(|raw|, k requires 0 <= k < |raw| => Scale(1.0 / n, raw[k]));
    assert forall k :: 0 <= k < |raw| ==> Scale(n, r[k]) == raw[k] && (raw[k] == OfReal(n) ==> r[k] == One) by {
      forall k | 0 <= k < |raw| {
        ScaleInverse(n, raw[k]);
      }
    }
    r
  }

  /** The overlaps with operators 1 onwards, entry k - 1 for operator k; or
      the first vector found missing. */
  function OtherOverlaps(coeff: seq<Complex>, gvec: seq<IVec>, ops: seq<SymOp>, center: RVec, phase: Phase)
    : (r: Result<seq<Complex>, IVec>)
    requires |ops| > 0
    requires |gvec| <= |coeff|
    ensures r.Ok? ==> |r.value| == |ops| - 1
    ensures r.Ok? ==> forall k :: 1 <= k < |ops| ==> Overlap(coeff, gvec, ops[k], center, phase) == Ok(r.value[k - 1])
    ensures r.Err? <==> exists k :: 1 <= k < |ops| && Overlap(coeff, gvec, ops[k], center, phase).Err?
  {
    var tail := ops[1..];
    var r := MapAll(op => Overlap(coeff, gvec, op, center, phase), tail);
    assert forall k :: 1 <= k < |ops| ==> tail[k - 1] == ops[k];
    assert forall k :: 0 <= k < |tail| ==> tail[k] == ops[k + 1];
    r
  }

  /** `get_overlap_list`: one entry per operator, entry 0 the self-norm, every
      entry divided by the self-norm, together with the operator metadata.
      OverlapListMeaning restates the contract in terms of the engine. */
  function GetOverlapList(coeff: seq<Complex>, gvec: seq<IVec>, ops: seq<SymOp>, center: RVec, phase: Phase)
    : (r: Result<(seq<Complex>, seq<SymInfo>), OverlapError>)
    requires |ops| > 0
    requires |gvec| <= |coeff|
    ensures r.Ok? ==> |r.value.0| == |ops| && r.value.1 == Infos(ops)
    ensures r.Ok? ==> r.value.0[0] == One
    ensures r.Ok? ==> SelfNorm(coeff).re != 0.0 && OtherOverlaps(coeff, gvec, ops, center, phase).Ok?
    ensures r.Ok? ==> forall k :: 1 <= k < |ops| ==>
      Scale(SelfNorm(coeff).re, r.value.0[k]) == OtherOverlaps(coeff, gvec, ops, center, phase).value[k - 1]
    ensures r.Err? && r.error.MissingGVector? <==> OtherOverlaps(coeff, gvec, ops, center, phase).Err?
    ensures r == Err(ZeroNorm) <==>
      OtherOverlaps(coeff, gvec, ops, center, phase).Ok? && SelfNorm(coeff).re == 0.0
  {
    var norm := SelfNorm(coeff);
    var rest := OtherOverlaps(coeff, gvec, ops, center, phase);
    if rest.Err? then Err(MissingGVector(rest.error))
    else if norm.re == 0.0 then Err(ZeroNorm)
    else
      var raw := [OfReal(norm.re)] + rest.value;
      Ok((Normalize(raw, norm.re), Infos(ops)))
  }

  /** The overlap vector in terms of the engine: entry k times the self-norm
      is the overlap with operator k; the list fails on a missing vector
      exactly when some operator's overlap does, and on a zero norm exactly
      when every overlap exists but the self-norm is 0. */
  lemma OverlapListMeaning(coeff: seq<Complex>, gvec: seq<IVec>, ops: seq<SymOp>, center: RVec, phase: Phase)
    requires |ops| > 0
    requires |gvec| <= |coeff|
    ensures var r := GetOverlapList(coeff, gvec, ops, center, phase);
      r.Ok? ==> (forall k :: 1 <= k < |ops| ==>
                   Overlap(coeff, gvec, ops[k], center, phase) == Ok(Scale(SelfNorm(coeff).re, r.value.0[k])))
    ensures var r := GetOverlapList(coeff, gvec, ops, center, phase);
      r.Err? && r.error.MissingGVector? <==> exists k :: 1 <= k < |ops| && Overlap(coeff, gvec, ops[k], center, phase).Err?
    ensures var r := GetOverlapList(coeff, gvec, ops, center, phase);
      r == Err(ZeroNorm) <==>
        (forall k :: 1 <= k < |ops| ==> Overlap(coeff, gvec, ops[k], center, phase).Ok?) && SelfNorm(coeff).re == 0.0
  {
  }

  /** Entry 0 is never computed by the engine: the matrix given for operator
      0 does not affect the result. */
  lemma OperatorZeroMatrixUnused(coeff: seq<Complex>, gvec: seq<IVec>, ops: seq<SymOp>, m: IMat, center: RVec, phase: Phase)
    requires |ops| > 0
    requires |gvec| <= |coeff|
    ensures GetOverlapList(coeff, gvec, ops[0 := ops[0].(inverse := m)], center, phase)
         == GetOverlapList(coeff, gvec, ops, center, phase)
  {
    var ops' := ops[0 := ops[0].(inverse := m)];
    assert ops'[1..] == ops[1..];
    assert Infos(ops') == Infos(ops);
  }
}
