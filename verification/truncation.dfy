/** Basis truncation (overlap.py `truncate_gvec`, `truncate_coeffs`): keep the
    plane waves whose kinetic energy lies below a reduced cutoff. */
module Truncation {
  import opened Seqs

  /** The positions whose energy is below bound, in increasing order. */
  function KeptIndices(es: seq<real>, bound: real): (idx: seq<nat>)
    ensures |idx| <= |es|
    ensures forall k :: 0 <= k < |idx| ==> idx[k] < |es| && es[idx[k]] < bound
    ensures forall i :: 0 <= i < |es| && es[i] < bound ==> i in idx
    ensures forall k, l :: 0 <= k < l < |idx| ==> idx[k] < idx[l]
  {
    if |es| == 0 then []
    else
      var init := KeptIndices(es[..|es| - 1], bound);
      if es[|es| - 1] < bound then init + [|es| - 1] else init
  }

  /** When every energy is below the bound, every position is kept. */
  lemma {:induction false} KeptIndicesAll(es: seq<real>, bound: real)
    requires forall i :: 0 <= i < |es| ==> es[i] < bound
    ensures KeptIndices(es, bound) == Range(|es|)
  {
    if |es| > 0 {
      var n := |es| - 1;
      var init := es[..n];
      assert forall i :: 0 <= i < |init| ==> init[i] < bound by {
        forall i | 0 <= i < |init|
          ensures init[i] < bound
        {
          assert init[i] == es[i];
        }
      }
      KeptIndicesAll(init, bound);
      assert KeptIndices(es, bound) == Range(n) + [n];
      RangeSnoc(n);
    }
  }

  lemma RangeSnoc(n: nat)
    ensures Range(n) + [n] == Range(n + 1)
  {
    assert forall k :: 0 <= k < n + 1 ==> (Range(n) + [n])[k] == k;
  }

  /** The source's loop `for i, en in enumerate(es): if en < bound:
      out.append(xs[i])`. It is defined over prefixes of es. */
  function KeepBelow<T>(xs: seq<T>, es: seq<real>, bound: real): (r: seq<T>)
    requires forall i :: 0 <= i < |es| && es[i] < bound ==> i < |xs|
    ensures r == Pick(xs, KeptIndices(es, bound))
  {
    if |es| == 0 then []
    else
      var init := es[..|es| - 1];
      var prev := KeepBelow(xs, init, bound);
      if es[|es| - 1] < bound then prev + [xs[|es| - 1]] else prev
  }

  /** `KENERGY[np.where(KENERGY < encut)]`: the energies below the cutoff,
      in order. */
  function BelowCutoff(kenergy: seq<real>, encut: real): (r: seq<real>)
    ensures r == Pick(kenergy, KeptIndices(kenergy, encut))
    ensures |r| <= |kenergy|
    ensures forall k :: 0 <= k < |r| ==> r[k] < encut
  {
    KeepBelow(kenergy, kenergy, encut)
  }

  /** `truncate_gvec`: the energies below encut, and the G-vectors at the
      positions of that filtered list whose energy is below encut·reduction. */
  function TruncateGvec<V>(gvec: seq<V>, kenergy: seq<real>, encut: real, reduction: real)
    : (r: (seq<V>, seq<real>))
    requires var ks := BelowCutoff(kenergy, encut);
      forall i :: 0 <= i < |ks| && ks[i] < encut * reduction ==> i < |gvec|
    ensures r.1 == Pick(kenergy, KeptIndices(kenergy, encut))
    ensures r.0 == Pick(gvec, KeptIndices(r.1, encut * reduction))
    ensures |r.0| <= |r.1| <= |kenergy|
  {
    var ks := BelowCutoff(kenergy, encut);
    var trunc := encut * reduction;
    (KeepBelow(gvec, ks, trunc), ks)
  }

  /** `truncate_coeffs`: the coefficients at the positions whose energy is
      below encut·reduction. */
  function TruncateCoeffs<C>(coeffs: seq<C>, kenergy: seq<real>, encut: real, reduction: real): (r: seq<C>)
    requires forall i :: 0 <= i < |kenergy| && kenergy[i] < encut * reduction ==> i < |coeffs|
    ensures r == Pick(coeffs, KeptIndices(kenergy, encut * reduction))
  {
    KeepBelow(coeffs, kenergy, encut * reduction)
  }

  /** When every energy is already below encut, the truncated G-vectors and
      coefficients are taken at the same positions: those whose energy is below
      encut·reduction, in the original order. The two lists stay paired and
      are no longer than the inputs. */
  lemma TruncationKeepsPairing<V, C>(gvec: seq<V>, coeffs: seq<C>, kenergy: seq<real>, encut: real, reduction: real)
    requires |gvec| == |kenergy| == |coeffs|
    requires forall i :: 0 <= i < |kenergy| ==> kenergy[i] < encut
    ensures TruncateGvec(gvec, kenergy, encut, reduction).1 == kenergy
    ensures var g := TruncateGvec(gvec, kenergy, encut, reduction).0;
            var c := TruncateCoeffs(coeffs, kenergy, encut, reduction);
            var idx := KeptIndices(kenergy, encut * reduction);
            |g| == |c| == |idx| <= |gvec| &&
            forall k :: 0 <= k < |idx| ==> g[k] == gvec[idx[k]] && c[k] == coeffs[idx[k]]
  {
    var ks := BelowCutoff(kenergy, encut);
    BelowCutoffKeepsAll(kenergy, encut);
    assert ks == kenergy;
    var idx := KeptIndices(kenergy, encut * reduction);
    assert TruncateGvec(gvec, kenergy, encut, reduction).0 == Pick(gvec, idx);
    assert TruncateCoeffs(coeffs, kenergy, encut, reduction) == Pick(coeffs, idx);
  }

  /** When every energy is below encut, the cutoff keeps them all. */
  lemma BelowCutoffKeepsAll(kenergy: seq<real>, encut: real)
    requires forall i :: 0 <= i < |kenergy| ==> kenergy[i] < encut
    ensures BelowCutoff(kenergy, encut) == kenergy
  {
    KeptIndicesAll(kenergy, encut);
    var r := BelowCutoff(kenergy, encut);
    assert r == Pick(kenergy, Range(|kenergy|));
    assert forall k :: 0 <= k < |r| ==> r[k] == kenergy[k];
  }
}
