/** Transition selection (analysis.py `get_allowed_transitions`).

    For every degeneracy group the representation of its characters is found;
    groups without any irrep are reported by band. A transition from group i
    to group j is considered when i is (partly) occupied and j is not full, and
    for every position-vector component (polarisation) the transition dipole
    characters final·pos·init are projected: the transition is allowed when
    they contain the totally symmetric irrep. */
module Transitions {
  import opened Outcomes
  import opened ComplexArith
  import opened Numeric
  import opened Header
  import opened Projection
  import opened Rendering
  import opened Selection

  /** One component of the position vector as the character table lists it:
      its name, its label, and its character in every class. */
  datatype PositionVector = PositionVector(name: string, axisLabel: string, chars: seq<real>)

  /** The inputs of `get_allowed_transitions`: character table, position
      vectors, the characters of every group (`char_list[1:]`), class
      multiplicities, the groups' bands and eigenvalues, the groups'
      occupations, the projection tolerance and the `tdm_IR_from_IR`
      setting. */
  datatype Setup = Setup(table: CharTable, posVecs: seq<PositionVector>, chars: seq<seq<Complex>>,
                         mult: seq<int>, groups: seq<seq<int>>, energies: seq<real>, occ: seq<real>,
                         tol: real, fromIR: bool)

  /** The shapes the source relies on: a well-formed table, one character per
      class everywhere, and a band list, an eigenvalue and an occupation for
      every group of characters. */
  predicate Valid(s: Setup) {
    SumInt(s.mult) != 0 && WellFormedTable(s.table, s.mult) &&
    (forall i :: 0 <= i < |s.chars| ==> |s.chars[i]| == |s.mult|) &&
    (forall p :: 0 <= p < |s.posVecs| ==> |s.posVecs[p].chars| == |s.mult|) &&
    |s.chars| <= |s.groups| && |s.chars| <= |s.energies| && |s.chars| <= |s.occ|
  }

  /** The representation of every group's characters. */
  function Irreps(s: Setup): (r: seq<seq<int>>)
    requires Valid(s)
    ensures |r| == |s.chars|
    ensures forall i :: 0 <= i < |s.chars| ==> GetRep(s.table, s.chars[i], s.mult, s.tol) == Ok(r[i])
  {
    seq(|s.chars|, i requires 0 <= i < |s.chars| => Rep(s.table, s.chars[i], s.mult, s.tol))
  }

  function SumSq(xs: seq<int>): int {
    if |xs| == 0 then 0 else SumSq(xs[..|xs| - 1]) + xs[|xs| - 1] * xs[|xs| - 1]
  }

  /** `np.sum(irr*irr) == 0` holds exactly when every amplitude is 0. */
  lemma {:induction false} SumSqZero(xs: seq<int>)
    ensures SumSq(xs) >= 0
    ensures SumSq(xs) == 0 <==> forall k :: 0 <= k < |xs| ==> xs[k] == 0
  {
    if |xs| > 0 {
      var n := |xs| - 1;
      SumSqZero(xs[..n]);
      var x := xs[n];
      if x != 0 {
        assert x * x > 0;
      }
      assert forall k :: 0 <= k < n ==> xs[..n][k] == xs[k];
    }
  }

  /** The bands of every group whose representation has no irrep
      (`np.sum(irr*irr) == 0`), in group order. */
  function NoIrr(groups: seq<seq<int>>, irreps: seq<seq<int>>): seq<int>
    requires |irreps| <= |groups|
  {
    if |irreps| == 0 then []
    else
      var n := |irreps| - 1;
      var prev := NoIrr(groups, irreps[..n]);
      if SumSq(irreps[n]) == 0 then prev + groups[n] else prev
  }

  /** A band is reported exactly when some group holding it has only zero
      amplitudes. */
  lemma {:induction false} NoIrrMembers(groups: seq<seq<int>>, irreps: seq<seq<int>>)
    requires |irreps| <= |groups|
    ensures forall b :: b in NoIrr(groups, irreps) <==>
      exists i :: 0 <= i < |irreps| && b in groups[i] && forall k :: 0 <= k < |irreps[i]| ==> irreps[i][k] == 0
  {
    if |irreps| > 0 {
      var n := |irreps| - 1;
      NoIrrMembers(groups, irreps[..n]);
      SumSqZero(irreps[n]);
      assert forall i :: 0 <= i < n ==> irreps[..n][i] == irreps[i];
    }
  }

  /** `[round(np.real(c)) for c in ch]`: characters replaced by the nearest
      integers to their real parts. */
  function Rounded(ch: seq<Complex>): (r: seq<Complex>)
    ensures |r| == |ch|
    ensures forall k :: 0 <= k < |ch| ==> r[k] == OfReal(Round(ch[k].re) as real)
    ensures forall k :: 0 <= k < |ch| ==> r[k].im == 0.0 && Abs(r[k].re - ch[k].re) <= 0.5
  {
    seq(|ch|, k requires 0 <= k < |ch| => OfReal(Round(ch[k].re) as real))
  }

  /** The characters the transition dipoles are built from. */
  function DipoleChars(s: Setup, i: nat): (r: seq<Complex>)
    requires i < |s.chars|
    ensures |r| == |s.chars[i]|
  {
    if s.fromIR then Rounded(s.chars[i]) else s.chars[i]
  }

  /** `ch_final * (pos_v * ch_init)`, entry by entry. */
  function Tdm(init: seq<Complex>, final: seq<Complex>, pos: seq<real>): (r: seq<Complex>)
    requires |init| == |final| == |pos|
    ensures |r| == |init|
  {
    seq(|init|, k requires 0 <= k < |init| => Mul(final[k], Scale(pos[k], init[k])))
  }

  /** The occupancy filter: a transition from a group holding some electrons
      to a different group that is not full. */
  predicate Eligible(s: Setup, i: nat, j: nat)
    requires i < |s.occ| && j < |s.occ| && j < |s.groups|
  {
    i != j && 0.0 < s.occ[i] && s.occ[j] < |s.groups[j]| as real
  }

  /** The first pass of `get_allowed_transitions`: the representation of
      every group, and the bands of the groups that have none. */
  method FindIrreps(s: Setup) returns (irreps: seq<seq<int>>, noIrr: seq<int>)
    requires Valid(s)
    ensures irreps == Irreps(s)
    ensures noIrr == NoIrr(s.groups, irreps)
  {
    irreps := [];
    noIrr := [];
    for i := 0 to |s.chars|
      invariant irreps == Irreps(s)[..i]
      invariant noIrr == NoIrr(s.groups, irreps)
    {
      var irr := Rep(s.table, s.chars[i], s.mult, s.tol);
      IrrepsPrefix(s, i);
      NoIrrSnoc(s.groups, irreps, irr);
      irreps := irreps + [irr];
      if SumSq(irr) == 0 {
        noIrr := noIrr + s.groups[i];
      }
    }
  }

  /** The representations of the first i + 1 groups extend those of the
      first i by group i's. */
  lemma IrrepsPrefix(s: Setup, i: nat)
    requires Valid(s) && i < |s.chars|
    ensures Irreps(s)[..i + 1] == Irreps(s)[..i] + [Rep(s.table, s.chars[i], s.mult, s.tol)]
  {
    var r := Irreps(s);
    assert r[i] == Rep(s.table, s.chars[i], s.mult, s.tol);
    assert r[..i + 1] == r[..i] + [r[i]];
  }

  /** One more group adds its bands exactly when it has no irrep. */
  lemma NoIrrSnoc(groups: seq<seq<int>>, irreps: seq<seq<int>>, irr: seq<int>)
    requires |irreps| < |groups|
    ensures NoIrr(groups, irreps + [irr]) ==
      if SumSq(irr) == 0 then NoIrr(groups, irreps) + groups[|irreps|] else NoIrr(groups, irreps)
  {
    assert (irreps + [irr])[..|irreps|] == irreps;
  }

  /** One transition record, the entries `get_allowed_transitions` appends:
      the bands and eigenvalue of the initial group and its representation
      as text, the same for the final group, the polarisation's label and
      name, the dipole characters, their representation as text, and whether
      the transition is allowed. */
  datatype Transition = Transition(initBands: seq<int>, initEnergy: real, initText: string,
                                   finalBands: seq<int>, finalEnergy: real, finalText: string,
                                   axisLabel: string, axisName: string,
                                   tdm: seq<Complex>, tdmText: string, allowed: bool)

  /** The text of a representation. */
  function RepText(s: Setup, reps: seq<int>): string
    requires Valid(s) && |reps| == |s.table.rows|
  {
    RowsParseEach(s.table.rows, |s.mult|);
    var symbols := GetIrrepSymbols(s.table).value;
    Rendered(Terms(symbols, reps))
  }

  /** The record for groups i, j and polarisation p. It is allowed exactly
      when the dipole characters contain the first (totally symmetric) irrep
      at least once. */
  function Record(s: Setup, i: nat, j: nat, p: nat): (r: Transition)
    requires Valid(s) && i < |s.chars| && j < |s.chars| && p < |s.posVecs|
    ensures r.initBands == s.groups[i] && r.finalBands == s.groups[j]
    ensures r.initEnergy == s.energies[i] && r.finalEnergy == s.energies[j]
    ensures r.axisLabel == s.posVecs[p].axisLabel && r.axisName == s.posVecs[p].name
    ensures r.tdm == Tdm(DipoleChars(s, i), DipoleChars(s, j), s.posVecs[p].chars)
    ensures r.initText == RepText(s, Irreps(s)[i]) && r.finalText == RepText(s, Irreps(s)[j])
    ensures GetRep(s.table, r.tdm, s.mult, s.tol).Ok?
    ensures var tdmIrr := GetRep(s.table, r.tdm, s.mult, s.tol).value;
      r.tdmText == RepText(s, tdmIrr) && (r.allowed <==> tdmIrr[0] >= 1)
  {
    var irreps := Irreps(s);
    var tdm := Tdm(DipoleChars(s, i), DipoleChars(s, j), s.posVecs[p].chars);
    var tdmIrr := Rep(s.table, tdm, s.mult, s.tol);
    Transition(s.groups[i], s.energies[i], RepText(s, irreps[i]),
               s.groups[j], s.energies[j], RepText(s, irreps[j]),
               s.posVecs[p].axisLabel, s.posVecs[p].name,
               tdm, RepText(s, tdmIrr), tdmIrr[0] >= 1)
  }

  /** The records as a function of the loop indices. */
  function Maker(s: Setup): (nat, nat, nat) --> Transition
    requires Valid(s)
  {
    (i: nat, j: nat, p: nat) requires i < |s.chars| && j < |s.chars| && p < |s.posVecs| => Record(s, i, j, p)
  }

  /** The occupancy filter as a function of the loop indices. */
  function EligibleIn(s: Setup): (nat, nat) --> bool
    requires Valid(s)
  {
    (i: nat, j: nat) requires i < |s.chars| && j < |s.chars| => Eligible(s, i, j)
  }

  /** A record that the selection emits: the record (`Maker(s)(i, j, p)`
      is `Record(s, i, j, p)`) of an eligible pair and a polarisation. */
  ghost predicate Emitted(s: Setup, r: Transition)
    requires Valid(s)
  {
    exists i: nat, j: nat, p: nat :: i < |s.chars| && j < |s.chars| && p < |s.posVecs| &&
      Eligible(s, i, j) && r == Maker(s)(i, j, p)
  }

  /** The record function and the filter are defined on every index the
      loops visit. */
  lemma MakerCovers(s: Setup)
    requires Valid(s)
    ensures Covers(Maker(s), EligibleIn(s), |s.chars|, |s.posVecs|)
  {
  }

  /** The filter the loop nest applies is `Eligible`. */
  lemma EligibleInIs(s: Setup, i: nat, j: nat)
    requires Valid(s) && i < |s.chars| && j < |s.chars|
    ensures EligibleIn(s)(i, j) == Eligible(s, i, j)
  {
  }

  /** The combinations the loop nest makes are exactly the emitted records. */
  lemma MadeIsEmitted(s: Setup, r: Transition)
    requires Valid(s)
    ensures MadeBelow(Maker(s), EligibleIn(s), |s.chars|, |s.posVecs|, |s.chars|, |s.chars|, r) <==> Emitted(s, r)
  {
    MakerCovers(s);
    forall i: nat, j: nat | i < |s.chars| && j < |s.chars|
      ensures EligibleIn(s)(i, j) == Eligible(s, i, j)
    {
      EligibleInIs(s, i, j);
    }
  }

  /** The second pass of `get_allowed_transitions`: for every initial group,
      every final group and, when the pair is eligible, every polarisation,
      one record, in that order. */
  method SelectTransitions(s: Setup) returns (transitions: seq<Transition>)
    requires Valid(s)
    ensures transitions == AllOf(Maker(s), EligibleIn(s), |s.chars|, |s.posVecs|, |s.chars|)
    ensures forall r :: r in transitions <==> Emitted(s, r)
  {
    MakerCovers(s);
    transitions := Select(Maker(s), EligibleIn(s), |s.chars|, |s.posVecs|);
    forall r
      ensures r in transitions <==> Emitted(s, r)
    {
      MadeIsEmitted(s, r);
    }
  }

  /** `get_allowed_transitions`. The records are exactly the eligible
      (initial, final, polarisation) combinations, in loop order; the bands
      reported are exactly those of groups without an irrep. */
  method GetAllowedTransitions(s: Setup) returns (transitions: seq<Transition>, noIrr: seq<int>)
    requires Valid(s)
    ensures noIrr == NoIrr(s.groups, Irreps(s))
    ensures forall b :: b in noIrr <==>
      exists i :: 0 <= i < |s.chars| && b in s.groups[i] && forall k :: 0 <= k < |Irreps(s)[i]| ==> Irreps(s)[i][k] == 0
    ensures transitions == AllOf(Maker(s), EligibleIn(s), |s.chars|, |s.posVecs|, |s.chars|)
    ensures forall r :: r in transitions <==> Emitted(s, r)
  {
    var irreps;
    irreps, noIrr := FindIrreps(s);
    NoIrrMembers(s.groups, irreps);
    transitions := SelectTransitions(s);
  }
}
