/** Characters of degeneracy groups (analysis.py `get_character`,
    `average_by_class`).

    `overlaps[p]` holds the normalised overlaps of the band at position p of
    `bands`, one per symmetry operator in operator order. A degeneracy group
    is a list of band numbers. A class is a non-empty list of operator
    positions. */
module Characters {
  import opened ComplexArith
  import opened Numeric
  import opened Seqs

  /** Every band of every group has a stored overlap row, and every such row
      covers all numOps operators. */
  predicate Stored(bands: seq<int>, overlaps: seq<seq<Complex>>, groups: seq<seq<int>>, numOps: nat) {
    (forall g, b :: 0 <= g < |groups| && b in groups[g] ==>
       b in bands && IndexOf(bands, b).value < |overlaps|) &&
    (forall p :: 0 <= p < |overlaps| ==> numOps <= |overlaps[p]|)
  }

  /** The sum over the bands of one group of their overlaps with operator op:
      summed, not averaged. */
  function GroupSum(bands: seq<int>, overlaps: seq<seq<Complex>>, group: seq<int>, op: nat): (r: Complex)
    requires forall b :: b in group ==> b in bands && IndexOf(bands, b).value < |overlaps|
    requires forall p :: 0 <= p < |overlaps| ==> op < |overlaps[p]|
  {
    if |group| == 0 then Zero
    else
      var last := group[|group| - 1];
      Add(GroupSum(bands, overlaps, group[..|group| - 1], op), overlaps[IndexOf(bands, last).value][op])
  }

  /** A group of one band contributes that band's overlap. */
  lemma GroupSumSingle(bands: seq<int>, overlaps: seq<seq<Complex>>, b: int, op: nat)
    requires b in bands && IndexOf(bands, b).value < |overlaps|
    requires forall p :: 0 <= p < |overlaps| ==> op < |overlaps[p]|
    ensures GroupSum(bands, overlaps, [b], op) == overlaps[IndexOf(bands, b).value][op]
  {
    assert [b][..0] == [];
  }

  /** The group sum is additive: a group made of two parts sums to the sum of
      the parts' sums. */
  lemma {:induction false} GroupSumAppend(bands: seq<int>, overlaps: seq<seq<Complex>>, g1: seq<int>, g2: seq<int>, op: nat)
    requires forall b :: b in g1 + g2 ==> b in bands && IndexOf(bands, b).value < |overlaps|
    requires forall p :: 0 <= p < |overlaps| ==> op < |overlaps[p]|
    ensures forall b :: b in g1 ==> b in g1 + g2
    ensures GroupSum(bands, overlaps, g1 + g2, op) ==
      Add(GroupSum(bands, overlaps, g1, op), GroupSum(bands, overlaps, g2, op))
  {
    if |g2| == 0 {
      assert g1 + g2 == g1;
    } else {
      var init := g2[..|g2| - 1];
      assert (g1 + g2)[..|g1 + g2| - 1] == g1 + init;
      GroupSumAppend(bands, overlaps, g1, init, op);
    }
  }

  /** For a doubly degenerate pair whose two bands have the same overlap v,
      the group's value is 2v. */
  lemma GroupSumOfPair(bands: seq<int>, overlaps: seq<seq<Complex>>, b1: int, b2: int, op: nat, v: Complex)
    requires b1 in bands && IndexOf(bands, b1).value < |overlaps|
    requires b2 in bands && IndexOf(bands, b2).value < |overlaps|
    requires forall p :: 0 <= p < |overlaps| ==> op < |overlaps[p]|
    requires overlaps[IndexOf(bands, b1).value][op] == v
    requires overlaps[IndexOf(bands, b2).value][op] == v
    ensures GroupSum(bands, overlaps, [b1, b2], op) == Scale(2.0, v)
  {
    GroupSumAppend(bands, overlaps, [b1], [b2], op);
    GroupSumSingle(bands, overlaps, b1, op);
    GroupSumSingle(bands, overlaps, b2, op);
    assert [b1] + [b2] == [b1, b2];
  }

  /** Rows of group sums: one row per group, one entry per operator. */
  function GroupSums(bands: seq<int>, overlaps: seq<seq<Complex>>, groups: seq<seq<int>>, numOps: nat)
    : (r: seq<seq<Complex>>)
    requires Stored(bands, overlaps, groups, numOps)
    ensures |r| == |groups|
    ensures forall g :: 0 <= g < |groups| ==> |r[g]| == numOps
    ensures forall g, op :: 0 <= g < |groups| && 0 <= op < numOps ==>
      r[g][op] == GroupSum(bands, overlaps, groups[g], op)
  {
    seq(|groups|, g requires 0 <= g < |groups| =>
      seq(numOps, op requires 0 <= op < numOps => GroupSum(bands, overlaps, groups[g], op)))
  }

  /** The sum of row's entries at the given positions, in order. */
  function SumAt(row: seq<Complex>, idx: seq<nat>): Complex
    requires forall k :: 0 <= k < |idx| ==> idx[k] < |row|
  {
    if |idx| == 0 then Zero
    else Add(SumAt(row, idx[..|idx| - 1]), row[idx[|idx| - 1]])
  }

  /** A sum of n copies of v is n·v. */
  lemma {:induction false} SumAtConstant(row: seq<Complex>, idx: seq<nat>, v: Complex)
    requires forall k :: 0 <= k < |idx| ==> idx[k] < |row| && row[idx[k]] == v
    ensures SumAt(row, idx) == Scale(|idx| as real, v)
  {
    if |idx| > 0 {
      SumAtConstant(row, idx[..|idx| - 1], v);
    }
  }

  /** A class is well formed for rows of width n: non-empty, with every
      member an operator position below n. */
  predicate WellFormedClass(cls: seq<nat>, n: nat) {
    |cls| > 0 && forall k :: 0 <= k < |cls| ==> cls[k] < n
  }

  /** Every class is well formed for rows of width n. */
  predicate ClassesWithin(perm: seq<seq<nat>>, n: nat) {
    forall c :: 0 <= c < |perm| ==> WellFormedClass(perm[c], n)
  }

  /** What `average_by_class` indexes: the symbol of every class's first
      member, and every class member in the row of every group. */
  predicate AveragingFits(perm: seq<seq<nat>>, symbols: seq<string>, rows: seq<seq<Complex>>, numGroups: nat) {
    numGroups <= |rows| &&
    (forall c :: 0 <= c < |perm| ==> |perm[c]| > 0 && perm[c][0] < |symbols|) &&
    (forall g :: 0 <= g < numGroups ==> ClassesWithin(perm, |rows[g]|))
  }

  /** The mean of row over the members of cls. */
  function ClassMean(row: seq<Complex>, cls: seq<nat>): (m: Complex)
    requires WellFormedClass(cls, |row|)
    ensures Scale(|cls| as real, m) == SumAt(row, cls)
  {
    var n := |cls| as real;
    ScaleInverse(n, SumAt(row, cls));
    Scale(1.0 / n, SumAt(row, cls))
  }

  /** `average_by_class`: one symbol per class (that of its first member) and,
      for every group, one value per class that is the mean of the class
      members' values. */
  function AverageByClass(perm: seq<seq<nat>>, symbols: seq<string>, rows: seq<seq<Complex>>, numGroups: nat)
    : (r: (seq<string>, seq<seq<Complex>>))
    requires AveragingFits(perm, symbols, rows, numGroups)
    ensures |r.0| == |perm|
    ensures forall c :: 0 <= c < |perm| ==> r.0[c] == symbols[perm[c][0]]
    ensures |r.1| == numGroups
    ensures forall g :: 0 <= g < numGroups ==> |r.1[g]| == |perm|
    ensures forall g, c :: 0 <= g < numGroups && 0 <= c < |perm| ==>
      Scale(|perm[c]| as real, r.1[g][c]) == SumAt(rows[g], perm[c])
  {
    (seq(|perm|, c requires 0 <= c < |perm| => symbols[perm[c][0]]),
     seq(numGroups, g requires 0 <= g < numGroups =>
       seq(|perm|, c requires 0 <= c < |perm| => ClassMean(rows[g], perm[c]))))
  }

  /** A class of one operator passes that operator's value through. */
  lemma SingletonClassPassesThrough(perm: seq<seq<nat>>, symbols: seq<string>, rows: seq<seq<Complex>>,
                                    numGroups: nat, g: nat, c: nat)
    requires AveragingFits(perm, symbols, rows, numGroups)
    requires g < numGroups && c < |perm| && |perm[c]| == 1
    ensures AverageByClass(perm, symbols, rows, numGroups).1[g][c] == rows[g][perm[c][0]]
  {
    var m := AverageByClass(perm, symbols, rows, numGroups).1[g][c];
    assert Scale(1.0, m) == SumAt(rows[g], perm[c]);
    assert perm[c][..0] == [];
  }

  /** A class whose members all have the same value v averages to v. */
  lemma ConstantClassAveragesToValue(perm: seq<seq<nat>>, symbols: seq<string>, rows: seq<seq<Complex>>,
                                     numGroups: nat, g: nat, c: nat, v: Complex)
    requires AveragingFits(perm, symbols, rows, numGroups)
    requires g < numGroups && c < |perm|
    requires forall k :: 0 <= k < |perm[c]| ==> rows[g][perm[c][k]] == v
    ensures AverageByClass(perm, symbols, rows, numGroups).1[g][c] == v
  {
    var m := AverageByClass(perm, symbols, rows, numGroups).1[g][c];
    var n := |perm[c]| as real;
    SumAtConstant(rows[g], perm[c], v);
    assert Scale(n, m) == Scale(n, v);
    ScaleCancel(n, m, v);
  }

  /** Multiplication by a nonzero real is injective. */
  lemma ScaleCancel(n: real, a: Complex, b: Complex)
    requires n != 0.0
    requires Scale(n, a) == Scale(n, b)
    ensures a == b
  {
    assert n * a.re == n * b.re;
    assert n * a.im == n * b.im;
  }

  /** The rounding policy of `get_character`: a value whose real part lies
      strictly within tol of an integer becomes that integer, provided
      roundIfClose holds and its imaginary part is also below tol; any other
      value is kept unchanged. */
  function Snap(ov: Complex, tol: real, roundIfClose: bool): (r: Complex)
    ensures r == ov ||
      (roundIfClose && Abs(ov.im) < tol &&
       r.im == 0.0 && r.re == Round(ov.re) as real && Abs(r.re - ov.re) < tol)
  {
    var n := Round(ov.re);
    if Abs(n as real - ov.re) < tol then
      if roundIfClose && Abs(ov.im) < tol then OfReal(n as real) else ov
    else ov
  }

  /** Snap rounds every value that the policy allows: with tol <= 1/2, an
      imaginary part below tol and a real part strictly within tol of the
      integer n, the result is exactly n. */
  lemma SnapComplete(ov: Complex, tol: real, n: int)
    requires tol <= 0.5
    requires Abs(ov.im) < tol
    requires Abs(ov.re - n as real) < tol
    ensures Snap(ov, tol, true) == OfReal(n as real)
  {
    RoundWithin(ov.re, n, tol);
  }

  /** Without roundIfClose nothing changes. */
  lemma SnapDisabled(ov: Complex, tol: real)
    ensures Snap(ov, tol, false) == ov
  {
  }

  /** Snapping twice is snapping once. */
  lemma SnapIdempotent(ov: Complex, tol: real, roundIfClose: bool)
    ensures Snap(Snap(ov, tol, roundIfClose), tol, roundIfClose) == Snap(ov, tol, roundIfClose)
  {
    var r := Snap(ov, tol, roundIfClose);
    if r != ov {
      var n := Round(ov.re);
      RoundOfInt(n);
      assert r == OfReal(n as real);
    }
  }

  /** The result of `get_character`: the symbol of each class, and for every
      degeneracy group one character per class. */
  datatype CharacterList = CharacterList(classSymbols: seq<string>, rows: seq<seq<Complex>>)

  /** `get_character` without its file reading and warning output: sum each
      operator's overlaps over a group, average over each class, snap. */
  function GetCharacter(bands: seq<int>, overlaps: seq<seq<Complex>>, opSymbols: seq<string>,
                        groups: seq<seq<int>>, perm: seq<seq<nat>>, tol: real, roundIfClose: bool)
    : (r: CharacterList)
    requires Stored(bands, overlaps, groups, |opSymbols|)
    requires ClassesWithin(perm, |opSymbols|)
    ensures |r.classSymbols| == |perm|
    ensures forall c :: 0 <= c < |perm| ==> r.classSymbols[c] == opSymbols[perm[c][0]]
    ensures |r.rows| == |groups|
    ensures forall g :: 0 <= g < |groups| ==> |r.rows[g]| == |perm|
    ensures forall g, c :: 0 <= g < |groups| && 0 <= c < |perm| ==>
      var mean := ClassMean(GroupSums(bands, overlaps, groups, |opSymbols|)[g], perm[c]);
      r.rows[g][c] == Snap(mean, tol, roundIfClose)
  {
    var sums := GroupSums(bands, overlaps, groups, |opSymbols|);
    var avg := AverageByClass(perm, opSymbols, sums, |groups|);
    assert forall g, c :: 0 <= g < |groups| && 0 <= c < |perm| ==>
      avg.1[g][c] == ClassMean(sums[g], perm[c]) by {
      forall g, c | 0 <= g < |groups| && 0 <= c < |perm|
        ensures avg.1[g][c] == ClassMean(sums[g], perm[c])
      {
        ScaleCancel(|perm[c]| as real, avg.1[g][c], ClassMean(sums[g], perm[c]));
      }
    }
    CharacterList(avg.0,
      seq(|groups|, g requires 0 <= g < |groups| =>
        seq(|perm|, c requires 0 <= c < |perm| => Snap(avg.1[g][c], tol, roundIfClose))))
  }

  /** The mean over a class of one operator is that operator's value. */
  lemma SingletonMean(row: seq<Complex>, i: nat)
    requires i < |row|
    ensures ClassMean(row, [i]) == row[i]
  {
    var m := ClassMean(row, [i]);
    assert [i][..0] == [];
    assert SumAt(row, [i]) == row[i];
    assert Scale(1.0, m) == m;
  }

  /** A lone band that is stored has an overlap row. */
  lemma StoredSingle(bands: seq<int>, overlaps: seq<seq<Complex>>, b: int, numOps: nat)
    requires Stored(bands, overlaps, [[b]], numOps)
    ensures b in bands && IndexOf(bands, b).value < |overlaps|
  {
    var groups := [[b]];
    assert 0 < |groups| && b in groups[0];
    StoredMember(bands, overlaps, groups, numOps, 0, b);
  }

  /** Every band of a stored group has an overlap row. */
  lemma StoredMember(bands: seq<int>, overlaps: seq<seq<Complex>>, groups: seq<seq<int>>,
                     numOps: nat, g: nat, b: int)
    requires Stored(bands, overlaps, groups, numOps)
    requires g < |groups| && b in groups[g]
    ensures b in bands && IndexOf(bands, b).value < |overlaps|
  {
  }

  /** A non-degenerate band whose classes are single operators, with rounding
      off, has as characters exactly its stored overlaps: summing, averaging
      and snapping change nothing in that case. */
  lemma SingleBandCharacters(bands: seq<int>, overlaps: seq<seq<Complex>>, opSymbols: seq<string>,
                             b: int, perm: seq<seq<nat>>, tol: real)
    requires Stored(bands, overlaps, [[b]], |opSymbols|)
    requires forall c :: 0 <= c < |perm| ==> |perm[c]| == 1 && perm[c][0] < |opSymbols|
    ensures b in bands && IndexOf(bands, b).value < |overlaps|
    ensures forall c :: 0 <= c < |perm| ==>
      GetCharacter(bands, overlaps, opSymbols, [[b]], perm, tol, false).rows[0][c] ==
      overlaps[IndexOf(bands, b).value][perm[c][0]]
  {
    StoredSingle(bands, overlaps, b, |opSymbols|);
    forall c | 0 <= c < |perm|
      ensures GetCharacter(bands, overlaps, opSymbols, [[b]], perm, tol, false).rows[0][c] ==
        overlaps[IndexOf(bands, b).value][perm[c][0]]
    {
      SingleBandClass(bands, overlaps, opSymbols, b, perm, tol, c);
    }
  }

  /** One class of SingleBandCharacters: its character is the band's stored
      overlap with the class's one operator. */
  lemma SingleBandClass(bands: seq<int>, overlaps: seq<seq<Complex>>, opSymbols: seq<string>,
                        b: int, perm: seq<seq<nat>>, tol: real, c: nat)
    requires Stored(bands, overlaps, [[b]], |opSymbols|)
    requires forall c :: 0 <= c < |perm| ==> |perm[c]| == 1 && perm[c][0] < |opSymbols|
    requires c < |perm|
    ensures b in bands && IndexOf(bands, b).value < |overlaps|
    ensures GetCharacter(bands, overlaps, opSymbols, [[b]], perm, tol, false).rows[0][c] ==
      overlaps[IndexOf(bands, b).value][perm[c][0]]
  {
    StoredSingle(bands, overlaps, b, |opSymbols|);
    var sums := GroupSums(bands, overlaps, [[b]], |opSymbols|);
    var ch := GetCharacter(bands, overlaps, opSymbols, [[b]], perm, tol, false);
    var i := perm[c][0];
    assert perm[c] == [i];
    assert ch.rows[0][c] == Snap(ClassMean(sums[0], perm[c]), tol, false);
    SingletonMean(sums[0], i);
    GroupSumSingle(bands, overlaps, b, i);
  }
}
