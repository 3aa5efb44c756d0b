/** Projection of a set of characters onto the irreps of the character table
    (analysis.py `get_irrep_symbols`, `get_rep`, `get_csm`).

    For an irrep row χ, class multiplicities m and characters ch, the
    projection is Σ_k m_k·χ_k·ch_k / Σ_k m_k. It is 1 when ch is χ itself and
    0 when ch is another irrep's characters, by the orthogonality of
    characters. */
module Projection {
  import opened Outcomes
  import opened ComplexArith
  import opened Numeric
  import opened Decimal
  import opened Header

  /** Why the source raises while reading a table row: an empty row
      (IndexError at `row[0]`), a character that `int` rejects (ValueError),
      or characters, multiplicities and row of different lengths (ValueError
      from numpy). */
  datatype TableError = EmptyRow | NotAnInteger(token: string) | ShapeMismatch

  function SumInt(xs: seq<int>): int {
    if |xs| == 0 then 0 else SumInt(xs[..|xs| - 1]) + xs[|xs| - 1]
  }

  /** Σ_k m_k·χ_k·ch_k, in index order. */
  function WeightedDot(mult: seq<int>, row: seq<int>, ch: seq<Complex>): Complex
    requires |mult| == |row| == |ch|
  {
    if |ch| == 0 then Zero
    else
      var n := |ch| - 1;
      var w := mult[n] * row[n];
      Add(WeightedDot(mult[..n], row[..n], ch[..n]), Scale(w as real, ch[n]))
  }

  /** `np.dot(mult*row, ch)/sum(mult)` */
  function Project(row: seq<int>, mult: seq<int>, ch: seq<Complex>): Complex
    requires |mult| == |row| == |ch|
    requires SumInt(mult) != 0
  {
    var total := SumInt(mult) as real;
    Scale(1.0 / total, WeightedDot(mult, row, ch))
  }

  /** The irrep's characters, read with `int`. */
  function ParseRow(row: seq<string>): (r: Result<seq<int>, TableError>)
    requires |row| > 0
    ensures r.Ok? ==> |r.value| == |row| - 1
    ensures r.Ok? ==> forall k :: 0 <= k < |row| - 1 ==> ParseInt(row[k + 1]) == Some(r.value[k])
    ensures r.Err? <==> exists k :: 1 <= k < |row| && ParseInt(row[k]).None?
  {
    var tail := row[1..];
    var r := MapAll(tok => match ParseInt(tok) case Some(n) => Ok(n) case None => Err(NotAnInteger(tok)), tail);
    assert forall k :: 1 <= k < |row| ==> row[k] == tail[k - 1];
    r
  }

  /** The projection onto one table row, or the reason the source fails on
      that row. */
  function RowProjection(row: seq<string>, ch: seq<Complex>, mult: seq<int>): (r: Result<Complex, TableError>)
    requires SumInt(mult) != 0
  {
    if |row| == 0 then Err(EmptyRow)
    else match ParseRow(row)
      case Err(e) => Err(e)
      case Ok(chi) =>
        if |chi| != |mult| || |ch| != |mult| then Err(ShapeMismatch)
        else Ok(Project(chi, mult, ch))
  }

  /** The projections onto every irrep row, in table order; the first row
      that fails decides the error. */
  function Projections(t: CharTable, ch: seq<Complex>, mult: seq<int>): (r: Result<seq<Complex>, TableError>)
    requires SumInt(mult) != 0
    ensures r.Ok? ==> |r.value| == |t.rows|
    ensures r.Ok? ==> forall i :: 0 <= i < |t.rows| ==> RowProjection(t.rows[i], ch, mult) == Ok(r.value[i])
    ensures r.Err? <==> exists i :: 0 <= i < |t.rows| && RowProjection(t.rows[i], ch, mult).Err?
  {
    MapAll(row => RowProjection(row, ch, mult), t.rows)
  }

  /** The amplitude `get_rep` assigns to one projection: the nearest integer
      to its real part when that is strictly within tol and the imaginary
      part is at most tol, and 0 otherwise. */
  function Amplitude(proj: Complex, tol: real): (n: int)
    ensures n != 0 ==> Abs(proj.im) <= tol && Abs(proj.re - n as real) < tol && n == Round(proj.re)
  {
    var r := Round(proj.re);
    if Abs(proj.im) > tol then 0
    else if Abs(proj.re - r as real) < tol then r
    else 0
  }

  /** A projection with a small imaginary part and a real part strictly
      within tol <= 1/2 of an integer m has amplitude m. */
  lemma AmplitudeComplete(proj: Complex, tol: real, m: int)
    requires tol <= 0.5
    requires Abs(proj.im) <= tol
    requires Abs(proj.re - m as real) < tol
    ensures Amplitude(proj, tol) == m
  {
    RoundWithin(proj.re, m, tol);
  }

  /** A projection whose imaginary part exceeds tol has amplitude 0. */
  lemma AmplitudeRejectsImaginary(proj: Complex, tol: real)
    requires Abs(proj.im) > tol
    ensures Amplitude(proj, tol) == 0
  {
  }

  /** `get_rep`: one integer amplitude per irrep row, in row order. */
  function GetRep(t: CharTable, ch: seq<Complex>, mult: seq<int>, tol: real): (r: Result<seq<int>, TableError>)
    requires SumInt(mult) != 0
    ensures r.Err? <==> Projections(t, ch, mult).Err?
    ensures r.Ok? ==> |r.value| == |t.rows|
    ensures r.Ok? ==> forall i :: 0 <= i < |t.rows| ==>
      r.value[i] == Amplitude(Projections(t, ch, mult).value[i], tol)
  {
    match Projections(t, ch, mult)
    case Err(e) => Err(e)
    case Ok(ps) => Ok(seq(|ps|, i requires 0 <= i < |ps| => Amplitude(ps[i], tol)))
  }

  /** The score of `get_csm` for one projection: -404 when the imaginary part
      exceeds tol, otherwise 100·(1 - Re proj) rounded to one decimal. */
  function Csm(proj: Complex, tol: real): (score: real)
    ensures Abs(proj.im) > tol ==> score == -404.0
    ensures Abs(proj.im) <= tol ==> Abs(score - 100.0 * (1.0 - proj.re)) <= 0.05
    ensures (score * 10.0).Floor as real == score * 10.0
  {
    if Abs(proj.im) > tol then -404.0
    else
      var x := 100.0 * (1.0 - proj.re);
      Round1(x)
  }

  /** `get_csm`: one score per irrep row, in row order. */
  function GetCsm(t: CharTable, ch: seq<Complex>, mult: seq<int>, tol: real): (r: Result<seq<real>, TableError>)
    requires SumInt(mult) != 0
    ensures r.Err? <==> Projections(t, ch, mult).Err?
    ensures r.Ok? ==> |r.value| == |t.rows|
    ensures r.Ok? ==> forall i :: 0 <= i < |t.rows| ==>
      r.value[i] == Csm(Projections(t, ch, mult).value[i], tol)
  {
    match Projections(t, ch, mult)
    case Err(e) => Err(e)
    case Ok(ps) => Ok(seq(|ps|, i requires 0 <= i < |ps| => Csm(ps[i], tol)))
  }

  /** Characters that are exactly an irrep's score 0; characters orthogonal
      to it score 100. */
  lemma CsmOfExactProjections(tol: real)
    requires tol >= 0.0
    ensures Csm(One, tol) == 0.0
    ensures Csm(Zero, tol) == 100.0
  {
    Round1OfTenth(0);
    Round1OfTenth(1000);
  }

  /** The error value is also a legitimate score: a real projection of 5.04
      scores exactly -404, so the score alone does not tell an error. */
  lemma CsmSentinelIsAlsoAScore(tol: real)
    requires tol >= 0.0
    ensures Csm(Complex(5.04, 0.0), tol) == -404.0
    ensures Csm(Complex(0.0, tol + 1.0), tol) == -404.0
  {
    assert 100.0 * (1.0 - 5.04) == -4040 as real / 10.0;
    Round1OfTenth(-4040);
  }

  /** Below a real projection of 5 the score is -404 exactly when the
      imaginary part is too large. */
  lemma CsmSentinelWhenInRange(proj: Complex, tol: real)
    requires proj.re < 5.0
    ensures Csm(proj, tol) == -404.0 <==> Abs(proj.im) > tol
  {
  }

  /** `get_irrep_symbols`: the first entry of every irrep row, or None where a
      row is empty (IndexError in the source). */
  function GetIrrepSymbols(t: CharTable): (r: Option<seq<string>>)
    ensures r.None? <==> exists i :: 0 <= i < |t.rows| && |t.rows[i]| == 0
    ensures r.Some? ==> |r.value| == |t.rows|
    ensures r.Some? ==> forall i :: 0 <= i < |t.rows| ==> r.value[i] == t.rows[i][0]
  {
    if forall i :: 0 <= i < |t.rows| ==> |t.rows[i]| > 0 then
      Some(seq(|t.rows|, i requires 0 <= i < |t.rows| => t.rows[i][0]))
    else None
  }

  /** Integer characters as complex values. */
  function Embed(chi: seq<int>): (r: seq<Complex>)
    ensures |r| == |chi|
    ensures forall k :: 0 <= k < |chi| ==> r[k] == OfReal(chi[k] as real)
  {
    seq(|chi|, k requires 0 <= k < |chi| => OfReal(chi[k] as real))
  }

  /** The weighted inner product of two integer character rows. */
  function RealDot(mult: seq<int>, a: seq<int>, b: seq<int>): real
    requires |mult| == |a| == |b|
  {
    if |a| == 0 then 0.0
    else
      var n := |a| - 1;
      var w := mult[n] * a[n];
      RealDot(mult[..n], a[..n], b[..n]) + w as real * b[n] as real
  }

  lemma {:induction false} WeightedDotOfEmbedded(mult: seq<int>, a: seq<int>, b: seq<int>)
    requires |mult| == |a| == |b|
    ensures WeightedDot(mult, a, Embed(b)) == OfReal(RealDot(mult, a, b))
  {
    if |a| > 0 {
      var n := |a| - 1;
      assert Embed(b)[..n] == Embed(b[..n]);
      WeightedDotOfEmbedded(mult[..n], a[..n], b[..n]);
    }
  }

  /** The table's rows are the irreps `chars`: every row has a symbol and
      reads back as those characters. */
  predicate TableOf(t: CharTable, chars: seq<seq<int>>) {
    |t.rows| == |chars| &&
    forall i :: 0 <= i < |t.rows| ==> |t.rows[i]| > 0 && ParseRow(t.rows[i]) == Ok(chars[i])
  }

  /** The orthogonality relations of the characters, weighted by class
      sizes: Σ_k m_k·χa_k·χb_k = Σ_k m_k when a = b and 0 otherwise. */
  predicate Orthonormal(chars: seq<seq<int>>, mult: seq<int>) {
    (forall a :: 0 <= a < |chars| ==> |chars[a]| == |mult|) &&
    forall a, b :: 0 <= a < |chars| && 0 <= b < |chars| ==>
      RealDot(mult, chars[a], chars[b]) == if a == b then SumInt(mult) as real else 0.0
  }

  /** The projection of an irrep's characters onto a row they are
      orthonormal to. */
  lemma ProjectOfIrrep(chiA: seq<int>, chiB: seq<int>, mult: seq<int>, same: bool)
    requires SumInt(mult) != 0
    requires |chiA| == |chiB| == |mult|
    requires RealDot(mult, chiA, chiB) == if same then SumInt(mult) as real else 0.0
    ensures Project(chiA, mult, Embed(chiB)) == if same then One else Zero
  {
    var total := SumInt(mult) as real;
    WeightedDotOfEmbedded(mult, chiA, chiB);
    var d := RealDot(mult, chiA, chiB);
    assert Project(chiA, mult, Embed(chiB)) == Scale(1.0 / total, OfReal(d));
    if same {
      ScaleInverse(total, One);
    }
  }

  /** One row of an orthonormal table projects an irrep's characters to 1
      when it is that irrep and to 0 otherwise. */
  lemma RowProjectionOfIrrep(row: seq<string>, chiA: seq<int>, chiB: seq<int>, mult: seq<int>, same: bool)
    requires SumInt(mult) != 0
    requires |row| > 0 && ParseRow(row) == Ok(chiA)
    requires |chiA| == |chiB| == |mult|
    requires RealDot(mult, chiA, chiB) == if same then SumInt(mult) as real else 0.0
    ensures RowProjection(row, Embed(chiB), mult) == Ok(if same then One else Zero)
  {
    ProjectOfIrrep(chiA, chiB, mult, same);
  }

  lemma ProjectionOfIrrep(t: CharTable, chars: seq<seq<int>>, mult: seq<int>, b: nat)
    requires SumInt(mult) != 0
    requires TableOf(t, chars) && Orthonormal(chars, mult)
    requires b < |chars|
    ensures Projections(t, Embed(chars[b]), mult).Ok?
    ensures forall a :: 0 <= a < |chars| ==>
      Projections(t, Embed(chars[b]), mult).value[a] == if a == b then One else Zero
  {
    var ch := Embed(chars[b]);
    forall a | 0 <= a < |chars|
      ensures RowProjection(t.rows[a], ch, mult) == Ok(if a == b then One else Zero)
    {
      RowProjectionOfIrrep(t.rows[a], chars[a], chars[b], mult, a == b);
    }
  }

  /** Projecting an irrep's own characters gives amplitude 1 for that irrep
      and 0 for every other. */
  lemma IrrepIsRecovered(t: CharTable, chars: seq<seq<int>>, mult: seq<int>, b: nat, tol: real)
    requires SumInt(mult) != 0
    requires TableOf(t, chars) && Orthonormal(chars, mult)
    requires b < |chars|
    requires 0.0 < tol <= 0.5
    ensures GetRep(t, Embed(chars[b]), mult, tol).Ok?
    ensures var reps := GetRep(t, Embed(chars[b]), mult, tol).value;
      |reps| == |chars| && forall a :: 0 <= a < |chars| ==> reps[a] == if a == b then 1 else 0
  {
    ProjectionOfIrrep(t, chars, mult, b);
    AmplitudeComplete(One, tol, 1);
    AmplitudeComplete(Zero, tol, 0);
  }

  /** Projecting an irrep's own characters scores 0 for that irrep and 100
      for every other. */
  lemma IrrepScoresZero(t: CharTable, chars: seq<seq<int>>, mult: seq<int>, b: nat, tol: real)
    requires SumInt(mult) != 0
    requires TableOf(t, chars) && Orthonormal(chars, mult)
    requires b < |chars|
    requires 0.0 <= tol
    ensures GetCsm(t, Embed(chars[b]), mult, tol).Ok?
    ensures var scores := GetCsm(t, Embed(chars[b]), mult, tol).value;
      |scores| == |chars| && forall a :: 0 <= a < |chars| ==> scores[a] == if a == b then 0.0 else 100.0
  {
    ProjectionOfIrrep(t, chars, mult, b);
    CsmOfExactProjections(tol);
  }

  /** The characters of one row, checked to have one entry per class. */
  function RowChars(row: seq<string>, width: nat): (r: Result<seq<int>, TableError>)
    ensures r.Ok? ==> |r.value| == width
  {
    if |row| == 0 then Err(EmptyRow)
    else match ParseRow(row)
      case Err(e) => Err(e)
      case Ok(chi) => if |chi| != width then Err(ShapeMismatch) else Ok(chi)
  }

  /** The characters of every irrep row. */
  predicate RowsParse(rows: seq<seq<string>>, width: nat) {
    |rows| == 0 || (RowsParse(rows[..|rows| - 1], width) && RowChars(rows[|rows| - 1], width).Ok?)
  }

  lemma {:induction false} RowsParseEach(rows: seq<seq<string>>, width: nat)
    requires RowsParse(rows, width)
    ensures forall i :: 0 <= i < |rows| ==> RowChars(rows[i], width).Ok?
  {
    if |rows| > 0 {
      RowsParseEach(rows[..|rows| - 1], width);
      assert forall i :: 0 <= i < |rows| - 1 ==> rows[..|rows| - 1][i] == rows[i];
    }
  }

  /** A table every row of which has a symbol and integer characters, one
      per class, and that has at least one irrep (the totally symmetric one
      comes first). */
  predicate WellFormedTable(t: CharTable, mult: seq<int>) {
    |t.rows| > 0 && RowsParse(t.rows, |mult|)
  }

  /** On a well-formed table and characters of the right length, `get_rep`
      does not fail. */
  function Rep(t: CharTable, ch: seq<Complex>, mult: seq<int>, tol: real): (r: seq<int>)
    requires SumInt(mult) != 0
    requires WellFormedTable(t, mult) && |ch| == |mult|
    ensures GetRep(t, ch, mult, tol) == Ok(r)
    ensures |r| == |t.rows|
  {
    RowsParseEach(t.rows, |mult|);
    assert forall i :: 0 <= i < |t.rows| ==> RowProjection(t.rows[i], ch, mult).Ok?;
    GetRep(t, ch, mult, tol).value
  }
}
