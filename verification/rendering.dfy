/** The text of a representation (analysis.py `get_total_irrep_string`):
    the irreps with nonzero amplitude, each written with its amplitude unless
    that is 1, joined by "+ ", every term followed by a space. */
module Rendering {
  import opened Decimal

  /** The text of one irrep with amplitude a: "E" for 1, "2E" or "-1E"
      otherwise. */
  function TermText(symbol: string, a: int): string {
    if a == 1 then symbol else IntToString(a) + symbol
  }

  /** The terms of the nonzero amplitudes, in order. */
  function Terms(symbols: seq<string>, amps: seq<int>): (ts: seq<string>)
    requires forall i :: 0 <= i < |amps| && amps[i] != 0 ==> i < |symbols|
    ensures |ts| == 0 <==> forall i :: 0 <= i < |amps| ==> amps[i] == 0
  {
    if |amps| == 0 then []
    else
      var n := |amps| - 1;
      var init := Terms(symbols, amps[..n]);
      if amps[n] == 0 then init else init + [TermText(symbols[n], amps[n])]
  }

  /** The strings joined with sep between consecutive ones. */
  function JoinWith(ts: seq<string>, sep: string): string {
    if |ts| == 0 then ""
    else if |ts| == 1 then ts[0]
    else JoinWith(ts[..|ts| - 1], sep) + sep + ts[|ts| - 1]
  }

  /** Reference reading: no text for no terms, otherwise the terms joined by
      " + " with one trailing space. */
  function Rendered(ts: seq<string>): string {
    if |ts| == 0 then "" else JoinWith(ts, " + ") + " "
  }

  /** `get_total_irrep_string`, keeping the source's running count of terms
      written so far. */
  method GetTotalIrrepString(symbols: seq<string>, amps: seq<int>) returns (s: string)
    requires forall i :: 0 <= i < |amps| && amps[i] != 0 ==> i < |symbols|
    ensures s == Rendered(Terms(symbols, amps))
    ensures s == "" <==> forall i :: 0 <= i < |amps| ==> amps[i] == 0
  {
    s := "";
    var count := 0;
    for i := 0 to |amps|
      invariant count == |Terms(symbols, amps[..i])|
      invariant s == Rendered(Terms(symbols, amps[..i]))
    {
      ghost var ts := Terms(symbols, amps[..i]);
      TermsStep(symbols, amps, i);
      if amps[i] == 1 {
        AppendTerm(ts, symbols[i]);
        if count != 0 {
          s := s + "+ ";
        }
        s := s + symbols[i] + " ";
        count := count + 1;
      } else if amps[i] != 0 {
        var term := IntToString(amps[i]) + symbols[i];
        AppendTerm(ts, term);
        if count != 0 {
          s := s + "+ ";
        }
        count := count + 1;
        s := s + term + " ";
      }
    }
    assert amps[..|amps|] == amps;
    RenderedEmpty(Terms(symbols, amps));
  }

  /** The terms of one more amplitude. */
  lemma TermsStep(symbols: seq<string>, amps: seq<int>, i: nat)
    requires forall i :: 0 <= i < |amps| && amps[i] != 0 ==> i < |symbols|
    requires i < |amps|
    ensures Terms(symbols, amps[..i + 1]) ==
      if amps[i] == 0 then Terms(symbols, amps[..i])
      else Terms(symbols, amps[..i]) + [TermText(symbols[i], amps[i])]
  {
    assert amps[..i + 1][..i] == amps[..i];
  }

  /** Writing one more term after the text of ts. */
  lemma AppendTerm(ts: seq<string>, t: string)
    ensures |ts| == 0 ==> Rendered(ts + [t]) == Rendered(ts) + t + " "
    ensures |ts| > 0 ==> Rendered(ts + [t]) == Rendered(ts) + "+ " + t + " "
  {
    var ts2 := ts + [t];
    assert ts2[..|ts2| - 1] == ts;
    if |ts| > 0 {
      assert JoinWith(ts2, " + ") == JoinWith(ts, " + ") + " + " + t;
    }
  }

  /** The text is empty exactly when there are no terms: every term ends in a
      space. */
  lemma RenderedEmpty(ts: seq<string>)
    ensures Rendered(ts) == "" <==> |ts| == 0
  {
  }

  /** The terms and text of A1 and E with amplitudes 1 and 2, and two irreps
      absent between them. */
  lemma A1Plus2ERendered()
    ensures Rendered(Terms(["A1", "A2", "B1", "E"], [1, 0, 0, 2])) == "A1 + 2E "
  {
    A1Plus2ETerms();
    assert ["A1", "2E"][..1] == ["A1"];
  }

  /** The terms of A1 and E with amplitudes 1 and 2: the absent irreps leave
      no term. */
  lemma A1Plus2ETerms()
    ensures Terms(["A1", "A2", "B1", "E"], [1, 0, 0, 2]) == ["A1", "2E"]
  {
    var syms := ["A1", "A2", "B1", "E"];
    var amps := [1, 0, 0, 2];
    assert amps[..3] == [1, 0, 0];
    assert [1, 0, 0][..2] == [1, 0];
    assert [1, 0][..1] == [1];
    assert [1][..0] == [];
    assert Terms(syms, [1]) == ["A1"];
    assert Terms(syms, [1, 0, 0]) == ["A1"];
    assert IntToString(2) == "2";
    assert TermText(syms[3], 2) == "2E";
    assert Terms(syms, amps) == ["A1", "2E"];
  }

  /** `get_total_irrep_string` on that representation. */
  method A1Plus2E() returns (s: string)
    ensures s == "A1 + 2E "
  {
    s := GetTotalIrrepString(["A1", "A2", "B1", "E"], [1, 0, 0, 2]);
    A1Plus2ERendered();
  }
}
