/** Orbital-center refinement (overlap.py `get_good_centers`,
    `replace_bad_centers`, and the retry loops of analysis.py `main`).

    `centers` holds one fractional 3-vector per band, in the order of `bands`.
    `noIrr` lists the bands for which no irrep was found. The pool holds
    candidate centers not yet tried. */
module Centers {
  import opened Outcomes
  import opened Geometry
  import opened Seqs

  /** Every band in noIrr occurs in bands, and its first position there has a
      center. (`bands.index` raises ValueError otherwise, and indexing
      `centers` raises IndexError.) */
  predicate Locatable(bands: seq<int>, noIrr: seq<int>, n: nat) {
    forall b :: b in noIrr ==> b in bands && IndexOf(bands, b).value < n
  }

  /** `np.all(row != c)`: row differs from c in every coordinate. */
  predicate DiffersEverywhere(row: RVec, c: RVec) {
    row.x != c.x && row.y != c.y && row.z != c.z
  }

  /** `rows[np.all(rows != c, axis=1)]`: one filtering step. */
  function WithoutMatches(rows: seq<RVec>, c: RVec): (r: seq<RVec>)
    ensures |r| <= |rows|
    ensures forall row :: row in r <==> row in rows && DiffersEverywhere(row, c)
  {
    if |rows| == 0 then []
    else
      var init := rows[..|rows| - 1];
      var last := rows[|rows| - 1];
      var prev := WithoutMatches(init, c);
      assert forall row :: row in rows <==> row in init || row == last;
      if DiffersEverywhere(last, c) then prev + [last] else prev
  }

  /** The filter keeps the order of the rows: filtering a concatenation is
      concatenating the filtered parts. */
  lemma {:induction false} WithoutMatchesAppend(a: seq<RVec>, b: seq<RVec>, c: RVec)
    ensures WithoutMatches(a + b, c) == WithoutMatches(a, c) + WithoutMatches(b, c)
  {
    if |b| == 0 {
      assert a + b == a;
    } else {
      var init := b[..|b| - 1];
      WithoutMatchesAppend(a, init, c);
      var ab := a + b;
      assert ab[..|ab| - 1] == a + init && ab[|ab| - 1] == b[|b| - 1];
      WithoutMatchesSnoc(ab, c);
      WithoutMatchesSnoc(b, c);
    }
  }

  /** The filter decides the last row on its own. */
  lemma WithoutMatchesSnoc(rows: seq<RVec>, c: RVec)
    requires 0 < |rows|
    ensures WithoutMatches(rows, c) ==
      WithoutMatches(rows[..|rows| - 1], c) +
      (if DiffersEverywhere(rows[|rows| - 1], c) then [rows[|rows| - 1]] else [])
  {
  }

  /** The center of each band in noIrr, in the order of noIrr. */
  function BadCenters(centers: seq<RVec>, bands: seq<int>, noIrr: seq<int>): (r: seq<RVec>)
    requires Locatable(bands, noIrr, |centers|)
    ensures |r| == |noIrr|
    ensures forall k :: 0 <= k < |noIrr| ==> r[k] == centers[IndexOf(bands, noIrr[k]).value]
  {
    seq(|noIrr|, k requires 0 <= k < |noIrr| => centers[IndexOf(bands, noIrr[k]).value])
  }

  /** row differs everywhere from every one of the given centers. */
  predicate SurvivesAll(row: RVec, bads: seq<RVec>) {
    forall k :: 0 <= k < |bads| ==> DiffersEverywhere(row, bads[k])
  }

  /** Reference definition: one pass keeping the rows that differ everywhere
      from every bad center. */
  function Survivors(rows: seq<RVec>, bads: seq<RVec>): (r: seq<RVec>)
    ensures forall row :: row in r <==> row in rows && SurvivesAll(row, bads)
  {
    if |rows| == 0 then []
    else
      var prev := Survivors(rows[..|rows| - 1], bads);
      var last := rows[|rows| - 1];
      assert forall row :: row in rows <==> row in rows[..|rows| - 1] || row == last;
      if SurvivesAll(last, bads) then prev + [last] else prev
  }

  /** The source's sequence of filters, one per bad center, in noIrr order. */
  function FilterEach(rows: seq<RVec>, bads: seq<RVec>): seq<RVec>
    decreases |bads|
  {
    if |bads| == 0 then rows
    else FilterEach(WithoutMatches(rows, bads[0]), bads[1..])
  }

  /** One filtering step then the single pass is the single pass with one
      more bad center. */
  lemma {:induction false} SurvivorsStep(rows: seq<RVec>, c: RVec, bads: seq<RVec>)
    ensures Survivors(WithoutMatches(rows, c), bads) == Survivors(rows, [c] + bads)
  {
    if |rows| > 0 {
      var init := rows[..|rows| - 1];
      var last := rows[|rows| - 1];
      SurvivorsStep(init, c, bads);
      SurvivesAllCons(last, c, bads);
      var wi := WithoutMatches(init, c);
      var w := WithoutMatches(rows, c);
      if DiffersEverywhere(last, c) {
        assert w == wi + [last];
        assert w[..|w| - 1] == wi;
      } else {
        assert w == wi;
      }
    }
  }

  lemma SurvivesAllCons(row: RVec, c: RVec, bads: seq<RVec>)
    ensures SurvivesAll(row, [c] + bads) <==> DiffersEverywhere(row, c) && SurvivesAll(row, bads)
  {
    var cb := [c] + bads;
    assert forall k :: 0 <= k < |bads| ==> cb[k + 1] == bads[k];
    if DiffersEverywhere(row, c) && SurvivesAll(row, bads) {
      forall k | 0 <= k < |cb|
        ensures DiffersEverywhere(row, cb[k])
      {
        if k > 0 {
          assert cb[k] == bads[k - 1];
        }
      }
    }
    if SurvivesAll(row, cb) {
      assert DiffersEverywhere(row, cb[0]);
      forall k | 0 <= k < |bads|
        ensures DiffersEverywhere(row, bads[k])
      {
        assert DiffersEverywhere(row, cb[k + 1]);
      }
    }
  }

  /** Filtering bad center by bad center equals one pass against all of them. */
  lemma {:induction false} FilterEachIsSurvivors(rows: seq<RVec>, bads: seq<RVec>)
    ensures FilterEach(rows, bads) == Survivors(rows, bads)
    decreases |bads|
  {
    if |bads| == 0 {
      SurvivorsNone(rows);
    } else {
      FilterEachIsSurvivors(WithoutMatches(rows, bads[0]), bads[1..]);
      SurvivorsStep(rows, bads[0], bads[1..]);
      assert [bads[0]] + bads[1..] == bads;
    }
  }

  lemma {:induction false} SurvivorsNone(rows: seq<RVec>)
    ensures Survivors(rows, []) == rows
  {
    if |rows| > 0 {
      SurvivorsNone(rows[..|rows| - 1]);
    }
  }

  /** `get_good_centers`: the centers that differ in every coordinate from the
      center of every band in noIrr, in their original order. */
  function GetGoodCenters(centers: seq<RVec>, bands: seq<int>, noIrr: seq<int>): (r: seq<RVec>)
    requires Locatable(bands, noIrr, |centers|)
    ensures r == Survivors(centers, BadCenters(centers, bands, noIrr))
    ensures forall row :: row in r <==>
      row in centers && forall b :: b in noIrr ==> DiffersEverywhere(row, centers[IndexOf(bands, b).value])
  {
    var bads := BadCenters(centers, bands, noIrr);
    FilterEachIsSurvivors(centers, bads);
    assert forall row :: SurvivesAll(row, bads) <==>
      forall b :: b in noIrr ==> DiffersEverywhere(row, centers[IndexOf(bands, b).value]) by {
      forall row
        ensures SurvivesAll(row, bads) <==>
          forall b :: b in noIrr ==> DiffersEverywhere(row, centers[IndexOf(bands, b).value])
      {
        if SurvivesAll(row, bads) {
          forall b | b in noIrr
            ensures DiffersEverywhere(row, centers[IndexOf(bands, b).value])
          {
            var k :| 0 <= k < |noIrr| && noIrr[k] == b;
            assert bads[k] == centers[IndexOf(bands, b).value];
          }
        }
        if forall b :: b in noIrr ==> DiffersEverywhere(row, centers[IndexOf(bands, b).value]) {
          forall k | 0 <= k < |bads|
            ensures DiffersEverywhere(row, bads[k])
          {
            assert noIrr[k] in noIrr;
          }
        }
      }
    }
    FilterEach(centers, bads)
  }

  /** The filter is stricter than removing the bad centers themselves: a
      candidate that shares a single coordinate with a bad center is dropped
      too. */
  lemma SharedCoordinateDropsCandidate()
    ensures GetGoodCenters([RVec(0.5, 0.5, 0.5), RVec(0.5, 0.25, 0.75)], [7, 8], [7]) == []
  {
    var centers := [RVec(0.5, 0.5, 0.5), RVec(0.5, 0.25, 0.75)];
    assert IndexOf([7, 8], 7) == Some(0);
    var bads := BadCenters(centers, [7, 8], [7]);
    assert bads == [centers[0]];
    assert !SurvivesAll(centers[0], bads);
    assert !SurvivesAll(centers[1], bads);
    assert Survivors(centers[..1], bads) == Survivors([], bads);
    assert centers[..2] == centers;
  }

  /** The position of some band of noIrr. */
  predicate IsBadPosition(bands: seq<int>, noIrr: seq<int>, p: nat)
    requires forall b :: b in noIrr ==> b in bands
  {
    exists b :: b in noIrr && IndexOf(bands, b).value == p
  }

  /** The source's loop `for band in noIrr: centers[bands.index(band)] = v`. */
  function Overwrite(centers: seq<RVec>, bands: seq<int>, noIrr: seq<int>, v: RVec): (r: seq<RVec>)
    requires Locatable(bands, noIrr, |centers|)
    ensures |r| == |centers|
    ensures forall p :: 0 <= p < |centers| ==>
      r[p] == if IsBadPosition(bands, noIrr, p) then v else centers[p]
    decreases |noIrr|
  {
    if |noIrr| == 0 then centers
    else
      var p := IndexOf(bands, noIrr[0]).value;
      var rest := noIrr[1..];
      assert forall b :: b in rest ==> b in noIrr;
      var r := Overwrite(centers[p := v], bands, rest, v);
      assert forall q :: 0 <= q < |centers| ==>
        (IsBadPosition(bands, noIrr, q) <==> q == p || IsBadPosition(bands, rest, q)) by {
        forall q | 0 <= q < |centers|
          ensures IsBadPosition(bands, noIrr, q) <==> q == p || IsBadPosition(bands, rest, q)
        {
          if IsBadPosition(bands, noIrr, q) {
            var b :| b in noIrr && IndexOf(bands, b).value == q;
            if b != noIrr[0] {
              assert b in rest;
            }
          }
          if q == p {
            assert noIrr[0] in noIrr;
          }
        }
      }
      r
  }

  /** `replace_bad_centers`: the center at the first position of every band
      in noIrr becomes the head of the pool, every other center is kept, and
      the pool loses its head. None where a band needs a new center but the
      pool is empty (IndexError at `good_centers[0]`). */
  function ReplaceBadCenters(centers: seq<RVec>, bands: seq<int>, noIrr: seq<int>, pool: seq<RVec>)
    : (r: Option<(seq<RVec>, seq<RVec>)>)
    requires Locatable(bands, noIrr, |centers|)
    ensures r.None? <==> |noIrr| > 0 && |pool| == 0
    ensures r.Some? ==> r.value.1 == if |pool| == 0 then [] else pool[1..]
    ensures r.Some? ==> |r.value.0| == |centers|
    ensures r.Some? ==> forall p :: 0 <= p < |centers| ==>
      r.value.0[p] == if IsBadPosition(bands, noIrr, p) then pool[0] else centers[p]
  {
    var rest := if |pool| == 0 then [] else pool[1..];
    if |noIrr| == 0 then
      assert forall p :: 0 <= p < |centers| ==> !IsBadPosition(bands, noIrr, p);
      Some((centers, rest))
    else if |pool| == 0 then None
    else Some((Overwrite(centers, bands, noIrr, pool[0]), rest))
  }

  /** The analysis only ever reports bands that have a center among n. */
  ghost predicate KeepsLocatable(bands: seq<int>, analyse: seq<RVec> -> seq<int>, n: nat) {
    forall cs: seq<RVec> {:trigger analyse(cs)} :: |cs| == n ==> Locatable(bands, analyse(cs), n)
  }

  /** What a retry pass works on: the centers, the bands left without an
      irrep, and the untried pool. */
  datatype Attempt = Attempt(centers: seq<RVec>, noIrr: seq<int>, pool: seq<RVec>)

  /** One pass of the retry loop: the centers of the bands left without an
      irrep are overwritten with the head of the pool (`replace_bad_centers`),
      and the analysis is run again on the new centers. */
  function Pass(a: Attempt, bands: seq<int>, analyse: seq<RVec> -> seq<int>): (r: Attempt)
    requires Locatable(bands, a.noIrr, |a.centers|) && |a.pool| > 0
    ensures r.pool == a.pool[1..]
    ensures |r.centers| == |a.centers|
    ensures forall p :: 0 <= p < |a.centers| ==>
      r.centers[p] == if IsBadPosition(bands, a.noIrr, p) then a.pool[0] else a.centers[p]
    ensures r.noIrr == analyse(r.centers)
  {
    var replaced := ReplaceBadCenters(a.centers, bands, a.noIrr, a.pool).value;
    Attempt(replaced.0, analyse(replaced.0), replaced.1)
  }

  /** Reference definition of the retry loop: the attempt after k rounds,
      where a round makes one pass while some band is left and the pool is
      not empty, and otherwise changes nothing. */
  function AfterRounds(start: Attempt, bands: seq<int>, analyse: seq<RVec> -> seq<int>, k: nat): (r: Attempt)
    requires Locatable(bands, start.noIrr, |start.centers|)
    requires KeepsLocatable(bands, analyse, |start.centers|)
    ensures |r.centers| == |start.centers|
    ensures Locatable(bands, r.noIrr, |r.centers|)
  {
    if k == 0 then start
    else
      var prev := AfterRounds(start, bands, analyse, k - 1);
      if 0 < |prev.noIrr| && 0 < |prev.pool| then
        var next := Pass(prev, bands, analyse);
        assert |next.centers| == |start.centers| && next.noIrr == analyse(next.centers);
        next
      else prev
  }

  /** The pool after k rounds is a suffix of the starting pool that has lost
      at most one entry per round. */
  lemma {:induction false} AfterRoundsPool(start: Attempt, bands: seq<int>, analyse: seq<RVec> -> seq<int>, k: nat)
    requires Locatable(bands, start.noIrr, |start.centers|)
    requires KeepsLocatable(bands, analyse, |start.centers|)
    ensures var r := AfterRounds(start, bands, analyse, k);
      |r.pool| <= |start.pool| && r.pool == start.pool[|start.pool| - |r.pool|..] &&
      |r.pool| + k >= |start.pool|
  {
    if k > 0 {
      AfterRoundsPool(start, bands, analyse, k - 1);
      var prev := AfterRounds(start, bands, analyse, k - 1);
      RoundPool(start, bands, analyse, k);
      if 0 < |prev.noIrr| && 0 < |prev.pool| {
        SuffixTail(start.pool, prev.pool);
      }
    }
  }

  /** One round takes the head of the pool if it runs a pass and nothing
      otherwise. */
  lemma RoundPool(start: Attempt, bands: seq<int>, analyse: seq<RVec> -> seq<int>, k: nat)
    requires Locatable(bands, start.noIrr, |start.centers|)
    requires KeepsLocatable(bands, analyse, |start.centers|)
    requires k > 0
    ensures var prev := AfterRounds(start, bands, analyse, k - 1);
      AfterRounds(start, bands, analyse, k).pool ==
        if 0 < |prev.noIrr| && 0 < |prev.pool| then prev.pool[1..] else prev.pool
  {
  }

  /** Dropping the head of a suffix leaves a suffix. */
  lemma SuffixTail<T>(s: seq<T>, t: seq<T>)
    requires 0 < |t| <= |s| && t == s[|s| - |t|..]
    ensures t[1..] == s[|s| - |t[1..]|..]
  {
  }

  /** Round k was a pass: before it some band was left and the pool was not
      empty, and the attempt after it is that pass's result. */
  ghost predicate LastRoundWasPass(start: Attempt, bands: seq<int>, analyse: seq<RVec> -> seq<int>, k: nat)
    requires Locatable(bands, start.noIrr, |start.centers|)
    requires KeepsLocatable(bands, analyse, |start.centers|)
    requires k > 0
  {
    var prev := AfterRounds(start, bands, analyse, k - 1);
    0 < |prev.noIrr| && 0 < |prev.pool| && AfterRounds(start, bands, analyse, k) == Pass(prev, bands, analyse)
  }

  /** The retry loop of analysis.py `main` for one spin channel. `analyse`
      stands for one pass of overlap computation and symmetry analysis with
      the given centers, returning the bands left without an irrep. Each pass
      consumes one pool entry, so there are at most as many passes as the pool
      has entries. The loop ends converged (no band left) or exhausted (pool
      empty). */
  method RefineCenters(centers0: seq<RVec>, bands: seq<int>, noIrr0: seq<int>, pool0: seq<RVec>,
                       analyse: seq<RVec> -> seq<int>)
    returns (centers: seq<RVec>, noIrr: seq<int>, pool: seq<RVec>, passes: nat)
    requires Locatable(bands, noIrr0, |centers0|)
    requires KeepsLocatable(bands, analyse, |centers0|)
    ensures passes <= |pool0|
    ensures pool == pool0[passes..]
    ensures noIrr == [] || pool == []
    ensures |centers| == |centers0|
    ensures passes == 0 ==> centers == centers0 && noIrr == noIrr0
    ensures passes > 0 ==> noIrr == analyse(centers)
    ensures Attempt(centers, noIrr, pool) == AfterRounds(Attempt(centers0, noIrr0, pool0), bands, analyse, passes)
    ensures passes > 0 ==> LastRoundWasPass(Attempt(centers0, noIrr0, pool0), bands, analyse, passes)
  {
    var start := Attempt(centers0, noIrr0, pool0);
    centers, noIrr, pool, passes := Rounds(start, bands, analyse);
    RoundsMeaning(start, bands, analyse, passes);
  }

  /** The loop itself: it runs rounds until none is left to take, and after
      `passes` rounds it holds the reference attempt. */
  method Rounds(start: Attempt, bands: seq<int>, analyse: seq<RVec> -> seq<int>)
    returns (centers: seq<RVec>, noIrr: seq<int>, pool: seq<RVec>, passes: nat)
    requires Locatable(bands, start.noIrr, |start.centers|)
    requires KeepsLocatable(bands, analyse, |start.centers|)
    ensures |pool| + passes == |start.pool|
    ensures noIrr == [] || pool == []
    ensures Attempt(centers, noIrr, pool) == AfterRounds(start, bands, analyse, passes)
  {
    var a := start;
    passes := 0;
    while 0 < |a.noIrr| && 0 < |a.pool|
      invariant |a.pool| + passes == |start.pool|
      invariant a == AfterRounds(start, bands, analyse, passes)
      decreases |a.pool|
    {
      AfterRoundsStep(start, bands, analyse, passes);
      a := Pass(a, bands, analyse);
      passes := passes + 1;
    }
    centers, noIrr, pool := a.centers, a.noIrr, a.pool;
  }

  /** After k rounds that used k pool entries, the pool is the start's pool
      without its first k entries; with no round the attempt is the start,
      and otherwise the last round was a pass whose bands come from the
      analysis of its centers. */
  lemma RoundsMeaning(start: Attempt, bands: seq<int>, analyse: seq<RVec> -> seq<int>, k: nat)
    requires Locatable(bands, start.noIrr, |start.centers|)
    requires KeepsLocatable(bands, analyse, |start.centers|)
    requires |AfterRounds(start, bands, analyse, k).pool| + k == |start.pool|
    ensures AfterRounds(start, bands, analyse, k).pool == start.pool[k..]
    ensures k == 0 ==> AfterRounds(start, bands, analyse, k) == start
    ensures k > 0 ==> LastRoundWasPass(start, bands, analyse, k)
    ensures k > 0 ==> AfterRounds(start, bands, analyse, k).noIrr == analyse(AfterRounds(start, bands, analyse, k).centers)
  {
    AfterRoundsPool(start, bands, analyse, k);
    if k > 0 {
      LastRoundPassed(start, bands, analyse, k);
    }
  }

  /** A round taken while some band is left and the pool is not empty is one
      pass. */
  lemma AfterRoundsStep(start: Attempt, bands: seq<int>, analyse: seq<RVec> -> seq<int>, k: nat)
    requires Locatable(bands, start.noIrr, |start.centers|)
    requires KeepsLocatable(bands, analyse, |start.centers|)
    requires 0 < |AfterRounds(start, bands, analyse, k).noIrr| && 0 < |AfterRounds(start, bands, analyse, k).pool|
    ensures AfterRounds(start, bands, analyse, k + 1) == Pass(AfterRounds(start, bands, analyse, k), bands, analyse)
  {
  }

  /** When k rounds have used up k pool entries, the last round was a pass
      taken while some band was left and the pool was not empty. */
  lemma LastRoundPassed(start: Attempt, bands: seq<int>, analyse: seq<RVec> -> seq<int>, k: nat)
    requires Locatable(bands, start.noIrr, |start.centers|)
    requires KeepsLocatable(bands, analyse, |start.centers|)
    requires k > 0 && |AfterRounds(start, bands, analyse, k).pool| + k == |start.pool|
    ensures LastRoundWasPass(start, bands, analyse, k)
  {
    AfterRoundsPool(start, bands, analyse, k - 1);
  }
}
