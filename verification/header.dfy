/** The character table and its header row (analysis.py `order_columns`,
    `get_irrep_symbols`).

    A character table is text: the header row holds the point-group name and
    then, per conjugacy class, an optional class size followed by the class
    symbol ("E", "2", "C3", "3", "sv"). Every further row holds an irrep
    symbol followed by one character per class. */
module Header {
  import opened Outcomes
  import opened Decimal
  import opened Seqs

  datatype CharTable = CharTable(header: seq<string>, rows: seq<seq<string>>)

  /** The tokens after the point-group name (`ch_table[0][1:]`). */
  function ClassTokens(t: CharTable): seq<string> {
    if |t.header| == 0 then [] else t.header[1..]
  }

  predicate IsInt(s: string) {
    ParseInt(s).Some?
  }

  /** State of the header scan: the class symbols and multiplicities so far,
      and whether the previous token was an integer. */
  datatype Scan = Scan(classes: seq<string>, mults: seq<int>, intPrevious: bool)

  /** The source's loop over the header tokens: an integer token is appended
      to the multiplicities; any other token is appended to the classes, with
      multiplicity 1 unless an integer came just before it. */
  function ParseHeader(tokens: seq<string>): (s: Scan)
    ensures s.intPrevious <==> |tokens| > 0 && IsInt(tokens[|tokens| - 1])
  {
    if |tokens| == 0 then Scan([], [], false)
    else
      var prev := ParseHeader(tokens[..|tokens| - 1]);
      var tok := tokens[|tokens| - 1];
      match ParseInt(tok)
      case Some(n) => Scan(prev.classes, prev.mults + [n], true)
      case None =>
        Scan(prev.classes + [tok], if prev.intPrevious then prev.mults else prev.mults + [1], false)
  }

  /** The positions of the non-integer tokens, in order. */
  function SymbolPositions(tokens: seq<string>): (idx: seq<nat>)
    ensures forall k :: 0 <= k < |idx| ==> idx[k] < |tokens| && !IsInt(tokens[idx[k]])
    ensures forall i :: 0 <= i < |tokens| && !IsInt(tokens[i]) ==> i in idx
    ensures forall k, l :: 0 <= k < l < |idx| ==> idx[k] < idx[l]
  {
    if |tokens| == 0 then []
    else
      var init := SymbolPositions(tokens[..|tokens| - 1]);
      if IsInt(tokens[|tokens| - 1]) then init else init + [|tokens| - 1]
  }

  /** Every non-integer token becomes a class, in header order. */
  lemma {:induction false} ClassesAreTheSymbols(tokens: seq<string>)
    ensures ParseHeader(tokens).classes == Pick(tokens, SymbolPositions(tokens))
  {
    if |tokens| > 0 {
      var init := tokens[..|tokens| - 1];
      ClassesAreTheSymbols(init);
      assert Pick(init, SymbolPositions(init)) == Pick(tokens, SymbolPositions(init));
    }
  }

  /** No two integers in a row. */
  predicate NoRepeatedSizes(tokens: seq<string>) {
    forall i :: 0 < i < |tokens| && IsInt(tokens[i]) ==> !IsInt(tokens[i - 1])
  }

  /** The class size written before the token at position p, or 1. */
  function SizeBefore(tokens: seq<string>, p: nat): int
    requires p < |tokens|
  {
    if p > 0 && IsInt(tokens[p - 1]) then ParseInt(tokens[p - 1]).value else 1
  }

  /** What the scan has built for a prefix: every class so far has its
      size, and a trailing integer is a size still waiting for its symbol. */
  predicate ScanAligned(tokens: seq<string>) {
    var s := ParseHeader(tokens);
    var pos := SymbolPositions(tokens);
    |s.classes| == |pos| &&
    |s.mults| == |pos| + (if s.intPrevious then 1 else 0) &&
    (s.intPrevious ==> s.mults[|s.mults| - 1] == ParseInt(tokens[|tokens| - 1]).value) &&
    forall k :: 0 <= k < |pos| ==> s.mults[k] == SizeBefore(tokens, pos[k])
  }

  /** Without two integers in a row the scan stays aligned on every prefix. */
  lemma {:induction false} ScanInvariant(tokens: seq<string>)
    requires NoRepeatedSizes(tokens)
    ensures ScanAligned(tokens)
  {
    if |tokens| > 0 {
      var init := tokens[..|tokens| - 1];
      assert NoRepeatedSizes(init) by {
        forall i | 0 < i < |init| && IsInt(init[i])
          ensures !IsInt(init[i - 1])
        {
          assert init[i] == tokens[i] && init[i - 1] == tokens[i - 1];
        }
      }
      ScanInvariant(init);
      if IsInt(tokens[|tokens| - 1]) {
        SizeStaysAligned(tokens);
      } else {
        SymbolStaysAligned(tokens);
      }
    }
  }

  /** A size token after a symbol keeps the scan aligned: it waits for the
      next symbol. */
  lemma SizeStaysAligned(tokens: seq<string>)
    requires |tokens| > 0 && IsInt(tokens[|tokens| - 1])
    requires |tokens| > 1 ==> !IsInt(tokens[|tokens| - 2])
    requires ScanAligned(tokens[..|tokens| - 1])
    ensures ScanAligned(tokens)
  {
    var init := tokens[..|tokens| - 1];
    var tok := tokens[|tokens| - 1];
    var prev := ParseHeader(init);
    var pos0 := SymbolPositions(init);
    SizeBeforeExtends(tokens, pos0);
    assert SymbolPositions(tokens) == pos0;
    assert !prev.intPrevious;
    assert ParseHeader(tokens).mults == prev.mults + [ParseInt(tok).value];
  }

  /** A symbol token keeps the scan aligned: it takes the waiting size, or 1. */
  lemma SymbolStaysAligned(tokens: seq<string>)
    requires |tokens| > 0 && !IsInt(tokens[|tokens| - 1])
    requires ScanAligned(tokens[..|tokens| - 1])
    ensures ScanAligned(tokens)
  {
    var init := tokens[..|tokens| - 1];
    var prev := ParseHeader(init);
    var pos0 := SymbolPositions(init);
    SizeBeforeExtends(tokens, pos0);
    var s := ParseHeader(tokens);
    var pos := SymbolPositions(tokens);
    assert pos == pos0 + [|tokens| - 1];
    assert |s.mults| == |pos| && s.mults[..|pos0|] == prev.mults[..|pos0|];
    assert s.mults[|pos0|] == SizeBefore(tokens, |tokens| - 1);
    forall k | 0 <= k < |pos|
      ensures s.mults[k] == SizeBefore(tokens, pos[k])
    {
      if k < |pos0| {
        assert s.mults[k] == s.mults[..|pos0|][k] == prev.mults[k];
      }
    }
  }

  /** Appending a token does not change the size written before an earlier
      token. */
  lemma SizeBeforeExtends(tokens: seq<string>, pos: seq<nat>)
    requires |tokens| > 0
    requires forall k :: 0 <= k < |pos| ==> pos[k] < |tokens| - 1
    ensures forall k :: 0 <= k < |pos| ==>
      SizeBefore(tokens[..|tokens| - 1], pos[k]) == SizeBefore(tokens, pos[k])
  {
  }

  /** For a header with no repeated sizes that ends in a class symbol, there
      is one multiplicity per class, and it is the size written just before
      the symbol, or 1 where none is written. */
  lemma HeaderAlignment(tokens: seq<string>)
    requires NoRepeatedSizes(tokens)
    requires |tokens| > 0 ==> !IsInt(tokens[|tokens| - 1])
    ensures var s := ParseHeader(tokens);
      var pos := SymbolPositions(tokens);
      |s.mults| == |s.classes| == |pos| &&
      forall k :: 0 <= k < |pos| ==> s.classes[k] == tokens[pos[k]] && s.mults[k] == SizeBefore(tokens, pos[k])
  {
    ScanInvariant(tokens);
    ClassesAreTheSymbols(tokens);
  }

  /** One more token: a size is appended to the multiplicities, a symbol to
      the classes (with size 1 when no integer came just before it). */
  lemma ScanStep(tokens: seq<string>, tok: string)
    ensures var prev := ParseHeader(tokens);
      ParseHeader(tokens + [tok]) ==
        if IsInt(tok) then Scan(prev.classes, prev.mults + [ParseInt(tok).value], true)
        else Scan(prev.classes + [tok], if prev.intPrevious then prev.mults else prev.mults + [1], false)
  {
    assert (tokens + [tok])[..|tokens|] == tokens;
  }

  /** A header with two sizes in a row loses the alignment: the class after
      them is given the first size, and a size is left over. */
  lemma RepeatedSizesMisalign()
    ensures ParseHeader(["2", "3", "C3"]).classes == ["C3"]
    ensures ParseHeader(["2", "3", "C3"]).mults == [2, 3]
  {
    assert ParseHeader(["2"]) == Scan([], [2], true) by {
      assert ParseInt("2") == Some(2) by { assert DigitsValue("2") == 2; }
      ScanStep([], "2");
      assert [] + ["2"] == ["2"];
    }
    assert ParseHeader(["2", "3"]) == Scan([], [2, 3], true) by {
      assert ParseInt("3") == Some(3) by { assert DigitsValue("3") == 3; }
      ScanStep(["2"], "3");
      assert ["2"] + ["3"] == ["2", "3"];
    }
    SymbolIsNotInt("C3");
    ScanStep(["2", "3"], "C3");
    assert ["2", "3"] + ["C3"] == ["2", "3", "C3"];
  }

  /** A typical header: "C3v E 2 C3 3 sv" has classes E, C3, sv of sizes
      1, 2, 3. */
  lemma C3vHeader()
    ensures ParseHeader(["E", "2", "C3", "3", "sv"]) == Scan(["E", "C3", "sv"], [1, 2, 3], false)
  {
    C3vHeaderPrefix();
    assert ParseHeader(["E", "2", "C3", "3"]) == Scan(["E", "C3"], [1, 2, 3], true) by {
      assert ParseInt("3") == Some(3) by { assert DigitsValue("3") == 3; }
      ScanStep(["E", "2", "C3"], "3");
      assert ["E", "2", "C3"] + ["3"] == ["E", "2", "C3", "3"];
    }
    SymbolIsNotInt("sv");
    ScanStep(["E", "2", "C3", "3"], "sv");
    assert ["E", "2", "C3", "3"] + ["sv"] == ["E", "2", "C3", "3", "sv"];
  }

  /** The first three tokens of the C3v header: E with size 1, then C3 with
      the size 2 written before it. */
  lemma C3vHeaderPrefix()
    ensures ParseHeader(["E", "2", "C3"]) == Scan(["E", "C3"], [1, 2], false)
  {
    assert ParseHeader(["E"]) == Scan(["E"], [1], false) by {
      SymbolIsNotInt("E");
      ScanStep([], "E");
      assert [] + ["E"] == ["E"];
    }
    assert ParseHeader(["E", "2"]) == Scan(["E"], [1, 2], true) by {
      assert ParseInt("2") == Some(2) by { assert DigitsValue("2") == 2; }
      ScanStep(["E"], "2");
      assert ["E"] + ["2"] == ["E", "2"];
    }
    SymbolIsNotInt("C3");
    ScanStep(["E", "2"], "C3");
    assert ["E", "2"] + ["C3"] == ["E", "2", "C3"];
  }


  /** The class matching of the source's `extract` module, which is not part
      of this model: from the header's classes and sizes and the classes and
      sizes found among the operators, the position of each found class for
      each header column. */
  type ClassMatcher = (seq<string>, seq<int>, seq<string>, seq<int>) -> seq<nat>

  /** The operators sorted into classes (also computed in `extract`): a
      symbol, the operator positions and the size of each class. */
  datatype SortedClasses = SortedClasses(symbols: seq<string>, members: seq<seq<nat>>, sizes: seq<int>)

  /** `order_columns`: the operator classes reordered to the header's column
      order, and the header's multiplicities. None where an index from the
      matcher is past the sorted classes (IndexError in the source). */
  function OrderColumns(t: CharTable, sorted: SortedClasses, matcher: ClassMatcher)
    : (r: Option<(seq<seq<nat>>, seq<int>)>)
    ensures var s := ParseHeader(ClassTokens(t));
      var perm := matcher(s.classes, s.mults, sorted.symbols, sorted.sizes);
      (r.None? <==> exists k :: 0 <= k < |perm| && perm[k] >= |sorted.members|) &&
      (r.Some? ==>
         |r.value.0| == |perm| && r.value.1 == s.mults &&
         forall k :: 0 <= k < |perm| ==> r.value.0[k] == sorted.members[perm[k]])
  {
    var s := ParseHeader(ClassTokens(t));
    var perm := matcher(s.classes, s.mults, sorted.symbols, sorted.sizes);
    if forall k :: 0 <= k < |perm| ==> perm[k] < |sorted.members| then
      Some((Pick(sorted.members, perm), s.mults))
    else
      assert exists k :: 0 <= k < |perm| && !(perm[k] < |sorted.members|);
      None
  }

  /** When the matcher returns a rearrangement of all the sorted classes,
      every column gets a distinct class and every class gets a column. */
  lemma OrderColumnsRearranges(t: CharTable, sorted: SortedClasses, matcher: ClassMatcher)
    requires var s := ParseHeader(ClassTokens(t));
      var perm := matcher(s.classes, s.mults, sorted.symbols, sorted.sizes);
      |perm| == |sorted.members| && Distinct(perm) &&
      forall k :: 0 <= k < |perm| ==> perm[k] < |sorted.members|
    ensures OrderColumns(t, sorted, matcher).Some?
    ensures var cols := OrderColumns(t, sorted, matcher).value.0;
      forall j :: 0 <= j < |sorted.members| ==> sorted.members[j] in cols
  {
    var s := ParseHeader(ClassTokens(t));
    var perm := matcher(s.classes, s.mults, sorted.symbols, sorted.sizes);
    var cols := OrderColumns(t, sorted, matcher).value.0;
    forall j | 0 <= j < |sorted.members|
      ensures sorted.members[j] in cols
    {
      PermutationHits(perm, |sorted.members|, j);
      var k :| 0 <= k < |perm| && perm[k] == j;
      assert cols[k] == sorted.members[j];
    }
  }

  /** n distinct positions below n include every position below n. */
  lemma PermutationHits(perm: seq<nat>, n: nat, j: nat)
    requires |perm| == n && Distinct(perm)
    requires forall k :: 0 <= k < |perm| ==> perm[k] < n
    requires j < n
    ensures j in perm
  {
    var img := set x: nat | x in perm;
    var range := set i: nat | i in Range(n);
    DistinctElements(perm);
    DistinctElements(Range(n));
    forall x | x in img
      ensures x in range
    {
      assert Range(n)[x] == x;
    }
    assert |img| == |range|;
    SubsetOfEqualSize(img, range);
    assert Range(n)[j] == j;
    assert j in range;
    assert j in img;
  }

  /** A list without repeats has as many elements as entries. */
  lemma {:induction false} DistinctElements(xs: seq<nat>)
    requires Distinct(xs)
    ensures |set x: nat | x in xs| == |xs|
  {
    if |xs| > 0 {
      var init := xs[..|xs| - 1];
      var last := xs[|xs| - 1];
      DistinctElements(init);
      var before := set x: nat | x in init;
      assert forall x :: x in xs <==> x in init || x == last;
      assert (set x: nat | x in xs) == before + {last};
      assert last !in before;
    } else {
      assert (set x: nat | x in xs) == {};
    }
  }

  lemma SubsetOfEqualSize(a: set<nat>, b: set<nat>)
    requires a <= b && |a| == |b|
    ensures a == b
  {
    assert b == a + (b - a);
    assert |b - a| == 0;
  }
}
