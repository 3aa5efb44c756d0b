/** The loop nest of analysis.py `get_allowed_transitions`, independent of
    what a record holds: for every initial group i below n, every final group
    j below n and, when the pair is eligible, every polarisation p below w,
    one record make(i, j, p), appended in that order. */
module Selection {

  /** make and eligible are defined on every index triple and pair the loops
      visit. */
  ghost predicate Covers<T>(make: (nat, nat, nat) --> T, eligible: (nat, nat) --> bool, n: nat, w: nat) {
    (forall i: nat, j: nat :: i < n && j < n ==> eligible.requires(i, j)) &&
    (forall i: nat, j: nat, p: nat :: i < n && j < n && p < w ==> make.requires(i, j, p))
  }

  /** The records of one pair of groups: one per polarisation, or none when
      the pair is not eligible. */
  function PairOf<T>(make: (nat, nat, nat) --> T, eligible: (nat, nat) --> bool, n: nat, w: nat,
                     i: nat, j: nat): (rs: seq<T>)
    requires Covers(make, eligible, n, w) && i < n && j < n
    ensures |rs| == if eligible(i, j) then w else 0
    ensures forall p :: 0 <= p < |rs| ==> rs[p] == make(i, j, p)
  {
    if eligible(i, j) then seq(w, p requires 0 <= p < w => make(i, j, p)) else []
  }

  /** The records with initial group i and final group below m, in order. */
  function RowOf<T>(make: (nat, nat, nat) --> T, eligible: (nat, nat) --> bool, n: nat, w: nat,
                    i: nat, m: nat): seq<T>
    requires Covers(make, eligible, n, w) && i < n && m <= n
  {
    if m == 0 then [] else RowOf(make, eligible, n, w, i, m - 1) + PairOf(make, eligible, n, w, i, m - 1)
  }

  /** The records with initial group below k, in order. */
  function AllOf<T>(make: (nat, nat, nat) --> T, eligible: (nat, nat) --> bool, n: nat, w: nat,
                    k: nat): seq<T>
    requires Covers(make, eligible, n, w) && k <= n
  {
    if k == 0 then [] else AllOf(make, eligible, n, w, k - 1) + RowOf(make, eligible, n, w, k - 1, n)
  }

  /** A record of the selection: made from an eligible pair with initial
      group below k. */
  ghost predicate MadeBelow<T>(make: (nat, nat, nat) --> T, eligible: (nat, nat) --> bool, n: nat, w: nat,
                         k: nat, m: nat, x: T)
    requires Covers(make, eligible, n, w) && k <= n && m <= n
  {
    exists i: nat, j: nat, p: nat :: i < k && j < m && p < w && eligible(i, j) && x == make(i, j, p)
  }

  lemma {:induction false} RowMembers<T>(make: (nat, nat, nat) --> T, eligible: (nat, nat) --> bool,
                                         n: nat, w: nat, i: nat, m: nat)
    requires Covers(make, eligible, n, w) && i < n && m <= n
    ensures forall x :: x in RowOf(make, eligible, n, w, i, m) <==>
      exists j: nat, p: nat :: j < m && p < w && eligible(i, j) && x == make(i, j, p)
  {
    if m > 0 {
      RowMembers(make, eligible, n, w, i, m - 1);
      var pair := PairOf(make, eligible, n, w, i, m - 1);
      forall x | (exists j: nat, p: nat :: j < m && p < w && eligible(i, j) && x == make(i, j, p))
        ensures x in RowOf(make, eligible, n, w, i, m)
      {
        var j: nat, p: nat :| j < m && p < w && eligible(i, j) && x == make(i, j, p);
        if j == m - 1 {
          assert pair[p] == x;
        }
      }
    }
  }

  /** The records are exactly the eligible combinations. */
  lemma {:induction false} AllMembers<T>(make: (nat, nat, nat) --> T, eligible: (nat, nat) --> bool,
                                         n: nat, w: nat, k: nat)
    requires Covers(make, eligible, n, w) && k <= n
    ensures forall x :: x in AllOf(make, eligible, n, w, k) <==> MadeBelow(make, eligible, n, w, k, n, x)
  {
    if k > 0 {
      AllMembers(make, eligible, n, w, k - 1);
      RowMembers(make, eligible, n, w, k - 1, n);
      forall x | MadeBelow(make, eligible, n, w, k, n, x)
        ensures x in AllOf(make, eligible, n, w, k)
      {
        var i: nat, j: nat, p: nat :| i < k && j < n && p < w && eligible(i, j) && x == make(i, j, p);
        if i < k - 1 {
          assert MadeBelow(make, eligible, n, w, k - 1, n, x);
        }
      }
    }
  }

  /** The innermost loop: one record per polarisation. */
  method PairLoop<T>(make: (nat, nat, nat) --> T, eligible: (nat, nat) --> bool, n: nat, w: nat,
                     i: nat, j: nat) returns (rs: seq<T>)
    requires Covers(make, eligible, n, w) && i < n && j < n && eligible(i, j)
    ensures rs == PairOf(make, eligible, n, w, i, j)
  {
    rs := [];
    for p := 0 to w
      invariant rs == PairOf(make, eligible, n, w, i, j)[..p]
    {
      rs := rs + [make(i, j, p)];
    }
  }

  /** The loop over final groups for initial group i. */
  method RowLoop<T>(make: (nat, nat, nat) --> T, eligible: (nat, nat) --> bool, n: nat, w: nat,
                    i: nat) returns (rs: seq<T>)
    requires Covers(make, eligible, n, w) && i < n
    ensures rs == RowOf(make, eligible, n, w, i, n)
  {
    rs := [];
    for j := 0 to n
      invariant rs == RowOf(make, eligible, n, w, i, j)
    {
      if eligible(i, j) {
        var pair := PairLoop(make, eligible, n, w, i, j);
        rs := rs + pair;
      }
    }
  }

  /** The whole loop nest. */
  method Select<T>(make: (nat, nat, nat) --> T, eligible: (nat, nat) --> bool, n: nat, w: nat)
    returns (rs: seq<T>)
    requires Covers(make, eligible, n, w)
    ensures rs == AllOf(make, eligible, n, w, n)
    ensures forall x :: x in rs <==> MadeBelow(make, eligible, n, w, n, n, x)
  {
    rs := [];
    for i := 0 to n
      invariant rs == AllOf(make, eligible, n, w, i)
    {
      var row := RowLoop(make, eligible, n, w, i);
      rs := rs + row;
    }
    AllMembers(make, eligible, n, w, n);
  }
}
