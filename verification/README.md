# ADAQ-SYM symmetry analysis of defect orbitals, modelled in Dafny

ADAQ-SYM assigns irreducible representations (irreps) to the Kohn–Sham
orbitals of a point defect. The core of the program does the following:

- It computes, for each band, the overlap of the plane-wave orbital with
  its image under every symmetry operator of the point group. Only half of
  the G-sphere is stored, so the coefficient C(−G) is read as the conjugate
  of C(G).
- It divides every overlap by the orbital's self-overlap.
- It sums the overlaps over a degeneracy group and averages them over each
  conjugacy class. This gives characters, which are snapped to integers when
  close.
- It projects the characters onto the rows of the character table. This
  gives integer irrep amplitudes, a continuous-symmetry score, and the text
  of the representation ("A1 + 2E ").
- It finds the allowed optical transitions between degeneracy groups. A
  transition is allowed when the dipole characters contain the totally
  symmetric irrep.
- It replaces the orbital centers of bands for which no irrep was found by
  centers from a pool. It then repeats the analysis until every band has an
  irrep or the pool is exhausted.

The model has one module per concern:

| file | module | what it holds |
|---|---|---|
| foundation.dfy | `Outcomes`, `ComplexArith`, `Numeric`, `Seqs` | failure-carrying results, exact complex numbers over reals, Python's `round`, first-index lookup |
| decimal.dfy | `Decimal` | `str(int)` and `int(str)` on decimal text |
| geometry.dfy | `Geometry` | G-vectors, fractional positions, integer matrices |
| overlap.dfy | `Overlap` | `calc_overlap`, `get_overlap_list` |
| truncation.dfy | `Truncation` | `truncate_gvec`, `truncate_coeffs` |
| characters.dfy | `Characters` | the character part of `get_character`, `average_by_class` |
| header.dfy | `Header` | the character-table header scan of `order_columns` |
| projection.dfy | `Projection` | `get_irrep_symbols`, `get_rep`, `get_csm` |
| rendering.dfy | `Rendering` | `get_total_irrep_string` |
| selection.dfy | `Selection` | the loop nest of `get_allowed_transitions`, for any record type |
| transitions.dfy | `Transitions` | `get_allowed_transitions` |
| centers.dfy | `Centers` | `get_good_centers`, `replace_bad_centers`, the center retry loops of `main` |

Numbers are exact: reals for floating point and unbounded integers for
Python `int`. Complex values are pairs of reals. The phase factor
exp(2πi·G·Δ) of the overlap is a function parameter. A symmetry operator
is given by the inverse of its matrix, as an integer matrix. The
operator-class matching of the `extract` module is a function parameter.
So is one pass of overlap computation plus symmetry analysis, which the
retry loop repeats.

## Model

| member | source | states |
|---|---|---|
| Outcomes.MapAll | analysis.py:259-275 | applying a raising step to every row in order: on success one value per row, each the step's value; failure exactly when some row fails |
| Numeric.Round | analysis.py:270-271 | Python `round`: within 1/2 of x, and an exact tie goes to the even integer |
| Numeric.RoundIsNearest | analysis.py:270-271 | no integer is nearer to x than `round(x)` |
| Numeric.RoundOfInt | analysis.py:78-80 | an integer rounds to itself |
| Numeric.RoundWithin | analysis.py:270-271 | a value strictly within tol ≤ 1/2 of the integer n rounds to n |
| Numeric.Round1 | analysis.py:330 | `round(x, 1)` is within 0.05 of x and has one decimal |
| Numeric.Round1OfTenth | analysis.py:330 | a value that already has one decimal is kept by `round(x, 1)` |
| Seqs.IndexOf | analysis.py:50 | `list.index`: the first position holding v; None exactly when v is absent |
| Seqs.IndexOfDistinct | overlap.py:42 | in a list without repeats, the lookup finds the element's own position |
| Decimal.NatToString | analysis.py:299 | `str(n)` for n ≥ 0 is a non-empty run of digits without a leading zero |
| Decimal.DigitsOfNatToString | analysis.py:299 | the digits `str` writes denote n again |
| Decimal.ParseIntRoundTrip | analysis.py:299 | `int(str(n)) == n` for every integer, signs included |
| Decimal.SymbolIsNotInt | analysis.py:210-217 | a class symbol starting with a letter is rejected by `int` |
| Geometry.RowTimesIdentity | overlap.py:33 | G·I = G |
| Geometry.IdentityFixesEveryCenter | overlap.py:31 | for the identity, center − I·center is zero |
| Overlap.BranchOf | overlap.py:41-49 | the three arms of the test on G_R: G_R.x > 0; G_R in the unstored half; the rest of the plane G_R.x = 0 |
| Overlap.HalfSphere | overlap.py:41-49 | a nonzero vector or its negation is stored, never both; zero is stored |
| Overlap.StoredPartner | overlap.py:41-49 | the vector that is looked up: v itself in the stored half, −v (which is stored) otherwise |
| Overlap.ConjugateCoefficient | overlap.py:41-49 | C(v)* from half storage; missing exactly when the looked-up vector is not in the basis |
| Overlap.OverlapUpTo | overlap.py:32-50 | when the reference sum over a prefix fails, it names a vector absent from the basis |
| Overlap.OverlapFailsIff | overlap.py:32-50 | the reference sum over a prefix fails exactly when some stored vector of the prefix has no stored partner |
| Overlap.OverlapErrStep | overlap.py:39-49 | the sum over n vectors fails exactly when the shorter sum failed or the n-th vector's image has no stored coefficient |
| Overlap.MissingStep | overlap.py:39-49 | some of the first n vectors lacks a partner exactly when some of the first n - 1 does or the n-th does |
| Overlap.ErrorPersists | overlap.py:32-50 | a missing vector stops the loop: longer prefixes report the same vector |
| Overlap.ReadPartner | overlap.py:41-49 | the three-way branch reads exactly C(G_R)* from half storage, and fails exactly when the looked-up vector is not stored |
| Overlap.OverlapStepOk | overlap.py:32-50 | one more loop iteration whose partner is stored adds that vector's phase-weighted term |
| Overlap.OverlapStepErr | overlap.py:41-49 | one more loop iteration whose partner is missing fails, naming that partner |
| Overlap.FailureIsFinal | overlap.py:32-50 | a failure on a prefix is the failure of the whole loop, since the exception ends it, and some vector then lacks its partner |
| Overlap.CalcOverlap | overlap.py:13-50 | the source's loop and three-way branch equal the reference overlap; it fails exactly when a partner is missing |
| Overlap.SelfNorm | overlap.py:71 | Σ C·C* is real and non-negative |
| Overlap.IdentityOverlapIsSelfNorm | overlap.py:69-71 | with stored vectors unrepeated and in the stored half, the engine's identity overlap is the self-norm, so storing the self-norm as entry 0 agrees with it |
| Overlap.IdentityPrefix | overlap.py:32-50 | the identity overlap over each prefix is the prefix's self-norm |
| Overlap.Infos | overlap.py:69-79 | one info record per operator: its index, symbol, axis and angle |
| Overlap.Normalize | overlap.py:80-83 | every entry divided by the norm: multiplying back gives the raw overlap, and the norm itself becomes 1 |
| Overlap.OtherOverlaps | overlap.py:73-79 | one overlap per operator after the first, each the engine's value for that operator; fails exactly when some of them does |
| Overlap.GetOverlapList | overlap.py:53-85 | one entry per operator, entry 0 is 1, entry k times the self-norm is the k-th computed overlap, with the operator records; fails on a missing vector exactly when an overlap does, and on a zero norm exactly when all exist and the norm is 0 |
| Overlap.OverlapListMeaning | overlap.py:53-85 | the same in terms of the engine: entry k times the self-norm is the overlap with operator k; a missing vector exactly when some operator's overlap fails; a zero norm exactly when none fails and the self-norm is 0 |
| Overlap.OperatorZeroMatrixUnused | overlap.py:69-74 | the matrix of operator 0 never affects the result |
| Truncation.KeptIndices | overlap.py:167-169 | the positions whose energy is below the bound: all of them, increasing |
| Truncation.KeptIndicesAll | overlap.py:163 | when every energy is below the bound, every position is kept |
| Truncation.KeepBelow | overlap.py:192-194 | the filtering loop picks the entries at exactly those positions |
| Truncation.BelowCutoff | overlap.py:163 | the energies below encut, in order, so never more than the input |
| Truncation.TruncateGvec | overlap.py:146-172 | energies below encut, and the G-vectors at the positions of that filtered list whose energy is below encut·reduction |
| Truncation.TruncateCoeffs | overlap.py:175-197 | the coefficients at the positions whose energy is below encut·reduction |
| Truncation.BelowCutoffKeepsAll | overlap.py:163 | when every energy is below encut, the cutoff keeps the whole energy list |
| Truncation.TruncationKeepsPairing | overlap.py:146-197 | when every energy is below encut, G-vectors and coefficients are kept at the same positions, so they stay paired |
| Characters.GroupSumSingle | analysis.py:44-54 | a group of one band contributes that band's overlap |
| Characters.GroupSumAppend | analysis.py:44-54 | the group sum is additive over a split of the group |
| Characters.GroupSumOfPair | analysis.py:44-54 | a degenerate pair with equal overlaps v sums to 2v |
| Characters.GroupSums | analysis.py:44-54 | one row per group, one entry per operator, each the group sum |
| Characters.SumAtConstant | analysis.py:118-121 | summing n copies of v gives n·v |
| Characters.ClassMean | analysis.py:118-121 | the class mean times the class size is the class sum |
| Characters.AverageByClass | analysis.py:95-126 | each class's symbol is its first member's; each class entry times the class size is the class sum |
| Characters.SingletonClassPassesThrough | analysis.py:118-121 | a one-operator class passes that operator's value through |
| Characters.ConstantClassAveragesToValue | analysis.py:118-121 | a class whose members all hold v averages to v |
| Characters.ScaleCancel | analysis.py:121 | division by the class size is undone by multiplying back |
| Characters.Snap | analysis.py:77-84 | the value is kept, or, when rounding is on and both parts are within tol, replaced by the rounded real part |
| Characters.SnapComplete | analysis.py:77-84 | with tol ≤ 1/2, every value within tol of the integer n (and imaginary part within tol) becomes n |
| Characters.SnapDisabled | analysis.py:79-82 | with rounding off, nothing changes |
| Characters.SnapIdempotent | analysis.py:77-84 | snapping twice is snapping once |
| Characters.GetCharacter | analysis.py:44-92 | class symbols in class order; every character is the snapped class mean of the group sums |
| Characters.SingletonMean | analysis.py:117-121 | the mean over a class of one operator is that operator's value |
| Characters.SingleBandCharacters | analysis.py:44-92 | for a lone band, one-operator classes and rounding off, the characters are the stored overlaps |
| Characters.SingleBandClass | analysis.py:44-92 | for one class of a lone band with one operator and rounding off, the character is the stored overlap with that operator |
| Characters.StoredMember | analysis.py:50-51 | every band of a group the overlap table stores has a row in it |
| Characters.StoredSingle | analysis.py:50-51 | a lone stored band has a row in the overlap table |
| Header.ParseHeader | analysis.py:204-217 | the scan ends in the "integer seen last" state exactly when the last token is an integer |
| Header.SymbolPositions | analysis.py:209-217 | the positions of the tokens `int` rejects: all of them, increasing |
| Header.ClassesAreTheSymbols | analysis.py:209-217 | the classes are exactly the non-integer tokens, in header order |
| Header.ScanInvariant | analysis.py:208-217 | without two integers in a row, each class gets the size written just before it, or 1 |
| Header.SizeStaysAligned | analysis.py:210-212 | a size token after a symbol is appended and waits for the next symbol |
| Header.SymbolStaysAligned | analysis.py:213-217 | a symbol takes the waiting size, or 1 when none is waiting, and earlier classes keep theirs |
| Header.SizeBeforeExtends | analysis.py:208-217 | appending a token leaves the sizes of earlier classes unchanged |
| Header.HeaderAlignment | analysis.py:204-217 | for such a header ending in a symbol, classes and sizes have the same length and line up |
| Header.ScanStep | analysis.py:208-217 | one more token appends a size, or a class with size 1 unless an integer came just before |
| Header.RepeatedSizesMisalign | analysis.py:208-217 | "2 3 C3" yields classes [C3] and sizes [2, 3]: two integers in a row break the alignment |
| Header.C3vHeader | analysis.py:204-217 | "E 2 C3 3 sv" yields classes E, C3, sv with sizes 1, 2, 3 |
| Header.C3vHeaderPrefix | analysis.py:204-217 | the tokens "E 2 C3" scan to classes E, C3 with sizes 1, 2 and no number waiting |
| Header.OrderColumns | analysis.py:188-227 | the sorted classes rearranged by the matcher's permutation, with the header's sizes; None exactly when a permutation index is out of range |
| Header.OrderColumnsRearranges | analysis.py:221-227 | for a permutation of all the sorted classes, every class gets a column |
| Header.PermutationHits | analysis.py:224-225 | n distinct indices below n include every index below n |
| Header.DistinctElements | analysis.py:224-225 | a list without repeats has as many elements as entries |
| Header.SubsetOfEqualSize | analysis.py:224-225 | a subset of the same size is the whole set |
| Projection.ParseRow | analysis.py:261 | the row's characters read with `int`, one per token after the symbol; fails exactly when some token is not an integer |
| Projection.Projections | analysis.py:259-264 | on success entry i is the projection onto row i; fails exactly when some row fails |
| Projection.Amplitude | analysis.py:266-272 | a nonzero amplitude is the rounded real part, and both parts are within tol |
| Projection.AmplitudeComplete | analysis.py:266-272 | with tol ≤ 1/2, a projection within tol of the integer m (and imaginary part within tol) gets amplitude m |
| Projection.AmplitudeRejectsImaginary | analysis.py:266-268 | an imaginary part above tol gives amplitude 0 |
| Projection.GetRep | analysis.py:240-275 | fails exactly when some row fails; otherwise one amplitude per row, that row's amplitude |
| Projection.Csm | analysis.py:325-330 | −404 when the imaginary part exceeds tol; otherwise within 0.05 of 100·(1 − Re proj), with one decimal |
| Projection.GetCsm | analysis.py:303-333 | fails exactly when some row fails; otherwise one score per row |
| Projection.CsmOfExactProjections | analysis.py:325-330 | a projection of exactly 1 scores 0 and one of exactly 0 scores 100 |
| Projection.CsmSentinelIsAlsoAScore | analysis.py:325-330 | a real projection of 5.04 also scores −404, the value that signals an imaginary part |
| Projection.CsmSentinelWhenInRange | analysis.py:325-330 | for projections with real part below 5, −404 means exactly "imaginary part above tol" |
| Projection.GetIrrepSymbols | analysis.py:230-237 | the first token of every row; None exactly when a row is empty |
| Projection.Embed | analysis.py:240-275 | integer characters as complex values, entry by entry |
| Projection.WeightedDotOfEmbedded | analysis.py:263 | the weighted dot with embedded integers is the real weighted dot |
| Projection.ProjectOfIrrep | analysis.py:263 | an irrep's characters project to 1 on its own row and 0 on an orthogonal one |
| Projection.RowProjectionOfIrrep | analysis.py:259-264 | the same through the table row's text |
| Projection.ProjectionOfIrrep | analysis.py:259-264 | projecting irrep b onto every row of an orthonormal table gives δ(a, b) |
| Projection.IrrepIsRecovered | analysis.py:240-275 | `get_rep` of an irrep's own characters is 1 for that irrep and 0 for every other |
| Projection.IrrepScoresZero | analysis.py:303-333 | `get_csm` of an irrep's own characters is 0 for that irrep and 100 for every other |
| Projection.RowChars | analysis.py:259-263 | a row that reads as characters has one per class |
| Projection.RowsParseEach | analysis.py:259-263 | a table whose rows all read has every row reading |
| Projection.Rep | analysis.py:240-275 | on a well-formed table, `get_rep` succeeds and gives one amplitude per row |
| Rendering.Terms | analysis.py:288-299 | no terms exactly when every amplitude is 0 |
| Rendering.GetTotalIrrepString | analysis.py:278-301 | the source's loop with its running count gives the terms joined by "+ " with a trailing space; empty exactly when every amplitude is 0 |
| Rendering.TermsStep | analysis.py:288-299 | one more amplitude adds one term exactly when it is nonzero |
| Rendering.AppendTerm | analysis.py:290-299 | writing one more term adds "+ " only after the first |
| Rendering.RenderedEmpty | analysis.py:278-301 | the text is empty exactly when there are no terms |
| Rendering.A1Plus2ERendered | analysis.py:278-301 | the terms of amplitudes 1, 0, 0, 2 over A1, A2, B1, E are "A1" and "2E", rendered as "A1 + 2E " |
| Rendering.A1Plus2E | analysis.py:278-301 | amplitudes 1, 0, 0, 2 over A1, A2, B1, E give "A1 + 2E " |
| Rendering.A1Plus2ETerms | analysis.py:278-301 | amplitudes 1, 0, 0, 2 over A1, A2, B1, E give exactly the terms "A1" and "2E" |
| Selection.PairOf | analysis.py:475-491 | an eligible pair gives one record per polarisation, in order; another pair gives none |
| Selection.RowMembers | analysis.py:473-491 | the records for one initial group are exactly its eligible combinations |
| Selection.AllMembers | analysis.py:471-491 | the records are exactly the eligible combinations |
| Selection.PairLoop | analysis.py:476-491 | the polarisation loop builds the pair's records |
| Selection.RowLoop | analysis.py:473-491 | the final-group loop builds the row's records |
| Selection.Select | analysis.py:469-493 | the loop nest builds the records in loop order, and they are exactly the eligible combinations |
| Transitions.Irreps | analysis.py:457-459 | every group's representation is what `get_rep` returns for its characters |
| Transitions.SumSqZero | analysis.py:461-463 | the sum of squares is never negative, and it is 0 exactly when every amplitude is 0 |
| Transitions.NoIrrMembers | analysis.py:457-463 | a band is reported exactly when some group holding it has only zero amplitudes |
| Transitions.Rounded | analysis.py:465-466 | each character is replaced by `round` of its real part (nearest integer, ties to even), a real within 1/2 of the original real part |
| Transitions.IrrepsPrefix | analysis.py:457-459 | the representations of the first i + 1 groups are those of the first i followed by group i's |
| Transitions.NoIrrSnoc | analysis.py:461-463 | one more group adds its bands to the list exactly when all its amplitudes are 0 |
| Transitions.FindIrreps | analysis.py:457-466 | the first loop gives every group's representation and the bands of the groups without one |
| Transitions.Record | analysis.py:476-491 | the record holds the groups' bands and eigenvalues, the polarisation, the dipole characters ch_final·pos·ch_init and the representation texts; it is allowed exactly when the first irrep's amplitude is at least 1 |
| Transitions.MakerCovers | analysis.py:469-491 | the record function and the filter are defined on every index the loops visit |
| Transitions.EligibleInIs | analysis.py:475 | the loop filter is the occupancy test |
| Transitions.MadeIsEmitted | analysis.py:469-491 | what the loop nest makes is exactly the records of eligible pairs |
| Transitions.SelectTransitions | analysis.py:469-493 | the second loop emits exactly the records of eligible pairs, in loop order |
| Transitions.GetAllowedTransitions | analysis.py:430-493 | reports exactly the bands of groups without an irrep, and emits exactly the records of eligible pairs |
| Centers.WithoutMatches | overlap.py:277 | one filtering step keeps exactly the rows differing in every coordinate from c |
| Centers.WithoutMatchesAppend | overlap.py:277 | the filter keeps the rows' order: filtering a concatenation concatenates the filtered parts |
| Centers.WithoutMatchesSnoc | overlap.py:277 | the filter decides the last row by itself: it is kept exactly when it differs everywhere from the center |
| Centers.BadCenters | overlap.py:275-276 | the center of each band of no_irr, at that band's first position |
| Centers.Survivors | overlap.py:274-278 | the reference single pass keeps exactly the rows differing everywhere from every bad center |
| Centers.SurvivorsStep | overlap.py:275-277 | one filtering step followed by the single pass is the single pass with one more center |
| Centers.SurvivesAllCons | overlap.py:277 | surviving a list headed by c is differing from c and surviving the rest |
| Centers.FilterEachIsSurvivors | overlap.py:274-278 | filtering center by center equals the single pass |
| Centers.SurvivorsNone | overlap.py:274 | with no bad center, every row survives |
| Centers.GetGoodCenters | overlap.py:259-278 | a center is kept exactly when it differs in every coordinate from the center of every band of no_irr |
| Centers.SharedCoordinateDropsCandidate | overlap.py:277 | a center sharing a single coordinate with a bad one is dropped too |
| Centers.Overwrite | overlap.py:297-298 | positions of bands in no_irr get the new center; the others keep theirs |
| Centers.ReplaceBadCenters | overlap.py:280-309 | bad positions get the head of the pool, others keep theirs, the pool loses its head; fails exactly when a replacement is needed and the pool is empty |
| Centers.Pass | analysis.py:673-676 | one pass overwrites the centers of the bands left without an irrep with the pool's head, keeps every other center, drops the pool's head, and re-runs the analysis on the new centers |
| Centers.AfterRounds | analysis.py:672-676 | the reference loop: the centers keep their number and the bands reported stay locatable in every round |
| Centers.AfterRoundsPool | analysis.py:672-676 | after k rounds the pool is a suffix of the initial pool that has lost at most one entry per round |
| Centers.RoundPool | analysis.py:672-676 | a round consumes the head of the pool when a band is left and the pool is not empty, and nothing otherwise |
| Centers.AfterRoundsStep | analysis.py:672-676 | a round taken while a band is left and the pool is non-empty is one pass |
| Centers.Rounds | analysis.py:672-676 | the loop stops only with no band left or the pool empty, uses one pool entry per pass, and holds the reference loop's state after its passes |
| Centers.RoundsMeaning | analysis.py:672-676 | after k rounds that used k pool entries the pool lost exactly its first k entries; with no pass nothing changed; otherwise the last round was a pass and the bands come from analysing its centers |
| Centers.LastRoundPassed | analysis.py:672-676 | when k rounds used k pool entries, the last round was taken under the loop guard and is one Pass |
| Centers.RefineCenters | analysis.py:672-676 | the loop's result is the reference loop after as many rounds as it made passes, and its last pass is one Pass from the previous state; at most one pass per pool entry, each consuming the pool's head; ends with no band left or the pool empty |

## Left out

- File and report I/O is not modelled: JSON and `.npy` files, text reports, `print`, and the `Imag_char.txt` warning. The model takes and returns the values.
- backend.py, the symmetry-operator search, and reading WAVECAR and EIGENVAL are not modelled: the operators, coefficients, G-vectors, energies and occupations are inputs.
- `get_orbital_centers`, `get_overlaps_of_bands`, `analyse_symmetry`, `csm_main`, `order_columns_old` and `analyse_subset` are not modelled. The retry loop takes one analysis pass as a function parameter.
- The seeding of the center pool in `main` (the good centers of both spin channels, or the single impurity position) is not modelled. The pool is an input of RefineCenters.
- `sort_into_classes` and `get_class_permutation` come from the `extract` module, which is not part of this model. They are parameters of OrderColumns.
- `np.linalg.inv` is not modelled: an operator is given by its inverse matrix, taken to be integer.
- The phase exp(2πi·G·Δ) is an uninterpreted function parameter. The identity lemma assumes only that it is 1 at zero shift.
- Floating-point error is not modelled: arithmetic is exact on reals. So `np.real_if_close` is the identity, and the self-norm is exactly real.
- Overlap.GetOverlapList: the self-norm is computed over the whole coefficient list, as in the source. The lemma that equates it with the identity overlap needs one coefficient per G-vector.
- Projection.GetRep: numpy broadcasting of a length-1 row or character list against the multiplicities is not modelled. Such a shape mismatch is reported as an error.
- Decimal.ParseInt: Python's `int` also accepts surrounding whitespace, underscores between digits and non-ASCII digits. Only an optional sign followed by ASCII digits is read here.
- Projection.Project: `sum(mult)` is required to be nonzero. The source would divide by zero, which no point group's class sizes do.
- Transitions.Record: a table whose rows all read as integer characters, with one character per class, is required (Valid). The source would raise inside the loops otherwise.
- Transitions.Record: the entry `pos_vec[0][1:]` is taken as real numbers already. Its text parsing is not modelled.
- Overlap.ConjugateCoefficient: at least as many coefficients as G-vectors are required. The source would raise IndexError at `Coeff[i]` (overlap.py:39) otherwise; every caller passes one band's coefficients with its own G-vectors, truncated by the same cutoff.
- Overlap.Overlap: the same length requirement as ConjugateCoefficient, for the same reason.
- Overlap.OverlapUpTo: the same length requirement as ConjugateCoefficient, for the same reason.
- Overlap.ReadPartner: the same length requirement as ConjugateCoefficient, for the same reason.
- Overlap.CalcOverlap: the same length requirement as ConjugateCoefficient, for the same reason.
- Overlap.OtherOverlaps: the same length requirement as ConjugateCoefficient, and a non-empty operator list. The source would raise IndexError at `Sym_ops[0][0]` (overlap.py:70) on an empty list, but the operator list always starts with the identity.
- Overlap.GetOverlapList: the same two requirements as OtherOverlaps, for the same reasons.
- Characters.GroupSum: every band of the group is required to be in `bands`, with a stored overlap row that covers the operator. Otherwise the source raises ValueError at `bands.index` (analysis.py:50) or IndexError at the overlap lookup (analysis.py:51). The groups are formed from `bands` itself, and one overlap row is stored per band.
- Characters.GroupSums: the same requirement as GroupSum for every group (Stored), for the same reason.
- Characters.ClassMean: the class is required to be non-empty, with positions inside the row (WellFormedClass). Otherwise the source raises ZeroDivisionError at `sum/len(l)` (analysis.py:121) or IndexError at `overlap_list[deg_band_i][i]` (analysis.py:120). Conjugacy classes are never empty and hold operator positions.
- Characters.AverageByClass: the same class requirement as ClassMean, plus an in-range first member per class (AveragingFits). The source would otherwise raise IndexError at `l[0]` or `symmetry_list[l[0]]` (analysis.py:111).
- Characters.GetCharacter: requires both Stored and ClassesWithin, for the reasons given under GroupSum and ClassMean.
- Truncation.KeepBelow: every kept position is required to index the list being picked from. The source would raise IndexError otherwise.
- Truncation.TruncateGvec: every kept position of the filtered energies is required to index the G-vector list. The source would raise IndexError at `Gvec[i]` (overlap.py:169) otherwise; the G-vectors and energies come from the same WAVECAR record, one energy per G-vector.
- Truncation.TruncateCoeffs: every kept position is required to index the coefficient list. The source would raise IndexError at `Coeffs[i]` (overlap.py:194) otherwise; there is one coefficient per energy.
- Centers.BadCenters: requires Locatable, for the reason given under GetGoodCenters.
- Centers.Overwrite: requires Locatable. Otherwise the source's `bands.index` raises ValueError, or `centers[...]` raises IndexError (overlap.py:298). `analyse_symmetry` only reports bands taken from `bands`, and there is one center per band.
- Centers.ReplaceBadCenters: requires Locatable, for the reason given under Overwrite.
- Centers.Pass: requires Locatable, for the reason given under Overwrite.
- Centers.AfterRounds: requires Locatable of the start, and that `analyse` only ever reports locatable bands (KeepsLocatable), for the reason given under Overwrite.
- Centers.Rounds: the same two requirements as AfterRounds, for the same reason.
- Centers.RefineCenters: the same two requirements as AfterRounds, for the same reason.
- Centers.GetGoodCenters: every band of no_irr is required to be in `bands`, with a center at its position (Locatable). The source raises otherwise, and `analyse_symmetry` only reports such bands.
- Projection.Csm: the docstring of `get_csm` says 111.1 signals an error, but the code writes −404. The model follows the code.
- Characters.GetCharacter: the overlaps of degenerate bands are summed in exact arithmetic, so the order of summation does not matter here.
