# Verified model of the worker fleet's core library

This project models the parts of the Rust crate (and of its TypeScript twin)
that decide things by themselves, without I/O, and proves what they promise.

- **Statistics** (`Vectors`, `Samples`, `Inversion`, `LeastSquares`,
  `ChangePoint`, `Ordering`, `Correlation`, `CorrelationLaws`,
  `FalseDiscovery`, `Discovery`, `DiscoveryLaws`).
  Gauss-Jordan inversion and the other loops run in place over arrays; each is
  proved against what its result means: a two-sided inverse, the only minimiser
  of the residual sum of squares, the leftmost best split, average ranks, the
  step-up procedure, a scan whose findings are exactly the rejected candidates,
  coefficients as sums over all pairs of observations. Numbers are `real`.
- **Validation** (`Json`, `JsonSchema`, `JsonSchemaKeywords`,
  `JsonSchemaRuns`, `JsonSchemaClosed`, `JsonSchemaWalk`, `Pattern`,
  `PatternParser`, `PatternGrammar`). The recursive walk that pushes violations
  is proved to produce one fixed list, which is empty exactly when the instance
  has the declarative meaning of every keyword; the list is what the keywords
  say one at a time, and each is described by itself in plain terms. The pattern
  matcher is proved against cuts of the text, and the parser against a reader, a
  printer and a grammar: what it accepts, and which error it gives otherwise.
- **Session protocol** (`Bytes`, `SessionFrames`, `Streams`, `SessionStream`,
  `Delivery`, `Heartbeats`). The thirteen-frame codec, incremental decoding,
  credit, the resumption cursor and the heartbeat, first as classes and then as
  machines whose runs are reasoned about as a whole.
- **Length-prefixed framing** (`LengthPrefix`). The Rust and the TypeScript
  decoders refine one machine and have the same trace.
- **Coordination and policy** (`Locks`, `LockRuns`, `Tenancy`, `JobQueue`,
  `BuildLogs`). Composite locking, interleavings of acquisitions, seats and
  roles, the scheduling order, and build-log admission, with invariants of
  every run.

`Results`, `Sets` and `Comparisons` hold what the other modules share.

Clocks, job snapshots, p-values of coefficients, Unicode tables and format
recognisers are parameters. Strings are sequences of Unicode scalar values;
bytes are numbers below 256.

## Where the code and its documentation differ

The model follows the code. Where a documented reading can fail, a lemma says
when it holds.

- `MAX_FRAME_BYTES` is documented as the largest frame that is encoded or
  accepted (src/runtime/session.rs:30-32); `encode_framed` does not enforce it.
  `SessionStream.FramedRoundTrip`: a framed frame is read back if and only if
  its body is within the limit; `SessionStream.OversizeFrameIsEncoded` is one that
  is not.
- Violations are documented as carrying JSON pointers as in RFC 6901
  (src/validation/json_schema.rs:55), but the root is written `/`, which is also
  the pointer of an empty-named member. `Json.ShownPointersCollide`: two places
  are shown alike if and only if they are equal or are this pair.
- The validator is documented as failing closed: every keyword outside the
  subset is a violation (src/validation/json_schema.rs:29-31).
  `JsonSchemaClosed.ReportedExactly`: a walk reports one if and only if, `oneOf`
  branches left out, it comes to a resolved schema that has one. A branch with
  one is dropped instead (`JsonSchemaClosed.UnknownInBranchIsDropped`), so that
  the schema can accept (`JsonSchemaClosed.BranchKeywordIsAccepted`). A keyword
  beside a reference is not looked at
  (`JsonSchemaClosed.ReferenceHidesSiblings`,
  `JsonSchemaClosed.HiddenKeywordIsAccepted`).
- A pattern outside the subset is documented as a violation on every instance
  (src/validation/json_schema.rs:40-41). `JsonSchemaClosed.BadPatternExactly`
  and `JsonSchemaClosed.BadPatternOfNode`: it is one if and only if the instance
  is a string that passes `type`; `JsonSchemaClosed.BadPatternIsAccepted` is a
  schema that accepts null.
- Resumption is documented as never silently skipping
  (src/runtime/session.rs:18-20). `Cursor::jump` consumes the event it jumps to
  without counting it. `Delivery.JumpUnderReports`: the report is one short if
  and only if the jump goes forward. It also accepts a jump back:
  `Delivery.AccountedExactly`: reports account for the cursor throughout a run
  if and only if it never jumps back.
- A position of zero is documented as "from the beginning"
  (src/runtime/session.rs:37), and a replay with no position starts at the
  earliest retained event. `Delivery.FreshReplayIsFollowed` says what any client
  makes of that replay and `Delivery.NewClientNeedsWholeWindow` that a new one
  takes it if and only if the window starts at one. A client that has events in
  the window and leaves out its position can be sent back and take one twice
  (`Delivery.RevisitCanRepeat`, reached as in `Delivery.RevisitIsReachable`).
  `Delivery.ForwardExactly`: the cursor can only go forward throughout a run if
  and only if no such client leaves it out; `Delivery.RefusesNothingExactly`:
  nothing can be refused if and only if only clients just before the window do.
- The two framing encoders are meant to be one format; the TypeScript one writes
  the length modulo 2^32. `LengthPrefix.EncodersAgree`: they differ if and only
  if the payload is past 32 bits and within the limit;
  `LengthPrefix.EncodersDiffer` is such a payload.
- `Role::Owner` is documented as "exactly one is required"
  (src/runtime/tenancy.rs:36). The rules keep at least one
  (`Tenancy.OrganizationStaysSound`) and allow more
  (`Tenancy.SecondOwnerIsPossible`); `Tenancy.OneOwnerExactly`: a history has
  exactly one owner throughout if and only if no step of it makes another.
- A provider's release compares owner names only.
  `LockRuns.SafeExactlyWithoutStale`: exclusion is safe throughout a run if and
  only if no finished lease is released again while the table names its owner.
  Fresh owner names rule that out (`LockRuns.FreshOwnersExclude`); a reused one
  with such a release breaks exclusion (`LockRuns.OwnerReuseBreaksExclusion`).
- Whatever is outside the pattern subset is documented as rejected
  (src/validation/pattern.rs:7-15). `PatternGrammar.RejectsExactly`: the
  documented texts are those the parser accepts without a quantifier where an
  item is expected and without the escapes `\n`, `\r` and `\t`. Such a
  quantifier is a literal: `a+?` is `a+` and then `?`
  (`PatternGrammar.LazyIsLiteral`); it stands at the start or after another
  quantifier (`PatternGrammar.SecondQuantifierDangles`). The escapes stand for
  their control characters (`PatternGrammar.ControlEscapes`).

## Model

| member | source | states |
|---|---|---|
| Inversion.Invert | src/analysis/regression.rs:332-375 | a returned matrix is a two-sided inverse; a refusal means some vector with a unit coordinate is sent below 1e-12 in every coordinate, and a first column below that is refused |
| Inversion.FindPivot | src/analysis/regression.rs:339-345 | the last row at or below the column whose entry is largest in magnitude |
| Inversion.PlacePivot | src/analysis/regression.rs:349-358 | swapping and dividing the pivot row in both matrices keeps `inv * matrix == a`, keeps `inv` injective and puts a one on the diagonal |
| Inversion.ClearColumn | src/analysis/regression.rs:360-372 | clearing a column in both matrices keeps `inv * matrix == a` and leaves that column a unit vector |
| Inversion.SubtractRow | src/analysis/regression.rs:368-371 | the entry-by-entry loop subtracts a multiple of one row from another in both matrices and changes no other row |
| Inversion.DivideRow | src/analysis/regression.rs:352-358 | the entry-by-entry loop divides one row and changes no other |
| Inversion.RefusedPivotIsNearlySingular | src/analysis/regression.rs:339-348 | when every remaining entry of a column is below the threshold, an explicit unit direction is sent below it by the original matrix |
| Inversion.RightInverse | src/analysis/regression.rs:332-375 | an injective left inverse is also a right inverse |
| Inversion.KernelExcludesInverse | src/analysis/regression.rs:331-375 | a matrix with a non-zero kernel vector has no inverse, so it is always refused |
| Inversion.InverseIsUnique | src/analysis/regression.rs:332-375 | a successful answer is determined by the matrix |
| LeastSquares.Ols | src/analysis/regression.rs:223-329 | every error case; otherwise the fit solves the normal equations, is the only minimiser, has independent columns, errors from the inverse's diagonal, R squared in [0,1] as the explained share of the total and the adjusted form as that of the sample variance, both zero for a constant response; or the Gram matrix is nearly singular |
| LeastSquares.CollinearIsNotFitted | src/analysis/regression.rs:217-273 | dependent design columns are always answered with the singular error |
| LeastSquares.NormalSystem | src/analysis/regression.rs:261-271 | the accumulating loops compute the design's Gram matrix and its moments with the response |
| LeastSquares.ResidualOrthogonal | src/analysis/regression.rs:273-276 | residuals of a solution are orthogonal to every design column |
| LeastSquares.ResidualDecomposition | src/analysis/regression.rs:278-287 | any coefficients cost the optimum plus the squared distance between the two predictions |
| LeastSquares.FitIsOptimal | src/analysis/regression.rs:273-287 | no other coefficients have a smaller residual sum of squares |
| LeastSquares.OnlyMinimiser | src/analysis/regression.rs:273-287 | with an invertible Gram matrix every other coefficient vector costs strictly more |
| LeastSquares.SolvesNormalEquations | src/analysis/regression.rs:273-276 | the inverse applied to the moments solves the normal equations |
| LeastSquares.InverseDiagonalNonNegative | src/analysis/regression.rs:294-296 | the clamp of squared standard errors to zero never fires |
| LeastSquares.InterceptModel | src/analysis/regression.rs:288-289 | predicting the mean is one of the candidate models and costs the total sum of squares |
| LeastSquares.RSquaredInUnitInterval | src/analysis/regression.rs:307-311 | R squared of a solution is in [0,1] whenever the response varies |
| LeastSquares.AdjustmentLowers | src/analysis/regression.rs:312-316 | the adjusted value never exceeds R squared |
| ChangePoint.FindSplit | src/analysis/regression.rs:494-514 | the single pass returns the leftmost admissible split of least two-segment squared error |
| ChangePoint.CusumChangePoint | src/analysis/regression.rs:480-543 | too-short series are refused; otherwise the verdict is about the best split |
| ChangePoint.ScoreIsErrorRemoved | src/analysis/regression.rs:508-511 | the squared statistic is exactly the squared error the split removes |
| ChangePoint.BestSplitIsUnique | src/analysis/regression.rs:494-514 | the split is determined by the series |
| ChangePoint.CleanStepIsFound | src/analysis/regression.rs:516-533 | a series that is one level and then another is split exactly at the step, with difference and p-value zero, at any alpha |
| ChangePoint.LevelSeriesIsQuiet | src/analysis/regression.rs:519-532 | a constant series reports no change |
| ChangePoint.VerdictExactly | src/analysis/regression.rs:516-543 | a change is reported if and only if both segments are level and differ, or one varies and the test is significant; it names the split, the two means and their difference |
| ChangePoint.BestSplitMeans | src/analysis/regression.rs:494-514 | a best split leaves a segment on either side, and any other that does has more error or comes later with as much |
| ChangePoint.SegmentOfAtLeastTwo | src/analysis/regression.rs:485-489 | the segment is the one asked for, but at least two |
| Ordering.SortIndices | src/analysis/regression.rs:168-173 | a permutation of the indices by non-decreasing value |
| Ordering.RunPositions | src/analysis/regression.rs:177-180 | a maximal run of ties stands at the positions that counting smaller and equal values predicts, wherever the sort left the ties |
| Ordering.CountsIgnoreOrder | src/analysis/regression.rs:168-189 | those counts depend on the multiset of values only |
| Correlation.ComputePearson | src/analysis/regression.rs:101-148 | the accumulating loop and every error case, as the three sums |
| Correlation.CauchySchwarz | src/analysis/regression.rs:133-135 | the inequality behind the clamp, for vectors of any length |
| Correlation.CoefficientInRange | src/analysis/regression.rs:133-135 | a returned coefficient is within [-1,1] before the clamp, so the clamp only absorbs rounding |
| Correlation.QuotientInRange | src/analysis/regression.rs:133-135 | the quotient by the square root of the two sums is in [-1,1] and its divisor is not zero |
| CorrelationLaws.SumsAreOverPairs | src/analysis/regression.rs:117-126 | each sum, times the number of observations, is the sum over all pairs of the products of their differences |
| CorrelationLaws.RefusedExactly | src/analysis/regression.rs:127-132 | a column is refused if and only if all its values are equal, the first column first |
| CorrelationLaws.SizesAreChecked | src/analysis/regression.rs:101-113 | series of different sizes, or of fewer than three values, are refused before that |
| CorrelationLaws.OnAnotherScale | src/analysis/regression.rs:117-132 | a + b y instead of y: the joint sum is multiplied by the scale, the own sum by its square, and the level does not matter |
| CorrelationLaws.PearsonCommutes | src/analysis/regression.rs:117-132 | which series comes first does not matter |
| CorrelationLaws.ExactLine | src/analysis/regression.rs:101-148 | an exact line has a coefficient of magnitude one, with the sign of its slope |
| Correlation.ComputeRanks | src/analysis/regression.rs:167-189 | every element gets the number of smaller values plus half of one more than the number of equal ones |
| Correlation.RanksSum | src/analysis/regression.rs:167-189 | ranks of n values sum to n(n+1)/2 |
| Correlation.ComputeSpearman | src/analysis/regression.rs:154-164 | Pearson on ranks, after the length check |
| Correlation.RanksFollowOrder | src/analysis/regression.rs:167-189 | ranks see only the order of the observations |
| Correlation.SpearmanIgnoresMonotoneTransforms | src/analysis/regression.rs:150-164 | unchanged when either input is mapped through any strictly increasing function |
| Correlation.SpearmanOfMonotoneCurve | src/analysis/regression.rs:150-164 | a strictly increasing relationship has coefficient one |
| CorrelationLaws.FallingCurve | src/analysis/regression.rs:150-164 | a strictly decreasing relationship has rank coefficient minus one |
| CorrelationLaws.RisingCurve | src/analysis/regression.rs:150-164 | a strictly increasing one of a series that is not level is not refused |
| FalseDiscovery.BenjaminiHochberg | src/analysis/regression.rs:556-578 | each output is the least of one and the candidates at or above its p-value, stated without the sort |
| FalseDiscovery.WalkStep | src/analysis/regression.rs:570-576 | one step of the downward walk extends the running minimum, with ties in any order |
| FalseDiscovery.StepUp | src/analysis/regression.rs:549-578 | below one, adjusted <= alpha if and only if some rank at or above has p <= alpha k/m |
| FalseDiscovery.AdjustedIsUnique | src/analysis/regression.rs:556-578 | the meaning determines the adjusted value |
| FalseDiscovery.AdjustedIsMonotone | src/analysis/regression.rs:549-550 | adjusted values are monotone in p, so equal p-values share theirs |
| FalseDiscovery.AdjustedNotSmaller | src/analysis/regression.rs:556-578 | adjustment never makes a p-value smaller |
| FalseDiscovery.AdjustedIgnoresOrder | src/analysis/regression.rs:549-578 | permuting the input permutes the output |
| Discovery.Discover | src/analysis/regression.rs:612-667 | tests every feature, keeps every refusal, adjusts all p-values together and lists the significant ones strongest first |
| Discovery.SortFindings | src/analysis/regression.rs:652-659 | a sorted permutation: larger magnitude first, then by name |
| Discovery.NothingIsDropped | src/analysis/regression.rs:605-636 | every feature is tested or reported as skipped, once |
| Discovery.FoundMeans | src/analysis/regression.rs:638-651 | a finding is a tested candidate whose adjusted value among all of them is at most the rate, and every such one is found |
| Discovery.FindingsAreStepUp | src/analysis/regression.rs:603-651 | below one, a candidate is found if and only if the step-up procedure over all candidates rejects it |
| Discovery.ListingIsUnique | src/analysis/regression.rs:652-659 | with distinct names the listing is determined by its contents |
| Discovery.MonotoneScanIgnoresTransforms | src/analysis/regression.rs:610-636 | with the rank coefficient, strictly increasing transforms of any feature and of the response change neither what is tested nor what is skipped |
| Discovery.ScanIgnoresOrder | src/analysis/regression.rs:612-667 | listing the features in another order gives the same findings, each as often |
| Discovery.ScanListsTheSame | src/analysis/regression.rs:612-667 | and in the same order when the features have distinct names |
| Discovery.StrongestFirstMeans | src/analysis/regression.rs:652-659 | of two findings the earlier has the larger squared coefficient, or the same and no later name |
| Discovery.StrengthIsSquare | src/analysis/regression.rs:652-659 | that strength is the square of the coefficient |
| DiscoveryLaws.TestedAreMeasured | src/analysis/regression.rs:620-636 | the candidates are exactly the features that can be measured: by sums over pairs of values, or of ranks in a monotone scan |
| DiscoveryLaws.SkippedAreUnmeasurable | src/analysis/regression.rs:605-636 | and both kinds of scan skip the others, each with the reason: sizes, too few values, or a level column |
| Pattern.MatchFrom | src/validation/pattern.rs:184-208 | true exactly when cuts exist that give each atom a slice it accepts, ending at the end if anchored; calls stay within 1 + b + ... + b^atoms for b remaining positions |
| Pattern.IsMatch | src/validation/pattern.rs:176-182 | the same over every start, or only the first if anchored |
| Pattern.MatchOneAtom | src/validation/pattern.rs:184-208 | a match is a slice for the first atom and a match of the others from its end |
| Pattern.EndsAreFits | src/validation/pattern.rs:189-204 | the ends greedy counting collects are exactly the ends the atom can have |
| Pattern.RunMatches | src/validation/pattern.rs:30-98 | one atom, anchored at both ends, matches exactly the texts of an allowed length whose characters its item admits, whatever the item |
| Pattern.RepeatMatches | src/validation/pattern.rs:143-162 | and with an unbounded quantifier exactly those whose characters it admits, however long |
| Pattern.WordMatches | src/validation/pattern.rs:176-208 | a word of literals is found anywhere, and each anchor ties it to its end of the text |
| PatternParser.ScanPattern | src/validation/pattern.rs:100-171 | the index loop parses what the recursive reading of the source says, with the same error; never out of bounds |
| PatternParser.ScanItem | src/validation/pattern.rs:116-147 | one item and the index after it, for all branches |
| PatternParser.ScanClass | src/validation/pattern.rs:211-250 | the class loop against its recursive reading, including a bracket in first place, ranges and both unterminated forms |
| PatternParser.ParsedIsWellFormed | src/validation/pattern.rs:100-250 | only non-empty classes, ordered ranges and the four quantifier pairs come out |
| PatternParser.ParsePrint | src/validation/pattern.rs:100-250 | printing canonically and parsing gives the pattern back |
| PatternParser.ReadClass | src/validation/pattern.rs:211-250 | a printed class is read back whatever follows it |
| PatternParser.ReadAtoms | src/validation/pattern.rs:109-165 | printed atoms are read back with their quantifiers and anchor |
| PatternGrammar.ParsesExactly | src/validation/pattern.rs:73-250 | the parser accepts exactly the texts of a grammar of items, classes, quantifiers and anchors, each as the one pattern it spells |
| PatternGrammar.FailsExactly | src/validation/pattern.rs:73-250 | and reports an error exactly when some atoms are spelled and what follows is that mistake: a reserved character, a misplaced anchor, a bad escape or a class that cannot go on |
| PatternGrammar.AlternationIsRefused | src/validation/pattern.rs:116-119 | an alternation is an error |
| PatternGrammar.RejectsExactly | src/validation/pattern.rs:5-15 | the documented subset, as a grammar of its own, is what the parser accepts without a quantifier where an item is expected and without an escape for a control character |
| PatternGrammar.SecondQuantifierDangles | src/validation/pattern.rs:148-162 | after an item a quantifier stands there exactly when the item's quantifier is followed by another |
| PatternGrammar.LazyIsLiteral | src/validation/pattern.rs:109-165 | `a+?` is one or more `a` and then a literal question mark |
| PatternGrammar.ControlEscapes | src/validation/pattern.rs:73-90 | the three escapes that are not documented stand for their control characters |
| Json.UnescapeEscape | src/validation/json_schema.rs:506-508 | escaping a reference token is undone as section 4 of RFC 6901 prescribes |
| Json.RenderInjective | src/validation/json_schema.rs:466-508 | distinct paths have distinct pointers |
| Json.ShownPointersCollide | src/validation/json_schema.rs:63-75 | two places are shown alike if and only if equal, or the root and its empty-named member |
| Json.EscapeExamples | src/validation/json_schema.rs:506-508 | the two escapes of section 3 of RFC 6901, in the right order |
| Json.DecimalDenotes | src/validation/json_schema.rs:453-464 | indices are written in decimal, without leading zeros |
| JsonSchema.WalkIsValid | src/validation/json_schema.rs:208-335 | the violation list is empty if and only if the instance has the meaning of the schema within the remaining depth |
| JsonSchema.NoMapViolations | src/validation/json_schema.rs:249-335 | the same for one resolved schema: known keywords, type, value, kind, children and `oneOf` together |
| JsonSchema.NoStringViolations | src/validation/json_schema.rs:337-403 | string keywords report nothing if and only if length, pattern and format hold |
| JsonSchema.NoLocalViolations | src/validation/json_schema.rs:289-310 | keywords that do not descend report nothing if and only if all of them hold |
| JsonSchema.BranchCount | src/validation/json_schema.rs:312-322 | the number of branches whose scratch list is empty is the number of valid branches |
| JsonSchema.ExactlyOneIsCount | src/validation/json_schema.rs:312-334 | that number is one if and only if exactly one branch is valid |
| JsonSchemaKeywords.SchemaSaysWhatItsKeywordsSay | src/validation/json_schema.rs:208-335 | a schema without a reference reports one violation for each unknown keyword, then what type says; if that is nothing, the lists of its other keywords as if each stood alone, in this order |
| JsonSchemaKeywords.TypeSays | src/validation/json_schema.rs:156-175 | each of the seven type names admits exactly the instances it names, whole floating-point numbers counting as integers; a list admits what one of its names does |
| JsonSchemaKeywords.TypeMeans | src/validation/json_schema.rs:156-175 | so an instance is valid against a type name if and only if the name names it |
| JsonSchemaKeywords.ConstSays | src/validation/json_schema.rs:289-293 | exactly the given value |
| JsonSchemaKeywords.EnumSays | src/validation/json_schema.rs:294-302 | exactly the listed values |
| JsonSchemaKeywords.LengthsSay | src/validation/json_schema.rs:337-362 | strings of at least or at most so many characters |
| JsonSchemaKeywords.SizesSay | src/validation/json_schema.rs:426-452 | arrays of at least or at most so many items |
| JsonSchemaKeywords.BoundsSay | src/validation/json_schema.rs:405-424 | numbers not below or not above, in whatever form they are written |
| JsonSchemaKeywords.PatternSays | src/validation/json_schema.rs:363-379 | strings the compiled pattern matches; a pattern that does not compile is a violation of its own |
| JsonSchemaKeywords.FormatSays | src/validation/json_schema.rs:380-403 | strings the named recogniser accepts; an unknown format is a violation of its own |
| JsonSchemaKeywords.RequiredSays | src/validation/json_schema.rs:466-488 | one violation for each listed name that is missing, at the pointer it would have |
| JsonSchemaKeywords.ItemsSay | src/validation/json_schema.rs:453-464 | all items are held to the one schema |
| JsonSchemaKeywords.MembersSay | src/validation/json_schema.rs:489-504 | members are held to the schema listed for their name, the others to the additional one if there is one |
| JsonSchemaKeywords.NothingAdditional | src/validation/json_schema.rs:489-504 | with no additional members an object has only listed names |
| JsonSchemaKeywords.OneOfSays | src/validation/json_schema.rs:312-334 | exactly one branch is valid |
| JsonSchemaKeywords.ReferenceSays | src/validation/json_schema.rs:177-205 | a reference stands for its definition without a reference of its own; a missing definition, one that is not an object or a reference elsewhere accepts nothing |
| JsonSchemaKeywords.KeywordsAre | src/validation/json_schema.rs:83-113 | which keywords are known, one by one |
| JsonSchemaKeywords.PlainSchemas | src/validation/json_schema.rs:154-237 | schemas that are not objects, and the nesting limit of 64 |
| JsonSchemaRuns.LimitIrrelevant | src/validation/json_schema.rs:216-219 | when no part of the walk passes the limit, branches included, every larger limit gives the same list |
| JsonSchemaRuns.ValidityStable | src/validation/json_schema.rs:154-219 | then validity does not depend on the limit either |
| JsonSchemaRuns.LimitCanMatter | src/validation/json_schema.rs:216-219 | a schema whose verdict the limit changes |
| JsonSchemaClosed.ReportedExactly | src/validation/json_schema.rs:208-335 | a walk reports a keyword outside the subset if and only if, branches of oneOf left out, it comes to a resolved schema that has one, through items and members and only where the type fits |
| JsonSchemaClosed.InvalidBranchIsDropped | src/validation/json_schema.rs:312-334 | a branch that is not valid for the instance can be taken out of oneOf without changing what it says |
| JsonSchemaClosed.UnknownInBranchIsDropped | src/validation/json_schema.rs:312-334 | so a branch whose walk comes to a keyword outside the subset is dropped and not reported |
| JsonSchemaClosed.BranchKeywordIsAccepted | src/validation/json_schema.rs:312-334 | a schema without any reference that accepts although a branch has an unknown keyword |
| JsonSchemaClosed.FailsClosedExactly | src/validation/json_schema.rs:177-260 | a schema whose own keywords include an unknown one fails every instance in every document if and only if it has no reference into the definitions |
| JsonSchemaClosed.ReferenceHidesSiblings | src/validation/json_schema.rs:237-260 | schemas with the same reference have the same violations, whatever else they say |
| JsonSchemaClosed.HiddenKeywordIsAccepted | src/validation/json_schema.rs:177-260 | a schema with an unknown keyword beside a reference that accepts |
| JsonSchemaClosed.BadPatternExactly | src/validation/json_schema.rs:337-379 | among the keywords that do not descend, a pattern outside the subset is reported if and only if the instance is a string |
| JsonSchemaClosed.BadPatternOfNode | src/validation/json_schema.rs:262-335 | for an instance with nothing inside, the node reports it if and only if the instance is a string that passes the type keyword |
| JsonSchemaClosed.BadPatternIsAccepted | src/validation/json_schema.rs:337-379 | a schema with a pattern outside the subset that accepts null |
| JsonSchemaRuns.WalkPointsInto | src/validation/json_schema.rs:208-335 | every violation's pointer leads to a place in the instance, or names a member that is required and missing |
| JsonSchemaWalk.Validate | src/validation/json_schema.rs:121-129 | the pushing walk produces that list, empty if and only if valid |
| JsonSchemaWalk.ValidateDefinition | src/validation/json_schema.rs:137-152 | the same for one definition, and one violation when it is missing |
| JsonSchemaWalk.Node | src/validation/json_schema.rs:208-260 | appends the list of one node to what was already found |
| JsonSchemaWalk.NodeMap | src/validation/json_schema.rs:262-335 | a type problem ends the node; otherwise value, kind and `oneOf` violations in that order |
| JsonSchemaWalk.ResolveSchema | src/validation/json_schema.rs:177-205 | follows one reference, pushing its failure |
| JsonSchemaWalk.CheckKeywords | src/validation/json_schema.rs:249-260 | pushes one violation for each keyword outside the subset, the annotations and the vendor prefix |
| JsonSchemaWalk.StringRules | src/validation/json_schema.rs:337-403 | appends the string violations in order |
| JsonSchemaWalk.CheckPattern | src/validation/json_schema.rs:362-379 | a pattern that does not compile is a violation of its own |
| JsonSchemaWalk.CheckFormat | src/validation/json_schema.rs:380-402 | an unknown format is a violation of its own |
| JsonSchemaWalk.NumberRules | src/validation/json_schema.rs:405-424 | appends the bound violations |
| JsonSchemaWalk.ArrayRules | src/validation/json_schema.rs:426-464 | appends size violations, then those of each item at its index |
| JsonSchemaWalk.ObjectRules | src/validation/json_schema.rs:466-504 | appends missing members, then those of each member under its own, the additional or no schema |
| JsonSchemaWalk.OneOfRule | src/validation/json_schema.rs:312-334 | counts the branches that leave an empty scratch list and discards the lists |
| Bytes.FromToBytes | src/runtime/session.rs:205-213 | a number that fits its width is read back |
| Bytes.ToFromBytes | src/runtime/session.rs:245-262 | bytes read as a number are what that number is written as |
| Bytes.BigEndian | src/runtime/session.rs:205-213 | the first byte counts most |
| Bytes.DecodeEncodeUtf8 | src/runtime/session.rs:218-220 | every string survives UTF-8 (section 4 of RFC 3629) |
| Bytes.EncodeDecodeUtf8 | src/runtime/session.rs:267-270 | bytes accepted as UTF-8 are the encoding of what they decode to, so over-long forms and surrogates are refused |
| Bytes.Utf8Examples | src/runtime/session.rs:218-220 | one character of each width, among them those of section 7 of RFC 3629 |
| Bytes.AsciiIsItself | src/runtime/session.rs:218-220 | ASCII text is written as it stands |
| SessionFrames.DecodeEncode | src/runtime/session.rs:304-464 | a frame survives its encoding if and only if its variable-length fields fit a 32-bit length |
| SessionFrames.EncodeDecode | src/runtime/session.rs:393-464 | whatever decodes is, byte for byte, the encoding of its frame, for all tags, options, flags and codes |
| SessionFrames.EncodeInjective | src/runtime/session.rs:304-375 | frames that fit never share an encoding |
| SessionFrames.ReadCode | src/runtime/session.rs:153-180 | an error-code tag is read back to the code it was written for |
| SessionFrames.CodeWasWritten | src/runtime/session.rs:153-180 | and whatever is read as a code is the tag written for it |
| SessionFrames.SessionExamples | src/runtime/session.rs:282-330 | frames of the first four kinds, byte for byte |
| SessionFrames.SubscriptionExamples | src/runtime/session.rs:282-345 | the next three |
| SessionFrames.EventExamples | src/runtime/session.rs:282-355 | events and lags |
| SessionFrames.CommandExamples | src/runtime/session.rs:282-365 | commands and acknowledgements |
| SessionFrames.FailureExamples | src/runtime/session.rs:282-375 | errors |
| SessionFrames.ClosingExample | src/runtime/session.rs:282-375 | and closings |
| SessionFrames.CodeExamples | src/runtime/session.rs:153-165 | the nine error codes |
| SessionStream.EncodeFrame | src/runtime/session.rs:302-375 | the appending code writes the tag and then the fields in order |
| SessionStream.DecodeFrame | src/runtime/session.rs:387-464 | the cursor-based decoder agrees with the reading of the bytes, trailing bytes refused |
| SessionStream.Reader.Take | src/runtime/session.rs:240-245 | takes the bytes ahead or fails without reading past the end |
| SessionStream.Reader.OptionalText | src/runtime/session.rs:271-277 | only zero and one are accepted as option flags |
| SessionStream.Reader.Fields | src/runtime/session.rs:394-459 | every tag's fields in order, failing as the reading fails |
| SessionStream.FramedRoundTrip | src/runtime/session.rs:377-484 | a framed frame is read back, whatever follows, if and only if its body is within the limit, and otherwise is refused as too large |
| SessionStream.OversizeFrameIsEncoded | src/runtime/session.rs:377-484 | a frame that is encoded and then refused |
| SessionStream.NextStepIsIncremental | src/runtime/session.rs:466-484 | more bytes never change a frame or an error already decided |
| SessionStream.StepExactly | src/runtime/session.rs:466-484 | for every buffer: too large exactly when the header says more than 1 MiB, even without a body; else waiting exactly while the body is short; else the frame that is encoded as the body, or the fatal error exactly if there is none |
| SessionStream.UnknownTagIsFatal | src/runtime/session.rs:461-484 | a body of one byte that is no tag is an error, not a reason to wait |
| SessionStream.FrameDecoder.NextFrame | src/runtime/session.rs:503-516 | yields the next frame and drops its bytes; errors and waiting leave the buffer |
| SessionStream.FrameDecoder.Feed | src/runtime/session.rs:499-501 | appends |
| SessionStream.Pump | src/runtime/session.rs:486-516 | feeding any chunks and pulling after each leaves exactly what draining the whole stream leaves |
| SessionStream.WireDrains | src/runtime/session.rs:466-516 | frames within the limit come out whole and in order and the unfinished tail is retained |
| SessionStream.ChunkedWire | src/runtime/session.rs:486-516 | for every way of cutting the wire |
| SessionStream.ProperPrefixWaits | src/runtime/session.rs:471-484 | every proper prefix of a frame within the limit waits for more |
| Streams.ChunkingIsInvisible | src/runtime/session.rs:486-516 | for any incremental decoding, chunking never shows |
| Streams.DrainMore | src/runtime/session.rs:486-516 | draining and then receiving is draining both at once |
| Streams.FailureIsFinal | src/runtime/session.rs:503-516 | after a fatal error the decoder repeats it whatever arrives |
| LengthPrefix.Decoder.NextFrame | src/protocol/tcp.rs:109-139 | refines one step of the machine: frame, wait, silence once poisoned, or the two poisoning errors |
| LengthPrefix.Decoder.FeedChunk | src/protocol/tcp.rs:102-107 | appends unless poisoned |
| LengthPrefix.Decoder.NextText | src/protocol/tcp.rs:141-157 | adds poisoning on bytes that are not UTF-8 |
| LengthPrefix.ScriptDecoder.Next | typescript/src/frames.mjs:58-78 | the TypeScript decoder refines the same machine step |
| LengthPrefix.ScriptDecoder.FeedChunk | typescript/src/frames.mjs:50-56 | and the same appending, by copying into a new array |
| LengthPrefix.Lockstep | typescript/src/frames.mjs:33-79 | over every sequence of feeds and pulls the two decoders have the same trace and the same state, those of the machine |
| LengthPrefix.FailureIsReportedOnce | src/protocol/tcp.rs:102-139 | in every run of feeds and pulls the machine is poisoned if and only if a pull failed, and every later pull yields nothing |
| LengthPrefix.PoisonedStaysSilent | src/protocol/tcp.rs:102-139 | a poisoned machine is left as it is by every run, and every pull yields nothing |
| LengthPrefix.StepIsIncremental | src/protocol/tcp.rs:115-139 | more bytes never change a payload or error already decided |
| LengthPrefix.StepExactly | src/protocol/tcp.rs:115-139 | for every buffer: an empty or too large header fails as soon as it is there; else it waits exactly while the payload is short; else it yields what the encoder writes as these bytes |
| LengthPrefix.PullAllDrains | src/protocol/tcp.rs:115-139 | pulling until nothing comes is draining the buffer |
| LengthPrefix.AbsorbedIsDrained | src/protocol/tcp.rs:102-139 | for every chunking, the payloads and first failure of the whole stream |
| LengthPrefix.EncodeWithLimit | src/protocol/tcp.rs:40-58 | the three refusals, else header and payload |
| LengthPrefix.EncodedExactly | src/protocol/tcp.rs:40-58 | which payloads are refused and how, and that all others are written behind a header of their length |
| LengthPrefix.EncodeScriptFrame | typescript/src/frames.mjs:21-30 | the TypeScript encoder's array, with the length modulo 2^32 |
| LengthPrefix.EncodedReadsBack | src/protocol/tcp.rs:40-139 | what the encoder accepts, the decoder with the same limit reads back, whatever follows |
| LengthPrefix.EncodersAgree | typescript/src/frames.mjs:20-30 | the encoders differ if and only if the payload is past 32 bits and within the limit |
| LengthPrefix.EncodersDiffer | typescript/src/frames.mjs:20-30 | a payload one encoder refuses and the other frames with a length of zero |
| LengthPrefix.WireDrains | src/protocol/tcp.rs:40-139 | any accepted payloads on one wire come out whole and in order, and an unfinished tail is retained |
| LengthPrefix.ChunkedWire | src/protocol/tcp.rs:102-139 | for every way of cutting that wire, the machine delivers exactly the payloads and stays open on the tail |
| Delivery.FlowControl.constructor | src/runtime/session.rs:541-550 | initial credit is clamped to the cap |
| Delivery.FlowControl.Consume | src/runtime/session.rs:563-569 | permission exactly while credit is left, taking one |
| Delivery.FlowControl.Grant | src/runtime/session.rs:573-577 | credit never exceeds the cap; the result is what was really added, short only at the cap |
| Delivery.Cursor.Accept | src/runtime/session.rs:678-686 | takes exactly the next sequence and refuses anything else with the expected one; past 64 bits it stops or wraps as the build checks overflow |
| Delivery.Cursor.Jump | src/runtime/session.rs:690-694 | moves to the named event and reports the sequences strictly between, with the same overflow |
| Delivery.JumpUnderReports | src/runtime/session.rs:688-694 | a jump covers one more event than it reports if and only if it goes forward |
| Delivery.Sequencer.Issue | src/protocol/ws.rs:97-102 | hands out the next sequence, saturating |
| Delivery.Sequencer.Accept | src/protocol/ws.rs:104-118 | takes exactly the expected sequence |
| Delivery.Sequencer.ResumingAfter | src/protocol/ws.rs:83-89 | continues after the last seen sequence, saturating |
| Delivery.SendKeeps | src/runtime/session.rs:558-569 | sending under credit keeps the channel leading from where the server takes the client to be to its own position |
| Delivery.ReceiveKeeps | src/runtime/session.rs:674-694 | receiving keeps the channel, the credit and the payloads, whatever the cursor answers |
| Delivery.ReconnectKeeps | src/protocol/ws.rs:133-159 | reconnecting with a position as the resume rule says keeps them, wherever the server skips to |
| Delivery.SendMirrored | src/runtime/session.rs:556-569 | with an event due, consuming a credit is allowed exactly when the machine sends it |
| Delivery.GrantMirrored | src/runtime/session.rs:571-577 | granting takes the machine's step and returns what the allowance grew by |
| Delivery.ReceiveMirrored | src/runtime/session.rs:674-694 | accepting, refusing or jumping takes the machine's step and reports its gap |
| Delivery.StepKeepsExactly | src/runtime/session.rs:530-694 | a step keeps order and accounting if and only if it is not a jump to where the client already is, or back |
| Delivery.RunKeeps | src/runtime/session.rs:530-694 | the invariant of every run of append, evict, send, grant, receive, drop, reconnect and fresh subscription without such a jump |
| Delivery.NothingIsForged | src/runtime/session.rs:530-694 | in every run whatsoever: only the server's payloads, credit within the cap, sends within initial credit and grants |
| Delivery.DeliveryIsAccountedFor | src/runtime/session.rs:530-694 | in every run without a jump back: strictly increasing accepted sequences with the server's payloads and delivered = accepted + gaps + jumps |
| Delivery.AccountedExactly | src/runtime/session.rs:688-694 | the reported gaps account for the cursor throughout a run if and only if it never jumps back |
| Delivery.FreshClientsNeverJumpBack | src/protocol/ws.rs:138-159 | it never does while a position is left out only by clients that have not reached the window |
| Delivery.NothingIsRefused | src/protocol/ws.rs:138-159 | the cursor refuses nothing while a position is left out only by clients just before the window |
| Delivery.ForwardExactly | src/protocol/ws.rs:138-159 | throughout a run the cursor can only go forward if and only if no client in the window or past it leaves out its position |
| Delivery.RevisitJumpsBack | src/protocol/ws.rs:140-145 | after any such subscription, losing one more event makes the server send the client back |
| Delivery.RefusesNothingExactly | src/protocol/ws.rs:138-159 | where credit can be had and one more event fits, nothing can be refused throughout a run if and only if every position left out is just before the window |
| Delivery.MissIsRefused | src/protocol/ws.rs:140-145 | after any other subscription without a position the first event sent is refused |
| Delivery.FreshReplayIsFollowed | src/protocol/ws.rs:140-145 | after a subscription without a position a client refuses exactly the events it has, or every one if it lacks some before the window, and takes the rest |
| Delivery.NewClientNeedsWholeWindow | src/protocol/ws.rs:140-145 | so a new client takes the replay if and only if the window starts at one, and otherwise refuses all of it |
| Delivery.RevisitCanRepeat | src/protocol/ws.rs:140-145 | any client past the first retained event that leaves out its position can be sent back and take an event again |
| Delivery.RevisitIsReachable | src/protocol/ws.rs:138-159 | a run from the start to such a client, under any cap that lets something be sent |
| Delivery.ResumptionIsExact | src/runtime/session.rs:18-20 | while nothing is evicted, every run, fresh subscriptions included, leaves the client with exactly a prefix of the log |
| Heartbeats.Heartbeat.Poll | src/runtime/session.rs:638-655 | refines one step of the timing machine, saturating misses and wrapping nonces |
| Heartbeats.Heartbeat.SawPong | src/runtime/session.rs:627-636 | refreshes only for the outstanding nonce |
| Heartbeats.Heartbeat.SawTraffic | src/runtime/session.rs:620-625 | resets the machine |
| Heartbeats.Heartbeat.constructor | src/runtime/session.rs:609-618 | starts with nothing outstanding |
| Heartbeats.PacedNext | src/runtime/session.rs:621-655 | every happening keeps each counted miss a full interval apart |
| Heartbeats.DeadIsNotEarly | src/runtime/session.rs:593-655 | no run reports death before max(1, max_missed) + 1 intervals of real silence |
| Heartbeats.DeadStays | src/runtime/session.rs:639-655 | once dead, every later poll says so |
| Heartbeats.SilenceIsReported | src/runtime/session.rs:593-655 | after real traffic, polled at most d apart, a silent peer is called dead once max(1, max_missed) + 1 times interval plus d have passed, whatever stale pongs are replayed meanwhile |
| Heartbeats.SilenceFromTheStartIsReported | src/runtime/session.rs:593-655 | the same for a peer never heard from |
| Heartbeats.SilenceIsPolling | src/runtime/session.rs:627-636 | in silence refused pongs change neither the machine nor its verdict |
| Heartbeats.NonceCountsOnce | src/runtime/session.rs:627-655 | before the counter wraps no nonce refreshes liveness twice |
| Heartbeats.AnsweringIsEnough | src/runtime/session.rs:593-655 | a peer that answers each ping before the next poll is never called dead, and is pinged exactly at polls an interval after it was last heard from |
| Heartbeats.AnswerRenews | src/runtime/session.rs:627-636 | an answer to the outstanding ping makes the machine as good as new; any other changes nothing |
| Locks.Composite.constructor | src/locks.rs:210-220 | a disabled provider is dropped even if supplied |
| Locks.Composite.WithLock | src/locks.rs:222-259 | whatever others and the work do to the tables between the calls, no entry of the acquisition is left behind on any exit, releases come in reverse and the work sees one lease for each provider; when nobody else acts all tables end as before and each outcome happens exactly when it should |
| Locks.Others | src/locks.rs:270-275 | what others do between two calls: any change of the shared tables short of acquiring under the same owner name |
| Locks.OthersAreFree | src/locks.rs:270-275 | every other table can be left there |
| Locks.WithProviders | src/locks.rs:228-259 | the same for any list of providers, also one listed twice |
| Locks.AcquireAll | src/locks.rs:236-248 | all providers are taken in order, or those taken are given back; no failure leaves an entry |
| Locks.WorkHeld | src/locks.rs:249-258 | the fencing check, the work and the release with everything taken; no provider is left with an entry |
| Locks.ReleaseAll | src/locks.rs:262-266 | in whatever state the tables are, popping the stack in reverse leaves no entry of the owner and changes nothing else; failures are ignored |
| Locks.GiveBack | src/locks.rs:262-266 | so when nobody else acted every table is as before the acquisition |
| Locks.Provider.Acquire | src/locks.rs:295-312 | takes a free key, with the next fence if the provider fences; a held key changes nothing |
| Locks.Provider.Renew | src/locks.rs:314-326 | succeeds exactly while the table names the owner |
| Locks.Provider.Release | src/locks.rs:328-342 | removes the key exactly while the table names the owner |
| LockRuns.MutualExclusion | src/locks.rs:295-388 | in every interleaving without a stale release a key has at most one unreleased acquisition and its fences increase in insertion order |
| LockRuns.StepKeepsExactly | src/locks.rs:295-388 | a step keeps this if and only if it is not the release of a finished lease whose owner the table names again |
| LockRuns.StaleReleaseBreaksExclusion | src/locks.rs:328-342 | after a stale release the next insertion of the key stands beside the acquisition it robbed |
| LockRuns.SafeExactlyWithoutStale | src/locks.rs:295-388 | exclusion survives any next insertion throughout a run if and only if the run has no stale release |
| LockRuns.FreshOwnersExclude | src/locks.rs:295-388 | it has none when every acquisition uses a fresh owner name |
| LockRuns.AcquireMirrored | src/locks.rs:368-377 | an uninterrupted acquisition is an insertion followed by taking the fence; contention is neither |
| LockRuns.ReleaseMirrored | src/locks.rs:386-388 | releasing a copy of a lease succeeds exactly when it changes the table |
| LockRuns.OwnerReuseBreaksExclusion | src/locks.rs:328-342 | a run with a reused owner and a stale release in which two acquisitions of a key stand unreleased |
| Tenancy.OrganizationStaysSound | src/runtime/tenancy.rs:233-366 | in every history from a founding: an owner remains, people and open invitations never exceed seats, and every owner was founding, made by an owner, or let in by a policy that makes owners |
| Tenancy.NobodyEntersUninvited | src/runtime/tenancy.rs:233-321 | in every history, whoever came by invitation accepted it under the invited address before it expired and holds the promised role until that is changed, no invitation admits two members, and verified domains bound invitations and joins as the policy says |
| Tenancy.AcceptExactly | src/runtime/tenancy.rs:270-294 | an invitation admits exactly when it is open, has not expired and is presented under its own address; the member gets what was promised |
| Tenancy.ExpiredIsDead | src/runtime/tenancy.rs:164-177 | after it has expired an invitation admits nobody and holds no seat, whatever happens |
| Tenancy.InviteExactly | src/runtime/tenancy.rs:233-263 | exactly when an invitation goes out, in terms of roles, domains and people plus open invitations below seats |
| Tenancy.DomainJoinExactly | src/runtime/tenancy.rs:300-321 | exactly when somebody joins by domain |
| Tenancy.ChangeRoleExactly | src/runtime/tenancy.rs:329-345 | exactly when a role is changed: only owners touch owners, and the last one keeps the role |
| Tenancy.RemoveExactly | src/runtime/tenancy.rs:351-366 | exactly when a member is removed |
| Tenancy.RefusalsSayWhy | src/runtime/tenancy.rs:233-366 | each refusal is given exactly for the first thing that is wrong |
| Tenancy.RoleOrder | src/runtime/tenancy.rs:27-66 | every role implies the ones below it |
| Tenancy.AuthorityIsMonotone | src/runtime/tenancy.rs:233-366 | whatever a role may invite, change or remove, every higher role may too |
| Tenancy.RolesKeep | src/runtime/tenancy.rs:233-345 | no step gives a role above that of whoever gave it, or above what the policy grants |
| Tenancy.EntriesKeep | src/runtime/tenancy.rs:233-366 | no step admits anyone but by the rules |
| Tenancy.InviteKeeps | src/runtime/tenancy.rs:233-263 | authorized invitations keep the seat bound and never promise more than the inviter has |
| Tenancy.AcceptKeeps | src/runtime/tenancy.rs:270-294 | accepting converts a reserved seat into an occupied one |
| Tenancy.DomainJoinKeeps | src/runtime/tenancy.rs:300-321 | joining by domain keeps the seat bound |
| Tenancy.ChangeRoleKeeps | src/runtime/tenancy.rs:329-345 | role changes keep an owner and stay within the changer's role |
| Tenancy.RemoveKeeps | src/runtime/tenancy.rs:351-366 | removals keep an owner |
| Tenancy.AcceptNeverLacksSeats | src/runtime/tenancy.rs:283-292 | with a ledger computed from the rows, accepting an open invitation never fails for seats |
| Tenancy.LastOwnerIsKept | src/runtime/tenancy.rs:323-366 | nobody can remove or demote the last owner |
| Tenancy.OneOwnerStaysExactly | src/runtime/tenancy.rs:270-366 | with one owner a step leaves exactly one if and only if it does not make another: an accepted owner invitation, a join where owners join, or a promotion by the owner |
| Tenancy.OneOwnerExactly | src/runtime/tenancy.rs:270-366 | a history has exactly one owner at every moment if and only if no step of it makes another |
| Tenancy.SecondOwnerIsPossible | src/runtime/tenancy.rs:329-345 | a founding and a step that reach two owners |
| Tenancy.RoomMeansSpare | src/runtime/tenancy.rs:92-102 | despite both saturations, room means fewer taken and reserved than purchased |
| JobQueue.CompareFlips | src/queue.rs:158-168 | swapping the arguments flips the order; only equal ids tie |
| JobQueue.CompareTransitive | src/queue.rs:158-168 | the order is transitive at any one time |
| JobQueue.GoesFirstExactly | src/queue.rs:158-168 | the higher priority first, then what was available earlier, then the smaller id |
| JobQueue.PriorityExactly | src/queue.rs:145-155 | the boost is the largest number of whole steps waited, up to the largest allowed |
| JobQueue.LeadBeyondBoostHolds | src/queue.rs:145-155 | a base priority more than the largest boost ahead is never overtaken, at any time |
| JobQueue.OvertakenExactly | src/queue.rs:145-168 | a job with the higher base priority is overtaken at some time of the 64-bit clock if and only if its lead is below the other's best advantage, or equal to it with the tie broken the other way |
| JobQueue.AdvantageIsBest | src/queue.rs:145-155 | at no time of that clock does a job's boost exceed another's by more than that advantage |
| JobQueue.AdvantageIsReached | src/queue.rs:145-155 | and at one time it does by exactly that much |
| JobQueue.SelectedIsFirst | src/queue.rs:170-181 | the selected job is eligible and before every other eligible one; none selected means none eligible |
| JobQueue.SelectedCanBeDone | src/queue.rs:170-181 | the selected job has become available, the worker can do it, and no other such job goes first; none is selected exactly if there is none |
| JobQueue.SelectionIgnoresOrder | src/queue.rs:170-181 | with distinct ids every permutation of the candidates selects the same job |
| JobQueue.DrainIsSorted | src/queue.rs:170-181 | repeated selection yields exactly the eligible jobs, once each, strictly in order |
| JobQueue.RicherWorkerTakesAsMuch | src/queue.rs:87-119 | a worker that offers at least as much and has a slot free is eligible for whatever the other is |
| JobQueue.EligibleExactly | src/queue.rs:87-119 | a worker is eligible if and only if it has a slot free and offers everything required |
| JobQueue.RefusedForTheFirst | src/queue.rs:87-119 | a refusal names the first thing that is missing |
| BuildLogs.AcceptedIsContiguous | src/build_logs.rs:66-127 | whatever arrives, accepted records are 0, 1, 2, ... and each starts where the ones before it end |
| BuildLogs.TakenFromStream | src/build_logs.rs:66-127 | accepted bodies are the stream's |
| BuildLogs.LogsAgree | src/build_logs.rs:66-127 | two cursors on one stream hold logs of which one is a prefix of the other |
| BuildLogs.ReadExactly | src/build_logs.rs:72-127 | which answer every record gets, and that it is taken exactly if it is the next one, starts where the log ends and fits 64 bits |
| BuildLogs.TakesWhatIsInOrder | src/build_logs.rs:66-127 | of a stream repeated, reordered and lossy, exactly the records that arrive in order are taken |
| BuildLogs.WholeStreamIsTaken | src/build_logs.rs:66-127 | so a stream read in order is taken whole |
| BuildLogs.BufferStaysBounded | src/build_logs.rs:145-194 | a producer that does what the plan says never exceeds either limit, and flushed plus buffered is every record that is not oversize, once and in order, unless a counter overflowed |
| BuildLogs.NothingIsLost | src/build_logs.rs:181-187 | no counter overflows when the limits leave one step of headroom |
| BuildLogs.ProduceKeeps | src/build_logs.rs:172-194 | one planned action keeps both limits and the order |
| BuildLogs.FlushedOnlyWhenFull | src/build_logs.rs:172-194 | the buffer is flushed only when the next record would not fit |
| BuildLogs.PolicyExactly | src/build_logs.rs:145-170 | which policies are accepted |

## Left out

- Rounding, infinities and NaN in the statistics, and with them the not-finite refusals: numbers are real.
- Square roots: coefficients are carried as their three sums, standard errors and the CUSUM statistic as squares; t statistics and p-values of coefficients in a fit follow from those and are not computed.
- The t distribution, the incomplete beta and gamma functions: a p-value is any number in [0,1] that depends on the coefficient, or on the two segments.
- `Correlation.ComputePearson`: does not give the quotient and its p-value but the three sums they are computed from, because of the square root; `QuotientInRange` speaks of the quotient.
- `Correlation.ComputeSpearman`: the same.
- Welch's statistic beyond its means, its zero-variance case and its p-value.
- The order a stable sort gives ties: sorts are specified only as sorted permutations, and nothing proved depends on ties.
- `Inversion.Invert`: a refusal is characterised by near-singularity at the threshold, and an answer by being an inverse; which nearly singular matrices still get an answer depends on pivot sizes and is not stated.
- Violation messages: a violation is its pointer and its rule.
- The recognisers of uuid, date-time, date and base64 text and the Unicode tables: parameters of the validator.
- Rounding of JSON numbers to floating point and integers beyond 64 bits: bounds compare exactly.
- Duplicate names in a JSON object: the first counts; a parsed object never has any.
- `$ref` chains and keyword values of the wrong JSON type are not rejected: one reference is followed and such values count as absent, as in the code, in the walk and in the declarative meaning alike.
- `JsonSchemaRuns.LimitIrrelevant`: a walk that does pass the limit is compared with larger limits only by the example in `LimitCanMatter`.
- `PatternParser.ParsePrint`: patterns whose ranges start or end at the class syntax characters are outside the canonical printer; parsing them is covered by `ScanClass`.
- The JSON text encoding of frames used on WebSocket, protocol version negotiation and the text checks of src/protocol/ws.rs.
- Text-level decoding in TypeScript: `nextText` rests on a decoder of the host platform.
- Memory limits: lengths are unbounded where only the size of a machine's memory would bound them.
- The event a lagging server skips to: the sources do not say which event a server names when it skips; any event from the one before its window on is covered, with the stream continuing right after it.
- Several streams on one connection, commands, acknowledgements and errors in flight: the protocol model is one stream.
- Poisoned mutexes, unavailable providers, waiting and expiry of leases, and the fiducia and PostgreSQL providers.
- `Locks.Composite.WithLock`: what the work does to the tables is part of what others do; nobody acquires under the same owner name meanwhile, or an entry could not be told from its own.
- Spelling of e-mail addresses: an address arrives parsed and normalized, or as one that does not parse; stored invitation addresses and verified domains are in normal form.
- Removing purchased seats, changing the join policy and members leaving on their own.
- Queue states, lease authority and reclaiming in src/queue.rs, and job, run and stream identities in src/build_logs.rs.
- `JobQueue.DrainIsSorted`: time and worker stay fixed while draining.
- Onboarding, plane, authorization, surface and configuration modules, embeddings, queries, administration and database access.
