# boru: checked properties of the checker and base-language cores

boru is a typed stack language. This project models five algorithmic cores of its checker and
base language, and one small arithmetic piece, and proves what each is for:

- `case`: the static exhaustiveness and unreachable-clause analysis, related to the run-time clause
  walk (`Doubles`, `CaseIntervals`, `Membership`, `CaseClauses`, `CaseSoundness`, `CaseCompleteness`, `CaseGaps`,
  `CaseSubsumption`), and the desugar of a clause list to a nested `if` (`CaseDesugar`).
- The analysis pass: the bounded fixed point over loop bodies (`LoopAnalysis`, `LoopFixpoint`), the memoised
  analysis of function bodies (`FnBodyAnalysis`), the flow-leak search over the call graph (`FlowLeaks`) and
  the dispatch that distributes over union alternatives (`UnionDispatch`), on one type lattice with its
  carrier join (`Lattice`).
- Check-mode recovery: in-place edits of the token tape (`Tape`, `Recovery`, `Fallback`, `ApplyWindow`).
- Semveron and Qion, the version and money values: parsers, printers, orders (`Text`, `Semveron`,
  `SemverOrder`, `Qion`).
- The trip count of `for` (`ForTrips`, `Int64`, `Arith`).

Types are finite ancestor chains with an origin flag. Integers are Go's int64 where the source's are, with
wrap-around written out. A double is NaN, an infinity, -0.0 or a real on the 53-bit grid from 2^53 up, and
the projection of an integer is rounding to 53 bits, ties to even, defined and not assumed.

## Where the code falls short of what is claimed for it

Each of these is a theorem: a concrete input on which the claim fails, beside the exact condition under which
the code does meet it, or a guard that shuts the failing inputs out.

- "The checker never wrongly proves a case exhaustive" (design/case-exhaustiveness.0.md). It does in six families.
  `CaseSoundness.CountedIsExact` says of every clause the pass counts, and every value that arrives, exactly when the
  clause accepts the value. `math.Floor(f) + 1` rounds back onto `f` from 2^53 up, so `[gt 2^53.0]` and `[lt 2^53.0]`
  together pass for Integer and match nothing at 2^53 (`CaseGaps.StickingStepIsNotExhaustive`; per bound in
  `CaseIntervals.LowSound`, `HighSound`, `LowExact`, `HighExact`). A refinement's bounds are tested with the total
  order, in which -0.0 lies below 0, while coverage uses IEEE comparison (`CaseGaps.NegativeZeroIsNotExhaustive`; exact
  in `CaseSoundness.BoundsAdmit`). `[is M]` for a union M is credited with the loose membership that dispatch uses,
  while the word `is` also demands that the value comes back unchanged (`CaseGaps.UnionTestIsNotExhaustive`; exact in
  `CaseSoundness.CreditIsExact`). Dispatch lets a base value through to a parameter whose union has a newtype
  alternative, where the tests `[is T]` refuse it (`CaseGaps.NewtypeAlternativeIsNotExhaustive`; exact in
  `CaseSoundness.LooseArrival`), and lets a newtype value stand in for a literal alternative, where a comparison
  refuses it (`CaseGaps.StandInIsNotExhaustive`; exact in `CaseSoundness.BoundsAreExact`). Boolean is split into its
  two literals, so a value of a newtype of Boolean only stands in for one, and a literal of the newtype can refuse it
  (`CaseGaps.FlagIsNotExhaustive`; exact in `CaseSoundness.KeepsStandInIs`).
- `CompareValues` is said to keep a total order over all values (core/go/compare.go). From 2^53 up it is not transitive
  on integers and floats together (`Membership.EqualityIsNotTransitive`; exact in `TotalCmpSteps` and `TransitiveThrough`).
- A clause reported as unreachable can be reached: by an integer when an integer bound and a float bound above
  2^53 share a projection (`CaseSubsumption.MixedBoundsEscape`, exact in `CaseIntervals.LowContained` and
  `HighContained`), by NaN in a refinement (`NaNEscapes`), by a member of a union tested against an ancestor
  of the union (`UnionTestEscapes`, exact in `UnionTestCovered`), by a value of another tag than the literal of the
  clause (`LiteralEscapes` and `PredicateEscapes`, exact in `SubsumedValue`). Value by value, and for all three pairings at once,
  `CaseSubsumption.SubsumedIsUnreachable` says exactly when the earlier clause takes over.
- The static trip count equals the number of runs when the sum it divides fits int64 (basic/go/forloop.go).
  The iterator itself can wrap on its last advance, so that is not enough
  (`ForTrips.WrapsWithFittingSum`; exact in `ForTrips.CountIsRunsIffNothingWraps`).
- The memo key of a function body is said to hold the argument type paths (check/go/carrier.go); it holds type names,
  taken to be globally unique (core/go/value.go), while a shadowed `def` leaves two types of one name
  (core/go/compare_types.go). One summary then answers for both (`FnBodyAnalysis.ShadowedTypeSharesKey`; exact in
  `KeysAgree`, and harmless where names are apart, `KeysSeparateTypes`).
- The loop analysis calls two rounds equal by `ValuesEqual`, which holds of any two carriers without payload
  whatever their types (core/go/equal.go). A stable exit then certifies a post-fixpoint only when the last two
  environments agree or the second is Any throughout (`LoopFixpoint.StableExitCertifies`, with the counterexamples beside it).
- A parenthesised `case` match that fails is no match for the clause walk and an error for the nested `if`
  (`CaseDesugar.FailingExpressionDiffers`; exact in `CaseDesugar.ExpressionTells`).

## Model

| member | source | states |
|---|---|---|
| Doubles.RoundMonotone | basic/go/case_exhaustive.go:622-627 | the float64 projection of integers preserves order |
| Doubles.RoundExact | basic/go/case_exhaustive.go:148-152 | the projection is exact on [-2^53, 2^53] |
| Doubles.RoundEven | basic/go/case_exhaustive.go:148-152 | beyond 2^53 the projection only has even values, so distinct integers meet |
| Doubles.RoundIdempotent | basic/go/case_exhaustive.go:148-152 | projecting twice is projecting once |
| Doubles.RoundIsNearest | basic/go/case_exhaustive.go:148-152 | no number of at most 53 significant bits is nearer to the integer than its projection, and of two equally near the even one is taken |
| Doubles.RoundHas53Bits | basic/go/case_exhaustive.go:148-152 | the projection has at most 53 significant bits |
| CaseIntervals.CaseIntSpan | basic/go/case_exhaustive.go:565-620 | the guarded int64 range holds exactly the integers between the two stepped bounds, no int64 lost or invented, no endpoint step overflowing |
| CaseIntervals.CaseIvalsCover | basic/go/case_exhaustive.go:522-557 | true if and only if the type is in the Integer family and every int64 lies in some applicable span; cur.hi + 1 stays an int64 |
| CaseIntervals.CollectSpans | basic/go/case_exhaustive.go:527-536 | the span list holds an integer exactly when some interval applicable to the type does |
| CaseIntervals.Sweep | basic/go/case_exhaustive.go:540-556 | one pass over spans sorted by low end decides whether they cover all of int64 |
| CaseIntervals.LowSound | basic/go/case_exhaustive.go:570-591 | all integers of a lower span pass the run-time test if and only if the bound is an integer, inclusive, outside int64, or its step really moves |
| CaseIntervals.HighSound | basic/go/case_exhaustive.go:592-615 | the same for upper ends |
| CaseIntervals.LowExact | basic/go/case_exhaustive.go:570-591 | a lower span is the run-time test, pointwise, if and only if the bound is an integer, an exclusive float in [-2^53, 2^53) or outside int64, or an inclusive float no smaller integer is projected onto |
| CaseIntervals.HighExact | basic/go/case_exhaustive.go:592-615 | the same for upper ends |
| CaseIntervals.SpanAgrees | basic/go/case_exhaustive.go:565-665 | for such bounds an int64 is in the span exactly when the value test admits it |
| CaseIntervals.CoverIsSound | basic/go/case_exhaustive.go:522-620 | an integer in some applicable span is admitted by some applicable interval, as long as the bounds step |
| CaseIntervals.SpanMeansTest | basic/go/case_exhaustive.go:565-620 | an integer of a span passes the run-time test if and only if it is not, as a float64, an exclusive float end |
| CaseIntervals.StuckStepsLeaveAGap | basic/go/case_exhaustive.go:582 | at 2^53.0 the two exclusive spans cover int64 while neither interval admits 2^53 |
| CaseIntervals.LowContained | basic/go/case_exhaustive.go:917-929 | a lower end judged contained is contained for every number if and only if the projection keeps the two bounds and their neighbours apart |
| CaseIntervals.HighContained | basic/go/case_exhaustive.go:930-937 | the same for upper ends |
| CaseIntervals.ContainedValue | basic/go/case_exhaustive.go:917-938 | every number of a contained interval, float or integer, is in the containing one |
| Membership.OrdersPart | core/go/compare_scalar_behaviors.go:148-216 | the total order of refinement bounds and the interval comparison agree on numbers other than NaN exactly when these are not zeros of opposite sign |
| Membership.RelationsCompare | core/go/compare.go:958-1060 | a relational word says no when either side is NaN, and otherwise compares integers exactly and all else as IEEE floats |
| Membership.TotalCmpFlips | core/go/compare_scalar_behaviors.go:148-216 | the order of numbers is antisymmetric, with NaN above every number and equal to itself |
| Membership.TotalCmpSteps | core/go/compare_scalar_behaviors.go:148-216 | it steps over a middle value unless that is a double both outer values, distinct integers, are projected onto |
| Membership.TransitiveThrough | core/go/compare.go:48-56 | between integers it is transitive through a double if and only if at most one int64 is projected onto it |
| Membership.EqualityIsNotTransitive | core/go/compare.go:48-56 | 2^53 + 1 equals 2^53.0, which equals 2^53, which is less than 2^53 + 1 |
| Membership.TagSuffices | core/go/unify_lca.go:40-88 | a type node unifies with every well-tagged value whose tag is below it, and gives the value back |
| Membership.MemberUnifies | core/go/unify.go:310-341 | what a type's matcher admits also unifies with the type, and passes `is` for a node |
| Membership.NarrowerRefusesMore | core/go/unify_lca.go:46-87 | whatever unifies with a type unifies with each of its ancestors, including base values a newtype lets through |
| Membership.NearestAbove | core/go/unify_lca.go:74-87 | walking up from a type, the constraint found either is the one its ancestor meets or lies below that ancestor |
| Membership.UnifyFirstSome | core/go/unify_disjunct.go:108-137 | a union refuses a value exactly when each of its members does |
| Membership.UnifyIs | core/go/unify.go:310-441 | what unify answers is decided by the first node or literal that takes the value, in closed form: tags comparable, the nearest constraint met, a literal's payload equal under its own tag |
| Membership.IsAIs | lang/go/native/native_type.go:797-965 | a value passes `is` if and only if the first taker of the target is not an unconstrained node or a literal strictly below the value's tag |
| CaseSoundness.ComparisonIsInterval | basic/go/case_exhaustive.go:272-304 | a relational word says yes to exactly the numbers in the interval read from it, NaN and both zeros included |
| CaseSoundness.ExpandKeeps | basic/go/case_exhaustive.go:82-136 | every value of an alternative's type is a value of one of the expanded leaves, or has a leaf literal's payload under a narrower tag |
| CaseSoundness.ExpandReaches | basic/go/case_exhaustive.go:82-136 | every value dispatch lets through to an alternative reaches one of its expanded leaves |
| CaseSoundness.MatchCoversIsSound | basic/go/case_exhaustive.go:467-512 | a match credited with an alternative unifies with every value of it, base-tagged members of a refinement or predicate type included |
| CaseSoundness.NodeCoverWidens | basic/go/case_exhaustive.go:433-447 | a match that covers a type node unifies with all that unifies with the node, base values of a newtype included |
| CaseSoundness.IsAWidens | basic/go/case_exhaustive.go:453-462 | a value that passes [is T] passes [is U] for every U above T |
| CaseSoundness.IsCoversIsSound | basic/go/case_exhaustive.go:453-462 | the credit of [is T] for a type node T is earned on every value of the alternative |
| CaseSoundness.BoundsAdmit | core/go/depscalar.go:196-229 | inside the interval and base of a refinement a number is a member, if and only if it is not -0.0 against another zero below nor another zero against -0.0 above |
| CaseSoundness.BoundsAccept | basic/go/case_exhaustive.go:650-665 | a comparison accepts exactly the numbers of its interval; a refinement accepts a number of its interval if and only if it lies under the base and is no refused zero |
| CaseSoundness.LooseArrival | core/go/unify_disjunct.go:31-44 | a base value let through by a newtype alternative is accepted by every credited plain clause, and by a credited test if and only if its target is above the value's tag |
| CaseSoundness.CoveredIsAccepted | basic/go/case_exhaustive.go:764-815 | for each value that reaches a covered leaf some clause counts, and the one returned accepts it if and only if some clause that counts is spared |
| CaseSoundness.CoveredCounts | basic/go/case_exhaustive.go:764-815 | for each value that reaches a covered leaf some clause counts: it is credited with the leaf, or its interval admits the literal or spans the integer |
| CaseSoundness.CountedIsExact | basic/go/case_exhaustive.go:773-815 | a clause that counts for a value accepts it if and only if it is spared: no bare taker of a test, no exclusive float end, no refused zero, no stand-in for a literal that is not kept |
| CaseSoundness.CreditIsExact | basic/go/case_exhaustive.go:773-786 | the same for a clause credited by its match or test, where the credit supplies the taker |
| CaseSoundness.BoundsAreExact | basic/go/case_exhaustive.go:794-815 | the same for a clause credited through its interval |
| CaseSoundness.KeepsStandInIs | core/go/unify.go:578-604 | a match takes a value standing in for a literal, if and only if a credited member is not a literal of its tag with another payload, nor one beside it, nor under a constraint that refuses it, or another member takes it |
| CaseSoundness.InhabitantIsSpared | basic/go/case_exhaustive.go:773-815 | on a value of the leaf itself a clause that counts fails only as a test for a union with a bare taker, at an exclusive float end, or on a refused zero |
| CaseSoundness.ExhaustiveCaseMatches | basic/go/case_exhaustive.go:708-844 | for every scrutinee the pass has no objection to without a default and every value of its static type some clause counts, and the one returned accepts the value if and only if some clause that counts is spared |
| CaseSoundness.DispatchedCaseMatches | basic/go/case_exhaustive.go:708-844 | the same for everything dispatch lets through |
| CaseSoundness.CleanCaseMatches | basic/go/case_exhaustive.go:708-844 | if no clause tests for a union, every float step moves and no refinement has a zero bound, every value of a leaf is accepted by some clause |
| CaseSoundness.GradualCaseMatches | basic/go/case_exhaustive.go:749-757 | for a gradual scrutinee the catch-all the pass asks for accepts every value |
| CaseCompleteness.NodeClausePasses | basic/go/case_exhaustive.go:433-447 | a lone builtin node leaves no finding for a builtin type with values if and only if every value of the type unifies with the node |
| CaseCompleteness.TestClausePasses | basic/go/case_exhaustive.go:453-462 | a lone [is T] for a builtin node leaves no finding if and only if every value of the type passes the test |
| CaseCompleteness.MintedTypePasses | basic/go/case_exhaustive.go:436-446 | for a minted type a lone node leaves no finding if and only if it is Any, the type itself or a minted ancestor |
| CaseCompleteness.MintedTestPasses | basic/go/case_exhaustive.go:453-462 | for a minted type a lone test for a node or predicate type leaves no finding if and only if it is above the type; there is no such boundary |
| CaseCompleteness.LiteralClausePasses | basic/go/case_exhaustive.go:467-512 | a concrete scrutinee leaves no finding against a lone literal if and only if the two unify |
| CaseCompleteness.KnownNodePasses | basic/go/case_exhaustive.go:467-512 | a concrete scrutinee leaves no finding against a lone builtin node if and only if unify gives it back |
| CaseCompleteness.KnownTestPasses | basic/go/case_exhaustive.go:453-462 | a concrete scrutinee leaves no finding against a lone test if and only if it passes the test |
| CaseCompleteness.KnownMemberPasses | basic/go/case_exhaustive.go:467-512 | a member of a refinement or predicate type leaves no finding against the type |
| CaseCompleteness.EachLeafPasses | basic/go/case_exhaustive.go:764-822 | a list leaves no finding when each leaf of the scrutinee has a clause that would pass for it alone |
| CaseCompleteness.UnionClausePasses | basic/go/case_exhaustive.go:467-512 | a lone union leaves no finding if and only if each leaf would pass with one of its members alone |
| CaseCompleteness.NestedClausePasses | basic/go/case_exhaustive.go:467-512 | the depth bound: a clause up to three unions deep is read like the member inside, a deeper one earns nothing |
| CaseCompleteness.NoneMemberPasses | basic/go/case_exhaustive.go:467-512 | the value none among a union's members takes the leaf None |
| CaseCompleteness.AnyPasses | basic/go/case_exhaustive.go:749-757 | Any as a clause leaves no finding for any scrutinee the check can look at, gradual ones included |
| CaseCompleteness.NameIsItsBinding | basic/go/case_exhaustive.go:234-249 | a name in match position, or after is, counts and accepts as its definition does, else as the builtin of the name, else as an atom |
| CaseCompleteness.UnreadEarnsNothing | basic/go/case_exhaustive.go:204-233 | a parenthesised match, a test for None or for a value and a body of another length never make a list pass alone |
| CaseCompleteness.ComparisonPasses | basic/go/case_exhaustive.go:803-813 | a concrete number leaves no finding against a lone comparison with a finite literal if and only if the word says yes |
| CaseCompleteness.IntegerClausesPass | basic/go/case_exhaustive.go:522-620 | for integer comparisons and refinements with integer bounds, matched or tested for, Integer leaves no finding if and only if each int64 is accepted by one of the clauses |
| CaseCompleteness.NodeSubsumes | basic/go/case_exhaustive.go:897-911 | a builtin node makes a later one unreachable if and only if it takes all the later one takes |
| CaseCompleteness.TestSubsumes | basic/go/case_exhaustive.go:897-911 | a test makes a later test unreachable if and only if it takes all the later one takes |
| CaseCompleteness.SmallLowWithin | basic/go/case_exhaustive.go:917-929 | below 2^53 a lower end is judged within another if and only if it lets in no number the other keeps out |
| CaseCompleteness.SmallHighWithin | basic/go/case_exhaustive.go:930-937 | the same for upper ends |
| CaseClauses.PointCovered | basic/go/case_exhaustive.go:803-813 | true if and only if an interval, within its base, admits the concrete alternative |
| CaseClauses.Coverage | basic/go/case_exhaustive.go:764-822 | the nested loops leave exactly the alternatives that no clause and no interval union is credited with |
| CaseClauses.IntervalPass | basic/go/case_exhaustive.go:794-815 | the interval pass adds exactly the alternatives the interval union is credited with |
| CaseClauses.FindUnreachable | basic/go/case_exhaustive.go:735-744 | reports exactly the clauses that some earlier clause subsumes |
| CaseClauses.CheckCaseExhaustiveness | basic/go/case_exhaustive.go:708-844 | which finding is made for each kind of scrutinee, with and without a default, if and only if its condition holds |
| CaseGaps.StickingStepIsNotExhaustive | basic/go/case_exhaustive.go:582 | a clause list that passes for Integer and accepts no value 2^53 |
| CaseGaps.NegativeZeroIsNotExhaustive | basic/go/case_exhaustive.go:803-813 | a clause list that passes for -0.0 and refuses it |
| CaseGaps.UnionTestIsNotExhaustive | lang/go/native/native_type.go:939-965 | a clause list that passes for 42 and refuses it, through the test for a union |
| CaseGaps.NewtypeAlternativeIsNotExhaustive | core/go/unify_disjunct.go:31-44 | a clause list that passes for (Pos tor String) and refuses 42, which dispatch lets through |
| CaseGaps.StandInIsNotExhaustive | core/go/unify_disjunct.go:31-44 | a clause list that passes for (5 tor 'a') and refuses the newtype value Pos 7, which dispatch lets through |
| CaseGaps.FlagIsNotExhaustive | basic/go/case_exhaustive.go:115-120 | a clause list that passes for Boolean and refuses a value of a newtype of Boolean |
| CaseSubsumption.SubsumedIsUnreachable | basic/go/case_exhaustive.go:897-938 | a value the later clause accepts is accepted by the earlier one, if and only if it is none of four named confusions, over all three pairings |
| CaseSubsumption.SubsumedBounds | basic/go/case_exhaustive.go:901-903 | between interval clauses the earlier one keeps NaN if and only if it is a refinement, and any other number if and only if no end the number touches as a float64 shuts it out |
| CaseSubsumption.SubsumedTest | basic/go/case_exhaustive.go:904-906 | between tests the earlier one keeps everything, except a union's values that are not tagged below its builtin target |
| CaseSubsumption.SubsumedValue | basic/go/case_exhaustive.go:907-910 | between plain clauses the earlier one keeps everything, except a value of another tag than the later literal that is refused by a constraint, or by a literal of its tag or beside it |
| CaseSoundness.AcceptedNumbers | basic/go/case_exhaustive.go:650-665 | a clause with an interval accepts exactly the numbers its two ends let in, by its own order, under its base |
| CaseSubsumption.LowKept | basic/go/case_exhaustive.go:917-929 | a contained lower end lets in all the inner end lets in, in either order of numbers, except what is the bound itself as a float64 |
| CaseSubsumption.HighKept | basic/go/case_exhaustive.go:930-937 | the same for upper ends |
| CaseSubsumption.LiteralsAgree | core/go/unify.go:578-604 | one literal covers another on all values if and only if they have one tag |
| CaseSubsumption.UnionTestCovered | basic/go/case_exhaustive.go:904-906 | [is T] covers [is U] for a declared union or enum U on all values if and only if T is Any |
| CaseSubsumption.UnionCoverIsAny | basic/go/case_exhaustive.go:486-497 | only a match that contains Any covers the name of a union, and it accepts everything |
| CaseSubsumption.MixedBoundsEscape | basic/go/case_exhaustive.go:917-929 | [gte 2^53 + 1] is said to cover [gte 2^53.0], which 2^53 refutes |
| CaseSubsumption.NaNEscapes | basic/go/case_exhaustive.go:901-903 | [gte -1.0] is said to cover the refinement (Float gte 0.0), which NaN refutes |
| CaseSubsumption.UnionTestEscapes | basic/go/case_exhaustive.go:904-906 | [is Disjunct] is said to cover [is M] for a union M, which a member of M refutes |
| CaseSubsumption.LiteralEscapes | core/go/unify.go:578-604 | the literal Pos 5 is said to cover the literal 5, which Pos 6 refutes |
| CaseSubsumption.PredicateEscapes | core/go/unify_predicate.go:78-85 | the predicate type Even is said to cover the literal 4, which Pos 7 refutes |
| CaseDesugar.CaseMeansNestedIf | basic/go/conditional.go:337-350 | the desugar of any normalized clause list gives the result, the error and the calls of the clause walk, over any stack |
| CaseDesugar.ChainMeansWalk | basic/go/conditional.go:421-438 | from any clause on, the chain means the walk over the remaining clauses |
| CaseDesugar.GuardMeansVerdict | basic/go/conditional.go:398-404 | the guard tokens leave one value whose truth is the verdict of the match position |
| CaseDesugar.ExpressionTells | basic/go/conditional.go:188-201 | for a parenthesised match the guard tokens tell the verdict of the walk if and only if the expression nets exactly one value |
| CaseDesugar.BlockMeansBody | basic/go/conditional.go:409-415 | the block tokens run on nothing are the block run on the case value |
| CaseDesugar.Branches | basic/go/native_control.go:584-597 | of two branches the chosen one runs on its own and its results land on the stack below |
| CaseDesugar.IfOnGroup | basic/go/native_control.go:584-597 | a parenthesised condition runs on its own; its one value chooses the branch, which runs over the stack below |
| CaseDesugar.IfOnList | basic/go/native_control.go:562-582 | a list as condition runs in place, and the value it ends on chooses the branch |
| CaseDesugar.IfOnValue | basic/go/native_control.go:584-597 | any other value chooses the branch by its truth |
| CaseDesugar.FirstMatchDecides | basic/go/conditional.go:145-206 | once a guard matches or fails, nothing after its pair is looked at |
| CaseDesugar.NormalizeShape | basic/go/conditional.go:101-135 | normalization loses no token and leaves pairs with no open call as a match, then at most one default |
| CaseDesugar.NormalizeIdempotent | basic/go/conditional.go:122-135 | normalizing twice is normalizing once |
| CaseDesugar.DefaultStartsAtFirstCall | basic/go/conditional.go:101-112 | the default starts at the first even position, with an element after it, that holds a word naming a function, and otherwise after the last pair |
| CaseDesugar.PlainListIsNormal | basic/go/conditional.go:122-135 | a list with no word naming a function in match position is left as it is |
| CaseDesugar.CallFoldsTheRest | basic/go/conditional.go:122-135 | the first word naming a function in match position and all after it become one block |
| CaseDesugar.WalkTakesFirstYes | basic/go/conditional.go:142-206 | when every guard before a pair says no and its own says yes, the walk runs that pair's block |
| CaseDesugar.WalkFallsThrough | basic/go/conditional.go:206-215 | when every guard says no the walk runs the default, or gives nothing without one |
| CaseDesugar.PlainCaseTakesFirstYes | basic/go/conditional.go:142-206 | on a list with no open call the whole word runs the block of the first yes as written |
| CaseDesugar.CaseDefaultStart | basic/go/conditional.go:101-112 | the loop finds the even position where the default starts, and whether there is one |
| CaseDesugar.CaseNormalizeClauses | basic/go/conditional.go:122-135 | the method computes the normal form the lemmas are about |
| CaseDesugar.CaseClauses | basic/go/conditional.go:142-215 | the loop over the clauses is the walk over the normalized list, calls included |
| CaseDesugar.FailingExpressionDiffers | basic/go/conditional.go:188-201 | a failing parenthesised match separates the walk from the nested if |
| Lattice.SimplifyCovers | core/go/core_helpers.go:1133-1192 | simplifying a union's alternatives loses no inhabited one |
| Lattice.SimplifyKeepsMaximal | core/go/core_helpers.go:1133-1192 | what is kept is exactly the alternatives other than Never that lie below no other, once each, in the order of types |
| Lattice.SimplifyIsCanonical | core/go/core_helpers.go:1182-1191 | two lists with the same alternatives simplify to one list: neither order nor repetition shows |
| Lattice.TypesFlip | core/go/compare_types.go:8-36 | the order of types is antisymmetric, and two distinct types never compare equal |
| Lattice.TypesTransitive | core/go/compare_types.go:8-36 | the order of types is transitive |
| Lattice.GeneralFirst | core/go/compare_types.go:8-36 | an ancestor comes before its descendants, and at one depth the name that is below as text comes first |
| Lattice.JoinIsUpperBound | core/go/carrier_join.go:97-191 | the join is above both carriers through subsumption, sibling collapse, union and widening |
| Lattice.JoinCommutes | core/go/carrier_join.go:97-191 | folding two arms in either order gives the same carrier |
| Lattice.JoinOfPlain | core/go/carrier_join.go:125-155 | comparable plain types join to the wider, siblings below Any to their parent |
| Lattice.JoinIsTight | core/go/carrier_join.go:156-191 | any other join stands for exactly the types of the two sides, as one type or as two to eight incomparable ones; past eight it is the least type above all that is kept |
| Lattice.CommonAncestor | core/go/carrier_join.go:28-42 | the ancestor found is above both types |
| Lattice.CommonAncestorIsLeast | core/go/carrier_join.go:28-42 | no common ancestor of the two types lies below it |
| LoopAnalysis.AnalyseLoopBody | check/go/carrier.go:2300-2445 | on every exit each name's stack is its entry stack plus at most the last round's joined binding, and findings and residual are the entry findings and the last round's; each name the last round added is visible with a binding above the addition and above its pre-loop binding, unless the addition is gradual and carries the pre-loop binding's nonzero identity, which leaves the name alone |
| LoopAnalysis.LastRound | check/go/carrier.go:2315-2426 | which of the three rounds is the last: one that joins nothing, or a second that repeats the names and all but the plain types of the first |
| LoopAnalysis.RunRound | check/go/carrier.go:2328-2352 | binding the loop's own names, running and unbinding leaves the definition stacks as they were |
| LoopAnalysis.Registry.JoinAdds | check/go/carrier.go:2358-2393 | the joined bindings are the body's additions joined with the pre-loop ones, narrowings dropped |
| LoopAnalysis.Registry.InstallJoined | check/go/carrier.go:2394-2402 | installing puts exactly one joined binding on top of each joined name's stack |
| LoopAnalysis.Registry.PopInstalled | check/go/carrier.go:2353-2357 | popping the installed names gives back the stacks of before the loop |
| LoopAnalysis.Registry.IsStable | check/go/carrier.go:2403-2419 | comparing sizes and then each joined name with the previous round decides equality of names and values |
| LoopFixpoint.ExactExitIsPostFixpoint | check/go/carrier.go:2300-2445 | if the last two rounds agree on every shape and gradual flag, the installed environment is above the pre-loop bindings and above one abstract run from itself, for bodies blind to identities |
| LoopFixpoint.EveryIterationCountIsCovered | check/go/carrier.go:2300-2445 | a post-fixpoint covers the bindings after any number of concrete iterations, zero included |
| LoopFixpoint.StableExitCertifies | core/go/equal.go:73-82 | over any set of names, a stable exit certifies a post-fixpoint for every monotone rebinding body if and only if the last two environments agree or every type of the second is Any |
| LoopFixpoint.StableButNotPostFixpoint | core/go/equal.go:73-82 | a monotone body on which the analysis settles on Scalar, which is no post-fixpoint |
| LoopFixpoint.EmptyRoundIsNotPostFixpoint | check/go/carrier.go:2403-2406 | a round that adds nothing ends the analysis although an earlier round added something |
| FnBodyAnalysis.Pass | check/go/carrier.go:2268-2944 | over any sequence of top-level analyses each site's body runs at most 3 x quota times and the bookkeeping ends as it began |
| FnBodyAnalysis.CheckState.AnalyseFnBody | check/go/carrier.go:2735-2944 | terminates for any bodies, arguments and captures; restores in-flight set, counters, depth, suppression and name stack on every exit; a summary is reused only for a call of the same site, argument type names and captured names and type names, and then changes nothing but call edges; past the quota, or in flight, the declared returns or the hypothesis answer without a run; every other call runs the body and memoises what it answers |
| FnBodyAnalysis.KeysAgree | check/go/carrier.go:2482-2508 | two calls share a memo key if and only if site, argument count, the names of the argument types, captured names and the names of their types agree, position by position |
| FnBodyAnalysis.KeysSeparateTypes | check/go/carrier.go:2475-2491 | where no two types share a name, plain arguments under one key have one type |
| FnBodyAnalysis.ShadowedTypeSharesKey | core/go/value.go:3898-3902 | two types of one name, neither below the other, share a key |
| FnBodyAnalysis.PrintSeparates | check/go/carrier.go:2482-2508 | keys whose names hold none of the five separators print alike if and only if they are equal |
| FnBodyAnalysis.KeyOfNames | check/go/carrier.go:2482-2508 | exactly one key names a call |
| FnBodyAnalysis.BailIsDeclared | check/go/carrier.go:2545-2554 | an answer without a run holds the declared types in order, strict, or one gradual Any |
| FnBodyAnalysis.CheckState.CountAndBail | check/go/carrier.go:2811-2852 | one quota position is spent; the answer without a run is given exactly past the quota or for a key in flight; truncation is said once |
| FnBodyAnalysis.CheckState.RefineRecursiveSummary | check/go/carrier.go:2562-2574 | one or two more runs, the second only if the first changed what value equality sees; each is joined into the summary, which only goes up; no memoised key is lost |
| FnBodyAnalysis.CheckState.RunFnBodyOnce | check/go/carrier.go:2582-2700 | one run of a body that makes any calls keeps the bookkeeping and charges its site one run |
| FnBodyAnalysis.JoinStacksIsUpperBound | core/go/carrier_join.go:297-339 | the joined residual stack is above both, the shorter one padded |
| FnBodyAnalysis.JoinedStackIs | core/go/carrier_join.go:297-339 | a position both stacks have holds their join, gradual also where exactly one is None; one that only one stack has is joined with a strict None |
| FnBodyAnalysis.JoinStacksCommute | core/go/carrier_join.go:297-339 | joining two stacks in either order gives the same stack |
| FlowLeaks.BodyHasSentinelDeep | check/go/carrier.go:1198-1206 | true if and only if the body holds a sentinel word or a chain of calls from it ends in a bare break or continue |
| FlowLeaks.FunctionValueInAList | check/go/carrier.go:1151-1228 | a function value in a body adds nothing to the syntactic scan and all the words of its overloads to the call-graph search |
| FlowLeaks.LeakScan.CalleeLeaks | check/go/carrier.go:1234-1241 | true only with a path to a leak; false leaves everything entered since closed under calls, for cyclic graphs too |
| FlowLeaks.LeakScan.ValueLeaks | check/go/carrier.go:1214-1228 | the same for a value and its containers |
| FlowLeaks.NoPathFromClosed | check/go/carrier.go:1234-1257 | no call path leads from a closed set of names to a leak, so cutting off revisits loses nothing |
| FlowLeaks.DoneFromNothing | check/go/carrier.go:1198-1206 | a search that started with nothing seen and found nothing has proved that there is nothing |
| UnionDispatch.FirstMatchingSig | check/go/carrier.go:1473-1491 | the first overload all of whose parameters match, or none |
| UnionDispatch.GradualMatches | core/go/signature.go:288-343 | a gradual value matches an inhabited slot if and only if some run-time type it stands for does |
| UnionDispatch.StrictMatches | core/go/signature.go:343-420 | a strict value matches a slot if and only if every run-time type it stands for does |
| UnionDispatch.AlternativesAre | check/go/carrier.go:1406-1419 | one strict carrier per alternative of a strict union, in order; concrete, plain and gradual arguments stay whole |
| UnionDispatch.ProductIsExact | check/go/carrier.go:1426-1445 | the product lists every selection of one alternative per argument, each exactly once |
| UnionDispatch.DisjunctCombos | check/go/carrier.go:1426-1445 | succeeds if and only if no prefix product exceeds the limit, and then yields the product |
| UnionDispatch.JoinReturnRows | check/go/carrier.go:1452-1466 | succeeds if and only if there are rows and all have one arity; the result is the position-wise join of the rows in order, above each of them |
| UnionDispatch.CheckState.DisjunctPartitionReturns | check/go/carrier.go:1278-1374 | succeeds exactly when the partition applies and its rows join; the result is then the join of the first-match rows of the tuples that dispatch, in order, above each of them, and exactly the other tuples are reported |
| UnionDispatch.ReportedExactly | check/go/carrier.go:1278-1374 | a tuple is reported if and only if every overload of its arity has a slot one of its values does not fit: no run-time type of a gradual value, or not every one of a strict value |
| UnionDispatch.DeclaredDomainIs | check/go/carrier.go:1283-1289 | a report is an error if and only if every strict union among the arguments was declared as one |
| UnionDispatch.AppliesExactly | check/go/carrier.go:1282-1310 | the partition is tried if and only if there is a strict union, no concrete list or map, a known word, and no prefix of the product over the limit |
| UnionDispatch.DeclaredRow | check/go/carrier.go:1363-1368 | declared returns are strict carriers of the declared types in order |
| UnionDispatch.SomeTupleCovers | check/go/carrier.go:1409-1445 | for any run-time call on values of the unions, some tuple of the product covers it |
| UnionDispatch.NothingReportedDispatches | check/go/carrier.go:1278-1374 | if no tuple is reported, every run-time call on values of the strict unions dispatches for some values of the gradual arguments, so every call does where none is gradual; its first match comes no later than its covering tuple's, and coincides exactly when no earlier overload takes the call |
| UnionDispatch.MatchReaches | core/go/signature.go:288-343 | an overload that takes a tuple takes a run-time call on any values of its strict members and some of its gradual ones |
| Recovery.SortIndices | check/go/check_recovery.go:1182-1188 | the in-place insertion sort leaves a sorted permutation |
| Recovery.DedupeIndices | check/go/check_recovery.go:1189-1197 | the aliasing dedupe leaves the same positions, strictly increasing |
| Recovery.RemoveFromTop | check/go/check_recovery.go:1198-1205 | removing from the highest position down leaves the kept tokens in order, with the insertion point at their seam |
| Recovery.SpliceCheckResults | check/go/check_recovery.go:1181-1208 | the tape is the kept tokens before the word, the results, the kept tokens after; the pointer is on the first result |
| Recovery.RemovalStep | check/go/check_recovery.go:1200-1205 | one removal extends the kept suffix by one cut and shifts the insertion point with it |
| Fallback.CheckModeFallbackPositions | check/go/check_recovery.go:676-708 | the positions gathered are the nearest resolved ones below, then the first argument positions ahead |
| Fallback.ResolvedIndicesBefore | core/go/engine.go:3684-3700 | the nearest resolved positions below the pointer, up to the enclosing open paren, in ascending order |
| Fallback.PositionsExactly | check/go/check_recovery.go:676-708 | a position is taken below the word if and only if it is resolved, fewer than n resolved ones lie between and no open paren does; ahead if and only if it is an argument, fewer than the missing number come before it and no enclosing group has closed; at most n in all, ascending |
| Fallback.BeforeExactly | core/go/engine.go:3684-3700 | the first half of that, for any count |
| Fallback.AheadExactly | check/go/check_recovery.go:679-706 | the second half, from any position and nesting |
| Fallback.AheadStaysInGroup | check/go/check_recovery.go:679-706 | a forward position is no paren and has no unmatched close paren before it |
| Fallback.RecoveryKeepsBrackets | check/go/check_recovery.go:676-708 | gathering and splicing keep the paren sequence if and only if no position taken from the stack is a close paren |
| Fallback.RecoverWord | check/go/check_recovery.go:1181-1208 | run on the tape the two steps keep the paren sequence, given that no close paren lies below the pointer, and keep that so |
| ApplyWindow.SpliceFnCheckTail | check/go/check_recovery.go:474-502 | the window becomes the prefix, the tokens not consumed in order, the results, the suffix |
| ApplyWindow.ShortWindowGoesWhole | check/go/check_recovery.go:494-502 | with fewer resolved tokens below than arguments, that many tokens of any kind go, or all there are |
| ApplyWindow.CheckModeParenFnCollapse | check/go/check_recovery.go:618-668 | a window that collapses keeps one literal, a fresh gradual value, and every other token in order; the index returned is that of the same close paren; any other window is untouched |
| ApplyWindow.CollapsesExactly | check/go/check_recovery.go:618-650 | a window collapses if and only if it ends in a strict unquoted function carrier with something before it, or such a carrier and one other literal that is no function value are all it holds |
| ApplyWindow.CollapseIsFaithful | check/go/check_recovery.go:651-667 | seating the fresh value and removing the later literals has that effect |
| Text.LengthThenLexicalIsNumeric | basic/go/micron.go:1110-1128 | on unpadded digit strings, order by length then by bytes is numeric order |
| Text.CompareIsLexical | basic/go/micron.go:1135-1145 | below as text means a proper prefix, or the smaller byte at the first difference |
| Semveron.SemveronFromString | basic/go/micron.go:879-938 | accepts exactly the prints of valid versions, and the version accepted prints as the input |
| Semveron.RoundTrip | basic/go/micron.go:1016-1032 | parsing the print of a valid version gives that version back |
| Semveron.RenderInjective | basic/go/micron.go:1016-1032 | two valid versions with one print are equal, dashes in prerelease and build included |
| Semveron.ParseSemverNumeric | basic/go/micron.go:942-959 | accepts exactly the unpadded digit strings that fit int64, with their value |
| Semveron.ValidSemverPrerelease | basic/go/micron.go:980-995 | accepts exactly dot-separated valid identifiers with no padded number |
| Semveron.ValidSemverBuild | basic/go/micron.go:1000-1012 | accepts exactly dot-separated valid identifiers |
| Semveron.BuildGrammar | basic/go/micron.go:961-1012 | build metadata is a text of ASCII letters, digits, hyphens and dots with no dot at either end or after another |
| SemverOrder.OrderFlips | basic/go/micron.go:1053-1072 | the order is antisymmetric and total, and 0 exactly when all five fields agree |
| SemverOrder.OrderTransitive | basic/go/micron.go:1053-1072 | the order is transitive on valid versions |
| SemverOrder.OrderRefinesPrecedence | basic/go/micron.go:1086-1145 | lower precedence in the sense of section 11 of Semantic Versioning 2.0.0 means lower in the order; of versions of equal precedence the one without build metadata is lower, or the one whose metadata is below as text |
| SemverOrder.ComparePrerelease | basic/go/micron.go:1086-1105 | the loop over identifiers computes the prerelease order |
| Qion.QionFromString | basic/go/micron.go:1885-1933 | accepts exactly the well-formed amounts with at most the currency's minor digits, without rounding: the text's value is units over 10^minor, and the code is the typed one in capitals |
| Qion.UpperSpells | basic/go/micron.go:1890-1893 | a typed word gives a code if and only if each letter is the code's, its lower case, or one of the two letters outside ASCII whose capital it is |
| Qion.AmountGrammar | basic/go/micron.go:1883 | an amount is an optional minus, zero or digits not starting with one, and perhaps a point and digits |
| Qion.RoundTrip | basic/go/micron.go:1937-1948 | parsing the print of a valid amount gives that amount back |
| Qion.RenderInjective | basic/go/micron.go:1937-1948 | two valid amounts with one print are equal, so the print of a parsed text is a fixed point |
| Qion.QionUnits | basic/go/micron.go:1952-1976 | the exact minor-unit count, or none when it does not fit int64 |
| Qion.OrderIsUnitOrder | basic/go/micron.go:1980-1999 | within one currency the order is the integer order of the unbounded unit counts |
| Qion.OrderAcrossCurrencies | basic/go/micron.go:1980-1984 | across currencies the first differing letter of the codes decides, whatever the amounts |
| Qion.OrderIsTotal | basic/go/micron.go:1980-1999 | the order on valid amounts is total, antisymmetric and transitive |
| ForTrips.CountIsRunsIffNothingWraps | basic/go/forloop.go:62-76 | the static count is the number of body runs if and only if the divided sum and the iterator's last advance fit int64 |
| ForTrips.SpecialCounts | basic/go/forloop.go:62-76 | where the sum fits: 0 exactly for an empty span, -1 exactly for step 0 |
| ForTrips.StaticCountExact | basic/go/forloop.go:62-76 | where the sum fits, the 64-bit formula counts the values to visit |
| ForTrips.StaticCountShort | basic/go/forloop.go:62-76 | where it does not, the formula falls short |
| ForTrips.StopsAfterLastVisit | core/go/engine.go:7316-7383 | the loop stops after its last value exactly when that advance does not wrap |
| ForTrips.WrapsWithFittingSum | core/go/engine.go:7316-7383 | an input whose sum fits and whose loop does not stop |
| ForTrips.RunLoop | basic/go/forloop.go:11-54 | the loop driven by its continuation runs the body as often as the static count says |

## Left out

- The engine's step loop, the VM, the emitter and the recorder: recorder calls are no-ops here, and what a body run does is a parameter (loops), any finite number of calls (functions), or an oracle (predicates).
- Diagnostic wording, positions and help texts, and the deduplication of `case` findings by position.
- FlowLeaks.BodyHasSentinelDeep: one registry; a callee that switches registry shares `seen` by name in the source.
- FnBodyAnalysis.Pass: the plain check pass only; the recording pass re-runs bodies for other reasons.
- FnBodyAnalysis.CheckState.RunFnBodyOnce: its result is any residual, so nothing is said about the precision of a summary.
- FnBodyAnalysis.KeyOfNames: a gradual None, Any or Never without a parent node prints with its modality in the source; the model has no such carriers.
- FnBodyAnalysis.CheckState.AnalyseFnBody: the replacement of undefined arguments by gradual ones, the record of parameter binders and the final strip of zero-output residuals do not touch the state modelled here and are left out.
- LoopFixpoint.ExactExitIsPostFixpoint: conditional on the last two rounds agreeing, and on a body that does not look at the identities of joined bindings; three rounds need not suffice, and the source's stability test is weaker, as stated above.
- Lattice.JoinIsUpperBound: carriers with list or map payloads are not modelled.
- Lattice.TypesFlip: the registration rank is left out of the order of types, and a node's ancestor chain stands for its identity string; any total order makes unions canonical.
- Tape.Engine: the gap buffer behind the tape is a sequence here; its cursor moves are not modelled.
- UnionDispatch.CheckState.DisjunctPartitionReturns: overloads whose returns are computed by a checker hook are functions of the tuple.
- CaseSoundness.ExhaustiveCaseMatches: values tagged with an abstract node such as Number do not occur, and no node of a leaf is refined from a union that a clause tests for.
- Membership.MemberUnifies: scalars, type nodes and unions; lists, maps, records, classes, negations, type parameters and arbitrary-precision numbers are not modelled, nor types refined from a union.
- CaseClauses.Expand: the members of a union are taken as already simplified.
- Redefinition of the words gt, gte, lt, lte, eq and is: the checker recognizes them by name, and so does the model.
- CaseDesugar.CaseMeansNestedIf: the machine stops where a parenthesised condition nets other than one value, or a list, which the real `if` would run in turn; words in match position resolve alike inline and in the walk; sugar markers in match position are not modelled.
- CaseDesugar.Run: function words are total functions of the stack and the tokens ahead, without state of their own.
- Qion.QionFromString: the ISO 4217 table (basic/go/iso4217.go) is a parameter; text is a sequence of code points, so invalid UTF-8 is not modelled.
- Building a Semveron or Qion from a map, and the micron kinds that delegate to Go libraries.
- CaseBranchJoin, the result type of a `case`: a join over blocks, covered by the carrier join.
- `if` clause lists, `while`, `pick`, `roll`, `depth` and the stack shuffles: they would add easy members only.
