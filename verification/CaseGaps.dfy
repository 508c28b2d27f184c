/**
  Clause lists that pass the `case` exhaustiveness check (basic/go/case_exhaustive.go) and accept some value of the
  scrutinee in no clause.
*/
module CaseGaps {
  import opened Int64
  import opened Doubles
  import opened Lattice
  import opened Wrappers
  import opened CaseIntervals
  import opened Membership
  import opened CaseClauses
  import opened CaseSoundness

  function NoWords(reg: Registry): Env {
    Env(reg, map[], (_, _) => false)
  }

  function Plainly(): Registry {
    Registry(map[], map[], (_, _) => false)
  }

  lemma OneClause(env: Env, m: Match)
    ensures ResolveAll(env, [m]) == [ResolveMatch(env, m)]
  {
    assert [m][1..] == [];
  }

  lemma TwoClauses(env: Env, m: Match, n: Match)
    ensures ResolveAll(env, [m, n]) == [ResolveMatch(env, m), ResolveMatch(env, n)]
  {
    assert [m, n][1..] == [n];
    OneClause(env, n);
  }

  /** A single clause whose interval admits a concrete scrutinee, or which is credited with it, passes. */
  lemma OnePasses(env: Env, m: Match, c: Tagged)
    requires c.tag != NoneType
    requires Credits(env.reg, ResolveMatch(env, m), Concrete(c))
      || (BoundsOf(ResolveMatch(env, m)).Some? && PointAdmits(env.reg, BoundsOf(ResolveMatch(env, m)).value, c))
    ensures Passes(env, Known(c), [m])
  {
    OneClause(env, m);
    var r := ResolveMatch(env, m);
    assert r in [r] && (BoundsOf(r).Some? ==> BoundsOf(r).value in Intervals([r]));
    assert CoveredBy(env.reg, [r], Concrete(c));
  }

  const ABOVE := Interval(At(Fraction(Finite(EXACT as real)), false), Unbounded, None)
  const BELOW := Interval(Unbounded, At(Fraction(Finite(EXACT as real)), false), None)

  function Against53(word: string): Match {
    Body([W(word), L(Concrete(Number53(Finite(EXACT as real))))])
  }

  lemma Against53Resolves(env: Env)
    ensures ResolveMatch(env, Against53("gt")) == Compares(ABOVE)
    ensures ResolveMatch(env, Against53("lt")) == Compares(BELOW)
    ensures !Accepts(env, Against53("gt"), Number64(EXACT))
    ensures !Accepts(env, Against53("lt"), Number64(EXACT))
  {
    var point := Fraction(Finite(EXACT as real));
    StuckStepsLeaveAGap();
    ComparisonIsInterval(Gt, Whole(EXACT), point);
    ComparisonIsInterval(Lt, Whole(EXACT), point);
  }

  lemma IntegerIsOneLeaf(env: Env, matches: seq<Match>)
    requires IntervalsCredit(env.reg, Intervals(ResolveAll(env, matches)), TypeNode(INTEGER))
    ensures Passes(env, OfType(TypeNode(INTEGER)), matches)
  {
    assert Alternatives(OfType(TypeNode(INTEGER))) == Some([TypeNode(INTEGER)]);
  }

  /** case x [[gt 2^53.0] .. [lt 2^53.0] ..] passes for an Integer x and matches nothing at 2^53. */
  lemma StickingStepIsNotExhaustive()
    ensures var env := NoWords(Plainly());
      var matches := [Against53("gt"), Against53("lt")];
      && Passes(env, OfType(TypeNode(INTEGER)), matches)
      && WellTagged(env.reg, Number64(EXACT)) && InScrutinee(env.reg, Number64(EXACT), OfType(TypeNode(INTEGER)))
      && forall m | m in matches :: !Accepts(env, m, Number64(EXACT))
  {
    var env := NoWords(Plainly());
    Against53Resolves(env);
    TwoClauses(env, Against53("gt"), Against53("lt"));
    var rs := [Compares(ABOVE), Compares(BELOW)];
    assert Intervals(rs) == [ABOVE, BELOW] by {
      assert rs[..1] == [Compares(ABOVE)] && rs[..1][..0] == [];
      assert Intervals(rs[..1]) == [ABOVE];
    }
    StuckStepsLeaveAGap();
    IntegerIsOneLeaf(env, [Against53("gt"), Against53("lt")]);
    NumberIsWellTagged(Plainly(), EXACT);
  }

  lemma NumberIsWellTagged(reg: Registry, i: int64)
    requires reg.content == map[]
    ensures WellTagged(reg, Number64(i)) && Inhabits(reg, Number64(i), TypeNode(INTEGER))
  {
  }

  const NON_NEG := Node(FLOAT, "NonNeg", true)
  const NON_NEG_BOUNDS := Interval(At(Fraction(Finite(0.0)), true), Unbounded, Some(FLOAT))

  function WithNonNeg(): Env {
    NoWords(Registry(map["NonNeg" := TypeNode(NON_NEG)],
      map[NON_NEG := Refined(NON_NEG_BOUNDS.lo, NON_NEG_BOUNDS.hi)], (_, _) => false))
  }

  lemma NonNegResolves()
    ensures ResolveMatch(WithNonNeg(), Word("NonNeg")) == Plain(TypeNode(NON_NEG), Some(NON_NEG_BOUNDS))
    ensures PointAdmits(WithNonNeg().reg, NON_NEG_BOUNDS, Number53(NegZero))
  {
  }

  lemma NonNegIsValid()
    ensures Valid(WithNonNeg().reg) && WellTagged(WithNonNeg().reg, Number53(NegZero))
  {
  }

  lemma NonNegRefuses()
    ensures !Admits(WithNonNeg().reg, NON_NEG, Number53(NegZero))
    ensures !Accepts(WithNonNeg(), Word("NonNeg"), Number53(NegZero))
  {
    assert TotalCmp(Fraction(NegZero), Fraction(Finite(0.0))) == -1;
  }

  /** case -0.0 [NonNeg ..] passes for NonNeg = (Float gte 0.0), which refuses -0.0. */
  lemma NegativeZeroIsNotExhaustive()
    ensures var env := WithNonNeg();
      var v := Number53(NegZero);
      && Valid(env.reg) && WellTagged(env.reg, v)
      && Passes(env, Known(v), [Word("NonNeg")]) && !Accepts(env, Word("NonNeg"), v)
  {
    NonNegIsValid();
    NonNegResolves();
    NonNegRefuses();
    OnePasses(WithNonNeg(), Word("NonNeg"), Number53(NegZero));
  }

  const POS := Node(INTEGER, "Pos", true)
  const STRING := Node(SCALAR, "String", false)
  const POS_OR_STRING := UnionNode(Node(DISJUNCT, "M", true), [TypeNode(POS), TypeNode(STRING)])

  /** An Integer unifies with a newtype of Integer by giving back the newtype's node. */
  lemma NewtypeAdmitsItsBase(reg: Registry, i: int64)
    requires reg.content == map[]
    ensures UnifyType(reg, POS, Number64(i)) == TheNode
    ensures Unify(reg, POS_OR_STRING, Number64(i)) == TheNode
  {
    NoContent(reg, POS);
    assert UnifyFirst(reg, POS_OR_STRING.members, Number64(i)) == TheNode;
  }

  lemma {:induction false} NoContent(reg: Registry, t: Type)
    requires reg.content == map[]
    ensures Nearest(reg, t) == None
  {
    if t.Node? {
      NoContent(reg, t.parent);
    }
  }

  /** case 42 [[is M] ..] passes for M = (Pos tor String) with Pos a newtype of Integer; 42 is no M. */
  lemma UnionTestIsNotExhaustive()
    ensures var env := NoWords(Plainly());
      var test := Body([W("is"), L(POS_OR_STRING)]);
      && WellTagged(env.reg, Number64(42))
      && Passes(env, Known(Number64(42)), [test])
      && !Accepts(env, test, Number64(42))
  {
    var env := NoWords(Plainly());
    var test := Body([W("is"), L(POS_OR_STRING)]);
    NewtypeAdmitsItsBase(env.reg, 42);
    NumberIsWellTagged(env.reg, 42);
    assert ResolveMatch(env, test) == IsTest(POS_OR_STRING);
    OnePasses(env, test, Number64(42));
  }

  /** A union of two leaves passes when each is credited to a clause of its own. */
  lemma {:induction false} TwoPass(env: Env, a: Value, b: Value, m: Match, n: Match)
    requires Expand(a, DEPTH - 1) == Some([a]) && Expand(b, DEPTH - 1) == Some([b])
    requires Credits(env.reg, ResolveMatch(env, m), a)
      || (BoundsOf(ResolveMatch(env, m)).Some? && a.Concrete? && PointAdmits(env.reg, BoundsOf(ResolveMatch(env, m)).value, a.v))
    requires Credits(env.reg, ResolveMatch(env, n), b)
    ensures Passes(env, OfUnion([a, b], true), [m, n])
  {
    TwoClauses(env, m, n);
    var rs := [ResolveMatch(env, m), ResolveMatch(env, n)];
    assert rs[0] in rs && rs[1] in rs;
    assert BoundsOf(rs[0]).Some? ==> BoundsOf(rs[0]).value in Intervals(rs);
    assert [a, b][1..] == [b] && [b][1..] == [];
    assert ExpandAll([b], DEPTH - 1) == Some([b]) by {
      assert ExpandAll([], DEPTH - 1) == Some([]) && [b] + [] == [b];
    }
    assert ExpandAll([a, b], DEPTH - 1) == Some([a] + [b]);
  }

  function Test(t: Type): Match {
    Body([W("is"), L(TypeNode(t))])
  }

  /**
    case x [[is Pos] .. [is String] ..] passes for a parameter x of type (Pos tor String); dispatch lets 42 through,
    and no clause accepts it.
  */
  lemma NewtypeAlternativeIsNotExhaustive()
    ensures var env := NoWords(Plainly());
      var s := OfUnion(POS_OR_STRING.members, true);
      var matches := [Test(POS), Test(STRING)];
      && WellTagged(env.reg, Number64(42)) && Dispatched(env.reg, Number64(42), s)
      && Passes(env, s, matches)
      && forall m | m in matches :: !Accepts(env, m, Number64(42))
  {
    var env := NoWords(Plainly());
    NewtypeAdmitsItsBase(env.reg, 42);
    NumberIsWellTagged(env.reg, 42);
    TwoPass(env, TypeNode(POS), TypeNode(STRING), Test(POS), Test(STRING));
    IntegerIsNoString(env.reg, 42);
  }

  lemma IntegerIsNoString(reg: Registry, i: int64)
    requires reg.content == map[]
    ensures !IsA(reg, Number64(i), TypeNode(STRING)) && !IsA(reg, Number64(i), TypeNode(POS))
  {
    NewtypeAdmitsItsBase(reg, i);
    NoContent(reg, STRING);
    OneUp(INTEGER, STRING);
    OneUp(NUMBER, STRING);
    OneUp(SCALAR, STRING);
    OneUp(STRING, INTEGER);
    OneUp(SCALAR, INTEGER);
  }

  const FIVE := Number64(5)
  const POS_SEVEN := Tagged(POS, Number(Whole(7)))
  const WORD_A := Tagged(STRING, Other("a"))

  function EqualsFive(): Match {
    Body([W("eq"), L(Concrete(FIVE))])
  }

  /**
    case x [[eq 5] .. 'a' ..] passes for a parameter x of type (5 tor 'a'); dispatch lets the newtype value Pos 7
    stand in for the literal 5, and no clause accepts it.
  */
  lemma StandInIsNotExhaustive()
    ensures var env := NoWords(Plainly());
      var s := OfUnion([Concrete(FIVE), Concrete(WORD_A)], true);
      var matches := [EqualsFive(), Literal(Concrete(WORD_A))];
      && WellTagged(env.reg, POS_SEVEN) && Dispatched(env.reg, POS_SEVEN, s)
      && Passes(env, s, matches)
      && forall m | m in matches :: !Accepts(env, m, POS_SEVEN)
  {
    var env := NoWords(Plainly());
    assert UnifyScalars(FIVE, POS_SEVEN) == TheValue;
    FiveIsAPoint(env.reg);
    TwoPass(env, Concrete(FIVE), Concrete(WORD_A), EqualsFive(), Literal(Concrete(WORD_A)));
    PosSeven(env);
  }

  lemma FiveIsAPoint(reg: Registry)
    requires reg.content == map[]
    ensures PointAdmits(reg, CmpInterval(Eq, Whole(5)), FIVE)
  {
  }

  lemma PosIsWellTagged(reg: Registry, i: int64)
    requires reg.content == map[]
    ensures WellTagged(reg, Tagged(POS, Number(Whole(i))))
  {
  }

  lemma PosSeven(env: Env)
    requires env.reg.content == map[]
    ensures WellTagged(env.reg, POS_SEVEN)
    ensures !Accepts(env, EqualsFive(), POS_SEVEN) && !Accepts(env, Literal(Concrete(WORD_A)), POS_SEVEN)
  {
    PosIsWellTagged(env.reg, 7);
    OneUp(POS, STRING);
    OneUp(INTEGER, STRING);
    OneUp(NUMBER, STRING);
    OneUp(SCALAR, STRING);
    OneUp(STRING, POS);
    OneUp(SCALAR, POS);
  }


  const FLAG := Node(BOOLEAN, "Flag", true)

  function Flag(b: bool): Tagged {
    Tagged(FLAG, Truth(b))
  }

  lemma FlagIsWellTagged(reg: Registry, b: bool)
    requires reg.content == map[]
    ensures WellTagged(reg, Flag(b)) && Inhabits(reg, Flag(b), TypeNode(BOOLEAN))
  {
    OneUp(FLAG, INTEGER);
    OneUp(BOOLEAN, INTEGER);
    OneUp(SCALAR, INTEGER);
    OneUp(FLAG, FLOAT);
    OneUp(BOOLEAN, FLOAT);
    OneUp(SCALAR, FLOAT);
  }

  /** case b [t ..] passes for a Boolean b, with t the value Flag true of a newtype of Boolean; Flag false is refused. */
  lemma FlagIsNotExhaustive()
    ensures var env := NoWords(Plainly());
      var s := OfType(TypeNode(BOOLEAN));
      var t := Literal(Concrete(Flag(true)));
      && WellTagged(env.reg, Flag(false)) && InScrutinee(env.reg, Flag(false), s)
      && Passes(env, s, [t]) && !Accepts(env, t, Flag(false))
  {
    var env := NoWords(Plainly());
    var t := Literal(Concrete(Flag(true)));
    FlagIsWellTagged(env.reg, false);
    OneClause(env, t);
    assert UnifyScalars(Flag(true), Tagged(BOOLEAN, Truth(true))) == TheNode
      || UnifyScalars(Flag(true), Tagged(BOOLEAN, Truth(true))) == TheValue;
    var r := ResolveMatch(env, t);
    assert r in [r] && Credits(env.reg, r, Bool(true)) && Credits(env.reg, r, Bool(false));
    assert Alternatives(OfType(TypeNode(BOOLEAN))) == Some([Bool(true), Bool(false)]);
  }
}
