/**
  The unreachable-clause advisory (caseClauseSubsumes, basic/go/case_exhaustive.go): what an earlier
  clause is said to cover never reaches the later one.
*/
module CaseSubsumption {
  import opened Int64
  import opened Doubles
  import opened Lattice
  import opened Wrappers
  import opened CaseIntervals
  import opened Membership
  import opened CaseClauses
  import opened CaseSoundness
  import opened CaseGaps

  /** The declared unions and enums with their members: minted below Disjunct, named by no plain node, refined by none. */
  type Unions = map<Type, seq<Value>>

  predicate Shaped(v: Value, unions: Unions) {
    match v
    case TypeNode(t) => forall u | u in unions :: !ConformsTo(t, u)
    case UnionNode(t, members) =>
      && t in unions && unions[t] == members && t.Node? && t.user
      && AllBuiltin(t.parent) && ConformsTo(t.parent, DISJUNCT)
      && forall m | m in members :: Shaped(m, unions)
    case Concrete(_) => true
  }

  /** Only the written catch-all covers the name of a union. */
  lemma {:induction false} UnionCoverIsAny(reg: Registry, m: Value, u: Value, unions: Unions, depth: nat, v: Tagged)
    requires u.UnionNode? && Shaped(u, unions) && Shaped(m, unions)
    requires Valid(reg) && WellTagged(reg, v) && MatchCovers(reg, m, u, depth)
    ensures Unify(reg, m, v) != Refused
    decreases m, 0
  {
    match m
    case TypeNode(t) =>
      if ConformsTo(u.t.parent, t) { BuiltinAbove(u.t.parent, t); }
      TagSuffices(reg, Any, v);
    case UnionNode(_, members) => SomeUnionCoverIsAny(reg, members, u, unions, depth - 2, v);
    case Concrete(_) =>
  }

  lemma {:induction false} SomeUnionCoverIsAny(
      reg: Registry, members: seq<Value>, u: Value, unions: Unions, depth: nat, v: Tagged)
    requires u.UnionNode? && Shaped(u, unions) && forall m | m in members :: Shaped(m, unions)
    requires Valid(reg) && WellTagged(reg, v) && SomeCovers(reg, members, u, depth)
    ensures UnifyFirst(reg, members, v) != Refused
    decreases members, 0
  {
    if !(members[0].Concrete? && members[0].v.tag == NoneType) && MatchCovers(reg, members[0], u, depth) {
      UnionCoverIsAny(reg, members[0], u, unions, depth, v);
    } else {
      SomeUnionCoverIsAny(reg, members[1..], u, unions, depth, v);
    }
  }

  // ---------------------------------------------------------------- numbers

  /** The order of any two numbers is the order of their projections, where these differ. */
  lemma ProjectionDecides(x: Num, y: Num)
    requires !IsNaN(x) && !IsNaN(y)
    ensures BoundCmp(x, y) >= 0 ==> Cmp(AsFloat(x), AsFloat(y)) >= 0
    ensures BoundCmp(x, y) <= 0 ==> Cmp(AsFloat(x), AsFloat(y)) <= 0
    ensures TotalCmp(x, y) >= 0 ==> BoundCmp(x, y) >= 0
    ensures TotalCmp(x, y) <= 0 ==> BoundCmp(x, y) <= 0
  {
    if x.Whole? && y.Whole? {
      RoundMonotone(x.i, y.i);
      RoundMonotone(y.i, x.i);
    }
  }

  /** A contained end lets in all that the inner end lets in, except perhaps what touches it. */
  lemma LowKept(a: Interval, b: Interval, x: Num)
    requires LowWithin(a.lo, b.lo) && !IsNaN(x) && LowLetsIn(b, x) && !Touches(x, a.lo)
    ensures LowLetsIn(a, x)
  {
    if a.lo.At? {
      ProjectionDecides(x, b.lo.x);
      ProjectionDecides(b.lo.x, a.lo.x);
      CmpTransitive(AsFloat(x), AsFloat(b.lo.x), AsFloat(a.lo.x));
      ProjectionDecides(x, a.lo.x);
    }
  }

  lemma HighKept(a: Interval, b: Interval, x: Num)
    requires HighWithin(a.hi, b.hi) && !IsNaN(x) && HighLetsIn(b, x) && !Touches(x, a.hi)
    ensures HighLetsIn(a, x)
  {
    if a.hi.At? {
      ProjectionDecides(x, b.hi.x);
      ProjectionDecides(b.hi.x, a.hi.x);
      CmpTransitive(AsFloat(x), AsFloat(b.hi.x), AsFloat(a.hi.x));
      ProjectionDecides(x, a.hi.x);
    }
  }

  /** NaN is kept by a refinement; any other number, unless it touches an end that shuts it out. */
  predicate KeptNumber(a: Interval, x: Num) {
    if IsNaN(x) then a.base.Some?
    else (Touches(x, a.lo) ==> LowLetsIn(a, x)) && (Touches(x, a.hi) ==> HighLetsIn(a, x))
  }

  lemma SubsumedBounds(env: Env, prev: Match, cur: Match, a: Interval, b: Interval, v: Tagged)
    requires Valid(env.reg) && WellTagged(env.reg, v) && Accepts(env, cur, v)
    requires BoundsOf(ResolveMatch(env, prev)) == Some(a) && BoundsOf(ResolveMatch(env, cur)) == Some(b)
    requires IvalContains(a, b)
    ensures v.payload.Number? && (Accepts(env, prev, v) <==> KeptNumber(a, v.payload.x))
  {
    AcceptedNumbers(env, cur, b, v);
    AcceptedNumbers(env, prev, a, v);
    var x := v.payload.x;
    if a.base.Some? {
      ConformsTransitive(v.tag, b.base.value, a.base.value);
    }
    if !IsNaN(x) {
      if !Touches(x, a.lo) { LowKept(a, b, x); }
      if !Touches(x, a.hi) { HighKept(a, b, x); }
    }
  }

  // ---------------------------------------------------------------- tests and values

  /** A builtin node recognizes exactly the values tagged below it. */
  lemma BuiltinTest(reg: Registry, t: Type, v: Tagged)
    requires Valid(reg) && WellTagged(reg, v) && AllBuiltin(t)
    ensures IsA(reg, v, TypeNode(t)) <==> ConformsTo(v.tag, t)
  {
    IsAIs(reg, TypeNode(t), v);
    NoConstraintOnBuiltin(reg, t);
  }

  lemma SubsumedTest(env: Env, prev: Match, cur: Match, p: Value, c: Value, unions: Unions, v: Tagged)
    requires Valid(env.reg) && WellTagged(env.reg, v) && Accepts(env, cur, v)
    requires ResolveMatch(env, prev) == IsTest(p) && ResolveMatch(env, cur) == IsTest(c)
    requires !p.Concrete? && !c.Concrete? && ConformsTo(c.t, p.t) && Shaped(p, unions) && Shaped(c, unions)
    ensures Accepts(env, prev, v) <==> (p.TypeNode? && c.UnionNode? ==> ConformsTo(v.tag, p.t))
  {
    if c.TypeNode? {
      IsAWidens(env.reg, c.t, p.t, v);
    } else if p != c {
      assert ConformsTo(c.t.parent, p.t);
      BuiltinAbove(c.t.parent, p.t);
      BuiltinTest(env.reg, p.t, v);
    }
  }

  lemma SubsumedValue(env: Env, prev: Match, cur: Match, m: Value, alt: Value, unions: Unions, v: Tagged)
    requires Valid(env.reg) && WellTagged(env.reg, v) && Accepts(env, cur, v)
    requires ResolveMatch(env, prev) == Plain(m, None) && ResolveMatch(env, cur) == Plain(alt, None)
    requires MatchCovers(env.reg, m, alt, DEPTH) && Shaped(m, unions) && Shaped(alt, unions)
    ensures Accepts(env, prev, v) <==> (alt.Concrete? && v.tag != alt.v.tag ==> KeepsStandIn(env.reg, m, alt.v, v, DEPTH))
  {
    match alt
    case TypeNode(at) => NodeCoverWidens(env.reg, m, at, DEPTH, v);
    case UnionNode(_, _) => UnionCoverIsAny(env.reg, m, alt, unions, DEPTH, v);
    case Concrete(c) =>
      if v.tag == c.tag {
        assert v == c;
        LiteralCovered(env.reg, m, DEPTH, v);
      } else {
        KeepsStandInIs(env.reg, m, c, v, DEPTH);
      }
  }

  // ---------------------------------------------------------------- the relation

  /**
    Where a value the later clause accepts is accepted by the earlier one: all but NaN without a base, a number
    that an end it touches shuts out, a value of a union tested by one of the union's ancestors, a value of another
    tag than the later literal that a literal of its own tag or beside it, or a constraint, shuts out.
  */
  predicate Kept(reg: Registry, prev: Resolved, cur: Resolved, v: Tagged) {
    if BoundsOf(prev).Some? && BoundsOf(cur).Some? then
      v.payload.Number? ==> KeptNumber(BoundsOf(prev).value, v.payload.x)
    else if prev.IsTest? && cur.IsTest? then
      prev.target.TypeNode? && cur.target.UnionNode? ==> ConformsTo(v.tag, prev.target.t)
    else
      prev.Plain? && cur.Plain? && cur.m.Concrete? && v.tag != cur.m.v.tag ==> KeepsStandIn(reg, prev.m, cur.m.v, v, DEPTH)
  }

  /** Union names are used as declared. */
  predicate Declared(r: Resolved, unions: Unions) {
    match r
    case IsTest(target) => Shaped(target, unions)
    case Plain(m, _) => Shaped(m, unions)
    case _ => true
  }

  /** Exactly when what the later clause accepts is accepted by the clause said to cover it. */
  lemma SubsumedIsUnreachable(env: Env, prev: Match, cur: Match, unions: Unions, v: Tagged)
    requires Valid(env.reg) && WellTagged(env.reg, v) && Accepts(env, cur, v)
    requires Subsumes(env.reg, ResolveMatch(env, prev), ResolveMatch(env, cur))
    requires Declared(ResolveMatch(env, prev), unions) && Declared(ResolveMatch(env, cur), unions)
    ensures Accepts(env, prev, v) <==> Kept(env.reg, ResolveMatch(env, prev), ResolveMatch(env, cur), v)
  {
    var p, c := ResolveMatch(env, prev), ResolveMatch(env, cur);
    if BoundsOf(p).Some? {
      SubsumedBounds(env, prev, cur, BoundsOf(p).value, BoundsOf(c).value, v);
    } else if p.Plain? {
      SubsumedValue(env, prev, cur, p.m, c.m, unions, v);
    } else {
      SubsumedTest(env, prev, cur, p.target, c.target, unions, v);
    }
  }

  /** One literal covers another for good, if and only if they have one tag. */
  lemma LiteralsAgree(reg: Registry, d: Tagged, c: Tagged, other: Tagged)
    requires WellTagged(reg, c) && UnifyScalars(d, c) != Refused && d.tag != NoneType
    requires WellTagged(reg, other) && other.tag == d.tag && other.payload != d.payload
    ensures (forall v | WellTagged(reg, v) && UnifyScalars(c, v) != Refused :: UnifyScalars(d, v) != Refused)
       <==> d.tag == c.tag
  {
    if d.tag != c.tag {
      assert UnifyScalars(c, other) != Refused && UnifyScalars(d, other) == Refused;
    }
  }

  /** [is T] covers [is U] for a union U with a member that is no type, if and only if T is Any. */
  lemma UnionTestCovered(reg: Registry, u: Value, t: Type, unions: Unions, w: Tagged)
    requires Valid(reg) && u.UnionNode? && Shaped(u, unions) && Shaped(TypeNode(t), unions) && ConformsTo(u.t, t)
    requires WellTagged(reg, w) && IsA(reg, w, u) && !ConformsTo(w.tag, DISJUNCT.parent)
    ensures (forall v | WellTagged(reg, v) && IsA(reg, v, u) :: IsA(reg, v, TypeNode(t))) <==> t == Any
  {
    forall v | WellTagged(reg, v) && t == Any ensures IsA(reg, v, TypeNode(t)) {
      TagSuffices(reg, Any, v);
    }
    if t != Any {
      assert ConformsTo(u.t.parent, t);
      BuiltinAbove(u.t.parent, t);
      BuiltinTest(reg, t, w);
      ConformsTransitive(u.t.parent, DISJUNCT, DISJUNCT.parent);
      ChainIsLinear(u.t.parent, t, DISJUNCT.parent);
      OneUp(DISJUNCT.parent, t);
      if ConformsTo(w.tag, t) && ConformsTo(t, DISJUNCT.parent) { ConformsTransitive(w.tag, t, DISJUNCT.parent); }
    }
  }

  // ---------------------------------------------------------------- what escapes

  function Body2(word: string, v: Value): Match {
    Body([W(word), L(v)])
  }

  /** [gte 2^53 + 1] is said to cover [gte 2^53.0], which 2^53 alone gets through to. */
  lemma MixedBoundsEscape()
    ensures var env := NoWords(Plainly());
      var prev := Body2("gte", Concrete(Number64(EXACT + 1)));
      var cur := Body2("gte", Concrete(Number53(Finite(EXACT as real))));
      && Subsumes(env.reg, ResolveMatch(env, prev), ResolveMatch(env, cur))
      && Accepts(env, cur, Number64(EXACT)) && !Accepts(env, prev, Number64(EXACT))
  {
    var env := NoWords(Plainly());
    var prev := Body2("gte", Concrete(Number64(EXACT + 1)));
    var cur := Body2("gte", Concrete(Number53(Finite(EXACT as real))));
    var a, b := At(Whole(EXACT + 1), true), At(Fraction(Finite(EXACT as real)), true);
    RoundTie();
    RoundExact(EXACT);
    assert ResolveMatch(env, prev) == Compares(Interval(a, Unbounded, None));
    assert ResolveMatch(env, cur) == Compares(Interval(b, Unbounded, None));
    assert LowWithin(a, b);
    ComparisonIsInterval(Gte, Whole(EXACT), a.x);
    ComparisonIsInterval(Gte, Whole(EXACT), b.x);
  }

  lemma NaNIsNonNeg()
    ensures Accepts(WithNonNeg(), Word("NonNeg"), Number53(NaN))
  {
    assert Admits(WithNonNeg().reg, NON_NEG, Number53(NaN));
    assert UnifyType(WithNonNeg().reg, NON_NEG, Number53(NaN)) == TheValue;
  }

  const MINUS_ONE := Interval(At(Fraction(Finite(-1.0)), true), Unbounded, None)

  function AtLeastMinusOne(): Match {
    Body2("gte", Concrete(Number53(Finite(-1.0))))
  }

  lemma MinusOneResolves(env: Env)
    ensures ResolveMatch(env, AtLeastMinusOne()) == Compares(MINUS_ONE)
    ensures IvalContains(MINUS_ONE, NON_NEG_BOUNDS)
    ensures !Accepts(env, AtLeastMinusOne(), Number53(NaN))
  {
    assert LowWithin(MINUS_ONE.lo, NON_NEG_BOUNDS.lo);
  }

  /** [gte -1.0] is said to cover the refinement (Float gte 0.0), which admits NaN. */
  lemma NaNEscapes()
    ensures var env := WithNonNeg();
      && Subsumes(env.reg, ResolveMatch(env, AtLeastMinusOne()), ResolveMatch(env, Word("NonNeg")))
      && Accepts(env, Word("NonNeg"), Number53(NaN)) && !Accepts(env, AtLeastMinusOne(), Number53(NaN))
  {
    NonNegResolves();
    NaNIsNonNeg();
    MinusOneResolves(WithNonNeg());
  }

  /** [is Disjunct] is said to cover [is M] for a union M under Disjunct; a number of M is no Disjunct. */
  lemma UnionTestEscapes()
    ensures var env := NoWords(Plainly());
      var prev := Body2("is", TypeNode(DISJUNCT));
      var cur := Body2("is", UnionNode(Node(DISJUNCT, "M", true), [TypeNode(INTEGER)]));
      && Subsumes(env.reg, ResolveMatch(env, prev), ResolveMatch(env, cur))
      && Accepts(env, cur, Number64(5)) && !Accepts(env, prev, Number64(5))
  {
    var env := NoWords(Plainly());
    var m := UnionNode(Node(DISJUNCT, "M", true), [TypeNode(INTEGER)]);
    assert ResolveMatch(env, Body2("is", TypeNode(DISJUNCT))) == IsTest(TypeNode(DISJUNCT));
    assert ResolveMatch(env, Body2("is", m)) == IsTest(m);
    NoContent(env.reg, INTEGER);
    NoContent(env.reg, DISJUNCT);
    assert UnifyFirst(env.reg, m.members, Number64(5)) == TheValue;
    assert !ConformsTo(INTEGER, DISJUNCT) by { assert !ConformsTo(SCALAR, DISJUNCT); }
    assert !ConformsTo(DISJUNCT, INTEGER) by { assert !ConformsTo(DISJUNCT.parent, INTEGER); }
  }

  /** The literal Pos 5 is said to cover the literal 5, which also takes Pos 6. */
  lemma LiteralEscapes()
    ensures var env := NoWords(Plainly());
      var prev, cur := Literal(Concrete(Tagged(POS, Number(Whole(5))))), Literal(Concrete(FIVE));
      var v := Tagged(POS, Number(Whole(6)));
      && WellTagged(env.reg, v) && Subsumes(env.reg, ResolveMatch(env, prev), ResolveMatch(env, cur))
      && Accepts(env, cur, v) && !Accepts(env, prev, v)
  {
    var env := NoWords(Plainly());
    PosIsWellTagged(env.reg, 6);
    assert UnifyScalars(Tagged(POS, Number(Whole(5))), FIVE) == TheNode;
    assert UnifyScalars(FIVE, Tagged(POS, Number(Whole(6)))) == TheValue;
  }

  const EVEN := Node(INTEGER, "Even", true)

  /** Even is a predicate over Integer. */
  function WithEven(): Registry {
    Registry(map[], map[EVEN := Predicate],
      (v: Tagged, t: Type) => t == EVEN && v.payload.Number? && v.payload.x.Whole? && v.payload.x.i % 2 == 0)
  }

  lemma PosOutsideEven(i: int64)
    requires i % 2 != 0
    ensures WellTagged(WithEven(), Tagged(POS, Number(Whole(i))))
    ensures UnifyType(WithEven(), EVEN, Tagged(POS, Number(Whole(i)))) == Refused
  {
    assert POS != EVEN;
    OneUp(POS, EVEN);
    OneUp(INTEGER, EVEN);
    OneUp(NUMBER, EVEN);
    OneUp(SCALAR, EVEN);
  }

  /** The predicate Even is said to cover the literal 4, which also takes Pos 7. */
  lemma PredicateEscapes()
    ensures var env := NoWords(WithEven());
      var prev, cur := Literal(TypeNode(EVEN)), Literal(Concrete(Number64(4)));
      var v := Tagged(POS, Number(Whole(7)));
      && Valid(env.reg) && WellTagged(env.reg, v)
      && Subsumes(env.reg, ResolveMatch(env, prev), ResolveMatch(env, cur))
      && Accepts(env, cur, v) && !Accepts(env, prev, v)
  {
    var env := NoWords(WithEven());
    PosOutsideEven(7);
    assert Admits(env.reg, EVEN, Number64(4));
    assert UnifyScalars(Number64(4), Tagged(POS, Number(Whole(7)))) == TheValue;
  }
}
