/**
  What a credit of the `case` exhaustiveness check (basic/go/case_exhaustive.go) is worth at run time: for every value
  that arrives, a clause counted for it exists, and exactly when such a clause accepts it.
*/
module CaseSoundness {
  import opened Int64
  import opened Doubles
  import opened Lattice
  import opened Wrappers
  import opened CaseIntervals
  import opened Membership
  import opened CaseClauses

  // ---------------------------------------------------------------- which values arrive

  /** The run-time values of an alternative: of a type, the values its matcher admits, tagged with it or not. */
  predicate Inhabits(reg: Registry, v: Tagged, a: Value) {
    match a
    case TypeNode(_) => Member(reg, v, a)
    case UnionNode(_, members) => exists m | m in members :: Inhabits(reg, v, m)
    case Concrete(c) => v == c
  }

  /** What dispatch lets through to an alternative of a union: whatever unifies with it. */
  predicate Reaches(reg: Registry, v: Tagged, a: Value) {
    Unify(reg, a, v) != Refused
  }


  /** v is taken for the literal without being it. */
  predicate StandsIn(v: Tagged, leaf: Value) {
    leaf.Concrete? && v != leaf.v
  }

  /** A value of the leaf, or one with the literal's payload under a narrower tag, as a newtype of Boolean has. */
  predicate Stands(reg: Registry, v: Tagged, leaf: Value) {
    || Inhabits(reg, v, leaf)
    || (leaf.Concrete? && v.tag != NoneType && ConformsTo(v.tag, leaf.v.tag) && v.payload == leaf.v.payload)
  }

  lemma {:induction false} ExpandKeeps(reg: Registry, a: Value, depth: nat, v: Tagged) returns (leaf: Value)
    requires Valid(reg) && WellTagged(reg, v) && Inhabits(reg, v, a) && Expand(a, depth).Some?
    ensures leaf in Expand(a, depth).value && Stands(reg, v, leaf)
    decreases a, 0
  {
    match a
    case TypeNode(t) =>
      if t == BOOLEAN {
        NoConstraintOnBuiltin(reg, BOOLEAN);
        leaf := Bool(v.payload.b);
      } else {
        leaf := a;
      }
    case Concrete(_) =>
      leaf := NormalizeNone(a);
    case UnionNode(_, members) =>
      leaf := ExpandAllKeeps(reg, members, depth - 2, v);
  }

  lemma {:induction false} ExpandAllKeeps(reg: Registry, members: seq<Value>, depth: nat, v: Tagged)
      returns (leaf: Value)
    requires Valid(reg) && WellTagged(reg, v) && ExpandAll(members, depth).Some?
    requires exists m | m in members :: Inhabits(reg, v, m)
    ensures leaf in ExpandAll(members, depth).value && Stands(reg, v, leaf)
    decreases members, 0
  {
    assert forall m :: m in members <==> m == members[0] || m in members[1..];
    if Inhabits(reg, v, members[0]) {
      leaf := ExpandKeeps(reg, members[0], depth, v);
    } else {
      leaf := ExpandAllKeeps(reg, members[1..], depth, v);
    }
  }

  /** The same for what dispatch lets through: it reaches one of the leaves. */
  lemma {:induction false} ExpandReaches(reg: Registry, a: Value, depth: nat, v: Tagged) returns (leaf: Value)
    requires Valid(reg) && WellTagged(reg, v) && Reaches(reg, v, a) && Expand(a, depth).Some?
    ensures leaf in Expand(a, depth).value && Reaches(reg, v, leaf)
    decreases a, 0
  {
    match a
    case TypeNode(t) =>
      if t == BOOLEAN {
        BooleanReached(reg, v);
        leaf := Bool(v.payload.b);
      } else {
        leaf := a;
      }
    case Concrete(_) =>
      leaf := NormalizeNone(a);
    case UnionNode(_, members) =>
      leaf := ExpandAllReaches(reg, members, depth - 2, v);
  }

  lemma {:induction false} ExpandAllReaches(reg: Registry, members: seq<Value>, depth: nat, v: Tagged)
      returns (leaf: Value)
    requires Valid(reg) && WellTagged(reg, v) && ExpandAll(members, depth).Some?
    requires UnifyFirst(reg, members, v) != Refused
    ensures leaf in ExpandAll(members, depth).value && Reaches(reg, v, leaf)
    decreases members, 0
  {
    if Reaches(reg, v, members[0]) {
      leaf := ExpandReaches(reg, members[0], depth, v);
    } else {
      leaf := ExpandAllReaches(reg, members[1..], depth, v);
    }
  }

  /** Only Booleans unify with Boolean: the nodes above it are abstract and carry no constraint. */
  lemma BooleanReached(reg: Registry, v: Tagged)
    requires Valid(reg) && WellTagged(reg, v) && Reaches(reg, v, TypeNode(BOOLEAN))
    ensures ConformsTo(v.tag, BOOLEAN)
  {
    UnifyIs(reg, TypeNode(BOOLEAN), v);
    NoConstraintOnBuiltin(reg, BOOLEAN);
    OneUp(BOOLEAN, v.tag);
    OneUp(SCALAR, v.tag);
  }

  // ---------------------------------------------------------------- the comparisons mean their intervals

  /** The interval of a comparison is the set of numbers the run-time word says yes to. */
  lemma ComparisonIsInterval(op: Relation, x: Num, c: Num)
    requires IsFinite(c)
    ensures Holds(op, x, c) <==> ContainsValue(CmpInterval(op, c), x)
  {
    if !IsNaN(x) {
      OrdersPart(x, c);
      if x.Whole? { ZeroIsZero(x.i); }
      if c.Whole? { ZeroIsZero(c.i); }
    }
  }

  lemma Resolver(env: Env, matches: seq<Match>, r: Resolved) returns (m: Match)
    requires r in ResolveAll(env, matches)
    ensures m in matches && ResolveMatch(env, m) == r
  {
    m :| m in matches && ResolveMatch(env, m) == r;
  }

  /** The clause an interval comes from; the base of a refinement has no content. */
  lemma IntervalSource(env: Env, matches: seq<Match>, iv: Interval) returns (m: Match)
    requires Valid(env.reg) && iv in Intervals(ResolveAll(env, matches))
    ensures m in matches && BoundsOf(ResolveMatch(env, m)) == Some(iv)
    ensures iv.base.Some? ==> iv.base.value !in env.reg.content
  {
    var r :| r in ResolveAll(env, matches) && BoundsOf(r) == Some(iv);
    m := Resolver(env, matches, r);
    if iv.base.Some? {
      var t := RefinementOf(env, m, iv);
    }
  }

  /** The refinement a restricted interval was read from. */
  lemma RefinementOf(env: Env, m: Match, iv: Interval) returns (target: Value)
    requires BoundsOf(ResolveMatch(env, m)) == Some(iv) && iv.base.Some?
    ensures target.TypeNode? && RefinementBounds(env.reg, target.t) == Some(iv)
    ensures match m
      case Body(items) => |items| == 2 && items[0] == W("is") && target == OperandOf(env, items[1])
      case Word(name) => target == ResolveName(env, name)
      case Literal(lit) => target == NormalizeNone(lit)
      case Paren(_) => false
  {
    match m
    case Body(items) => target := OperandOf(env, items[1]);
    case Word(name) => target := ResolveName(env, name);
    case Literal(lit) => target := NormalizeNone(lit);
  }

  // ---------------------------------------------------------------- soundness, channel by channel

  /** -0.0 against a lower bound that is another zero, another zero against an upper bound -0.0. */
  predicate ZeroRefused(iv: Interval, x: Num) {
    || (iv.lo.At? && IsNegZero(x) && IsZero(iv.lo.x) && !IsNegZero(iv.lo.x))
    || (iv.hi.At? && IsZero(x) && !IsNegZero(x) && IsNegZero(iv.hi.x))
  }

  /** Inside the bounds and under the base, a number is a member of the refinement unless it is such a zero. */
  lemma BoundsAdmit(reg: Registry, t: Type, v: Tagged)
    requires Valid(reg) && RefinementBounds(reg, t).Some?
    requires v.payload.Number? && ConformsTo(v.tag, t.parent)
    requires ContainsValue(RefinementBounds(reg, t).value, v.payload.x)
    ensures Admits(reg, t, v) <==> !ZeroRefused(RefinementBounds(reg, t).value, v.payload.x)
  {
    var Refined(lo, hi) := reg.content[t];
    if lo.At? { OrdersPart(v.payload.x, lo.x); }
    if hi.At? { OrdersPart(v.payload.x, hi.x); }
    if v.payload.x.Whole? { ZeroIsZero(v.payload.x.i); }
  }

  /** Only members unify with a refinement or pass the test for it. */
  lemma RefinementUnifies(reg: Registry, t: Type, v: Tagged)
    requires Valid(reg) && WellTagged(reg, v) && RefinementBounds(reg, t).Some?
    ensures UnifyType(reg, t, v) != Refused <==> Admits(reg, t, v)
    ensures IsA(reg, v, TypeNode(t)) <==> Admits(reg, t, v)
  {
    if Admits(reg, t, v) {
      MemberUnifies(reg, TypeNode(t), v);
    }
  }

  /** What a clause with an interval accepts: under the base of a refinement, its members, else the interval. */
  lemma BoundsAccept(env: Env, m: Match, iv: Interval, v: Tagged)
    requires Valid(env.reg) && WellTagged(env.reg, v) && v.payload.Number?
    requires BoundsOf(ResolveMatch(env, m)) == Some(iv)
    ensures iv.base.None? ==> (Accepts(env, m, v) <==> ContainsValue(iv, v.payload.x))
    ensures iv.base.Some? && Accepts(env, m, v) ==> ConformsTo(v.tag, iv.base.value)
    ensures iv.base.Some? && ContainsValue(iv, v.payload.x) ==>
      (Accepts(env, m, v) <==> ConformsTo(v.tag, iv.base.value) && !ZeroRefused(iv, v.payload.x))
  {
    if iv.base.None? {
      var items := m.items;
      ComparisonIsInterval(RelationOf(items[0].name).value, v.payload.x, NumericValue(items[1].v).value);
    } else {
      var target := RefinementOf(env, m, iv);
      RefinementUnifies(env.reg, target.t, v);
      if ConformsTo(v.tag, target.t.parent) && ContainsValue(iv, v.payload.x) {
        BoundsAdmit(env.reg, target.t, v);
      }
    }
  }

  /** A type node covered by m: all that unifies with the node unifies with m, base values of a newtype included. */
  lemma {:induction false} NodeCoverWidens(reg: Registry, m: Value, at: Type, depth: nat, v: Tagged)
    requires Valid(reg) && WellTagged(reg, v)
    requires MatchCovers(reg, m, TypeNode(at), depth) && Reaches(reg, v, TypeNode(at))
    ensures Unify(reg, m, v) != Refused
    decreases m, 0
  {
    match m
    case TypeNode(t) => NarrowerRefusesMore(reg, at, t, v);
    case UnionNode(_, members) => SomeNodeCoverWidens(reg, members, at, depth - 2, v);
    case Concrete(_) =>
  }

  lemma {:induction false} SomeNodeCoverWidens(reg: Registry, members: seq<Value>, at: Type, depth: nat, v: Tagged)
    requires Valid(reg) && WellTagged(reg, v)
    requires SomeCovers(reg, members, TypeNode(at), depth) && Reaches(reg, v, TypeNode(at))
    ensures UnifyFirst(reg, members, v) != Refused
    decreases members, 0
  {
    if members[0].Concrete? && members[0].v.tag == NoneType {
      if depth > 0 && NodeCovers(reg, NoneType, TypeNode(at)) {
        NarrowerRefusesMore(reg, at, NoneType, v);
      } else {
        SomeNodeCoverWidens(reg, members[1..], at, depth, v);
      }
    } else if MatchCovers(reg, members[0], TypeNode(at), depth) {
      NodeCoverWidens(reg, members[0], at, depth, v);
    } else {
      SomeNodeCoverWidens(reg, members[1..], at, depth, v);
    }
  }

  /** A literal covered by m unifies with m. */
  lemma {:induction false} LiteralCovered(reg: Registry, m: Value, depth: nat, v: Tagged)
    requires Valid(reg) && WellTagged(reg, v) && MatchCovers(reg, m, Concrete(v), depth)
    ensures Unify(reg, m, v) != Refused
    decreases m, 0
  {
    match m
    case TypeNode(_) => MemberUnifies(reg, m, v);
    case Concrete(_) =>
    case UnionNode(_, members) => SomeLiteralCovered(reg, members, depth - 2, v);
  }

  lemma {:induction false} SomeLiteralCovered(reg: Registry, members: seq<Value>, depth: nat, v: Tagged)
    requires Valid(reg) && WellTagged(reg, v) && SomeCovers(reg, members, Concrete(v), depth)
    ensures UnifyFirst(reg, members, v) != Refused
    decreases members, 0
  {
    if members[0].Concrete? && members[0].v.tag == NoneType {
      if depth > 0 && NodeCovers(reg, NoneType, Concrete(v)) {
        assert Unify(reg, members[0], v) != Refused;
      } else {
        SomeLiteralCovered(reg, members[1..], depth, v);
      }
    } else if MatchCovers(reg, members[0], Concrete(v), depth) {
      LiteralCovered(reg, members[0], depth, v);
    } else {
      SomeLiteralCovered(reg, members[1..], depth, v);
    }
  }

  /** A clause that covers a leaf unifies with every value the leaf stands for. */
  lemma MatchCoversIsSound(reg: Registry, m: Value, alt: Value, depth: nat, v: Tagged)
    requires Valid(reg) && WellTagged(reg, v) && Inhabits(reg, v, alt) && IsLeaf(alt)
    requires MatchCovers(reg, m, alt, depth)
    ensures Unify(reg, m, v) != Refused
  {
    if alt.Concrete? {
      LiteralCovered(reg, m, depth, v);
    } else {
      MemberUnifies(reg, alt, v);
      NodeCoverWidens(reg, m, alt.t, depth, v);
    }
  }

  /** v is a U whenever it is a T below U: the test never narrows on the way up. */
  lemma IsAWidens(reg: Registry, narrow: Type, wide: Type, v: Tagged)
    requires Valid(reg) && WellTagged(reg, v) && ConformsTo(narrow, wide)
    requires IsA(reg, v, TypeNode(narrow))
    ensures IsA(reg, v, TypeNode(wide))
  {
    if ConformsTo(v.tag, wide) {
      TagSuffices(reg, wide, v);
    } else if narrow != wide {
      if ConformsTo(v.tag, narrow) {
        ConformsTransitive(v.tag, narrow, wide);
      }
      NearestAbove(reg, narrow, wide);
      match Nearest(reg, narrow)
      case Some(c) =>
        if Admits(reg, c, v) && ConformsTo(c.parent, wide) {
          ConformsTransitive(v.tag, c.parent, wide);
        }
      case None =>
    }
  }

  /** [is T] earns its credit on every value the leaf stands for, when T is a type node. */
  lemma IsCoversIsSound(reg: Registry, target: Value, alt: Value, v: Tagged)
    requires Valid(reg) && WellTagged(reg, v) && Inhabits(reg, v, alt) && IsLeaf(alt)
    requires target.TypeNode? && IsCovers(reg, target, alt)
    ensures IsA(reg, v, target)
  {
    MemberUnifies(reg, if alt.Concrete? then target else alt, v);
    if alt.TypeNode? {
      IsAWidens(reg, alt.t, target.t, v);
    }
  }

  /** What one end of a clause's interval lets in: by the total order under a base, else as the words compare. */
  predicate LowLetsIn(iv: Interval, x: Num) {
    if iv.base.Some? then RespectsLow(iv.lo, x) else AboveLow(iv.lo, x)
  }

  predicate HighLetsIn(iv: Interval, x: Num) {
    if iv.base.Some? then RespectsHigh(iv.hi, x) else BelowHigh(iv.hi, x)
  }

  /** Exactly which numbers a clause with an interval accepts. */
  lemma AcceptedNumbers(env: Env, m: Match, iv: Interval, v: Tagged)
    requires Valid(env.reg) && WellTagged(env.reg, v) && BoundsOf(ResolveMatch(env, m)) == Some(iv)
    ensures Accepts(env, m, v) <==>
      && v.payload.Number? && (iv.base.Some? ==> ConformsTo(v.tag, iv.base.value))
      && (iv.base.None? ==> !IsNaN(v.payload.x))
      && LowLetsIn(iv, v.payload.x) && HighLetsIn(iv, v.payload.x)
  {
    if iv.base.Some? {
      var target := RefinementOf(env, m, iv);
      RefinementUnifies(env.reg, target.t, v);
    } else if v.payload.Number? {
      BoundsAccept(env, m, iv, v);
    }
  }

  /** Only integers reach a type of the Integer family. */
  lemma IntegerReached(reg: Registry, at: Type, v: Tagged)
    requires Valid(reg) && WellTagged(reg, v) && Reaches(reg, v, TypeNode(at)) && ConformsTo(at, INTEGER)
    ensures ConformsTo(v.tag, INTEGER)
  {
    NarrowerRefusesMore(reg, at, INTEGER, v);
    UnifyIs(reg, TypeNode(INTEGER), v);
    NoConstraintOnBuiltin(reg, INTEGER);
    OneUp(INTEGER, v.tag);
    OneUp(NUMBER, v.tag);
    OneUp(SCALAR, v.tag);
  }


  // ---------------------------------------------------------------- values that stand in for a literal

  predicate StrictlyBelow(a: Type, b: Type) {
    a != b && ConformsTo(a, b)
  }

  /** Neither tag is above the other, although both are below a third. */
  predicate Beside(a: Type, b: Type, above: Type) {
    StrictlyBelow(a, above) && StrictlyBelow(b, above) && !ConformsTo(a, b) && !ConformsTo(b, a)
  }

  /** A literal d credited with the literal c keeps v, unless v has d's tag and another payload, or a tag beside d's. */
  predicate LiteralKeeps(d: Tagged, c: Tagged, v: Tagged) {
    !(d.tag == v.tag && d.payload != v.payload) && !Beside(d.tag, v.tag, c.tag)
  }

  /** A node credited with a literal keeps v, unless v is not below it and a constraint above it refuses v. */
  predicate NodeKeeps(reg: Registry, t: Type, v: Tagged) {
    ConformsTo(v.tag, t) || Nearest(reg, t) == None || Admits(reg, Nearest(reg, t).value, v)
  }

  /** Whether m keeps a value that stands in for c: by a member credited with c, or by one that takes v by itself. */
  predicate KeepsStandIn(reg: Registry, m: Value, c: Tagged, v: Tagged, depth: nat)
    decreases m, 0
  {
    match m
    case TypeNode(t) => if MatchCovers(reg, m, Concrete(c), depth) then NodeKeeps(reg, t, v) else TakesNode(reg, t, v)
    case Concrete(d) => if MatchCovers(reg, m, Concrete(c), depth) then LiteralKeeps(d, c, v) else TakesLiteral(d, v)
    case UnionNode(_, members) => SomeKeeps(reg, members, c, v, if depth > 2 then depth - 2 else 0)
  }

  predicate SomeKeeps(reg: Registry, members: seq<Value>, c: Tagged, v: Tagged, depth: nat)
    decreases members, 0
  {
    members != [] && (KeepsStandIn(reg, members[0], c, v, depth) || SomeKeeps(reg, members[1..], c, v, depth))
  }

  lemma NodeKeepsIs(reg: Registry, t: Type, c: Tagged, v: Tagged)
    requires Valid(reg) && WellTagged(reg, v)
    requires UnifyScalars(c, v) != Refused && c.tag != v.tag && Member(reg, c, TypeNode(t))
    ensures TakesNode(reg, t, v) <==> NodeKeeps(reg, t, v)
  {
    if Nearest(reg, t) == None {
      if ConformsTo(v.tag, c.tag) {
        ConformsTransitive(v.tag, c.tag, t);
      } else {
        ChainIsLinear(c.tag, v.tag, t);
      }
    }
  }

  lemma LiteralKeepsIs(d: Tagged, c: Tagged, v: Tagged)
    requires UnifyScalars(c, v) != Refused && c.tag != v.tag && UnifyScalars(d, c) != Refused
    ensures TakesLiteral(d, v) <==> LiteralKeeps(d, c, v)
  {
    if ConformsTo(c.tag, d.tag) && ConformsTo(c.tag, v.tag) {
      ChainIsLinear(c.tag, d.tag, v.tag);
    }
    if ConformsTo(v.tag, c.tag) && ConformsTo(c.tag, d.tag) {
      ConformsTransitive(v.tag, c.tag, d.tag);
    }
    if ConformsTo(d.tag, c.tag) && ConformsTo(c.tag, v.tag) {
      ConformsTransitive(d.tag, c.tag, v.tag);
    }
  }

  /** Exactly when a match takes a value that stands in for a literal. */
  lemma {:induction false} KeepsStandInIs(reg: Registry, m: Value, c: Tagged, v: Tagged, depth: nat)
    requires Valid(reg) && WellTagged(reg, v) && UnifyScalars(c, v) != Refused && c.tag != v.tag
    ensures Unify(reg, m, v) != Refused <==> KeepsStandIn(reg, m, c, v, depth)
    decreases m, 0
  {
    UnifyIs(reg, m, v);
    match m
    case TypeNode(t) =>
      if MatchCovers(reg, m, Concrete(c), depth) { NodeKeepsIs(reg, t, c, v); }
    case Concrete(d) =>
      if MatchCovers(reg, m, Concrete(c), depth) { LiteralKeepsIs(d, c, v); }
    case UnionNode(_, members) => SomeKeepsIs(reg, members, c, v, if depth > 2 then depth - 2 else 0);
  }

  lemma {:induction false} SomeKeepsIs(reg: Registry, members: seq<Value>, c: Tagged, v: Tagged, depth: nat)
    requires Valid(reg) && WellTagged(reg, v) && UnifyScalars(c, v) != Refused && c.tag != v.tag
    ensures UnifyFirst(reg, members, v) != Refused <==> SomeKeeps(reg, members, c, v, depth)
    decreases members, 0
  {
    if members != [] {
      KeepsStandInIs(reg, members[0], c, v, depth);
      SomeKeepsIs(reg, members[1..], c, v, depth);
    }
  }

  /** A test credited with a literal keeps a value below its node or admitted by the constraint on it; else its taker. */
  predicate TestKeeps(reg: Registry, target: Value, v: Tagged) {
    if target.TypeNode? then
      ConformsTo(v.tag, target.t) || (Nearest(reg, target.t).Some? && Admits(reg, Nearest(reg, target.t).value, v))
    else Recognized(reg, target, v)
  }

  lemma TestKeepsIs(reg: Registry, target: Value, v: Tagged)
    requires Valid(reg) && WellTagged(reg, v) && v.tag != NoneType
    ensures IsA(reg, v, target) <==> TestKeeps(reg, target, v)
  {
    IsAIs(reg, target, v);
  }

  // ---------------------------------------------------------------- the clauses that count, and those spared

  /** The interval counts for v on the leaf: it admits the literal, or its span holds the integer v. */
  predicate BoundsCount(reg: Registry, iv: Interval, leaf: Value, v: Tagged)
    requires IsLeaf(leaf)
  {
    match leaf
    case Concrete(c) => PointAdmits(reg, iv, c)
    case TypeNode(at) =>
      ConformsTo(at, INTEGER) && Applies(iv, at)
      && v.payload.Number? && v.payload.x.Whole? && InSpan(iv, v.payload.x.i)
  }

  /** The clause is credited with the leaf, on its own or through its interval. */
  predicate Counts(reg: Registry, r: Resolved, leaf: Value, v: Tagged)
    requires IsLeaf(leaf)
  {
    Credits(reg, r, leaf) || (BoundsOf(r).Some? && BoundsCount(reg, BoundsOf(r).value, leaf, v))
  }

  /** The target's first taker of v answers with itself: a newtype's node, or a literal, strictly below v's tag. */
  predicate BareTaker(reg: Registry, target: Value, v: Tagged) {
    Taker(reg, target, v).Some? && Bare(reg, Taker(reg, target, v).value, v)
  }

  predicate CreditSpared(reg: Registry, r: Resolved, leaf: Value, v: Tagged) {
    match r
    case IsTest(target) => if StandsIn(v, leaf) then TestKeeps(reg, target, v) else !BareTaker(reg, target, v)
    case Plain(x, _) => StandsIn(v, leaf) ==> KeepsStandIn(reg, x, leaf.v, v, DEPTH)
    case _ => true
  }

  predicate BoundsSpared(iv: Interval, leaf: Value, v: Tagged) {
    v.payload.Number? &&
    if StandsIn(v, leaf) then
      && (if iv.base.Some? then ConformsTo(v.tag, iv.base.value) else !IsNaN(v.payload.x))
      && LowLetsIn(iv, v.payload.x) && HighLetsIn(iv, v.payload.x)
    else
      && (leaf.TypeNode? ==> !TouchesOpen(iv, v.payload.x))
      && (iv.base.Some? ==> ConformsTo(v.tag, iv.base.value) && !ZeroRefused(iv, v.payload.x))
  }

  /**
    What can go wrong with a clause that counts. A test: its first taker is bare. An interval: v is an exclusive
    float end as a float64, is not under the base, or is a refused zero. A value standing in for a literal: the
    clause does not keep it.
  */
  predicate Spared(reg: Registry, r: Resolved, leaf: Value, v: Tagged)
    requires IsLeaf(leaf)
  {
    if Credits(reg, r, leaf) then CreditSpared(reg, r, leaf, v)
    else BoundsOf(r).Some? && BoundsSpared(BoundsOf(r).value, leaf, v)
  }

  /** No node of a leaf is refined from a union that a clause tests for. */
  predicate Unrefined(r: Resolved, leaf: Value) {
    r.IsTest? && r.target.UnionNode? && leaf.TypeNode? ==> !ConformsTo(leaf.t, r.target.t)
  }

  /** A value that reaches a literal and is not it has another tag than it. */
  lemma StandInTags(reg: Registry, leaf: Value, v: Tagged)
    requires WellTagged(reg, v) && IsLeaf(leaf) && StandsIn(v, leaf) && Reaches(reg, v, leaf)
    ensures UnifyScalars(leaf.v, v) != Refused && leaf.v.tag != v.tag && v.tag != NoneType
  {
  }

  /** A credited test has a taker for the value, which is no stand-in. */
  lemma CreditedTest(reg: Registry, target: Value, leaf: Value, v: Tagged)
    requires Valid(reg) && WellTagged(reg, v) && IsLeaf(leaf) && Reaches(reg, v, leaf) && !StandsIn(v, leaf)
    requires !target.Concrete? && IsCovers(reg, target, leaf) && Unrefined(IsTest(target), leaf)
    ensures Taker(reg, target, v).Some?
  {
    UnifyIs(reg, target, v);
    if leaf.Concrete? {
      MemberUnifies(reg, target, v);
    } else {
      NarrowerRefusesMore(reg, leaf.t, target.t, v);
    }
  }

  lemma CreditIsExact(env: Env, m: Match, leaf: Value, v: Tagged)
    requires Valid(env.reg) && WellTagged(env.reg, v) && IsLeaf(leaf) && Reaches(env.reg, v, leaf)
    requires Credits(env.reg, ResolveMatch(env, m), leaf) && Unrefined(ResolveMatch(env, m), leaf)
    ensures Accepts(env, m, v) <==> CreditSpared(env.reg, ResolveMatch(env, m), leaf, v)
  {
    if StandsIn(v, leaf) {
      StandInTags(env.reg, leaf, v);
    }
    match ResolveMatch(env, m)
    case IsTest(target) =>
      if StandsIn(v, leaf) {
        TestKeepsIs(env.reg, target, v);
      } else {
        IsAIs(env.reg, target, v);
        CreditedTest(env.reg, target, leaf, v);
      }
    case Plain(x, _) =>
      if leaf.TypeNode? {
        NodeCoverWidens(env.reg, x, leaf.t, DEPTH, v);
      } else if v == leaf.v {
        LiteralCovered(env.reg, x, DEPTH, v);
      } else {
        KeepsStandInIs(env.reg, x, leaf.v, v, DEPTH);
      }
  }

  /** At an exclusive float end the total order refuses an integer of the span, as the words do. */
  lemma OpenEndRefuses(iv: Interval, i: int64)
    requires InSpan(iv, i) && TouchesOpen(iv, Whole(i))
    ensures !(LowLetsIn(iv, Whole(i)) && HighLetsIn(iv, Whole(i)))
  {
    LowSpanMeansTest(iv.lo, i);
    HighSpanMeansTest(iv.hi, i);
    if iv.lo.At? { OrdersPart(Whole(i), iv.lo.x); }
    if iv.hi.At? { OrdersPart(Whole(i), iv.hi.x); }
  }

  lemma BoundsAreExact(env: Env, m: Match, iv: Interval, leaf: Value, v: Tagged)
    requires Valid(env.reg) && WellTagged(env.reg, v) && IsLeaf(leaf)
    requires BoundsOf(ResolveMatch(env, m)) == Some(iv) && BoundsCount(env.reg, iv, leaf, v)
    ensures Accepts(env, m, v) <==> BoundsSpared(iv, leaf, v)
  {
    AcceptedNumbers(env, m, iv, v);
    if v.payload.Number? && !StandsIn(v, leaf) {
      BoundsAccept(env, m, iv, v);
      if leaf.TypeNode? {
        SpanMeansTest(iv, v.payload.x.i);
        if TouchesOpen(iv, v.payload.x) { OpenEndRefuses(iv, v.payload.x.i); }
      }
    }
  }

  /** A clause that counts for a value accepts it, if and only if it is spared. */
  lemma CountedIsExact(env: Env, m: Match, leaf: Value, v: Tagged)
    requires Valid(env.reg) && WellTagged(env.reg, v) && IsLeaf(leaf) && Reaches(env.reg, v, leaf)
    requires Counts(env.reg, ResolveMatch(env, m), leaf, v) && Unrefined(ResolveMatch(env, m), leaf)
    ensures Accepts(env, m, v) <==> Spared(env.reg, ResolveMatch(env, m), leaf, v)
  {
    var r := ResolveMatch(env, m);
    if Credits(env.reg, r, leaf) {
      CreditIsExact(env, m, leaf, v);
    } else {
      BoundsAreExact(env, m, BoundsOf(r).value, leaf, v);
    }
  }

  /** For each value that reaches a covered leaf some clause counts. */
  lemma CoveredCounts(env: Env, matches: seq<Match>, leaf: Value, v: Tagged) returns (m: Match)
    requires Valid(env.reg) && WellTagged(env.reg, v) && IsLeaf(leaf) && Reaches(env.reg, v, leaf)
    requires CoveredBy(env.reg, ResolveAll(env, matches), leaf)
    ensures m in matches && Counts(env.reg, ResolveMatch(env, m), leaf, v)
  {
    var rs := ResolveAll(env, matches);
    if r :| r in rs && Credits(env.reg, r, leaf) {
      m := Resolver(env, matches, r);
    } else {
      var iv := CountingInterval(env.reg, Intervals(rs), leaf, v);
      m := IntervalSource(env, matches, iv);
    }
  }

  lemma CountingInterval(reg: Registry, ivals: seq<Interval>, leaf: Value, v: Tagged) returns (iv: Interval)
    requires Valid(reg) && WellTagged(reg, v) && IsLeaf(leaf) && Reaches(reg, v, leaf)
    requires IntervalsCredit(reg, ivals, leaf)
    ensures iv in ivals && BoundsCount(reg, iv, leaf, v)
  {
    match leaf
    case Concrete(c) =>
      iv :| iv in ivals && PointAdmits(reg, iv, c);
    case TypeNode(at) =>
      IntegerReached(reg, at, v);
      var i: int64 := v.payload.x.i;
      assert SomeSpan(ivals, at, i);
      iv :| iv in ivals && Applies(iv, at) && InSpan(iv, i);
  }

  // ---------------------------------------------------------------- values of the leaf itself

  /** The failures left for a value of the leaf itself. */
  predicate Sure(reg: Registry, r: Resolved, leaf: Value, v: Tagged)
    requires IsLeaf(leaf)
  {
    if Credits(reg, r, leaf) then
      r.IsTest? && r.target.UnionNode? ==> !BareTaker(reg, r.target, v)
    else
      BoundsOf(r).Some? && v.payload.Number? ==>
        && (leaf.TypeNode? ==> !TouchesOpen(BoundsOf(r).value, v.payload.x))
        && (BoundsOf(r).value.base.Some? ==> !ZeroRefused(BoundsOf(r).value, v.payload.x))
  }

  /** A value of the leaf is only ever missed by a test for a union, at an exclusive float end, or as a refused zero. */
  lemma InhabitantIsSpared(env: Env, m: Match, leaf: Value, v: Tagged)
    requires Valid(env.reg) && WellTagged(env.reg, v) && IsLeaf(leaf) && Inhabits(env.reg, v, leaf)
    requires Counts(env.reg, ResolveMatch(env, m), leaf, v)
    ensures Spared(env.reg, ResolveMatch(env, m), leaf, v) <==> Sure(env.reg, ResolveMatch(env, m), leaf, v)
  {
    var r := ResolveMatch(env, m);
    if Credits(env.reg, r, leaf) {
      if r.IsTest? && r.target.TypeNode? {
        IsCoversIsSound(env.reg, r.target, leaf, v);
        IsAIs(env.reg, r.target, v);
      }
    } else {
      CountedNumber(env, m, BoundsOf(r).value, leaf, v);
    }
  }

  lemma CountedNumber(env: Env, m: Match, iv: Interval, leaf: Value, v: Tagged)
    requires Valid(env.reg) && IsLeaf(leaf) && Inhabits(env.reg, v, leaf)
    requires BoundsOf(ResolveMatch(env, m)) == Some(iv) && BoundsCount(env.reg, iv, leaf, v)
    ensures v.payload.Number? && (iv.base.Some? ==> ConformsTo(v.tag, iv.base.value))
  {
    if iv.base.Some? {
      var target := RefinementOf(env, m, iv);
      if leaf.TypeNode? {
        ConformsTransitive(v.tag, if leaf.t in env.reg.content then leaf.t.parent else leaf.t, iv.base.value);
      }
    }
  }

  /**
    A base value that a newtype alternative lets through: plain clauses accept it, a test exactly when its target is
    above the value's tag.
  */
  lemma LooseArrival(env: Env, m: Match, at: Type, v: Tagged)
    requires Valid(env.reg) && WellTagged(env.reg, v) && Unify(env.reg, TypeNode(at), v) == TheNode
    requires Credits(env.reg, ResolveMatch(env, m), TypeNode(at))
    ensures ResolveMatch(env, m).Plain? ==> Accepts(env, m, v)
    ensures var r := ResolveMatch(env, m);
      r.IsTest? && r.target.TypeNode? ==> (Accepts(env, m, v) <==> ConformsTo(v.tag, r.target.t))
  {
    var r := ResolveMatch(env, m);
    if r.Plain? || (r.IsTest? && r.target.TypeNode?) {
      CreditIsExact(env, m, TypeNode(at), v);
    }
    UnifyIs(env.reg, TypeNode(at), v);
    if r.IsTest? && r.target.TypeNode? {
      CreditedTest(env.reg, r.target, TypeNode(at), v);
      NearestAbove(env.reg, at, r.target.t);
      if ConformsTo(v.tag, r.target.t) && ConformsTo(r.target.t, v.tag) {
        ConformsAntisymmetric(v.tag, r.target.t);
      }
    }
  }

  // ---------------------------------------------------------------- the theorems

  /** The values of the scrutinee's static type. */
  predicate InScrutinee(reg: Registry, v: Tagged, s: Scrutinee) {
    match s
    case OfType(t) => Inhabits(reg, v, t)
    case OfUnion(alts, _) => exists a | a in alts :: Inhabits(reg, v, a)
    case Known(c) => v == c
    case _ => true
  }

  /** The values dispatch lets through to a parameter of that type: of a union, all that unify with some alternative. */
  predicate Dispatched(reg: Registry, v: Tagged, s: Scrutinee) {
    match s
    case OfType(t) => if t.UnionNode? then Reaches(reg, v, t) else Inhabits(reg, v, t)
    case OfUnion(alts, _) => UnifyFirst(reg, alts, v) != Refused
    case Known(c) => v == c
    case _ => true
  }

  lemma LeafReached(reg: Registry, leaf: Value, v: Tagged)
    requires Valid(reg) && WellTagged(reg, v) && IsLeaf(leaf) && Inhabits(reg, v, leaf)
    ensures Reaches(reg, v, leaf)
  {
    if leaf.TypeNode? {
      MemberUnifies(reg, leaf, v);
    }
  }

  lemma AnyAccepts(env: Env, matches: seq<Match>, v: Tagged) returns (m: Match)
    requires Valid(env.reg) && WellTagged(env.reg, v) && HasAnyClause(ResolveAll(env, matches))
    ensures m in matches && Accepts(env, m, v)
  {
    var r :| r in ResolveAll(env, matches) && IsAnyClause(r);
    m := Resolver(env, matches, r);
    TagSuffices(env.reg, Any, v);
  }


  /** Some clause counts for the value and is spared. */
  predicate SomeSpared(env: Env, matches: seq<Match>, leaf: Value, v: Tagged)
    requires IsLeaf(leaf)
  {
    exists n | n in matches ::
      Counts(env.reg, ResolveMatch(env, n), leaf, v) && Spared(env.reg, ResolveMatch(env, n), leaf, v)
  }

  /** On a covered leaf: a clause that counts, and that accepts the value if any clause that counts is spared. */
  lemma CoveredIsAccepted(env: Env, matches: seq<Match>, leaf: Value, v: Tagged) returns (m: Match)
    requires Valid(env.reg) && WellTagged(env.reg, v) && IsLeaf(leaf) && Reaches(env.reg, v, leaf)
    requires CoveredBy(env.reg, ResolveAll(env, matches), leaf)
    requires forall n | n in matches :: Unrefined(ResolveMatch(env, n), leaf)
    ensures m in matches && Counts(env.reg, ResolveMatch(env, m), leaf, v)
    ensures Accepts(env, m, v) <==> SomeSpared(env, matches, leaf, v)
  {
    if SomeSpared(env, matches, leaf, v) {
      m :| m in matches
        && Counts(env.reg, ResolveMatch(env, m), leaf, v) && Spared(env.reg, ResolveMatch(env, m), leaf, v);
    } else {
      m := CoveredCounts(env, matches, leaf, v);
    }
    CountedIsExact(env, m, leaf, v);
  }

  lemma StandsReaches(reg: Registry, leaf: Value, v: Tagged)
    requires Valid(reg) && WellTagged(reg, v) && IsLeaf(leaf) && Stands(reg, v, leaf)
    ensures Reaches(reg, v, leaf)
  {
    if Inhabits(reg, v, leaf) {
      LeafReached(reg, leaf, v);
    }
  }

  predicate Typed(s: Scrutinee) {
    s.OfType? || s.OfUnion? || s.Known?
  }

  predicate NoneRefined(env: Env, s: Scrutinee, matches: seq<Match>) {
    Alternatives(s).Some? ==>
      forall n, l | n in matches && l in Alternatives(s).value :: Unrefined(ResolveMatch(env, n), l)
  }

  /**
    The theorem of the pass: for every value of the scrutinee's static type some clause counts, and the one returned
    accepts it as soon as one that counts is spared.
  */
  lemma ExhaustiveCaseMatches(env: Env, s: Scrutinee, matches: seq<Match>, v: Tagged) returns (leaf: Value, m: Match)
    requires Valid(env.reg) && WellTagged(env.reg, v) && InScrutinee(env.reg, v, s) && Typed(s)
    requires Passes(env, s, matches) && NoneRefined(env, s, matches)
    ensures leaf in Alternatives(s).value && Stands(env.reg, v, leaf)
    ensures m in matches && Counts(env.reg, ResolveMatch(env, m), leaf, v)
    ensures Accepts(env, m, v) <==> SomeSpared(env, matches, leaf, v)
  {
    match s {
      case OfType(t) => leaf := ExpandKeeps(env.reg, t, DEPTH, v);
      case OfUnion(alts, _) => leaf := ExpandAllKeeps(env.reg, alts, DEPTH - 1, v);
      case Known(c) => leaf := NormalizeNone(Concrete(c));
    }
    StandsReaches(env.reg, leaf, v);
    m := CoveredIsAccepted(env, matches, leaf, v);
  }

  /** The same for everything dispatch lets through: each value reaches a leaf. */
  lemma DispatchedCaseMatches(env: Env, s: Scrutinee, matches: seq<Match>, v: Tagged) returns (leaf: Value, m: Match)
    requires Valid(env.reg) && WellTagged(env.reg, v) && Dispatched(env.reg, v, s) && Typed(s)
    requires Passes(env, s, matches) && NoneRefined(env, s, matches)
    ensures leaf in Alternatives(s).value && Reaches(env.reg, v, leaf)
    ensures m in matches && Counts(env.reg, ResolveMatch(env, m), leaf, v)
    ensures Accepts(env, m, v) <==> SomeSpared(env, matches, leaf, v)
  {
    match s {
      case OfType(t) =>
        if t.TypeNode? { MemberUnifies(env.reg, t, v); }
        leaf := ExpandReaches(env.reg, t, DEPTH, v);
      case OfUnion(alts, _) => leaf := ExpandAllReaches(env.reg, alts, DEPTH - 1, v);
      case Known(c) =>
        leaf := NormalizeNone(Concrete(c));
        LeafReached(env.reg, leaf, v);
    }
    m := CoveredIsAccepted(env, matches, leaf, v);
  }

  /** A clause whose credit no value of a leaf misses: no test for a union, steps that move, no zero bound of a refinement. */
  predicate Clean(r: Resolved) {
    && !(r.IsTest? && r.target.UnionNode?)
    && (BoundsOf(r).Some? ==> Steps(BoundsOf(r).value))
    && (BoundsOf(r).Some? && BoundsOf(r).value.base.Some? ==>
      var iv := BoundsOf(r).value;
      !(iv.lo.At? && IsZero(iv.lo.x)) && !(iv.hi.At? && IsZero(iv.hi.x)))
  }

  lemma CleanIsSure(reg: Registry, r: Resolved, leaf: Value, v: Tagged)
    requires IsLeaf(leaf) && Clean(r) && Counts(reg, r, leaf, v)
    ensures Sure(reg, r, leaf, v)
  {
    if !Credits(reg, r, leaf) && leaf.TypeNode? {
      var iv, i := BoundsOf(r).value, v.payload.x.i;
      LowInSpan(iv.lo, i);
      HighInSpan(iv.hi, i);
      LowSpanMeansTest(iv.lo, i);
      HighSpanMeansTest(iv.hi, i);
    }
  }

  /** With clean clauses only: every value of a leaf is accepted. What the pass promises, with what it takes. */
  lemma CleanCaseMatches(env: Env, s: Scrutinee, matches: seq<Match>, v: Tagged) returns (leaf: Value, m: Match)
    requires Valid(env.reg) && WellTagged(env.reg, v) && InScrutinee(env.reg, v, s) && Typed(s)
    requires Passes(env, s, matches) && NoneRefined(env, s, matches)
    requires forall n | n in matches :: Clean(ResolveMatch(env, n))
    ensures leaf in Alternatives(s).value && Stands(env.reg, v, leaf) && m in matches
    ensures Inhabits(env.reg, v, leaf) ==> Accepts(env, m, v)
  {
    leaf, m := ExhaustiveCaseMatches(env, s, matches, v);
    if Inhabits(env.reg, v, leaf) {
      CleanIsSure(env.reg, ResolveMatch(env, m), leaf, v);
      InhabitantIsSpared(env, m, leaf, v);
    }
  }

  /** A gradual scrutinee: the catch-all clause the pass asks for accepts every value. */
  lemma GradualCaseMatches(env: Env, matches: seq<Match>, v: Tagged) returns (m: Match)
    requires Valid(env.reg) && WellTagged(env.reg, v) && Passes(env, Gradual, matches)
    ensures m in matches && Accepts(env, m, v)
  {
    m := AnyAccepts(env, matches, v);
  }
}
