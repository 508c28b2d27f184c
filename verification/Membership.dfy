/**
  Run-time membership of a value in a type, as `case` clauses meet it: the unify relation over
  type nodes, unions and scalars (core/go/unify.go, unify_lca.go, unify_dep.go, unify_disjunct.go),
  the `is` word (lang/go/native/native_type.go) and the orders on numbers (core/go/compare.go).
*/
module Membership {
  import opened Int64
  import opened Doubles
  import opened Lattice
  import opened Wrappers
  import opened CaseIntervals

  const BOOLEAN := Node(SCALAR, "Boolean", false)

  datatype Payload = Number(x: Num) | Truth(b: bool) | Nothing | Other(key: string)

  /** A run-time value: a payload under a lattice tag. */
  datatype Tagged = Tagged(tag: Type, payload: Payload)

  /** The value none. */
  const NONE := Tagged(NoneType, Nothing)

  function Number64(i: int64): Tagged {
    Tagged(INTEGER, Number(Whole(i)))
  }

  function Number53(f: Double): Tagged {
    Tagged(FLOAT, Number(Fraction(f)))
  }

  /** A value in match position or in a union: a type node, a union's node with its members, a value. */
  datatype Value =
    | TypeNode(t: Type)
    | UnionNode(t: Type, members: seq<Value>)
    | Concrete(v: Tagged)

  /** What a user type demands of a value besides its tag: numeric bounds, or a predicate body. */
  datatype Content = Refined(lo: Limit, hi: Limit) | Predicate

  datatype Registry = Registry(
    names: map<string, Value>,
    content: map<Type, Content>,
    accepts: (Tagged, Type) -> bool
  )

  /** Content belongs to nodes minted by users; a refinement has a bound and a base without content. */
  ghost predicate Valid(reg: Registry) {
    && (forall c | c in reg.content :: c.Node? && c.user)
    && (forall c | c in reg.content && reg.content[c].Refined? ::
      reg.content[c] != Refined(Unbounded, Unbounded) && c.parent !in reg.content)
  }

  // ---------------------------------------------------------------- orders on numbers

  predicate IsNegZero(x: Num) {
    x == Fraction(NegZero)
  }

  /** The total order behind sorting and refinement bounds: NaN is greatest, -0.0 before every zero. */
  function TotalCmp(x: Num, y: Num): int {
    if x.Whole? && y.Whole? then BoundCmp(x, y)
    else if IsNaN(x) || IsNaN(y) then
      if IsNaN(x) && IsNaN(y) then 0 else if IsNaN(x) then 1 else -1
    else if BoundCmp(x, y) != 0 then BoundCmp(x, y)
    else if IsNegZero(x) == IsNegZero(y) then 0
    else if IsNegZero(x) then -1
    else 1
  }

  predicate IsZero(x: Num) {
    x == Whole(0) || x == Fraction(NegZero) || x == Fraction(Finite(0.0))
  }

  datatype Relation = Gt | Gte | Lt | Lte | Eq

  /** The relational words: unordered on NaN, and the two zeros are one. */
  predicate Holds(op: Relation, x: Num, y: Num) {
    if IsNaN(x) || IsNaN(y) then false
    else
      var c := if IsZero(x) && IsZero(y) then 0 else TotalCmp(x, y);
      match op
      case Gt => c > 0
      case Gte => c >= 0
      case Lt => c < 0
      case Lte => c <= 0
      case Eq => c == 0
  }

  predicate RespectsLow(lo: Limit, x: Num) {
    lo.At? ==> TotalCmp(x, lo.x) > 0 || (TotalCmp(x, lo.x) == 0 && lo.incl)
  }

  predicate RespectsHigh(hi: Limit, x: Num) {
    hi.At? ==> TotalCmp(x, hi.x) < 0 || (TotalCmp(x, hi.x) == 0 && hi.incl)
  }

  // ---------------------------------------------------------------- unify

  datatype Outcome = Refused | TheValue | TheNode

  /** The verdict of the constraint a node carries. */
  predicate Admits(reg: Registry, c: Type, v: Tagged)
    requires c in reg.content
  {
    c.Node? && ConformsTo(v.tag, c.parent) &&
    match reg.content[c]
    case Refined(lo, hi) =>
      v.payload.Number? && RespectsLow(lo, v.payload.x) && RespectsHigh(hi, v.payload.x)
    case Predicate => reg.accepts(v, c)
  }

  /** The first node from t upward that carries a constraint. */
  function Nearest(reg: Registry, t: Type): (c: Option<Type>)
    ensures c.Some? ==> c.value in reg.content && ConformsTo(t, c.value)
  {
    if t in reg.content then Some(t) else if t.Node? then Nearest(reg, t.parent) else None
  }

  /** A type node against a value: the constraint nearest to the narrower of the two decides. */
  function UnifyType(reg: Registry, t: Type, v: Tagged): Outcome {
    if t in reg.content && reg.content[t].Predicate? then
      if Admits(reg, t, v) then TheValue else Refused
    else if t !in reg.content && t == Any then TheValue
    else if t !in reg.content && (t == NoneType || t == Never || v.tag == NoneType) then
      if t == v.tag then TheValue else Refused
    else
      match Nearest(reg, if ConformsTo(v.tag, t) then v.tag else t)
      case Some(c) => if Admits(reg, c, v) then TheValue else Refused
      case None =>
        if ConformsTo(v.tag, t) then TheValue
        else if ConformsTo(t, v.tag) then TheNode
        else Refused
  }

  /** Two scalars: under one tag the same payload, where NaN is NaN and -0.0 is not 0.0; under comparable tags the narrower side is the answer. */
  function UnifyScalars(c: Tagged, v: Tagged): Outcome {
    if c.tag == NoneType || v.tag == NoneType then
      if c.tag == v.tag then TheValue else Refused
    else if c.tag == v.tag then
      if c.payload == v.payload then TheValue else Refused
    else if ConformsTo(v.tag, c.tag) then TheValue
    else if ConformsTo(c.tag, v.tag) then TheNode
    else Refused
  }

  function Unify(reg: Registry, m: Value, v: Tagged): Outcome {
    match m
    case TypeNode(t) => UnifyType(reg, t, v)
    case Concrete(c) => UnifyScalars(c, v)
    case UnionNode(_, members) => UnifyFirst(reg, members, v)
  }

  /** The first member that does not refuse answers for the union. */
  function UnifyFirst(reg: Registry, members: seq<Value>, v: Tagged): Outcome {
    if members == [] then Refused
    else
      var first := Unify(reg, members[0], v);
      if first != Refused then first else UnifyFirst(reg, members[1..], v)
  }

  /** v is a T: a type's own matcher may say yes, otherwise unify must give back the value itself. */
  predicate IsA(reg: Registry, v: Tagged, target: Value) {
    (target.TypeNode? && target.t in reg.content && Admits(reg, target.t, v))
    || Unify(reg, target, v) == TheValue
  }

  /** v.Is(t) of the kernel, the loose form: for a union, any member that does not refuse. */
  predicate Member(reg: Registry, v: Tagged, target: Value) {
    match target
    case TypeNode(t) => if t in reg.content then Admits(reg, t, v) else ConformsTo(v.tag, t)
    case UnionNode(_, _) => Unify(reg, target, v) != Refused
    case Concrete(_) => false
  }

  // ---------------------------------------------------------------- well-tagged values

  /** A tag promises its payload, and everything its ancestors demand; no value has an abstract tag. */
  ghost predicate WellTagged(reg: Registry, v: Tagged) {
    && (forall c | c in reg.content && ConformsTo(v.tag, c) :: Admits(reg, c, v))
    && (ConformsTo(v.tag, INTEGER) <==> v.payload.Number? && v.payload.x.Whole?)
    && (ConformsTo(v.tag, FLOAT) <==> v.payload.Number? && v.payload.x.Fraction?)
    && (ConformsTo(v.tag, BOOLEAN) ==> v.payload.Truth?)
    && (ConformsTo(v.tag, NoneType) ==> v == NONE)
    && v.tag !in {Any, SCALAR, NUMBER} && !ConformsTo(v.tag, Never)
  }

  // ---------------------------------------------------------------- unify, in closed form

  /** A node takes the values tagged below it; above its own tag it takes what the nearest constraint admits, or all. */
  predicate TakesNode(reg: Registry, t: Type, v: Tagged) {
    ConformsTo(v.tag, t) ||
    ((t in reg.content || v.tag != NoneType) &&
     match Nearest(reg, t)
     case Some(c) => Admits(reg, c, v)
     case None => ConformsTo(t, v.tag))
  }

  /** A literal takes itself, and every value of a comparable other tag. */
  predicate TakesLiteral(c: Tagged, v: Tagged) {
    if c.tag == v.tag then c.payload == v.payload || c.tag == NoneType
    else c.tag != NoneType && v.tag != NoneType && (ConformsTo(v.tag, c.tag) || ConformsTo(c.tag, v.tag))
  }

  /** The first node or literal that takes v. */
  function Taker(reg: Registry, m: Value, v: Tagged): Option<Value> {
    match m
    case TypeNode(t) => if TakesNode(reg, t, v) then Some(m) else None
    case Concrete(c) => if TakesLiteral(c, v) then Some(m) else None
    case UnionNode(_, members) => TakerAmong(reg, members, v)
  }

  function TakerAmong(reg: Registry, members: seq<Value>, v: Tagged): Option<Value> {
    if members == [] then None
    else
      var first := Taker(reg, members[0], v);
      if first.Some? then first else TakerAmong(reg, members[1..], v)
  }

  /** Strictly below v's tag, and a node without a constraint: unify answers with the node or the literal itself. */
  predicate Bare(reg: Registry, m: Value, v: Tagged) {
    match m
    case TypeNode(t) => t != v.tag && ConformsTo(t, v.tag) && Nearest(reg, t) == None
    case Concrete(c) => c.tag != v.tag && ConformsTo(c.tag, v.tag)
    case UnionNode(_, _) => false
  }

  function OutcomeOf(reg: Registry, taker: Option<Value>, v: Tagged): Outcome {
    match taker
    case None => Refused
    case Some(m) => if Bare(reg, m, v) then TheNode else TheValue
  }

  lemma UnifyTypeIs(reg: Registry, t: Type, v: Tagged)
    requires Valid(reg) && WellTagged(reg, v)
    ensures UnifyType(reg, t, v) == OutcomeOf(reg, Taker(reg, TypeNode(t), v), v)
  {
    if ConformsTo(v.tag, t) {
      TagSuffices(reg, t, v);
      if ConformsTo(t, v.tag) { ConformsAntisymmetric(t, v.tag); }
    }
  }

  /** What unify answers is what the first taker is: none, one above or beside v's tag, or a bare one below it. */
  lemma {:induction false} UnifyIs(reg: Registry, m: Value, v: Tagged)
    requires Valid(reg) && WellTagged(reg, v)
    ensures Unify(reg, m, v) == OutcomeOf(reg, Taker(reg, m, v), v)
    decreases m, 0
  {
    match m
    case TypeNode(t) => UnifyTypeIs(reg, t, v);
    case Concrete(c) =>
      if ConformsTo(v.tag, c.tag) && ConformsTo(c.tag, v.tag) { ConformsAntisymmetric(v.tag, c.tag); }
    case UnionNode(_, members) => UnifyFirstIs(reg, members, v);
  }

  lemma {:induction false} UnifyFirstIs(reg: Registry, members: seq<Value>, v: Tagged)
    requires Valid(reg) && WellTagged(reg, v)
    ensures UnifyFirst(reg, members, v) == OutcomeOf(reg, TakerAmong(reg, members, v), v)
    decreases members, 0
  {
    if members != [] {
      UnifyIs(reg, members[0], v);
      UnifyFirstIs(reg, members[1..], v);
    }
  }

  /** v is a T, if and only if something in T takes v and does not answer for it with itself. */
  lemma IsAIs(reg: Registry, target: Value, v: Tagged)
    requires Valid(reg) && WellTagged(reg, v)
    ensures IsA(reg, v, target) <==> Recognized(reg, target, v)
  {
    UnifyIs(reg, target, v);
    if target.TypeNode? && target.t in reg.content && Admits(reg, target.t, v) {
      MemberUnifies(reg, target, v);
    }
  }

  predicate Recognized(reg: Registry, target: Value, v: Tagged) {
    Taker(reg, target, v).Some? && !Bare(reg, Taker(reg, target, v).value, v)
  }

  lemma {:induction false} UnifyFirstSome(reg: Registry, members: seq<Value>, v: Tagged)
    ensures UnifyFirst(reg, members, v) != Refused
       <==> exists m | m in members :: Unify(reg, m, v) != Refused
  {
    if members != [] {
      UnifyFirstSome(reg, members[1..], v);
      assert members[0] in members && forall m :: m in members <==> m == members[0] || m in members[1..];
    }
  }

  /** A type node admits every well-tagged value whose tag is below it. */
  lemma TagSuffices(reg: Registry, t: Type, v: Tagged)
    requires Valid(reg) && WellTagged(reg, v) && ConformsTo(v.tag, t)
    ensures UnifyType(reg, t, v) == TheValue
  {
  }

  /** What a node's matcher admits, unify admits, and gives back unchanged. */
  lemma MemberUnifies(reg: Registry, m: Value, v: Tagged)
    requires Valid(reg) && WellTagged(reg, v) && Member(reg, v, m)
    ensures Unify(reg, m, v) != Refused
    ensures m.TypeNode? ==> Unify(reg, m, v) == TheValue && IsA(reg, v, m)
  {
    if m.TypeNode? && ConformsTo(v.tag, m.t) {
      TagSuffices(reg, m.t, v);
    }
  }

  /** Narrowing a type node narrows what it unifies with, bare values of its base types included. */
  lemma NarrowerRefusesMore(reg: Registry, narrow: Type, wide: Type, v: Tagged)
    requires Valid(reg) && WellTagged(reg, v) && ConformsTo(narrow, wide)
    requires UnifyType(reg, narrow, v) != Refused
    ensures UnifyType(reg, wide, v) != Refused
  {
    if ConformsTo(v.tag, wide) {
      TagSuffices(reg, wide, v);
    } else {
      if ConformsTo(v.tag, narrow) {
        ConformsTransitive(v.tag, narrow, wide);
      }
      NearestAbove(reg, narrow, wide);
      match Nearest(reg, narrow)
      case Some(c) =>
        if Nearest(reg, wide) != Some(c) && ConformsTo(c.parent, wide) {
          ConformsTransitive(v.tag, c.parent, wide);
        }
      case None =>
        ChainIsLinear(narrow, v.tag, wide);
    }
  }

  /** Either the wide node meets the same constraint first, or it lies above that constraint. */
  lemma {:induction false} NearestAbove(reg: Registry, narrow: Type, wide: Type)
    requires Valid(reg) && ConformsTo(narrow, wide)
    ensures match Nearest(reg, narrow)
      case None => Nearest(reg, wide) == None
      case Some(c) => c.Node? && (Nearest(reg, wide) == Some(c) || ConformsTo(c.parent, wide))
  {
    if narrow !in reg.content && narrow != wide && narrow.Node? && wide != Any {
      NearestAbove(reg, narrow.parent, wide);
    } else if narrow !in reg.content && narrow != wide && narrow.Node? {
      NearestAbove(reg, narrow.parent, wide);
    }
  }

  lemma {:induction false} NoConstraintOnBuiltin(reg: Registry, t: Type)
    requires Valid(reg) && AllBuiltin(t)
    ensures Nearest(reg, t) == None
  {
    if t.Node? {
      NoConstraintOnBuiltin(reg, t.parent);
    }
  }

  // ---------------------------------------------------------------- the two orders agree

  /** Refinement bounds use the total order, comparisons do not: they part on opposite zeros alone. */
  lemma OrdersPart(x: Num, y: Num)
    requires !IsNaN(x) && !IsNaN(y)
    ensures TotalCmp(x, y) == BoundCmp(x, y)
       <==> !(IsZero(x) && IsZero(y) && IsNegZero(x) != IsNegZero(y))
  {
    if x.Whole? { ZeroIsZero(x.i); }
    if y.Whole? { ZeroIsZero(y.i); }
  }

  /** The relational words say no to NaN on either side, and elsewhere compare as IEEE floats, integers exactly. */
  lemma RelationsCompare(op: Relation, x: Num, y: Num)
    ensures IsNaN(x) || IsNaN(y) ==> !Holds(op, x, y)
    ensures !IsNaN(x) && !IsNaN(y) ==>
      (Holds(op, x, y) <==>
        match op
        case Gt => BoundCmp(x, y) > 0
        case Gte => BoundCmp(x, y) >= 0
        case Lt => BoundCmp(x, y) < 0
        case Lte => BoundCmp(x, y) <= 0
        case Eq => BoundCmp(x, y) == 0)
  {
    if !IsNaN(x) && !IsNaN(y) {
      OrdersPart(x, y);
      if x.Whole? { ZeroIsZero(x.i); }
      if y.Whole? { ZeroIsZero(y.i); }
    }
  }

  /** Antisymmetric, with NaN above every number. */
  lemma TotalCmpFlips(x: Num, y: Num)
    ensures TotalCmp(x, y) == -TotalCmp(y, x)
    ensures IsNaN(y) ==> TotalCmp(x, y) == if IsNaN(x) then 0 else -1
  {
  }

  /** The order steps over a middle value, unless that is a double two integers share and the two are the outer values. */
  lemma TotalCmpSteps(a: Num, b: Num, c: Num)
    requires TotalCmp(a, b) <= 0 && TotalCmp(b, c) <= 0
    ensures TotalCmp(a, c) <= 0 <==> !(a.Whole? && b.Fraction? && c.Whole? && a.i > c.i)
    ensures TotalCmp(a, c) > 0 ==> AsFloat(a) == b.f == AsFloat(c)
  {
    if a.Whole? { ZeroIsZero(a.i); }
    if b.Whole? { ZeroIsZero(b.i); }
    if c.Whole? { ZeroIsZero(c.i); }
    if a.Whole? && b.Whole? && a.i <= b.i { RoundMonotone(a.i, b.i); }
    if b.Whole? && c.Whole? && b.i <= c.i { RoundMonotone(b.i, c.i); }
    if a.Whole? && c.Whole? && a.i > c.i { RoundMonotone(c.i, a.i); }
  }

  /** Between integers the order is transitive through a double, if and only if at most one int64 is projected onto it. */
  lemma TransitiveThrough(f: Double)
    ensures (forall i: int64, j: int64 | TotalCmp(Whole(i), Fraction(f)) <= 0 && TotalCmp(Fraction(f), Whole(j)) <= 0 :: i <= j)
       <==> forall i: int64, j: int64 | Projected(i) == f && Projected(j) == f :: i == j
  {
    forall i: int64, j: int64 | TotalCmp(Whole(i), Fraction(f)) <= 0 && TotalCmp(Fraction(f), Whole(j)) <= 0
      ensures i <= j || (Projected(i) == f && Projected(j) == f && i != j)
    {
      TotalCmpSteps(Whole(i), Fraction(f), Whole(j));
    }
    forall i: int64 | Projected(i) == f
      ensures TotalCmp(Whole(i), Fraction(f)) == 0 && TotalCmp(Fraction(f), Whole(i)) == 0
    {
      ZeroIsZero(i);
    }
  }

  /** The order called total is not one: 2^53 + 1 equals 2^53.0, which equals 2^53, which is less. */
  lemma EqualityIsNotTransitive()
    ensures
      var n, f, m := Whole(EXACT + 1), Fraction(Finite(EXACT as real)), Whole(EXACT);
      TotalCmp(n, f) == 0 && TotalCmp(f, m) == 0 && TotalCmp(n, m) > 0
  {
    RoundExact(EXACT);
    RoundTie();
  }

  /** Only zero is projected onto a zero. */
  lemma ZeroIsZero(i: int)
    ensures Round(i) == 0 <==> i == 0
  {
    RoundExact(1);
    RoundExact(-1);
    RoundMonotone(1, i);
    RoundMonotone(i, -1);
  }
}
