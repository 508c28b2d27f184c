/**
  Static exhaustiveness of `case` (basic/go/case_exhaustive.go) and the run-time clause test it speaks of
  (basic/go/conditional.go): which clauses are credited with which alternatives, and what the check reports.
*/
module CaseClauses {
  import opened Int64
  import opened Doubles
  import opened Lattice
  import opened Wrappers
  import opened CaseIntervals
  import opened Membership

  const DEPTH := 8
  const ATOM := Node(SCALAR, "Atom", false)

  /** A token of a predicate body. */
  datatype Item = W(name: string) | L(v: Value)

  /** The raw match of one clause. */
  datatype Match = Body(items: seq<Item>) | Paren(items: seq<Item>) | Word(name: string) | Literal(v: Value)

  /** The registry, the builtin words, and what bodies outside the recognized shapes answer. */
  datatype Env = Env(reg: Registry, builtins: map<string, Value>, runs: (Match, Tagged) -> bool)

  /** A definition, a builtin such as `true` or a type name, else an atom of the name. */
  function ResolveName(env: Env, name: string): Value {
    if name in env.reg.names then env.reg.names[name]
    else if name in env.builtins then env.builtins[name]
    else Concrete(Tagged(ATOM, Other(name)))
  }

  // ---------------------------------------------------------------- the run-time walk

  function RelationOf(name: string): Option<Relation> {
    if name == "gt" then Some(Gt)
    else if name == "gte" then Some(Gte)
    else if name == "lt" then Some(Lt)
    else if name == "lte" then Some(Lte)
    else if name == "eq" then Some(Eq)
    else None
  }

  /** The number a concrete Integer or Float reads as. */
  function NumericValue(v: Value): Option<Num> {
    if v.Concrete? && v.v.payload.Number? && (ConformsTo(v.v.tag, INTEGER) || ConformsTo(v.v.tag, FLOAT))
    then Some(v.v.payload.x) else None
  }

  function OperandOf(env: Env, item: Item): Value {
    match item
    case W(name) => ResolveName(env, name)
    case L(v) => v
  }

  /** One clause against the value: a body runs on it, anything else unifies with it. */
  predicate Accepts(env: Env, m: Match, v: Tagged) {
    match m
    case Body(items) =>
      if |items| == 2 && items[0].W? && items[0].name == "is" then
        IsA(env.reg, v, OperandOf(env, items[1]))
      else if |items| == 2 && items[0].W? && RelationOf(items[0].name).Some? && items[1].L?
        && NumericValue(items[1].v).Some? then
        v.payload.Number? && Holds(RelationOf(items[0].name).value, v.payload.x, NumericValue(items[1].v).value)
      else env.runs(m, v)
    case Paren(_) => env.runs(m, v)
    case Word(name) => Unify(env.reg, ResolveName(env, name), v) != Refused
    case Literal(lit) => Unify(env.reg, lit, v) != Refused
  }

  // ---------------------------------------------------------------- what the checker sees in a match

  datatype Resolved =
    | Opaque
    | Compares(iv: Interval)
    | IsTest(target: Value)
    | Plain(m: Value, bounds: Option<Interval>)

  function NormalizeNone(v: Value): Value {
    if v.Concrete? && v.v.tag == NoneType then TypeNode(NoneType) else v
  }

  function CmpInterval(op: Relation, x: Num): Interval
    requires IsFinite(x)
  {
    match op
    case Gt => Interval(At(x, false), Unbounded, None)
    case Gte => Interval(At(x, true), Unbounded, None)
    case Lt => Interval(Unbounded, At(x, false), None)
    case Lte => Interval(Unbounded, At(x, true), None)
    case Eq => Interval(At(x, true), At(x, true), None)
  }

  function ParseComparison(items: seq<Item>): Option<Interval> {
    if |items| == 2 && items[0].W? && items[1].L? then
      match (RelationOf(items[0].name), NumericValue(items[1].v))
      case (Some(op), Some(x)) => if IsFinite(x) then Some(CmpInterval(op, x)) else None
      case _ => None
    else None
  }

  /** The bounds of a numeric refinement, tagged with its base. */
  function RefinementBounds(reg: Registry, t: Type): Option<Interval> {
    if t.Node? && t in reg.content && reg.content[t].Refined? && ConformsTo(t.parent, NUMBER)
    then Some(Interval(reg.content[t].lo, reg.content[t].hi, Some(t.parent))) else None
  }

  function ParseIs(env: Env, items: seq<Item>): Resolved {
    if |items| == 2 && items[0].W? && items[0].name == "is" then
      var target := OperandOf(env, items[1]);
      if target.Concrete? || target.t == NoneType then Opaque
      else if target.TypeNode? && target.t in env.reg.content && env.reg.content[target.t].Refined? then
        match RefinementBounds(env.reg, target.t)
        case Some(iv) => Compares(iv)
        case None => Opaque
      else IsTest(target)
    else Opaque
  }

  function PlainMatch(reg: Registry, v: Value): Resolved {
    var m := NormalizeNone(v);
    Plain(m, if m.TypeNode? then RefinementBounds(reg, m.t) else None)
  }

  function ResolveMatch(env: Env, m: Match): Resolved {
    match m
    case Body(items) =>
      (match ParseComparison(items)
       case Some(iv) => Compares(iv)
       case None => ParseIs(env, items))
    case Paren(_) => Opaque
    case Word(name) => PlainMatch(env.reg, ResolveName(env, name))
    case Literal(v) => PlainMatch(env.reg, v)
  }

  function BoundsOf(r: Resolved): Option<Interval> {
    match r
    case Compares(iv) => Some(iv)
    case Plain(_, bounds) => bounds
    case _ => None
  }

  // ---------------------------------------------------------------- alternatives of the scrutinee

  /** A type node, or a literal other than none, which is the node of its type. */
  predicate IsLeaf(a: Value) {
    !a.UnionNode? && (a.Concrete? ==> a.v.tag != NoneType)
  }

  function Bool(b: bool): Value {
    Concrete(Tagged(BOOLEAN, Truth(b)))
  }

  /** The leaf alternatives, or None when the depth bound is exhausted. */
  function Expand(a: Value, depth: nat): (leaves: Option<seq<Value>>)
    ensures leaves.Some? ==> forall l | l in leaves.value :: IsLeaf(l)
    decreases a, 0
  {
    match a
    case TypeNode(t) => Some(if t == BOOLEAN then [Bool(true), Bool(false)] else [a])
    case Concrete(_) => Some([NormalizeNone(a)])
    case UnionNode(_, members) => if depth <= 1 then None else ExpandAll(members, depth - 2)
  }

  function ExpandAll(members: seq<Value>, depth: nat): (leaves: Option<seq<Value>>)
    ensures leaves.Some? ==> forall l | l in leaves.value :: IsLeaf(l)
  {
    if members == [] then Some([])
    else
      match (Expand(members[0], depth), ExpandAll(members[1..], depth))
      case (Some(first), Some(rest)) => Some(first + rest)
      case _ => None
  }

  // ---------------------------------------------------------------- coverage

  /** Lattice containment up to the newtype boundary; Any is the written catch-all. */
  predicate TypeCovers(at: Type, t: Type) {
    t == Any || at == t || (ConformsTo(at, t) && !(at.Node? && at.user && !(t.Node? && t.user)))
  }

  predicate IsCovers(reg: Registry, target: Value, alt: Value)
    requires !target.Concrete?
  {
    match alt
    case TypeNode(at) => ConformsTo(at, target.t)
    case UnionNode(at, _) => ConformsTo(at, target.t)
    case Concrete(c) => Member(reg, c, target)
  }

  predicate NodeCovers(reg: Registry, t: Type, alt: Value) {
    match alt
    case TypeNode(at) => TypeCovers(at, t)
    case UnionNode(at, _) => TypeCovers(at, t)
    case Concrete(c) => Member(reg, c, TypeNode(t))
  }

  /** Every inhabitant of alt unifies with m, as far as the checker can tell. */
  predicate MatchCovers(reg: Registry, m: Value, alt: Value, depth: nat)
    decreases m, 0
  {
    depth > 0 &&
    match m
    case UnionNode(_, members) => depth > 1 && SomeCovers(reg, members, alt, depth - 2)
    case TypeNode(t) => NodeCovers(reg, t, alt)
    case Concrete(c) => alt.Concrete? && UnifyScalars(c, alt.v) != Refused
  }

  predicate SomeCovers(reg: Registry, members: seq<Value>, alt: Value, depth: nat)
    decreases members, 0
  {
    members != []
    && ((if members[0].Concrete? && members[0].v.tag == NoneType
         then depth > 0 && NodeCovers(reg, NoneType, alt)
         else MatchCovers(reg, members[0], alt, depth))
        || SomeCovers(reg, members[1..], alt, depth))
  }

  predicate Credits(reg: Registry, r: Resolved, alt: Value) {
    match r
    case IsTest(target) => !target.Concrete? && IsCovers(reg, target, alt)
    case Plain(m, _) => MatchCovers(reg, m, alt, DEPTH)
    case _ => false
  }

  function Intervals(rs: seq<Resolved>): (ivals: seq<Interval>)
    ensures forall iv :: iv in ivals <==> exists r | r in rs :: BoundsOf(r) == Some(iv)
  {
    if rs == [] then []
    else
      var init, last := Intervals(rs[..|rs| - 1]), rs[|rs| - 1];
      assert forall r :: r in rs <==> r == last || r in rs[..|rs| - 1];
      match BoundsOf(last)
      case Some(iv) => init + [iv]
      case None => init
  }

  predicate PointAdmits(reg: Registry, iv: Interval, c: Tagged) {
    && (iv.base.Some? ==> Member(reg, c, TypeNode(iv.base.value)))
    && NumericValue(Concrete(c)).Some?
    && ContainsValue(iv, NumericValue(Concrete(c)).value)
  }

  ghost predicate IntervalsCredit(reg: Registry, ivals: seq<Interval>, alt: Value) {
    match alt
    case Concrete(c) => exists iv | iv in ivals :: PointAdmits(reg, iv, c)
    case _ => ConformsTo(alt.t, INTEGER) && forall i: int64 :: SomeSpan(ivals, alt.t, i)
  }

  ghost predicate CoveredBy(reg: Registry, rs: seq<Resolved>, alt: Value) {
    (exists r | r in rs :: Credits(reg, r, alt)) || IntervalsCredit(reg, Intervals(rs), alt)
  }

  function ResolveAll(env: Env, matches: seq<Match>): (rs: seq<Resolved>)
    ensures |rs| == |matches|
    ensures forall r :: r in rs <==> exists m | m in matches :: ResolveMatch(env, m) == r
  {
    if matches == [] then []
    else
      assert forall m :: m in matches <==> m == matches[0] || m in matches[1..];
      [ResolveMatch(env, matches[0])] + ResolveAll(env, matches[1..])
  }

  // ---------------------------------------------------------------- the check

  datatype Scrutinee =
    | Gradual
    | OfType(t: Value)
    | OfUnion(alts: seq<Value>, declared: bool)
    | Known(v: Tagged)
    | TypeAsData

  /** The leaves to cover; None when the scrutinee is not statically checkable. */
  function Alternatives(s: Scrutinee): (leaves: Option<seq<Value>>)
    ensures leaves.Some? ==> forall l | l in leaves.value :: IsLeaf(l)
  {
    match s
    case OfType(t) => Expand(t, DEPTH)
    case OfUnion(alts, _) => ExpandAll(alts, DEPTH - 1)
    case Known(v) => Some([NormalizeNone(Concrete(v))])
    case _ => None
  }

  predicate IsAnyClause(r: Resolved) {
    r.Plain? && r.m == TypeNode(Any)
  }

  /** Whether everything cur admits is admitted by prev, as the advisory judges it. */
  predicate Subsumes(reg: Registry, prev: Resolved, cur: Resolved) {
    !prev.Opaque? && !cur.Opaque? &&
    match (BoundsOf(prev), BoundsOf(cur))
    case (Some(a), Some(b)) => IvalContains(a, b)
    case (None, None) =>
      if prev.IsTest? && cur.IsTest? then
        !prev.target.Concrete? && !cur.target.Concrete? && ConformsTo(cur.target.t, prev.target.t)
      else prev.Plain? && cur.Plain? && MatchCovers(reg, prev.m, cur.m, DEPTH)
    case _ => false
  }

  ghost predicate AllCovered(reg: Registry, rs: seq<Resolved>, alts: seq<Value>) {
    forall a | a in alts :: CoveredBy(reg, rs, a)
  }

  predicate Unreachable(reg: Registry, rs: seq<Resolved>, k: nat)
    requires k < |rs|
  {
    exists j | 0 <= j < k :: Subsumes(reg, rs[j], rs[k])
  }

  datatype Finding = NotExhaustive(uncovered: seq<Value>) | NeedsCatchAll | RedundantDefault

  method PointCovered(reg: Registry, ivals: seq<Interval>, c: Tagged) returns (covered: bool)
    ensures covered <==> IntervalsCredit(reg, ivals, Concrete(c))
  {
    covered := false;
    for k := 0 to |ivals|
      invariant !covered && forall j | 0 <= j < k :: !PointAdmits(reg, ivals[j], c)
    {
      if PointAdmits(reg, ivals[k], c) {
        return true;
      }
    }
  }

  /** The nested loops over clauses and alternatives, then the interval pass over what is left. */
  method Coverage(reg: Registry, rs: seq<Resolved>, alts: seq<Value>) returns (uncovered: seq<Value>)
    ensures forall a :: a in uncovered <==> a in alts && !CoveredBy(reg, rs, a)
  {
    var covered := new bool[|alts|](_ => false);
    for k := 0 to |rs|
      invariant forall i | 0 <= i < |alts| :: covered[i] <==> exists r | r in rs[..k] :: Credits(reg, r, alts[i])
    {
      assert forall r :: r in rs[..k + 1] <==> r == rs[k] || r in rs[..k];
      for i := 0 to |alts|
        invariant forall j | 0 <= j < i :: covered[j] <==> exists r | r in rs[..k + 1] :: Credits(reg, r, alts[j])
        invariant forall j | i <= j < |alts| :: covered[j] <==> exists r | r in rs[..k] :: Credits(reg, r, alts[j])
      {
        if !covered[i] {
          covered[i] := Credits(reg, rs[k], alts[i]);
        }
      }
    }
    assert rs[..|rs|] == rs;
    IntervalPass(reg, Intervals(rs), alts, covered);
    uncovered := [];
    for i := 0 to |alts|
      invariant forall a :: a in uncovered <==> exists j | 0 <= j < i :: alts[j] == a && !covered[j]
    {
      if !covered[i] {
        uncovered := uncovered + [alts[i]];
      }
    }
  }

  method IntervalPass(reg: Registry, ivals: seq<Interval>, alts: seq<Value>, covered: array<bool>)
    requires covered.Length == |alts|
    modifies covered
    ensures forall i | 0 <= i < |alts| :: covered[i] <==> old(covered[i]) || IntervalsCredit(reg, ivals, alts[i])
  {
    if |ivals| == 0 {
      forall i | 0 <= i < |alts| ensures !IntervalsCredit(reg, ivals, alts[i]) {
        if !alts[i].Concrete? {
          assert !SomeSpan(ivals, alts[i].t, 0);
        }
      }
      return;
    }
    for i := 0 to |alts|
      invariant forall j | 0 <= j < i :: covered[j] <==> old(covered[j]) || IntervalsCredit(reg, ivals, alts[j])
      invariant forall j | i <= j < |alts| :: covered[j] == old(covered[j])
    {
      if !covered[i] {
        if alts[i].Concrete? {
          covered[i] := PointCovered(reg, ivals, alts[i].v);
        } else {
          covered[i] := CaseIvalsCover(ivals, alts[i].t);
        }
      }
    }
  }

  method FindUnreachable(reg: Registry, rs: seq<Resolved>) returns (unreachable: seq<nat>)
    ensures forall k: nat :: k in unreachable <==> k < |rs| && Unreachable(reg, rs, k)
  {
    unreachable := [];
    for k := 0 to |rs|
      invariant forall i: nat :: i in unreachable <==> i < k && Unreachable(reg, rs, i)
    {
      for j := 0 to k
        invariant forall i: nat :: i in unreachable <==> i < k && Unreachable(reg, rs, i)
        invariant forall i | 0 <= i < j :: !Subsumes(reg, rs[i], rs[k])
      {
        if Subsumes(reg, rs[j], rs[k]) {
          unreachable := unreachable + [k];
          break;
        }
      }
    }
  }

  predicate HasAnyClause(rs: seq<Resolved>) {
    exists r | r in rs :: IsAnyClause(r)
  }

  /** Without a default, no finding means that the clauses carry a catch-all or cover every leaf. */
  ghost predicate Passes(env: Env, s: Scrutinee, matches: seq<Match>) {
    var rs := ResolveAll(env, matches);
    if s.Gradual? then HasAnyClause(rs)
    else Alternatives(s).Some? && AllCovered(env.reg, rs, Alternatives(s).value)
  }

  predicate Checkable(s: Scrutinee) {
    s.Gradual? || (Alternatives(s).Some? && Alternatives(s).value != [])
  }

  method CheckCaseExhaustiveness(env: Env, s: Scrutinee, matches: seq<Match>, hasDefault: bool, inBody: bool)
      returns (unreachable: seq<nat>, finding: Option<Finding>)
    ensures (s.Known? || s.TypeAsData?) && inBody ==> unreachable == [] && finding == None
    ensures !((s.Known? || s.TypeAsData?) && inBody) ==>
      && (forall k: nat :: k in unreachable <==>
        k < |matches| && Unreachable(env.reg, ResolveAll(env, matches), k))
      && (!Checkable(s) ==> finding == None)
      && (Checkable(s) && !hasDefault ==> (finding == None <==> Passes(env, s, matches)))
      && (Checkable(s) && hasDefault ==> (finding == Some(RedundantDefault) <==>
        s.OfUnion? && s.declared && matches != [] && Passes(env, s, matches)))
      && (finding == Some(NeedsCatchAll) ==> s.Gradual?)
      && (finding.Some? && finding.value.NotExhaustive? ==>
        Alternatives(s).Some? && forall a :: a in finding.value.uncovered <==>
          a in Alternatives(s).value && !CoveredBy(env.reg, ResolveAll(env, matches), a))
      && (hasDefault ==> finding in {None, Some(RedundantDefault)})
  {
    unreachable, finding := [], None;
    if (s.Known? || s.TypeAsData?) && inBody {
      return;
    }
    var rs := ResolveAll(env, matches);
    unreachable := FindUnreachable(env.reg, rs);
    if s.Gradual? {
      if !hasDefault && !HasAnyClause(rs) {
        finding := Some(NeedsCatchAll);
      }
      return;
    }
    var alts := Alternatives(s);
    if alts == None || alts.value == [] {
      return;
    }
    var uncovered := Coverage(env.reg, rs, alts.value);
    assert uncovered == [] <==> AllCovered(env.reg, rs, alts.value) by {
      if uncovered != [] { assert uncovered[0] in uncovered; }
    }
    if !hasDefault && uncovered != [] {
      finding := Some(NotExhaustive(uncovered));
    } else if hasDefault && uncovered == [] && matches != [] && s.OfUnion? && s.declared {
      finding := Some(RedundantDefault);
    }
  }
}
