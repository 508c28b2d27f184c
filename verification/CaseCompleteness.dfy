/**
  When the `case` exhaustiveness check (basic/go/case_exhaustive.go) must let a clause list pass: the converse of its
  soundness, clause kind by clause kind, in terms of what the clauses accept at run time.
*/
module CaseCompleteness {
  import opened Int64
  import opened Doubles
  import opened Lattice
  import opened Wrappers
  import opened CaseIntervals
  import opened Membership
  import opened CaseClauses
  import opened CaseSoundness

  // ---------------------------------------------------------------- a value no builtin node but its own ancestors takes

  lemma {:induction false} LongerThanAll(types: set<Type>) returns (n: nat)
    ensures forall t | t in types && t.Node? :: |t.name| < n
  {
    n := 0;
    if types != {} {
      var t :| t in types;
      n := LongerThanAll(types - {t});
      if t.Node? && |t.name| >= n { n := |t.name| + 1; }
    }
  }

  function Name(n: nat): string {
    seq(n, _ => 'x')
  }

  /** A newtype of `at` that nobody has declared, and a value of it. */
  function NewtypeValue(at: Type, n: nat): Tagged {
    Tagged(Node(at, Name(n), true),
      if ConformsTo(at, INTEGER) then Number(Whole(0))
      else if ConformsTo(at, FLOAT) then Number(Fraction(Finite(0.0)))
      else if ConformsTo(at, BOOLEAN) then Truth(true)
      else Other(""))
  }

  /** The families of numbers and Booleans are disjoint. */
  lemma FamiliesApart(t: Type)
    ensures !(ConformsTo(t, INTEGER) && ConformsTo(t, FLOAT))
    ensures !(ConformsTo(t, INTEGER) && ConformsTo(t, BOOLEAN))
    ensures !(ConformsTo(t, FLOAT) && ConformsTo(t, BOOLEAN))
  {
    if ConformsTo(t, INTEGER) && ConformsTo(t, FLOAT) {
      ChainIsLinear(t, INTEGER, FLOAT);
      OneUp(INTEGER, FLOAT);
      OneUp(FLOAT, INTEGER);
      OneUp(NUMBER, FLOAT);
      OneUp(NUMBER, INTEGER);
      OneUp(SCALAR, FLOAT);
      OneUp(SCALAR, INTEGER);
    }
    if ConformsTo(t, BOOLEAN) {
      BooleanApart(t, INTEGER);
      BooleanApart(t, FLOAT);
    }
  }

  lemma BooleanApart(t: Type, number: Type)
    requires ConformsTo(t, BOOLEAN) && number in {INTEGER, FLOAT}
    ensures !ConformsTo(t, number)
  {
    if ConformsTo(t, number) {
      ChainIsLinear(t, BOOLEAN, number);
      OneUp(BOOLEAN, number);
      OneUp(SCALAR, number);
      OneUp(number, BOOLEAN);
      OneUp(NUMBER, BOOLEAN);
      OneUp(SCALAR, BOOLEAN);
    }
  }

  lemma {:induction false} ConstraintAbove(reg: Registry, t: Type, c: Type)
    requires Valid(reg) && AllBuiltin(t) && c in reg.content
    ensures !ConformsTo(t, c)
  {
    if ConformsTo(t, c) {
      BuiltinAbove(t, c);
    }
  }

  lemma NewtypeIsWellTagged(reg: Registry, at: Type, n: nat)
    requires Valid(reg) && AllBuiltin(at) && Node(at, Name(n), true) !in reg.content
    requires !ConformsTo(at, Never) && !ConformsTo(at, NoneType)
    ensures WellTagged(reg, NewtypeValue(at, n)) && Inhabits(reg, NewtypeValue(at, n), TypeNode(at))
  {
    var v := NewtypeValue(at, n);
    FamiliesApart(at);
    forall c | c in reg.content && ConformsTo(v.tag, c) ensures false {
      ConstraintAbove(reg, at, c);
    }
    if at in reg.content { ConstraintAbove(reg, at, at); }
    assert ConformsTo(at, at) && ConformsTo(v.tag, at);
    assert v.tag != INTEGER && v.tag != FLOAT && v.tag != BOOLEAN && v.tag != SCALAR && v.tag != NUMBER;
  }

  /** A builtin type with a value has one that no builtin node takes but those above the type. */
  lemma Outsider(reg: Registry, at: Type, t: Type, w: Tagged) returns (v: Tagged)
    requires Valid(reg) && AllBuiltin(at) && AllBuiltin(t) && !ConformsTo(at, t)
    requires WellTagged(reg, w) && Inhabits(reg, w, TypeNode(at))
    ensures WellTagged(reg, v) && Inhabits(reg, v, TypeNode(at))
    ensures Unify(reg, TypeNode(t), v) == Refused && !IsA(reg, v, TypeNode(t))
  {
    if at in reg.content { ConstraintAbove(reg, at, at); }
    NoConstraintOnBuiltin(reg, t);
    if t in reg.content { ConstraintAbove(reg, t, t); }
    if ConformsTo(at, NoneType) {
      ConformsTransitive(w.tag, at, NoneType);
      v := w;
    } else {
      if ConformsTo(at, Never) { ConformsTransitive(w.tag, at, Never); }
      var n := LongerThanAll(reg.content.Keys);
      NewtypeIsWellTagged(reg, at, n);
      v := NewtypeValue(at, n);
      if ConformsTo(t, v.tag) { BuiltinAbove(t, v.tag); }
    }
    UnifyIs(reg, TypeNode(t), v);
  }

  // ---------------------------------------------------------------- one clause, one type

  /** One clause that is a type node, or tests for one, counts on its own or not at all. */
  lemma LoneClause(env: Env, s: Scrutinee, m: Match)
    requires Typed(s) && Alternatives(s).Some? && BoundsOf(ResolveMatch(env, m)) == None
    ensures Passes(env, s, [m]) <==>
      forall leaf | leaf in Alternatives(s).value :: Credits(env.reg, ResolveMatch(env, m), leaf)
  {
    var r := ResolveMatch(env, m);
    assert [m][1..] == [];
    assert ResolveAll(env, [m]) == [r];
    assert Intervals([r]) == [] by {
      assert [r][..0] == [];
      assert Intervals([]) == [];
    }
    forall leaf | leaf in Alternatives(s).value
      ensures CoveredBy(env.reg, [r], leaf) <==> Credits(env.reg, r, leaf)
    {
      assert r in [r];
      if leaf.TypeNode? { assert !SomeSpan([], leaf.t, 0); }
    }
  }

  lemma LoneLeaf(env: Env, s: Scrutinee, leaf: Value, m: Match)
    requires Typed(s) && Alternatives(s) == Some([leaf]) && BoundsOf(ResolveMatch(env, m)) == None
    ensures Passes(env, s, [m]) <==> Credits(env.reg, ResolveMatch(env, m), leaf)
  {
    LoneClause(env, s, m);
    assert leaf in [leaf];
  }

  lemma LoneBoolean(env: Env, m: Match)
    requires BoundsOf(ResolveMatch(env, m)) == None
    ensures Passes(env, OfType(TypeNode(BOOLEAN)), [m]) <==>
      Credits(env.reg, ResolveMatch(env, m), Bool(true)) && Credits(env.reg, ResolveMatch(env, m), Bool(false))
  {
    TypeLeaves(BOOLEAN);
    LoneClause(env, OfType(TypeNode(BOOLEAN)), m);
    assert Bool(true) in [Bool(true), Bool(false)] && Bool(false) in [Bool(true), Bool(false)];
  }

  lemma TypeLeaves(t: Type)
    ensures Alternatives(OfType(TypeNode(t))) == Some(if t == BOOLEAN then [Bool(true), Bool(false)] else [TypeNode(t)])
  {
  }

  /**
    A lone builtin node passes for a builtin type with values, if and only if all its values unify with the node.
  */
  lemma NodeClausePasses(env: Env, at: Type, t: Type, w: Tagged)
    requires Valid(env.reg) && AllBuiltin(at) && AllBuiltin(t)
    requires WellTagged(env.reg, w) && Inhabits(env.reg, w, TypeNode(at))
    ensures Passes(env, OfType(TypeNode(at)), [Literal(TypeNode(t))]) <==>
      forall v | WellTagged(env.reg, v) && Inhabits(env.reg, v, TypeNode(at)) ::
        Unify(env.reg, TypeNode(t), v) != Refused
  {
    PlainNode(env, t);
    BuiltinCredit(env, at, t);
    PassesOnType(env, at, Literal(TypeNode(t)), ConformsTo(at, t));
    if ConformsTo(at, t) {
      forall v | WellTagged(env.reg, v) && Inhabits(env.reg, v, TypeNode(at))
        ensures Unify(env.reg, TypeNode(t), v) != Refused
      {
        MemberUnifies(env.reg, TypeNode(at), v);
        NarrowerRefusesMore(env.reg, at, t, v);
      }
    } else {
      var v := Outsider(env.reg, at, t, w);
    }
  }

  /** A clause credited alike with every leaf of a type passes exactly when it is credited. */
  lemma PassesOnType(env: Env, at: Type, m: Match, credited: bool)
    requires BoundsOf(ResolveMatch(env, m)) == None
    requires if at == BOOLEAN then forall b :: Credits(env.reg, ResolveMatch(env, m), Bool(b)) <==> credited
      else Credits(env.reg, ResolveMatch(env, m), TypeNode(at)) <==> credited
    ensures Passes(env, OfType(TypeNode(at)), [m]) <==> credited
  {
    if at == BOOLEAN {
      LoneBoolean(env, m);
    } else {
      TypeLeaves(at);
      LoneLeaf(env, OfType(TypeNode(at)), TypeNode(at), m);
    }
  }

  lemma PlainNode(env: Env, t: Type)
    requires Valid(env.reg) && AllBuiltin(t)
    ensures ResolveMatch(env, Literal(TypeNode(t))) == Plain(TypeNode(t), None)
  {
    if t in env.reg.content { ConstraintAbove(env.reg, t, t); }
  }

  /** A builtin node is credited with a builtin leaf exactly when it is above it. */
  lemma BuiltinCredit(env: Env, at: Type, t: Type)
    requires Valid(env.reg) && AllBuiltin(at) && AllBuiltin(t)
    ensures Credits(env.reg, Plain(TypeNode(t), None), TypeNode(at)) <==> ConformsTo(at, t)
    ensures at == BOOLEAN ==> forall b :: Credits(env.reg, Plain(TypeNode(t), None), Bool(b)) <==> ConformsTo(at, t)
  {
    if t in env.reg.content { ConstraintAbove(env.reg, t, t); }
  }

  /** A lone test for a builtin node passes for a builtin type with values, if and only if all its values pass the test. */
  lemma TestClausePasses(env: Env, at: Type, t: Type, w: Tagged)
    requires Valid(env.reg) && AllBuiltin(at) && AllBuiltin(t) && t != NoneType
    requires WellTagged(env.reg, w) && Inhabits(env.reg, w, TypeNode(at))
    ensures Passes(env, OfType(TypeNode(at)), [Body([W("is"), L(TypeNode(t))])]) <==>
      forall v | WellTagged(env.reg, v) && Inhabits(env.reg, v, TypeNode(at)) :: IsA(env.reg, v, TypeNode(t))
  {
    var m := Body([W("is"), L(TypeNode(t))]);
    TestNode(env, t);
    BuiltinTestCredit(env, at, t);
    PassesOnType(env, at, m, ConformsTo(at, t));
    if ConformsTo(at, t) {
      forall v | WellTagged(env.reg, v) && Inhabits(env.reg, v, TypeNode(at)) ensures IsA(env.reg, v, TypeNode(t)) {
        MemberUnifies(env.reg, TypeNode(at), v);
        IsAWidens(env.reg, at, t, v);
      }
    } else {
      var v := Outsider(env.reg, at, t, w);
    }
  }

  lemma TestNode(env: Env, t: Type)
    requires Valid(env.reg) && AllBuiltin(t) && t != NoneType
    ensures ResolveMatch(env, Body([W("is"), L(TypeNode(t))])) == IsTest(TypeNode(t))
  {
    if t in env.reg.content { ConstraintAbove(env.reg, t, t); }
  }

  lemma BuiltinTestCredit(env: Env, at: Type, t: Type)
    requires Valid(env.reg) && AllBuiltin(t)
    ensures Credits(env.reg, IsTest(TypeNode(t)), TypeNode(at)) <==> ConformsTo(at, t)
    ensures at == BOOLEAN ==> forall b :: Credits(env.reg, IsTest(TypeNode(t)), Bool(b)) <==> ConformsTo(at, t)
  {
    if t in env.reg.content { ConstraintAbove(env.reg, t, t); }
  }

  /** The newtype boundary: a lone node passes for a minted type, if and only if it is Any, the type, or a minted ancestor. */
  lemma MintedTypePasses(env: Env, at: Type, t: Type)
    requires at.Node? && at.user && RefinementBounds(env.reg, t) == None
    ensures Passes(env, OfType(TypeNode(at)), [Literal(TypeNode(t))]) <==>
      t == Any || t == at || (t.Node? && t.user && ConformsTo(at, t))
  {
    assert ResolveMatch(env, Literal(TypeNode(t))) == Plain(TypeNode(t), None);
    TypeLeaves(at);
    LoneLeaf(env, OfType(TypeNode(at)), TypeNode(at), Literal(TypeNode(t)));
  }

  /** No boundary for tests: a test for a node or predicate type passes for a minted type, if and only if it is above it. */
  lemma MintedTestPasses(env: Env, at: Type, t: Type)
    requires at.Node? && at.user && t != NoneType && (t in env.reg.content ==> env.reg.content[t].Predicate?)
    ensures Passes(env, OfType(TypeNode(at)), [Body([W("is"), L(TypeNode(t))])]) <==> ConformsTo(at, t)
  {
    var m := Body([W("is"), L(TypeNode(t))]);
    assert ResolveMatch(env, m) == IsTest(TypeNode(t));
    TypeLeaves(at);
    LoneLeaf(env, OfType(TypeNode(at)), TypeNode(at), m);
  }

  /** A concrete scrutinee passes against a lone literal, if and only if the two unify. */
  lemma LiteralClausePasses(env: Env, c: Tagged, v: Tagged)
    requires c.tag != NoneType && v.tag != NoneType
    ensures Passes(env, Known(v), [Literal(Concrete(c))]) <==> Unify(env.reg, Concrete(c), v) != Refused
  {
    assert ResolveMatch(env, Literal(Concrete(c))) == Plain(Concrete(c), None);
    LoneLeaf(env, Known(v), Concrete(v), Literal(Concrete(c)));
  }

  /** A concrete scrutinee passes against a lone builtin node, if and only if unify gives it back. */
  lemma KnownNodePasses(env: Env, v: Tagged, t: Type)
    requires Valid(env.reg) && WellTagged(env.reg, v) && AllBuiltin(t) && v.tag != NoneType
    ensures Passes(env, Known(v), [Literal(TypeNode(t))]) <==> Unify(env.reg, TypeNode(t), v) == TheValue
  {
    PlainNode(env, t);
    LoneLeaf(env, Known(v), Concrete(v), Literal(TypeNode(t)));
    UnifyIs(env.reg, TypeNode(t), v);
    NoConstraintOnBuiltin(env.reg, t);
    if t in env.reg.content { ConstraintAbove(env.reg, t, t); }
  }

  /** And against a lone test for one, if and only if it passes the test. */
  lemma KnownTestPasses(env: Env, v: Tagged, t: Type)
    requires Valid(env.reg) && WellTagged(env.reg, v) && AllBuiltin(t) && t != NoneType && v.tag != NoneType
    ensures Passes(env, Known(v), [Body([W("is"), L(TypeNode(t))])]) <==> IsA(env.reg, v, TypeNode(t))
  {
    TestNode(env, t);
    LoneLeaf(env, Known(v), Concrete(v), Body([W("is"), L(TypeNode(t))]));
    IsAIs(env.reg, TypeNode(t), v);
    NoConstraintOnBuiltin(env.reg, t);
    if t in env.reg.content { ConstraintAbove(env.reg, t, t); }
  }

  /** A member of a refinement or predicate type passes against the type. */
  lemma KnownMemberPasses(env: Env, v: Tagged, t: Type)
    requires Valid(env.reg) && v.tag != NoneType && t in env.reg.content && Admits(env.reg, t, v)
    ensures Passes(env, Known(v), [Literal(TypeNode(t))])
  {
    var m := Literal(TypeNode(t));
    var r := ResolveMatch(env, m);
    assert Credits(env.reg, r, Concrete(v));
    assert [m][1..] == [] && ResolveAll(env, [m]) == [r] && r in [r];
    assert Alternatives(Known(v)) == Some([Concrete(v)]);
  }

  // ---------------------------------------------------------------- names, and clauses the check cannot read

  /** A name in match position is its definition, else the builtin of that name, else an atom. */
  lemma NameIsItsBinding(env: Env, s: Scrutinee, name: string, v: Tagged)
    ensures
      var bound :=
        if name in env.reg.names then env.reg.names[name]
        else if name in env.builtins then env.builtins[name]
        else Concrete(Tagged(ATOM, Other(name)));
      && (Passes(env, s, [Word(name)]) <==> Passes(env, s, [Literal(bound)]))
      && (Accepts(env, Word(name), v) <==> Accepts(env, Literal(bound), v))
      && (Passes(env, s, [Body([W("is"), W(name)])]) <==> Passes(env, s, [Body([W("is"), L(bound)])]))
      && (Accepts(env, Body([W("is"), W(name)]), v) <==> Accepts(env, Body([W("is"), L(bound)]), v))
  {
    assert ResolveMatch(env, Body([W("is"), W(name)])) == ResolveMatch(env, Body([W("is"), L(ResolveName(env, name))]));
    SameResolution(env, s, Body([W("is"), W(name)]), Body([W("is"), L(ResolveName(env, name))]));
    SameResolution(env, s, Word(name), Literal(ResolveName(env, name)));
  }

  lemma SameResolution(env: Env, s: Scrutinee, m: Match, n: Match)
    requires ResolveMatch(env, m) == ResolveMatch(env, n)
    ensures Passes(env, s, [m]) <==> Passes(env, s, [n])
  {
    assert [m][1..] == [] && [n][1..] == [];
    assert ResolveAll(env, [m]) == ResolveAll(env, [n]);
  }

  /** A parenthesised match, a test for None or for a value, and a body of any other length earn nothing. */
  lemma UnreadEarnsNothing(env: Env, s: Scrutinee, m: Match)
    requires Typed(s) && Alternatives(s).Some? && Alternatives(s).value != []
    requires match m
      case Paren(_) => true
      case Body(items) =>
        |items| != 2 || (items[0] == W("is") && items[1].L? && (items[1].v.Concrete? || items[1].v == TypeNode(NoneType)))
      case _ => false
    ensures !Passes(env, s, [m])
  {
    LoneClause(env, s, m);
    assert Alternatives(s).value[0] in Alternatives(s).value;
  }

  // ---------------------------------------------------------------- unions and lists

  /** The scrutinee that is one leaf. */
  function Sole(leaf: Value): Scrutinee
    requires IsLeaf(leaf)
  {
    match leaf
    case TypeNode(_) => OfType(leaf)
    case Concrete(c) => Known(c)
  }

  /** A list passes when each leaf of the scrutinee passes with one of its clauses alone. */
  lemma EachLeafPasses(env: Env, s: Scrutinee, matches: seq<Match>)
    requires Typed(s) && Alternatives(s).Some?
    requires forall leaf | leaf in Alternatives(s).value :: exists m | m in matches :: Passes(env, Sole(leaf), [m])
    ensures Passes(env, s, matches)
  {
    forall leaf | leaf in Alternatives(s).value ensures CoveredBy(env.reg, ResolveAll(env, matches), leaf) {
      var m :| m in matches && Passes(env, Sole(leaf), [m]);
      SoleLeaf(s, leaf);
      assert [m][1..] == [];
      MoreClauses(env, [m], matches, leaf);
    }
  }

  /** A leaf is its own only leaf. */
  lemma SoleLeaf(s: Scrutinee, leaf: Value)
    requires Alternatives(s).Some? && leaf in Alternatives(s).value
    ensures Alternatives(Sole(leaf)) == Some([leaf])
  {
    match s
    case OfType(t) => LeavesAreWhole(t, DEPTH, leaf);
    case OfUnion(alts, _) => AllLeavesAreWhole(alts, DEPTH - 1, leaf);
    case Known(_) =>
  }

  lemma {:induction false} LeavesAreWhole(a: Value, depth: nat, leaf: Value)
    requires Expand(a, depth).Some? && leaf in Expand(a, depth).value
    ensures leaf != TypeNode(BOOLEAN)
    decreases a, 0
  {
    if a.UnionNode? {
      AllLeavesAreWhole(a.members, depth - 2, leaf);
    }
  }

  lemma {:induction false} AllLeavesAreWhole(members: seq<Value>, depth: nat, leaf: Value)
    requires ExpandAll(members, depth).Some? && leaf in ExpandAll(members, depth).value
    ensures leaf != TypeNode(BOOLEAN)
    decreases members, 0
  {
    if leaf in Expand(members[0], depth).value {
      LeavesAreWhole(members[0], depth, leaf);
    } else {
      AllLeavesAreWhole(members[1..], depth, leaf);
    }
  }

  /** More clauses cover more. */
  lemma MoreClauses(env: Env, few: seq<Match>, many: seq<Match>, leaf: Value)
    requires CoveredBy(env.reg, ResolveAll(env, few), leaf) && forall m | m in few :: m in many
    ensures CoveredBy(env.reg, ResolveAll(env, many), leaf)
  {
    var rs, more := ResolveAll(env, few), ResolveAll(env, many);
    assert forall r | r in rs :: r in more;
    assert forall iv | iv in Intervals(rs) :: iv in Intervals(more);
    if IntervalsCredit(env.reg, Intervals(rs), leaf) && !leaf.Concrete? {
      forall i: int64 ensures SomeSpan(Intervals(more), leaf.t, i) {
        assert SomeSpan(Intervals(rs), leaf.t, i);
      }
    }
  }

  /** The leaves of a union of leaves are its alternatives, Boolean split in two. */
  lemma {:induction false} FlatUnionLeaves(alts: seq<Value>, depth: nat)
    requires forall a | a in alts :: IsLeaf(a) && a != TypeNode(BOOLEAN)
    ensures ExpandAll(alts, depth) == Some(alts)
  {
    if alts != [] {
      FlatUnionLeaves(alts[1..], depth);
      assert alts == [alts[0]] + alts[1..];
      assert alts[0] in alts;
    }
  }

  /** The written catch-all passes for every scrutinee the check can look at. */
  lemma AnyPasses(env: Env, s: Scrutinee, matches: seq<Match>)
    requires Valid(env.reg) && Literal(TypeNode(Any)) in matches && (s.Gradual? || Alternatives(s).Some?)
    ensures Passes(env, s, matches)
  {
    PlainNode(env, Any);
    var r := Plain(TypeNode(Any), None);
    assert r in ResolveAll(env, matches);
    if !s.Gradual? {
      forall leaf | leaf in Alternatives(s).value ensures Credits(env.reg, r, leaf) {
      }
    }
  }

  lemma UnionLeaves(u: Type, alts: seq<Value>, declared: bool)
    requires forall a | a in alts :: IsLeaf(a) && a != TypeNode(BOOLEAN)
    ensures Alternatives(OfUnion(alts, declared)) == Some(alts)
    ensures Alternatives(OfType(UnionNode(u, alts))) == Some(alts)
  {
    FlatUnionLeaves(alts, DEPTH - 1);
    FlatUnionLeaves(alts, DEPTH - 2);
  }

  /** A lone union in match position passes, if and only if each leaf passes with one of its members alone. */
  lemma UnionClausePasses(env: Env, s: Scrutinee, u: Type, members: seq<Value>)
    requires Typed(s) && Alternatives(s).Some?
    requires forall m | m in members :: IsLeaf(m) && (m.TypeNode? ==> RefinementBounds(env.reg, m.t) == None)
    ensures Passes(env, s, [Literal(UnionNode(u, members))]) <==>
      forall leaf | leaf in Alternatives(s).value ::
        exists m | m in members :: Passes(env, Sole(leaf), [Literal(m)])
  {
    var clause := Literal(UnionNode(u, members));
    assert ResolveMatch(env, clause) == Plain(UnionNode(u, members), None);
    LoneClause(env, s, clause);
    forall leaf | leaf in Alternatives(s).value
      ensures Credits(env.reg, ResolveMatch(env, clause), leaf)
         <==> exists m | m in members :: Passes(env, Sole(leaf), [Literal(m)])
    {
      SoleLeaf(s, leaf);
      SomeMemberCovers(env.reg, members, leaf, DEPTH - 2);
      forall m | m in members
        ensures Passes(env, Sole(leaf), [Literal(m)]) <==> MatchCovers(env.reg, m, leaf, DEPTH - 2)
      {
        assert ResolveMatch(env, Literal(m)) == Plain(m, None);
        LoneLeaf(env, Sole(leaf), leaf, Literal(m));
      }
    }
  }

  lemma {:induction false} SomeMemberCovers(reg: Registry, members: seq<Value>, leaf: Value, depth: nat)
    requires forall m | m in members :: IsLeaf(m)
    ensures SomeCovers(reg, members, leaf, depth) <==> exists m | m in members :: MatchCovers(reg, m, leaf, depth)
  {
    if members != [] {
      assert members[0] in members && forall m :: m in members <==> m == members[0] || m in members[1..];
      SomeMemberCovers(reg, members[1..], leaf, depth);
    }
  }

  /** A union of unions, n deep, around one member. */
  function Nested(u: Type, n: nat, v: Value): Value {
    if n == 0 then v else UnionNode(u, [Nested(u, n - 1, v)])
  }

  /** The depth bound: a clause nested three unions deep is read like its member, a deeper one earns nothing. */
  lemma NestedClausePasses(env: Env, leaf: Value, u: Type, n: nat, m: Value)
    requires IsLeaf(leaf) && leaf != TypeNode(BOOLEAN) && IsLeaf(m) && (m.TypeNode? ==> RefinementBounds(env.reg, m.t) == None)
    ensures Passes(env, Sole(leaf), [Literal(Nested(u, n, m))]) <==> n <= 3 && Passes(env, Sole(leaf), [Literal(m)])
  {
    NestedCovers(env.reg, leaf, u, n, m, DEPTH);
    assert ResolveMatch(env, Literal(m)) == Plain(m, None);
    assert ResolveMatch(env, Literal(Nested(u, n, m))) == Plain(Nested(u, n, m), None);
    assert Alternatives(Sole(leaf)) == Some([leaf]);
    LoneLeaf(env, Sole(leaf), leaf, Literal(m));
    LoneLeaf(env, Sole(leaf), leaf, Literal(Nested(u, n, m)));
  }

  lemma {:induction false} NestedCovers(reg: Registry, leaf: Value, u: Type, n: nat, m: Value, depth: nat)
    requires IsLeaf(m) && depth % 2 == 0
    ensures MatchCovers(reg, Nested(u, n, m), leaf, depth) <==> 2 * n < depth && MatchCovers(reg, m, leaf, 2)
    decreases n
  {
    if n > 0 && depth > 1 {
      NestedCovers(reg, leaf, u, n - 1, m, depth - 2);
      var members := [Nested(u, n - 1, m)];
      assert members[0] == Nested(u, n - 1, m) && members[1..] == [];
      assert members[0].Concrete? ==> members[0] == m;
      assert SomeCovers(reg, members, leaf, depth - 2) <==> MatchCovers(reg, members[0], leaf, depth - 2);
    }
  }

  /** The value none among a union's members takes the leaf None. */
  lemma NoneMemberPasses(env: Env, u: Type, members: seq<Value>, none: Tagged)
    requires none.tag == NoneType && Concrete(none) in members
    ensures Passes(env, OfType(TypeNode(NoneType)), [Literal(UnionNode(u, members))])
    ensures Passes(env, Known(none), [Literal(UnionNode(u, members))])
  {
    var clause := Literal(UnionNode(u, members));
    assert ResolveMatch(env, clause) == Plain(UnionNode(u, members), None);
    NoneMemberCovers(env.reg, members, none, DEPTH - 2);
    LoneLeaf(env, OfType(TypeNode(NoneType)), TypeNode(NoneType), clause);
    LoneLeaf(env, Known(none), TypeNode(NoneType), clause);
  }

  lemma {:induction false} NoneMemberCovers(reg: Registry, members: seq<Value>, none: Tagged, depth: nat)
    requires none.tag == NoneType && Concrete(none) in members && depth > 0
    ensures SomeCovers(reg, members, TypeNode(NoneType), depth)
  {
    if members[0] != Concrete(none) {
      NoneMemberCovers(reg, members[1..], none, depth);
    }
  }

  // ---------------------------------------------------------------- comparisons

  function Against(word: string, c: Tagged): Match {
    Body([W(word), L(Concrete(c))])
  }

  /** The five words on integers. */
  lemma WordsOnIntegers(env: Env, k: int64, i: int64)
    ensures Accepts(env, Against("gt", Number64(k)), Number64(i)) <==> i > k
    ensures Accepts(env, Against("gte", Number64(k)), Number64(i)) <==> i >= k
    ensures Accepts(env, Against("lt", Number64(k)), Number64(i)) <==> i < k
    ensures Accepts(env, Against("lte", Number64(k)), Number64(i)) <==> i <= k
    ensures Accepts(env, Against("eq", Number64(k)), Number64(i)) <==> i == k
  {
  }

  predicate IsComparison(word: string) {
    word in {"gt", "gte", "lt", "lte", "eq"}
  }

  /** A concrete number passes against a lone comparison with a finite literal, if and only if the word says yes. */
  lemma ComparisonPasses(env: Env, word: string, c: Tagged, v: Tagged)
    requires Valid(env.reg) && WellTagged(env.reg, v) && WellTagged(env.reg, c) && IsComparison(word)
    requires v.payload.Number? && c.payload.Number? && IsFinite(c.payload.x)
    ensures Passes(env, Known(v), [Against(word, c)]) <==> Accepts(env, Against(word, c), v)
  {
    var m := Against(word, c);
    var iv := CmpInterval(RelationOf(word).value, c.payload.x);
    assert ResolveMatch(env, m) == Compares(iv);
    OneInterval(env, m, iv);
    BoundsAccept(env, m, iv, v);
    assert Alternatives(Known(v)) == Some([Concrete(v)]) && Concrete(v) in [Concrete(v)];
    assert PointAdmits(env.reg, iv, v) <==> ContainsValue(iv, v.payload.x);
    assert iv in [iv];
  }

  lemma OneInterval(env: Env, m: Match, iv: Interval)
    requires ResolveMatch(env, m) == Compares(iv)
    ensures ResolveAll(env, [m]) == [Compares(iv)] && Intervals([Compares(iv)]) == [iv]
  {
    assert [m][1..] == [] && [Compares(iv)][..0] == [];
    assert Intervals([]) == [];
  }

  ghost predicate WholeBounds(content: Content) {
    match content
    case Refined(lo, hi) => (lo.At? ==> lo.x.Whole?) && (hi.At? ==> hi.x.Whole?)
    case Predicate => false
  }

  /** A clause on integers: a comparison with one, or a refinement of Integer with integer bounds, matched or tested for. */
  ghost predicate OnIntegers(env: Env, m: Match) {
    || (exists word, k: int64 :: IsComparison(word) && m == Against(word, Number64(k)))
    || (m.Literal? && m.v.TypeNode? && m.v.t in env.reg.content && m.v.t.Node? && m.v.t.parent == INTEGER
        && WholeBounds(env.reg.content[m.v.t]))
    || (exists t :: t in env.reg.content && t.Node? && t.parent == INTEGER && m == Body([W("is"), L(TypeNode(t))])
          && WholeBounds(env.reg.content[t]))
  }

  predicate SomeAccepts(env: Env, matches: seq<Match>, v: Tagged) {
    exists m | m in matches :: Accepts(env, m, v)
  }

  /** Integer passes against such clauses, if and only if each int64 is accepted by one of them. */
  lemma IntegerClausesPass(env: Env, matches: seq<Match>)
    requires Valid(env.reg) && forall m | m in matches :: OnIntegers(env, m)
    ensures Passes(env, OfType(TypeNode(INTEGER)), matches) <==>
      forall i: int64 :: SomeAccepts(env, matches, Number64(i))
  {
    var rs, leaf := ResolveAll(env, matches), TypeNode(INTEGER);
    TypeLeaves(INTEGER);
    assert Passes(env, OfType(leaf), matches) <==> CoveredBy(env.reg, rs, leaf) by {
      assert leaf in [leaf];
    }
    forall r | r in rs ensures !Credits(env.reg, r, leaf) {
      var m := Resolver(env, matches, r);
      IntegerClauseBounds(env, m, 0);
    }
    assert ConformsTo(INTEGER, INTEGER);
    assert IntervalsCredit(env.reg, Intervals(rs), leaf) <==> forall i: int64 :: SomeSpan(Intervals(rs), INTEGER, i);
    assert CoveredBy(env.reg, rs, leaf) <==> IntervalsCredit(env.reg, Intervals(rs), leaf);
    forall i: int64
      ensures SomeSpan(Intervals(rs), INTEGER, i) <==> SomeAccepts(env, matches, Number64(i))
    {
      IntegerSpans(env, matches, i);
    }
  }

  lemma IntegerSpans(env: Env, matches: seq<Match>, i: int64)
    requires Valid(env.reg) && forall m | m in matches :: OnIntegers(env, m)
    ensures SomeSpan(Intervals(ResolveAll(env, matches)), INTEGER, i)
       <==> SomeAccepts(env, matches, Number64(i))
  {
    var rs := ResolveAll(env, matches);
    if m :| m in matches && Accepts(env, m, Number64(i)) {
      IntegerClauseBounds(env, m, i);
      assert ResolveMatch(env, m) in rs;
      assert BoundsOf(ResolveMatch(env, m)).value in Intervals(rs);
    }
    if SomeSpan(Intervals(rs), INTEGER, i) {
      var iv :| iv in Intervals(rs) && Applies(iv, INTEGER) && InSpan(iv, i);
      var m := IntervalSource(env, matches, iv);
      IntegerClauseBounds(env, m, i);
    }
  }

  /** Such a clause has an interval that applies to Integer, and whose span is what it accepts. */
  lemma IntegerClauseBounds(env: Env, m: Match, i: int64)
    requires Valid(env.reg) && OnIntegers(env, m)
    ensures var r := ResolveMatch(env, m);
      && BoundsOf(r).Some? && !Credits(env.reg, r, TypeNode(INTEGER))
      && Applies(BoundsOf(r).value, INTEGER)
      && (InSpan(BoundsOf(r).value, i) <==> Accepts(env, m, Number64(i)))
  {
    if word, k: int64 :| IsComparison(word) && m == Against(word, Number64(k)) {
      ComparisonBounds(env, word, k, i);
    } else if m.Body? {
      RefinementTest(env, m.items[1].v.t, i);
    } else {
      RefinementClause(env, m.v.t, i);
    }
  }

  lemma ComparisonBounds(env: Env, word: string, k: int64, i: int64)
    requires IsComparison(word)
    ensures var iv := CmpInterval(RelationOf(word).value, Whole(k));
      && ResolveMatch(env, Against(word, Number64(k))) == Compares(iv)
      && (InSpan(iv, i) <==> Accepts(env, Against(word, Number64(k)), Number64(i)))
  {
    WordsOnIntegers(env, k, i);
  }

  lemma RefinementTest(env: Env, c: Type, i: int64)
    requires Valid(env.reg) && OnIntegers(env, Literal(TypeNode(c)))
    ensures var m := Body([W("is"), L(TypeNode(c))]);
      var r := ResolveMatch(env, m);
      && r == Compares(Interval(env.reg.content[c].lo, env.reg.content[c].hi, Some(INTEGER)))
      && Applies(r.iv, INTEGER) && (InSpan(r.iv, i) <==> Accepts(env, m, Number64(i)))
  {
    var m := Body([W("is"), L(TypeNode(c))]);
    assert ConformsTo(INTEGER, NUMBER);
    IntegerIsWellTagged(env.reg, i);
    assert ResolveMatch(env, m) == Compares(Interval(env.reg.content[c].lo, env.reg.content[c].hi, Some(INTEGER)));
    AcceptedNumbers(env, m, Interval(env.reg.content[c].lo, env.reg.content[c].hi, Some(INTEGER)), Number64(i));
  }

  lemma RefinementClause(env: Env, c: Type, i: int64)
    requires Valid(env.reg) && OnIntegers(env, Literal(TypeNode(c)))
    ensures var r := ResolveMatch(env, Literal(TypeNode(c)));
      && r.Plain? && r.m == TypeNode(c) && BoundsOf(r).Some?
      && BoundsOf(r).value == Interval(env.reg.content[c].lo, env.reg.content[c].hi, Some(INTEGER))
      && !Credits(env.reg, r, TypeNode(INTEGER)) && Applies(BoundsOf(r).value, INTEGER)
      && (InSpan(BoundsOf(r).value, i) <==> Accepts(env, Literal(TypeNode(c)), Number64(i)))
  {
    assert ConformsTo(INTEGER, NUMBER);
    if ConformsTo(INTEGER, c) { ConstraintAbove(env.reg, INTEGER, c); }
    IntegerIsWellTagged(env.reg, i);
    AcceptedNumbers(env, Literal(TypeNode(c)), Interval(env.reg.content[c].lo, env.reg.content[c].hi, Some(INTEGER)), Number64(i));
  }

  lemma IntegerIsWellTagged(reg: Registry, i: int64)
    requires Valid(reg)
    ensures WellTagged(reg, Number64(i))
  {
    forall c | c in reg.content ensures !ConformsTo(INTEGER, c) {
      ConstraintAbove(reg, INTEGER, c);
    }
    FamiliesApart(INTEGER);
    OneUp(INTEGER, NoneType);
    OneUp(NUMBER, NoneType);
    OneUp(SCALAR, NoneType);
    OneUp(INTEGER, Never);
    OneUp(NUMBER, Never);
    OneUp(SCALAR, Never);
  }

  // ---------------------------------------------------------------- the unreachable-clause advisory

  /** A builtin node makes a later one with values unreachable, if and only if it takes all the later one takes. */
  lemma NodeSubsumes(env: Env, t: Type, at: Type, w: Tagged)
    requires Valid(env.reg) && AllBuiltin(at) && AllBuiltin(t)
    requires WellTagged(env.reg, w) && Inhabits(env.reg, w, TypeNode(at))
    ensures Subsumes(env.reg, ResolveMatch(env, Literal(TypeNode(t))), ResolveMatch(env, Literal(TypeNode(at)))) <==>
      forall v | WellTagged(env.reg, v) && Unify(env.reg, TypeNode(at), v) != Refused ::
        Unify(env.reg, TypeNode(t), v) != Refused
  {
    PlainNode(env, t);
    PlainNode(env, at);
    if ConformsTo(at, t) {
      forall v | WellTagged(env.reg, v) && Unify(env.reg, TypeNode(at), v) != Refused
        ensures Unify(env.reg, TypeNode(t), v) != Refused
      {
        NarrowerRefusesMore(env.reg, at, t, v);
      }
    } else {
      var v := Outsider(env.reg, at, t, w);
      MemberUnifies(env.reg, TypeNode(at), v);
    }
  }

  /** Likewise a test and a later test. */
  lemma TestSubsumes(env: Env, t: Type, at: Type, w: Tagged)
    requires Valid(env.reg) && AllBuiltin(at) && AllBuiltin(t) && t != NoneType && at != NoneType
    requires WellTagged(env.reg, w) && Inhabits(env.reg, w, TypeNode(at))
    ensures Subsumes(env.reg, ResolveMatch(env, Body([W("is"), L(TypeNode(t))])),
                     ResolveMatch(env, Body([W("is"), L(TypeNode(at))]))) <==>
      forall v | WellTagged(env.reg, v) && IsA(env.reg, v, TypeNode(at)) :: IsA(env.reg, v, TypeNode(t))
  {
    TestNode(env, t);
    TestNode(env, at);
    if ConformsTo(at, t) {
      forall v | WellTagged(env.reg, v) && IsA(env.reg, v, TypeNode(at)) ensures IsA(env.reg, v, TypeNode(t)) {
        IsAWidens(env.reg, at, t, v);
      }
    } else {
      var v := Outsider(env.reg, at, t, w);
      MemberUnifies(env.reg, TypeNode(at), v);
    }
  }

  /** Two ends at integers below 2^53: one is judged within the other, if and only if it lets in fewer numbers. */
  lemma SmallLowWithin(k: int64, ki: bool, j: int64, ji: bool)
    requires -EXACT < k < EXACT && -EXACT < j < EXACT
    ensures var a, b := At(Whole(k), ki), At(Whole(j), ji);
      LowWithin(a, b) <==> forall x: Num | !IsNaN(x) && AboveLow(b, x) :: AboveLow(a, x)
  {
    var a, b := At(Whole(k), ki), At(Whole(j), ji);
    RoundExact(k);
    RoundExact(j);
    if LowWithin(a, b) {
      LowContained(a, b);
    } else {
      var x := if ji then Whole(j) else Midpoint(j, k);
      assert AboveLow(b, x) && !AboveLow(a, x);
    }
  }

  lemma SmallHighWithin(k: int64, ki: bool, j: int64, ji: bool)
    requires -EXACT < k < EXACT && -EXACT < j < EXACT
    ensures var a, b := At(Whole(k), ki), At(Whole(j), ji);
      HighWithin(a, b) <==> forall x: Num | !IsNaN(x) && BelowHigh(b, x) :: BelowHigh(a, x)
  {
    var a, b := At(Whole(k), ki), At(Whole(j), ji);
    RoundExact(k);
    RoundExact(j);
    if HighWithin(a, b) {
      HighContained(a, b);
    } else {
      var x := if ji then Whole(j) else Midpoint(j, k);
      assert BelowHigh(b, x) && !BelowHigh(a, x);
    }
  }

  function Midpoint(j: int, k: int): Num
    requires -EXACT < k < EXACT && -EXACT < j < EXACT
  {
    Fraction(Finite((j as real + k as real) / 2.0))
  }
}
