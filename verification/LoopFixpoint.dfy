/**
  What a stable exit of the loop analysis certifies (check/go/carrier.go, AnalyseLoopBody,
  with core/go/equal.go, ValuesEqual).

  The environment the analysis leaves is a post-fixpoint, and so covers every number of
  iterations, when the last two rounds agree exactly. The source's test is weaker than
  that, and how much weaker is stated as an if-and-only-if.
*/
module LoopFixpoint {
  import opened Lattice
  import opened LoopAnalysis

  /** The bindings visible after the loop when `j` is installed. */
  ghost function After(l: Loop, j: Env): Env {
    Visible(With(l.base, j))
  }

  /** Above the pre-loop bindings, and above one abstract run of the body from itself. */
  ghost predicate PostFixpoint(l: Loop, j: Env)
    requires l.Ok()
  {
    && (forall k | k in l.Pre() :: k in After(l, j) && Below(l.Pre()[k], After(l, j)[k]))
    && (forall k | k in l.Run(j).adds :: k in After(l, j) && Below(l.Run(j).adds[k], After(l, j)[k]))
  }

  /** Narrowing keeps the identity of a binding and only tightens its bound. */
  ghost predicate NarrowingTightens(l: Loop)
    requires l.Ok()
  {
    forall j, k | k in l.Run(j).adds && k in l.Pre() ::
      var add, pre := l.Run(j).adds[k], l.Pre()[k];
      add.dynamic && add.id != 0 && add.id == pre.id ==> Below(add, pre)
  }

  /** The bindings the last round ran from. */
  ghost function LastInput(l: Loop, j: Env, prev: Env, left: nat): Env
    requires l.Ok() && left > 0
    decreases left
  {
    var next := l.Next(j);
    if Stable(prev, next) || left == 1 then j else LastInput(l, next, next, left - 1)
  }

  lemma AfterIs(l: Loop, j: Env)
    requires l.Ok()
    ensures After(l, j).Keys == l.Pre().Keys + j.Keys
    ensures forall k | k in After(l, j) :: After(l, j)[k] == if k in j then j[k] else l.Pre()[k]
  {
    VisibleWith(l.base, j);
  }

  lemma {:induction false} SettleIsNextOfLastInput(l: Loop, j: Env, prev: Env, left: nat)
    requires l.Ok() && left > 0
    ensures Settle(l, j, prev, left) == l.Next(LastInput(l, j, prev, left))
    decreases left
  {
    var next := l.Next(j);
    if !(Stable(prev, next) || left == 1) {
      SettleIsNextOfLastInput(l, next, next, left - 1);
    }
  }

  /** The same names with the same shapes, gradual alike; identities may differ. */
  ghost predicate SameBounds(a: Env, b: Env) {
    a.Keys == b.Keys && forall k | k in a :: a[k].shape == b[k].shape && a[k].dynamic == b[k].dynamic
  }

  /** A body's additions do not depend on the identities the analysis gives to joined bindings. */
  ghost predicate IdentityBlind(l: Loop)
    requires l.Ok()
  {
    forall i, j | SameBounds(i, j) :: SameBounds(l.Run(i).adds, l.Run(j).adds)
  }

  /** A round that repeats the bounds it ran from. */
  lemma FixedRoundIsPostFixpoint(l: Loop, i: Env, j: Env)
    requires l.Ok() && NarrowingTightens(l) && IdentityBlind(l) && j == l.Next(i) && SameBounds(i, j)
    ensures PostFixpoint(l, j)
  {
    AfterIs(l, j);
    var adds, again, pre := l.Run(i).adds, l.Run(j).adds, l.Pre();
    assert SameBounds(adds, again);
    forall k | k in pre ensures Below(pre[k], After(l, j)[k]) {
      if k in j {
        JoinIsUpperBound(adds[k], pre[k]);
      }
    }
    forall k | k in again ensures k in After(l, j) && Below(again[k], After(l, j)[k]) {
      if NarrowingOnly(pre, k, adds[k]) {
        BelowTransitive(again[k], adds[k], pre[k]);
      } else {
        assert k in l.Joined(adds);
        if k in pre {
          JoinIsUpperBound(adds[k], pre[k]);
          BelowTransitive(again[k], adds[k], j[k]);
        }
      }
    }
  }

  /** The environment AnalyseLoopBody leaves is a post-fixpoint when its last two rounds agree on every bound. */
  lemma ExactExitIsPostFixpoint(l: Loop)
    requires l.Ok() && NarrowingTightens(l) && IdentityBlind(l)
    requires SameBounds(LastInput(l, map[], map[], LOOP_ANALYSIS_ROUNDS), Settle(l, map[], map[], LOOP_ANALYSIS_ROUNDS))
    ensures PostFixpoint(l, Settle(l, map[], map[], LOOP_ANALYSIS_ROUNDS))
  {
    SettleIsNextOfLastInput(l, map[], map[], LOOP_ANALYSIS_ROUNDS);
    FixedRoundIsPostFixpoint(l, LastInput(l, map[], map[], LOOP_ANALYSIS_ROUNDS),
      Settle(l, map[], map[], LOOP_ANALYSIS_ROUNDS));
  }

  // ---------------------------------------------------------------- every iteration count

  /** The types of the runtime values the enclosing names hold. */
  type Tags = map<string, Type>

  ghost predicate Abstracts(tags: Tags, env: Env) {
    forall k | k in env :: k in tags && Inhabited(tags[k]) && Covers(env[k].shape, tags[k])
  }

  /** One abstract run from `j` over-approximates one iteration of the running body. */
  ghost predicate SoundBody(l: Loop, j: Env, step: (Tags, Tags) -> bool)
    requires l.Ok()
  {
    forall s, t | Abstracts(s, After(l, j)) && step(s, t) :: Abstracts(t, After(l, j) + l.Run(j).adds)
  }

  ghost predicate Iterates(step: (Tags, Tags) -> bool, s: Tags, n: nat, t: Tags)
    decreases n
  {
    if n == 0 then s == t else exists m :: step(s, m) && Iterates(step, m, n - 1, t)
  }

  /** A post-fixpoint over pre-bound names covers the bindings after every number of iterations, zero included. */
  lemma {:induction false} EveryIterationCountIsCovered(l: Loop, j: Env, step: (Tags, Tags) -> bool,
                                                        s: Tags, n: nat, t: Tags)
    requires l.Ok() && PostFixpoint(l, j) && j.Keys <= l.Pre().Keys
    requires SoundBody(l, j, step) && Iterates(step, s, n, t)
    requires Abstracts(s, l.Pre()) || Abstracts(s, After(l, j))
    ensures Abstracts(t, After(l, j))
    decreases n
  {
    AfterIs(l, j);
    assert Abstracts(s, After(l, j));
    if n > 0 {
      var m :| step(s, m) && Iterates(step, m, n - 1, t);
      var adds := l.Run(j).adds;
      forall k | k in After(l, j)
        ensures k in m && Inhabited(m[k]) && Covers(After(l, j)[k].shape, m[k])
      {
        assert k in After(l, j) + adds;
      }
      EveryIterationCountIsCovered(l, j, step, m, n - 1, t);
    }
  }

  // ---------------------------------------------------------------- the stability test is too weak

  function TypeOf(c: Carrier): Type {
    match c.shape
    case Of(t) => t
    case Disjunct(_, _) => Any
  }

  /** The types of a set of names. */
  type Types = map<string, Type>

  function TypesOf(env: Env): Types {
    map k | k in env :: TypeOf(env[k])
  }

  /** Plain carriers of those types. */
  function Ones(ts: Types): Env {
    map k | k in ts :: Carrier(Of(ts[k]), false, 0)
  }

  /** The names of p are bound before the loop; the body rebinds all of them, to types that are a function of theirs. */
  function Rebinding(p: Types, f: Types -> Types): Loop {
    Loop(Bound(p), [], [], (env: Env) => Outcome([], Ones(f(TypesOf(env))), []))
  }

  function Bound(p: Types): Stacks {
    map k | k in p :: [Carrier(Of(p[k]), false, 1)]
  }

  predicate Leq(a: Types, b: Types) {
    a.Keys == b.Keys && forall k | k in a :: ConformsTo(a[k], b[k])
  }

  ghost predicate Monotone(f: Types -> Types) {
    forall a, b | Leq(a, b) :: Leq(f(a), f(b))
  }

  lemma LeqTransitive(a: Types, b: Types, c: Types)
    requires Leq(a, b) && Leq(b, c)
    ensures Leq(a, c)
  {
    forall k | k in a ensures ConformsTo(a[k], c[k]) {
      ConformsTransitive(a[k], b[k], c[k]);
    }
  }

  lemma LeqAntisymmetric(a: Types, b: Types)
    requires Leq(a, b) && Leq(b, a)
    ensures a == b
  {
    forall k | k in a ensures a[k] == b[k] {
      ConformsAntisymmetric(a[k], b[k]);
    }
  }

  /** What is visible under joined bindings are their types, */
  lemma SeenUnder(p: Types, here: Types)
    requires here.Keys == p.Keys
    ensures TypesOf(Visible(With(Bound(p), Ones(here)))) == here
  {
    assert Visible(With(Bound(p), Ones(here))) == Ones(here);
  }

  /** and the pre-loop types before there are any. */
  lemma SeenAtFirst(p: Types)
    ensures TypesOf(Visible(With(Bound(p), map[]))) == p
  {
    WithNothing(Bound(p));
  }

  lemma RebindingSees(p: Types, f: Types -> Types, j: Env, here: Types)
    requires (j == map[] && here == p) || (j == Ones(here) && here.Keys == p.Keys)
    ensures Rebinding(p, f).Ok() && Rebinding(p, f).Run(j).adds == Ones(f(here))
  {
    SeenUnder(p, here);
    SeenAtFirst(p);
    RunsOnVisible(Rebinding(p, f), j);
  }

  lemma RunsOnVisible(l: Loop, j: Env)
    requires l.bindNames == [] && l.bindVals == []
    ensures l.Run(j) == l.run(Visible(With(l.base, j)))
  {
  }

  lemma RebindingPre(p: Types, f: Types -> Types)
    ensures Rebinding(p, f).Pre() == map k | k in p :: Carrier(Of(p[k]), false, 1)
  {
  }

  lemma RebindingJoins(p: Types, f: Types -> Types, t: Types)
    requires Leq(p, t)
    ensures Rebinding(p, f).Joined(Ones(t)) == Ones(t)
  {
    RebindingPre(p, f);
    forall k | k in p ensures JoinCarriers(Carrier(Of(t[k]), false, 0), Carrier(Of(p[k]), false, 1)) == Carrier(Of(t[k]), false, 0) {
      if ConformsTo(t[k], p[k]) {
        ConformsAntisymmetric(t[k], p[k]);
      }
    }
  }

  /** One round of such a loop, from the pre-loop types or from joined ones. */
  lemma RebindingNext(p: Types, f: Types -> Types, j: Env, here: Types)
    requires (j == map[] && here == p) || (j == Ones(here) && here.Keys == p.Keys)
    requires Leq(p, f(here))
    ensures Rebinding(p, f).Ok() && Rebinding(p, f).Next(j) == Ones(f(here))
  {
    RebindingSees(p, f, j, here);
    RebindingJoins(p, f, f(here));
  }

  lemma TwoRounds(l: Loop, j1: Env, j2: Env)
    requires l.Ok() && l.Next(map[]) == j1 && l.Next(j1) == j2
    requires !Stable(map[], j1) && Stable(j1, j2)
    ensures Settle(l, map[], map[], LOOP_ANALYSIS_ROUNDS) == j2
    ensures LastInput(l, map[], map[], LOOP_ANALYSIS_ROUNDS) == j1
  {
    assert Settle(l, j1, j1, 2) == j2;
    assert LastInput(l, j1, j1, 2) == j1;
  }

  lemma StableOnes(t1: Types, t2: Types)
    requires t1 != map[] && t1.Keys == t2.Keys
    ensures !Stable(map[], Ones(t1)) && Stable(Ones(t1), Ones(t2)) && Stable(Ones(t1), map[])
  {
    var k :| k in t1;
    assert k in Ones(t1);
  }

  /** The analysis of such a loop stops after two rounds, whatever the types are. */
  lemma RebindingSettles(p: Types, f: Types -> Types, t1: Types, t2: Types)
    requires p != map[] && Leq(p, t1) && Leq(p, t2) && f(p) == t1 && f(t1) == t2
    ensures Settle(Rebinding(p, f), map[], map[], LOOP_ANALYSIS_ROUNDS) == Ones(t2)
    ensures LastInput(Rebinding(p, f), map[], map[], LOOP_ANALYSIS_ROUNDS) == Ones(t1)
  {
    NonEmpty(p, t1);
    RebindingNext(p, f, map[], p);
    RebindingNext(p, f, Ones(t1), t1);
    StableOnes(t1, t2);
    TwoRounds(Rebinding(p, f), Ones(t1), Ones(t2));
  }

  /** A post-fixpoint of such a loop is a type environment the body does not leave, uninhabited types aside. */
  lemma RebindingPostFixpoint(p: Types, f: Types -> Types, t2: Types)
    requires Leq(p, t2) && f(t2).Keys == p.Keys
    ensures Rebinding(p, f).Ok()
    ensures PostFixpoint(Rebinding(p, f), Ones(t2))
       <==> forall k | k in t2 :: ConformsTo(f(t2)[k], t2[k]) || !Inhabited(f(t2)[k])
  {
    var l := Rebinding(p, f);
    RebindingSees(p, f, Ones(t2), t2);
    RebindingPre(p, f);
    PostFixpointByNames(l, Ones(t2));
    forall k | k in t2
      ensures Below(l.Pre()[k], Ones(t2)[k])
      ensures Below(l.Run(Ones(t2)).adds[k], Ones(t2)[k]) <==> ConformsTo(f(t2)[k], t2[k]) || !Inhabited(f(t2)[k])
    {
      BelowOf(p[k], t2[k], 1, 0);
      BelowOf(f(t2)[k], t2[k], 0, 0);
    }
  }

  /** When the body rebinds exactly the names bound before, a post-fixpoint is two comparisons a name. */
  lemma PostFixpointByNames(l: Loop, j: Env)
    requires l.Ok() && l.Pre().Keys == j.Keys == l.Run(j).adds.Keys
    ensures PostFixpoint(l, j) <==>
      forall k | k in j :: Below(l.Pre()[k], j[k]) && Below(l.Run(j).adds[k], j[k])
  {
    AfterIs(l, j);
    assert After(l, j) == j;
    if PostFixpoint(l, j) {
      forall k | k in j ensures Below(l.Pre()[k], j[k]) && Below(l.Run(j).adds[k], j[k]) {
        assert k in l.Pre() && k in l.Run(j).adds;
      }
    }
  }

  lemma BelowOf(a: Type, b: Type, i: nat, j: nat)
    ensures Below(Carrier(Of(a), false, i), Carrier(Of(b), false, j)) <==> ConformsTo(a, b) || !Inhabited(a)
  {
    if ConformsTo(a, b) {
      forall t | ConformsTo(t, a) ensures ConformsTo(t, b) {
        ConformsTransitive(t, a, b);
      }
    } else if !Inhabited(a) {
      forall t | ConformsTo(t, a) ensures !Inhabited(t) {
        ConformsTransitive(t, a, Never);
      }
    } else {
      assert Covers(Of(a), a) && !Covers(Of(b), a);
    }
  }

  ghost predicate AllAny(t: Types) {
    forall k | k in t :: t[k] == Any
  }

  /**
    Exactly when a stable exit with plain carriers certifies a post-fixpoint for every
    monotone body over any set of names: the last two environments agree, or every type
    of the second is Any. The source's test accepts every pair.
  */
  lemma StableExitCertifies(p: Types, t1: Types, t2: Types)
    requires p != map[] && p != t1 && Leq(p, t1) && Leq(t1, t2)
    ensures (forall f: Types -> Types | Monotone(f) && f(p) == t1 && f(t1) == t2 ::
               PostFixpoint(Rebinding(p, f), Ones(t2)))
       <==> t1 == t2 || AllAny(t2)
  {
    LeqTransitive(p, t1, t2);
    forall f: Types -> Types | Monotone(f) && f(p) == t1 && f(t1) == t2 && (t1 == t2 || AllAny(t2))
      ensures PostFixpoint(Rebinding(p, f), Ones(t2))
    {
      assert Leq(f(t1), f(t2));
      RebindingPostFixpoint(p, f, t2);
    }
    if t1 != t2 && !AllAny(t2) {
      ClimbIsMonotone(p, t1, t2);
      ClimbLeaves(p, t1, t2);
    }
  }

  /** At most p: then t1. At most t1: then t2. Else Any throughout. */
  function Climb(p: Types, t1: Types, t2: Types): Types -> Types {
    t => if Leq(t, p) then t1 else if Leq(t, t1) then t2 else map k | k in p :: Any
  }

  lemma ClimbIsMonotone(p: Types, t1: Types, t2: Types)
    requires p != t1 && t1 != t2 && Leq(p, t1) && Leq(t1, t2)
    ensures Monotone(Climb(p, t1, t2))
    ensures Climb(p, t1, t2)(p) == t1 && Climb(p, t1, t2)(t1) == t2
    ensures Climb(p, t1, t2)(t2) == map k | k in p :: Any
  {
    var f := Climb(p, t1, t2);
    LeqTransitive(p, t1, t2);
    forall a, b | Leq(a, b) ensures Leq(f(a), f(b)) {
      if Leq(b, p) { LeqTransitive(a, b, p); }
      if Leq(b, t1) { LeqTransitive(a, b, t1); }
    }
    if Leq(t1, p) { LeqAntisymmetric(t1, p); }
    if Leq(t2, t1) { LeqAntisymmetric(t1, t2); }
    if Leq(t2, p) { LeqTransitive(t2, p, t1); }
  }

  /** One step further than the analysis looks: it settles on t2, which the body still leaves. */
  lemma ClimbEscapes(p: Types, t1: Types, t2: Types)
    requires p != map[] && p != t1 && t1 != t2 && !AllAny(t2) && Leq(p, t1) && Leq(t1, t2)
    ensures
      var l := Rebinding(p, Climb(p, t1, t2));
      && l.Ok()
      && LastInput(l, map[], map[], LOOP_ANALYSIS_ROUNDS) == Ones(t1)
      && Settle(l, map[], map[], LOOP_ANALYSIS_ROUNDS) == Ones(t2)
      && Stable(Ones(t1), Ones(t2))
      && !PostFixpoint(l, Ones(t2))
  {
    ClimbIsMonotone(p, t1, t2);
    LeqTransitive(p, t1, t2);
    NonEmpty(p, t1);
    RebindingSettles(p, Climb(p, t1, t2), t1, t2);
    StableOnes(t1, t2);
    ClimbLeaves(p, t1, t2);
  }

  lemma NonEmpty(p: Types, t: Types)
    requires p != map[] && p.Keys == t.Keys
    ensures t != map[]
  {
    var k :| k in p;
    assert k in t;
  }

  lemma ClimbLeaves(p: Types, t1: Types, t2: Types)
    requires Leq(p, t2) && !AllAny(t2) && Climb(p, t1, t2)(t2) == map k | k in p :: Any
    ensures Rebinding(p, Climb(p, t1, t2)).Ok()
    ensures !PostFixpoint(Rebinding(p, Climb(p, t1, t2)), Ones(t2))
  {
    RebindingPostFixpoint(p, Climb(p, t1, t2), t2);
  }

  function X(t: Type): Types {
    map["x" := t]
  }

  /** x is an Integer; the body makes it a Number, then a Scalar, then Any. The analysis stops at Scalar. */
  lemma StableButNotPostFixpoint()
    ensures
      var l := Rebinding(X(INTEGER), Climb(X(INTEGER), X(NUMBER), X(SCALAR)));
      && l.Ok()
      && LastInput(l, map[], map[], LOOP_ANALYSIS_ROUNDS) == Ones(X(NUMBER))
      && Settle(l, map[], map[], LOOP_ANALYSIS_ROUNDS) == Ones(X(SCALAR))
      && Stable(Ones(X(NUMBER)), Ones(X(SCALAR)))
      && !PostFixpoint(l, Ones(X(SCALAR)))
  {
    assert ConformsTo(NUMBER, SCALAR) && ConformsTo(INTEGER, NUMBER);
    assert X(INTEGER)["x"] != X(NUMBER)["x"] && X(NUMBER)["x"] != X(SCALAR)["x"];
    ClimbEscapes(X(INTEGER), X(NUMBER), X(SCALAR));
  }

  /** x is an Integer; the body rebinds an Integer x to a Number and leaves any other x alone. */
  function RebindsIntegers(): Loop {
    Loop(map["x" := [Carrier(Of(INTEGER), false, 1)]], [], [],
         (env: Env) => Outcome([], if "x" in env && env["x"].shape == Of(INTEGER) then Ones(X(NUMBER)) else map[], []))
  }

  /** A later round that adds nothing counts as stable too, although an earlier one added something. */
  lemma EmptyRoundIsNotPostFixpoint()
    ensures RebindsIntegers().Ok()
    ensures Settle(RebindsIntegers(), map[], map[], LOOP_ANALYSIS_ROUNDS) == map[]
    ensures !PostFixpoint(RebindsIntegers(), map[])
  {
    var l := RebindsIntegers();
    RebindsIntegersRuns();
    StableOnes(X(NUMBER), X(NUMBER));
    TwoRounds(l, Ones(X(NUMBER)), map[]);
    LeavesX(l, NUMBER);
  }

  lemma LeavesX(l: Loop, t: Type)
    requires l.Ok() && l.Pre() == map["x" := Carrier(Of(INTEGER), false, 1)] && l.Run(map[]).adds == Ones(X(t))
    requires !ConformsTo(t, INTEGER) && Inhabited(t)
    ensures !PostFixpoint(l, map[])
  {
    AfterIs(l, map[]);
    BelowOf(t, INTEGER, 0, 1);
    assert "x" in l.Run(map[]).adds;
  }

  lemma RebindsIntegersRuns()
    ensures
      var l := RebindsIntegers();
      && l.Ok() && l.Pre() == map["x" := Carrier(Of(INTEGER), false, 1)]
      && l.Run(map[]).adds == Ones(X(NUMBER))
      && l.Next(map[]) == Ones(X(NUMBER))
      && l.Next(Ones(X(NUMBER))) == map[]
  {
    var l := RebindsIntegers();
    var env0 := Visible(PushedAll(With(l.base, map[]), [], []));
    assert env0["x"] == Carrier(Of(INTEGER), false, 1);
    var env1 := Visible(PushedAll(With(l.base, Ones(X(NUMBER))), [], []));
    assert env1["x"] == Carrier(Of(NUMBER), false, 0);
    assert l.Joined(Ones(X(NUMBER))) == Ones(X(NUMBER));
  }
}
