/**
  The bounded fixed-point analysis of a loop body (check/go/carrier.go, AnalyseLoopBody).

  Each round runs the body on the joined bindings of the round before, over a table of
  definition stacks that is pushed and popped in place. The round that "stabilises" is
  the last one. The test for that is the kernel's value equality, which calls any two
  plain carriers equal: it does not look at their types. What a stable exit certifies
  is the subject of LoopFixpoint.
*/
module LoopAnalysis {
  import opened Lattice

  type Env = map<string, Carrier>
  type Stacks = map<string, seq<Carrier>>

  /** What one abstract run of a body leaves: its residual stack, net additions, findings. */
  datatype Outcome = Outcome(stack: seq<Carrier>, adds: Env, findings: seq<string>)

  // ---------------------------------------------------------------- definition stacks

  ghost predicate Proper(s: Stacks) {
    forall k | k in s :: s[k] != []
  }

  function Pushed(s: Stacks, name: string, c: Carrier): Stacks {
    s[name := (if name in s then s[name] else []) + [c]]
  }

  /** An emptied stack leaves the table. */
  function Popped(s: Stacks, name: string): Stacks {
    if name !in s || s[name] == [] then s
    else if |s[name]| == 1 then s - {name}
    else s[name := s[name][..|s[name]| - 1]]
  }

  function PushedAll(s: Stacks, names: seq<string>, vals: seq<Carrier>): Stacks
    requires |names| == |vals|
  {
    if names == [] then s
    else Pushed(PushedAll(s, names[..|names| - 1], vals[..|vals| - 1]), names[|names| - 1], vals[|vals| - 1])
  }

  /** Every name's stack with at most one more binding on top. */
  function With(s: Stacks, top: Env): Stacks {
    map k | k in s.Keys + top.Keys :: (if k in s then s[k] else []) + (if k in top then [top[k]] else [])
  }

  /** The binding each name denotes. */
  function Visible(s: Stacks): Env {
    map k | k in s && s[k] != [] :: s[k][|s[k]| - 1]
  }

  lemma PopUndoesPush(s: Stacks, name: string, c: Carrier)
    requires Proper(s)
    ensures Proper(Pushed(s, name, c)) && Popped(Pushed(s, name, c), name) == s
  {
  }

  lemma {:induction false} PushedAllProper(s: Stacks, names: seq<string>, vals: seq<Carrier>)
    requires Proper(s) && |names| == |vals|
    ensures Proper(PushedAll(s, names, vals))
  {
    if names != [] {
      PushedAllProper(s, names[..|names| - 1], vals[..|vals| - 1]);
    }
  }

  lemma WithPush(s: Stacks, top: Env, name: string, c: Carrier)
    requires name !in top
    ensures Pushed(With(s, top), name, c) == With(s, top[name := c])
  {
    var a, b := Pushed(With(s, top), name, c), With(s, top[name := c]);
    assert name in s ==> s[name] + [] == s[name];
    assert a.Keys == b.Keys;
    forall k | k in a ensures a[k] == b[k] {
    }
  }

  lemma WithPop(s: Stacks, top: Env, name: string)
    requires Proper(s) && name in top
    ensures Popped(With(s, top), name) == With(s, top - {name})
  {
    var a, b := Popped(With(s, top), name), With(s, top - {name});
    if name in s {
      assert (s[name] + [top[name]])[..|s[name]|] == s[name] == s[name] + [];
    }
    assert a.Keys == b.Keys;
    forall k | k in a ensures a[k] == b[k] {
    }
  }

  lemma WithNothing(s: Stacks)
    ensures With(s, map[]) == s
  {
    forall k | k in s ensures With(s, map[])[k] == s[k] {
      assert s[k] + [] == s[k];
    }
  }

  // ---------------------------------------------------------------- one round, as a function

  datatype Loop = Loop(base: Stacks, bindNames: seq<string>, bindVals: seq<Carrier>, run: Env -> Outcome)
  {
    ghost predicate Ok() {
      Proper(base) && |bindNames| == |bindVals|
    }

    /** One abstract run of the body from joined bindings `j`, with the loop's own names bound. */
    function Run(j: Env): Outcome
      requires |bindNames| == |bindVals|
    {
      run(Visible(PushedAll(With(base, j), bindNames, bindVals)))
    }

    /** The pre-loop binding of a name. */
    function Pre(): Env {
      Visible(base)
    }

    /** The joined bindings after a run that added `adds`. */
    function Joined(adds: Env): Env {
      map k | k in adds && !NarrowingOnly(Pre(), k, adds[k]) ::
        if k in Pre() then JoinCarriers(adds[k], Pre()[k]) else adds[k]
    }

    function Next(j: Env): Env
      requires |bindNames| == |bindVals|
    {
      Joined(Run(j).adds)
    }
  }

  /** The same runtime value under a tighter bound: identity kept by the narrowing. */
  predicate NarrowingOnly(pre: Env, k: string, v: Carrier) {
    k in pre && v.dynamic && v.id != 0 && v.id == pre[k].id
  }

  // ---------------------------------------------------------------- the stability test

  /** Value equality on carriers: two carriers without payload are "equal" whatever their types. */
  predicate ValuesEqual(a: Carrier, b: Carrier) {
    match (a.shape, b.shape)
    case (Of(_), Of(_)) => true
    case (Disjunct(x, dx), Disjunct(y, dy)) => x == y && dx == dy
    case _ => false
  }

  predicate Stable(prev: Env, joined: Env) {
    joined == map[] ||
    (joined.Keys == prev.Keys && forall k | k in joined :: ValuesEqual(prev[k], joined[k]))
  }

  const LOOP_ANALYSIS_ROUNDS := 3

  /** The joined bindings of the last round, counting rounds down from `left`. */
  function Settle(l: Loop, j: Env, prev: Env, left: nat): Env
    requires |l.bindNames| == |l.bindVals| && left > 0
    decreases left
  {
    var next := l.Next(j);
    if Stable(prev, next) || left == 1 then next else Settle(l, next, next, left - 1)
  }

  function SettledRun(l: Loop, j: Env, prev: Env, left: nat): Outcome
    requires |l.bindNames| == |l.bindVals| && left > 0
    decreases left
  {
    var next := l.Next(j);
    if Stable(prev, next) || left == 1 then l.Run(j) else SettledRun(l, next, next, left - 1)
  }

  lemma {:induction false} SettleIsJoined(l: Loop, j: Env, prev: Env, left: nat)
    requires |l.bindNames| == |l.bindVals| && left > 0
    ensures Settle(l, j, prev, left) == l.Joined(SettledRun(l, j, prev, left).adds)
    decreases left
  {
    var next := l.Next(j);
    if !Stable(prev, next) && left != 1 {
      SettleIsJoined(l, next, next, left - 1);
    }
  }

  /**
    What joining additions leaves visible over the bindings before the loop. A gradual addition that
    carries the name's nonzero identity is the same value better known, and leaves the name as it was.
  */
  ghost predicate Absorbs(before: Env, adds: Env, after: Env) {
    && after.Keys == before.Keys + adds.Keys
    && (forall k | k in before && k !in adds :: after[k] == before[k])
    && (forall k | k in adds && k !in before :: after[k] == adds[k])
    && (forall k | k in adds && k in before ::
         if adds[k].dynamic && adds[k].id != 0 && adds[k].id == before[k].id then after[k] == before[k]
         else after[k].id == 0 && Below(adds[k], after[k]) && Below(before[k], after[k]))
  }

  lemma VisibleWith(s: Stacks, top: Env)
    requires Proper(s)
    ensures Visible(With(s, top)).Keys == Visible(s).Keys + top.Keys
    ensures forall k | k in Visible(With(s, top)) :: Visible(With(s, top))[k] == if k in top then top[k] else Visible(s)[k]
  {
  }

  lemma JoinedAbsorbs(l: Loop, adds: Env)
    requires Proper(l.base)
    ensures Absorbs(l.Pre(), adds, Visible(With(l.base, l.Joined(adds))))
  {
    VisibleWith(l.base, l.Joined(adds));
    forall k | k in adds && k in l.Pre()
      ensures Below(adds[k], JoinCarriers(adds[k], l.Pre()[k])) && Below(l.Pre()[k], JoinCarriers(adds[k], l.Pre()[k]))
    {
      JoinIsUpperBound(adds[k], l.Pre()[k]);
    }
    assert l.Joined(adds).Keys <= adds.Keys;
  }

  /** Value equality sees no difference: the same names, plain types on both sides or the same shape. */
  ghost predicate Indistinct(a: Env, b: Env) {
    a.Keys == b.Keys && forall k | k in a :: (a[k].shape.Of? && b[k].shape.Of?) || a[k].shape == b[k].shape
  }

  /** The rounds there are, and which of them is the last. */
  lemma LastRound(l: Loop)
    requires |l.bindNames| == |l.bindVals|
    ensures
      var first := l.Run(map[]);
      var second := l.Run(l.Joined(first.adds));
      var third := l.Run(l.Joined(second.adds));
      SettledRun(l, map[], map[], LOOP_ANALYSIS_ROUNDS) ==
        if l.Joined(first.adds) == map[] then first
        else if l.Joined(second.adds) == map[] || Indistinct(l.Joined(first.adds), l.Joined(second.adds)) then second
        else third
  {
    var j1 := l.Next(map[]);
    var j2 := l.Next(j1);
    assert Stable(map[], j1) <==> j1 == map[];
    assert Stable(j1, j2) <==> j2 == map[] || Indistinct(j1, j2);
    if j1 != map[] {
      assert SettledRun(l, map[], map[], LOOP_ANALYSIS_ROUNDS) == SettledRun(l, j1, j1, 2);
      if !Stable(j1, j2) {
        assert SettledRun(l, j1, j1, 2) == SettledRun(l, j2, j2, 1);
      }
    }
  }

  // ---------------------------------------------------------------- the table, in place

  class Registry {
    var defs: Stacks
    var diagnostics: seq<string>

    constructor (defs: Stacks, diagnostics: seq<string>)
      ensures this.defs == defs && this.diagnostics == diagnostics
    {
      this.defs, this.diagnostics := defs, diagnostics;
    }

    method Push(name: string, c: Carrier)
      modifies this`defs
      ensures defs == Pushed(old(defs), name, c)
    {
      defs := defs[name := (if name in defs then defs[name] else []) + [c]];
    }

    method Pop(name: string)
      modifies this`defs
      ensures defs == Popped(old(defs), name)
    {
      if name in defs && defs[name] != [] {
        if |defs[name]| == 1 {
          defs := defs - {name};
        } else {
          defs := defs[name := defs[name][..|defs[name]| - 1]];
        }
      }
    }

    /** Drops what was reported after position `n`. */
    method TruncateDiagnostics(n: nat)
      modifies this`diagnostics
      ensures diagnostics == if n < |old(diagnostics)| then old(diagnostics)[..n] else old(diagnostics)
    {
      if n < |diagnostics| {
        diagnostics := diagnostics[..n];
      }
    }

    method PushBinds(names: seq<string>, vals: seq<Carrier>)
      requires |names| == |vals|
      modifies this`defs
      ensures defs == PushedAll(old(defs), names, vals)
    {
      for i := 0 to |names|
        invariant defs == PushedAll(old(defs), names[..i], vals[..i])
      {
        Push(names[i], vals[i]);
        assert names[..i + 1][..i] == names[..i] && vals[..i + 1][..i] == vals[..i];
      }
      assert names[..|names|] == names && vals[..|vals|] == vals;
    }

    method PopBinds(names: seq<string>, ghost vals: seq<Carrier>, ghost under: Stacks)
      requires |names| == |vals| && Proper(under) && defs == PushedAll(under, names, vals)
      modifies this`defs
      ensures defs == under
    {
      assert names[..|names|] == names && vals[..|vals|] == vals;
      for i := |names| downto 0
        invariant defs == PushedAll(under, names[..i], vals[..i])
      {
        ghost var below := PushedAll(under, names[..i], vals[..i]);
        assert names[..i + 1][..i] == names[..i] && vals[..i + 1][..i] == vals[..i];
        PushedAllProper(under, names[..i], vals[..i]);
        PopUndoesPush(below, names[i], vals[i]);
        Pop(names[i]);
      }
    }

    /** The joined bindings of the round before go; the pre-loop bindings are visible again. */
    method PopInstalled(installed: seq<string>, ghost top: Env, ghost base: Stacks)
      requires Proper(base) && defs == With(base, top)
      requires DistinctNames(installed) && top.Keys == NameSet(installed)
      modifies this`defs
      ensures defs == base
    {
      ghost var now := top;
      assert installed[..|installed|] == installed;
      for i := |installed| downto 0
        invariant defs == With(base, now) && now.Keys == NameSet(installed[..i])
      {
        var k := installed[i];
        NameSetNext(installed, i);
        WithPop(base, now, k);
        Pop(k);
        now := now - {k};
      }
      assert now == map[];
      WithNothing(base);
    }

    /** Join each added name with its pre-loop binding. The table is only read. */
    method JoinAdds(adds: Env, names: seq<string>, ghost l: Loop) returns (joined: Env)
      requires defs == l.base && Proper(l.base) && NameSet(names) == adds.Keys
      ensures joined == l.Joined(adds)
    {
      joined := map[];
      for i := 0 to |names|
        invariant joined == Restrict(l.Joined(adds), NameSet(names[..i]))
      {
        var k := names[i];
        assert k in NameSet(names) && k in adds;
        RestrictNext(l.Joined(adds), names, i);
        var v := adds[k];
        if k in defs {
          var pre := defs[k][|defs[k]| - 1];
          assert pre == l.Pre()[k];
          if v.dynamic && v.id != 0 && v.id == pre.id {
            continue;
          }
          joined := joined[k := JoinCarriers(v, pre)];
        } else {
          joined := joined[k := v];
        }
      }
      assert names[..|names|] == names;
      forall k | k in l.Joined(adds) ensures k in names {
        assert k in NameSet(names);
      }
    }

    method InstallJoined(joined: Env, names: seq<string>, ghost base: Stacks) returns (installed: seq<string>)
      requires defs == base && Proper(base) && DistinctNames(names) && joined.Keys <= NameSet(names)
      modifies this`defs
      ensures defs == With(base, joined)
      ensures DistinctNames(installed) && NameSet(installed) == joined.Keys
    {
      installed := [];
      WithNothing(base);
      ghost var now: Env := map[];
      assert now == Restrict(joined, NameSet(names[..0]));
      for i := 0 to |names|
        invariant defs == With(base, now) && now == Restrict(joined, NameSet(names[..i]))
        invariant DistinctNames(installed) && NameSet(installed) == now.Keys
      {
        var k := names[i];
        RestrictNext(joined, names, i);
        if k in joined {
          WithPush(base, now, k, joined[k]);
          Push(k, joined[k]);
          NameSetAppend(installed, k);
          installed := installed + [k];
          now := now[k := joined[k]];
        }
      }
      assert names[..|names|] == names;
      assert now == joined;
    }

    /** Nothing joined, or as many names as in the previous round and each of them there with an equal value. */
    method IsStable(prev: Env, joined: Env) returns (stable: bool)
      ensures stable <==> Stable(prev, joined)
    {
      stable := |joined| == 0;
      if !stable {
        stable := |joined| == |prev|;
        var left := joined.Keys;
        while stable && left != {}
          invariant left <= joined.Keys
          invariant stable ==> |joined| == |prev| && forall k | k in joined && k !in left :: k in prev && ValuesEqual(prev[k], joined[k])
          invariant !stable ==> !Stable(prev, joined)
          decreases left, stable
        {
          var k :| k in left;
          if k !in prev || !ValuesEqual(prev[k], joined[k]) {
            stable := false;
          }
          left := left - {k};
        }
        if stable {
          SameSize(joined.Keys, prev.Keys);
        }
      }
    }
  }

  /** A set inside another of the same size is all of it. */
  lemma SameSize(a: set<string>, b: set<string>)
    requires a <= b && |a| == |b|
    ensures a == b
  {
    if x :| x in b && x !in a {
      assert a + {x} <= b && |a + {x}| == |a| + 1;
      SubsetSize(a + {x}, b);
    }
  }

  lemma {:induction false} SubsetSize(a: set<string>, b: set<string>)
    requires a <= b
    ensures |a| <= |b|
  {
    if x :| x in a {
      SubsetSize(a - {x}, b - {x});
    }
  }

  // ---------------------------------------------------------------- the analysis

  /**
    On every exit each name's stack is its entry stack with at most the one joined
    binding of the last round on top; the findings are the entry findings and the last
    round's; the residual stack is the last round's. Each name the last round added is
    visible with a binding above that addition and above the name's binding before the
    loop, unless the addition is that binding again, better known.
  */
  method AnalyseLoopBody(r: Registry, l: Loop) returns (stk: seq<Carrier>)
    requires l.Ok() && r.defs == l.base
    modifies r
    ensures r.defs == With(l.base, Settle(l, map[], map[], LOOP_ANALYSIS_ROUNDS))
    ensures r.diagnostics == old(r.diagnostics) + SettledRun(l, map[], map[], LOOP_ANALYSIS_ROUNDS).findings
    ensures stk == SettledRun(l, map[], map[], LOOP_ANALYSIS_ROUNDS).stack
    ensures Absorbs(Visible(l.base), SettledRun(l, map[], map[], LOOP_ANALYSIS_ROUNDS).adds, Visible(r.defs))
  {
    var diagBase := |r.diagnostics|;
    var installed: seq<string> := [];
    var prev: Env := map[];
    ghost var top: Env := map[];
    var stable := false;
    var round := 0;
    stk := [];
    WithNothing(l.base);
    while round < LOOP_ANALYSIS_ROUNDS && !stable
      invariant 0 <= round <= LOOP_ANALYSIS_ROUNDS
      invariant r.defs == With(l.base, top)
      invariant DistinctNames(installed) && NameSet(installed) == top.Keys
      invariant diagBase == |old(r.diagnostics)| <= |r.diagnostics| && r.diagnostics[..diagBase] == old(r.diagnostics)
      invariant !stable && round < LOOP_ANALYSIS_ROUNDS ==> (
                && top == prev
                && Settle(l, top, prev, LOOP_ANALYSIS_ROUNDS - round) == Settle(l, map[], map[], LOOP_ANALYSIS_ROUNDS)
                && SettledRun(l, top, prev, LOOP_ANALYSIS_ROUNDS - round) == SettledRun(l, map[], map[], LOOP_ANALYSIS_ROUNDS))
      invariant stable || round == LOOP_ANALYSIS_ROUNDS ==>
                var last := SettledRun(l, map[], map[], LOOP_ANALYSIS_ROUNDS);
                && top == Settle(l, map[], map[], LOOP_ANALYSIS_ROUNDS)
                && r.diagnostics == old(r.diagnostics) + last.findings && stk == last.stack
      decreases LOOP_ANALYSIS_ROUNDS - round
    {
      r.TruncateDiagnostics(diagBase);
      assert r.diagnostics == old(r.diagnostics);
      ghost var was := top;
      var outcome := RunRound(r, l, top);
      stk := outcome.stack;
      r.PopInstalled(installed, top, l.base);
      var names := Enumerate(outcome.adds.Keys);
      var joined := r.JoinAdds(outcome.adds, names, l);
      installed := r.InstallJoined(joined, names, l.base);
      stable := r.IsStable(prev, joined);
      prev := joined;
      top := joined;
      round := round + 1;
    }
    SettledAbsorbs(l);
  }

  lemma SettledAbsorbs(l: Loop)
    requires l.Ok()
    ensures Absorbs(Visible(l.base), SettledRun(l, map[], map[], LOOP_ANALYSIS_ROUNDS).adds,
              Visible(With(l.base, Settle(l, map[], map[], LOOP_ANALYSIS_ROUNDS))))
  {
    SettleIsJoined(l, map[], map[], LOOP_ANALYSIS_ROUNDS);
    JoinedAbsorbs(l, SettledRun(l, map[], map[], LOOP_ANALYSIS_ROUNDS).adds);
  }

  /** Bind the loop's own names, run the body on what is visible, unbind. */
  method RunRound(r: Registry, l: Loop, ghost top: Env) returns (outcome: Outcome)
    requires l.Ok() && r.defs == With(l.base, top)
    modifies r
    ensures outcome == l.Run(top)
    ensures r.defs == old(r.defs)
    ensures r.diagnostics == old(r.diagnostics) + outcome.findings
  {
    ghost var under := r.defs;
    r.PushBinds(l.bindNames, l.bindVals);
    outcome := l.run(Visible(r.defs));
    r.diagnostics := r.diagnostics + outcome.findings;
    r.PopBinds(l.bindNames, l.bindVals, under);
  }

  function NameSet(names: seq<string>): set<string> {
    set k | k in names
  }

  lemma NameSetNext(names: seq<string>, i: nat)
    requires i < |names|
    ensures NameSet(names[..i + 1]) == NameSet(names[..i]) + {names[i]}
    ensures DistinctNames(names) ==> names[i] !in NameSet(names[..i])
  {
    assert names[..i + 1] == names[..i] + [names[i]];
  }

  function Restrict(m: Env, names: set<string>): Env {
    map k | k in m && k in names :: m[k]
  }

  lemma RestrictNext(m: Env, names: seq<string>, i: nat)
    requires i < |names|
    ensures DistinctNames(names) ==> names[i] !in Restrict(m, NameSet(names[..i]))
    ensures
      var now, next := Restrict(m, NameSet(names[..i])), Restrict(m, NameSet(names[..i + 1]));
      next == if names[i] in m then now[names[i] := m[names[i]]] else now
  {
    NameSetNext(names, i);
  }

  lemma NameSetAppend(names: seq<string>, k: string)
    requires DistinctNames(names) && k !in NameSet(names)
    ensures NameSet(names + [k]) == NameSet(names) + {k} && DistinctNames(names + [k])
  {
    assert forall i | 0 <= i < |names| :: names[i] in NameSet(names);
  }

  ghost predicate DistinctNames(names: seq<string>) {
    forall i, j | 0 <= i < j < |names| :: names[i] != names[j]
  }

  /** The added names in some fixed order. */
  method Enumerate(keys: set<string>) returns (names: seq<string>)
    ensures DistinctNames(names) && NameSet(names) == keys
  {
    names := [];
    var rest := keys;
    while rest != {}
      invariant rest <= keys && DistinctNames(names) && NameSet(names) == keys - rest
      decreases rest
    {
      var k :| k in rest;
      NameSetAppend(names, k);
      names := names + [k];
      rest := rest - {k};
    }
  }
}
