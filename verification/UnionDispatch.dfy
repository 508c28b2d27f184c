/**
  Dispatch over union-typed arguments (check/go/carrier.go): each alternative of a
  strict disjunct dispatches on its own, and the return rows are joined.
*/
module UnionDispatch {
  import opened Lattice

  datatype Arg =
    | Abstract(c: Carrier)
    | Concrete(tag: Type)

  const LIST := Node(Node(Any, "Node", false), "List", false)
  const MAP := Node(Node(Any, "Node", false), "Map", false)

  datatype Returns =
    | Computed(run: seq<Arg> -> seq<Carrier>)
    | Declared(types: seq<Type>)
    | Unannotated

  datatype Sig = Sig(params: seq<Type>, out: Returns)

  predicate StrictDisjunct(a: Arg) {
    a.Abstract? && a.c.shape.Disjunct? && !a.c.dynamic
  }

  // ---------------------------------------------------------------- matching one overload

  /** Strict values match every denotation; gradual ones match unless provably disjoint. */
  predicate SigTypeMatches(a: Arg, t: Type) {
    match a
    case Concrete(tag) => ConformsTo(tag, t)
    case Abstract(c) =>
      var types := Flatten(c.shape);
      if c.dynamic then exists u | u in types :: ConformsTo(u, t) || ConformsTo(t, u)
      else forall u | u in types :: ConformsTo(u, t)
  }

  /** Only inhabited types are named: no alternative is a Never. */
  predicate Populated(a: Arg) {
    match a
    case Concrete(tag) => Inhabited(tag)
    case Abstract(c) => forall u | u in Flatten(c.shape) :: Inhabited(u)
  }

  /** What a match means on runtime tags: some tag a gradual value stands for, every tag a strict one does. */
  ghost predicate Fits(a: Arg, t: Type) {
    match a
    case Concrete(tag) => ConformsTo(tag, t)
    case Abstract(c) =>
      if c.dynamic then exists tag :: Inhabited(tag) && Covers(c.shape, tag) && ConformsTo(tag, t)
      else forall tag | Inhabited(tag) && Covers(c.shape, tag) :: ConformsTo(tag, t)
  }

  /** A gradual value matches a slot when a runtime value it may be does. */
  lemma GradualMatches(c: Carrier, t: Type)
    requires c.dynamic && Inhabited(t) && Populated(Abstract(c))
    ensures SigTypeMatches(Abstract(c), t) <==> exists tag :: Inhabited(tag) && Covers(c.shape, tag) && ConformsTo(tag, t)
  {
    if SigTypeMatches(Abstract(c), t) {
      var u :| u in Flatten(c.shape) && (ConformsTo(u, t) || ConformsTo(t, u));
      assert Covers(c.shape, if ConformsTo(u, t) then u else t);
    }
    if tag :| Inhabited(tag) && Covers(c.shape, tag) && ConformsTo(tag, t) {
      var u :| u in Flatten(c.shape) && ConformsTo(tag, u);
      ChainIsLinear(tag, t, u);
    }
  }

  /** A strict value matches a slot when all runtime values it may be do. */
  lemma StrictMatches(c: Carrier, t: Type)
    requires !c.dynamic && Populated(Abstract(c))
    ensures SigTypeMatches(Abstract(c), t) <==> forall tag | Inhabited(tag) && Covers(c.shape, tag) :: ConformsTo(tag, t)
  {
    if SigTypeMatches(Abstract(c), t) {
      forall tag | Inhabited(tag) && Covers(c.shape, tag) ensures ConformsTo(tag, t) {
        var u :| u in Flatten(c.shape) && ConformsTo(tag, u);
        ConformsTransitive(tag, u, t);
      }
    }
    if forall tag | Inhabited(tag) && Covers(c.shape, tag) :: ConformsTo(tag, t) {
      forall u | u in Flatten(c.shape) ensures ConformsTo(u, t) {
        assert Covers(c.shape, u);
      }
    }
  }

  lemma MatchIsFit(a: Arg, t: Type)
    requires Populated(a) && Inhabited(t)
    ensures SigTypeMatches(a, t) <==> Fits(a, t)
  {
    if a.Abstract? {
      if a.c.dynamic { GradualMatches(a.c, t); } else { StrictMatches(a.c, t); }
    }
  }

  predicate Matches(s: Sig, args: seq<Arg>) {
    |s.params| == |args| && forall j | 0 <= j < |args| :: SigTypeMatches(args[j], s.params[j])
  }

  ghost predicate FirstMatch(sigs: seq<Sig>, args: seq<Arg>, k: int) {
    && 0 <= k < |sigs| && Matches(sigs[k], args)
    && forall j | 0 <= j < k :: !Matches(sigs[j], args)
  }

  ghost predicate NoMatch(sigs: seq<Sig>, args: seq<Arg>) {
    forall s | s in sigs :: !Matches(s, args)
  }

  /** The first overload in match order, or -1. */
  method FirstMatchingSig(sigs: seq<Sig>, args: seq<Arg>) returns (k: int)
    ensures k >= 0 ==> FirstMatch(sigs, args, k)
    ensures k < 0 ==> k == -1 && NoMatch(sigs, args)
  {
    for i := 0 to |sigs|
      invariant forall j | 0 <= j < i :: !Matches(sigs[j], args)
    {
      var s := sigs[i];
      if |s.params| != |args| {
        continue;
      }
      var ok := true;
      var j := 0;
      while j < |args| && ok
        invariant 0 <= j <= |args|
        invariant ok <==> forall p | 0 <= p < j :: SigTypeMatches(args[p], s.params[p])
      {
        ok := SigTypeMatches(args[j], s.params[j]);
        j := j + 1;
      }
      if ok {
        return i;
      }
    }
    return -1;
  }

  // ---------------------------------------------------------------- the cross product

  /** A strict disjunct expands to one carrier per alternative; anything else to itself. */
  function Alternatives(a: Arg): seq<Arg> {
    if StrictDisjunct(a) then
      var types := Flatten(a.c.shape);
      seq(|types|, i requires 0 <= i < |types| => Abstract(Carrier(Of(types[i]), false, 0)))
    else [a]
  }

  /** One strict carrier per alternative of a strict union, in order; concrete, plain and gradual ones stay whole. */
  lemma AlternativesAre(a: Arg)
    ensures match a
      case Concrete(_) => Alternatives(a) == [a]
      case Abstract(Carrier(Of(_), _, _)) => Alternatives(a) == [a]
      case Abstract(Carrier(Disjunct(alts, _), dynamic, _)) =>
        && (dynamic ==> Alternatives(a) == [a])
        && (!dynamic ==> |Alternatives(a)| == |alts|)
        && (!dynamic ==> forall i | 0 <= i < |alts| :: Alternatives(a)[i] == Abstract(Carrier(Of(alts[i]), false, 0)))
  {
  }

  function Append<T>(row: seq<T>, alts: seq<T>): (r: seq<seq<T>>)
    ensures |r| == |alts|
  {
    seq(|alts|, i requires 0 <= i < |alts| => row + [alts[i]])
  }

  /** Every row of `rows`, in order, extended by every alternative, in order. */
  function Extend<T>(rows: seq<seq<T>>, alts: seq<T>): (r: seq<seq<T>>)
    ensures |r| == |rows| * |alts|
  {
    if rows == [] then []
    else
      var last := |rows| - 1;
      assert |rows| * |alts| == last * |alts| + |alts|;
      Extend(rows[..last], alts) + Append(rows[last], alts)
  }

  function Product(args: seq<Arg>): seq<seq<Arg>> {
    if args == [] then [[]]
    else Extend(Product(args[..|args| - 1]), Alternatives(args[|args| - 1]))
  }

  const PARTITION_CAP := 16

  /** No product of a prefix of the arguments, up to the first `n`, is larger than the limit. */
  ghost predicate WithinCap(args: seq<Arg>, limit: nat, n: nat)
    requires n <= |args|
  {
    forall i | 0 < i <= n :: |Product(args[..i])| <= limit
  }

  method DisjunctCombos(args: seq<Arg>, limit: nat) returns (combos: seq<seq<Arg>>, ok: bool)
    ensures ok <==> WithinCap(args, limit, |args|)
    ensures ok ==> combos == Product(args)
  {
    combos := [[]];
    for i := 0 to |args|
      invariant combos == Product(args[..i]) && WithinCap(args, limit, i)
    {
      var alts := Alternatives(args[i]);
      assert args[..i + 1][..i] == args[..i];
      assert Product(args[..i + 1]) == Extend(combos, alts);
      if |combos| * |alts| > limit {
        return [], false;
      }
      combos := CrossWith(combos, alts);
    }
    assert args[..|args|] == args;
    return combos, true;
  }

  method CrossWith(combos: seq<seq<Arg>>, alts: seq<Arg>) returns (next: seq<seq<Arg>>)
    ensures next == Extend(combos, alts)
  {
    next := [];
    for ci := 0 to |combos|
      invariant next == Extend(combos[..ci], alts)
    {
      ghost var before := next;
      for ai := 0 to |alts|
        invariant next == before + Append(combos[ci], alts)[..ai]
      {
        next := next + [combos[ci] + [alts[ai]]];
      }
      assert combos[..ci + 1][..ci] == combos[..ci];
    }
    assert combos[..|combos|] == combos;
  }

  /** A selection names one alternative per argument. */
  ghost predicate Selection(args: seq<Arg>, pick: seq<int>) {
    |pick| == |args| && forall i | 0 <= i < |args| :: 0 <= pick[i] < |Alternatives(args[i])|
  }

  ghost function Pick(args: seq<Arg>, pick: seq<int>): seq<Arg>
    requires Selection(args, pick)
  {
    seq(|args|, i requires 0 <= i < |args| => Alternatives(args[i])[pick[i]])
  }

  function Indices(n: nat): seq<int> {
    seq(n, i => i)
  }

  /** All selections, in the order the product lists them. */
  ghost function Selections(args: seq<Arg>): seq<seq<int>> {
    if args == [] then [[]]
    else
      var n := |args| - 1;
      Extend(Selections(args[..n]), Indices(|Alternatives(args[n])|))
  }

  ghost predicate Distinct<T>(s: seq<T>) {
    forall i, j | 0 <= i < j < |s| :: s[i] != s[j]
  }

  lemma {:induction false} ExtendMembers<T>(rows: seq<seq<T>>, alts: seq<T>, row: seq<T>)
    ensures row in Extend(rows, alts) <==> row != [] && row[..|row| - 1] in rows && row[|row| - 1] in alts
  {
    if rows != [] {
      var last := |rows| - 1;
      ExtendMembers(rows[..last], alts, row);
      var tail := Append(rows[last], alts);
      if row in tail {
        var i :| 0 <= i < |tail| && tail[i] == row;
        assert row == rows[last] + [alts[i]];
      }
      if row != [] && row[..|row| - 1] == rows[last] && row[|row| - 1] in alts {
        var i :| 0 <= i < |alts| && alts[i] == row[|row| - 1];
        assert tail[i] == row;
      }
      assert rows == rows[..last] + [rows[last]];
    }
  }

  lemma {:induction false} ExtendDistinct<T>(rows: seq<seq<T>>, alts: seq<T>)
    requires Distinct(rows) && Distinct(alts)
    ensures Distinct(Extend(rows, alts))
  {
    if rows != [] {
      var last := |rows| - 1;
      ExtendDistinct(rows[..last], alts);
      var head, tail := Extend(rows[..last], alts), Append(rows[last], alts);
      forall i, j | 0 <= i < j < |head + tail| ensures (head + tail)[i] != (head + tail)[j] {
        if i < |head| <= j {
          ExtendMembers(rows[..last], alts, head[i]);
          assert tail[j - |head|][..|rows[last]|] == rows[last];
          assert rows[last] !in rows[..last];
        } else if |head| <= i {
          assert tail[i - |head|][|rows[last]|] == alts[i - |head|];
          assert tail[j - |head|][|rows[last]|] == alts[j - |head|];
        }
      }
    }
  }

  lemma SelectionSplit(args: seq<Arg>, pick: seq<int>)
    requires args != []
    ensures
      var n := |args| - 1;
      Selection(args, pick) <==>
        |pick| == |args| && Selection(args[..n], pick[..n]) && 0 <= pick[n] < |Alternatives(args[n])|
  {
  }

  lemma {:induction false} SelectionsAreAll(args: seq<Arg>)
    ensures forall pick :: pick in Selections(args) <==> Selection(args, pick)
    ensures Distinct(Selections(args))
  {
    if args != [] {
      var n := |args| - 1;
      var picks, indices := Selections(args[..n]), Indices(|Alternatives(args[n])|);
      SelectionsAreAll(args[..n]);
      ExtendDistinct(picks, indices);
      forall pick ensures pick in Selections(args) <==> Selection(args, pick) {
        ExtendMembers(picks, indices, pick);
        SelectionSplit(args, pick);
        if |pick| == |args| && 0 <= pick[n] < |indices| {
          assert indices[pick[n]] == pick[n];
        }
      }
    } else {
      assert forall pick :: Selection(args, pick) <==> pick == [];
    }
  }

  /** Row k of the product is what selection k picks; the selections are all of them, once each. */
  lemma {:induction false} ProductIsExact(args: seq<Arg>)
    ensures |Product(args)| == |Selections(args)|
    ensures forall k | 0 <= k < |Product(args)| ::
              Selection(args, Selections(args)[k]) && Product(args)[k] == Pick(args, Selections(args)[k])
    ensures forall pick :: pick in Selections(args) <==> Selection(args, pick)
    ensures Distinct(Selections(args))
  {
    SelectionsAreAll(args);
    if args != [] {
      var n := |args| - 1;
      ProductIsExact(args[..n]);
      PicksExtend(args, Product(args[..n]), Selections(args[..n]));
      assert Product(args) == Extend(Product(args[..n]), Alternatives(args[n]));
      assert Selections(args) == Extend(Selections(args[..n]), Indices(|Alternatives(args[n])|));
    }
  }

  lemma {:induction false} PicksExtend(args: seq<Arg>, rows: seq<seq<Arg>>, picks: seq<seq<int>>)
    requires args != [] && |rows| == |picks|
    requires forall k | 0 <= k < |rows| ::
               Selection(args[..|args| - 1], picks[k]) && rows[k] == Pick(args[..|args| - 1], picks[k])
    ensures
      var alts := Alternatives(args[|args| - 1]);
      var allRows, allPicks := Extend(rows, alts), Extend(picks, Indices(|alts|));
      forall k | 0 <= k < |allRows| :: Selection(args, allPicks[k]) && allRows[k] == Pick(args, allPicks[k])
    decreases |rows|
  {
    if rows != [] {
      var last := |rows| - 1;
      PicksExtend(args, rows[..last], picks[..last]);
      var alts := Alternatives(args[|args| - 1]);
      forall i | 0 <= i < |alts|
        ensures Selection(args, Append(picks[last], Indices(|alts|))[i])
        ensures Append(rows[last], alts)[i] == Pick(args, Append(picks[last], Indices(|alts|))[i])
      {
        PickOneMore(args, rows[last], picks[last], i);
      }
      assert Extend(rows, alts) == Extend(rows[..last], alts) + Append(rows[last], alts);
      assert Extend(picks, Indices(|alts|)) == Extend(picks[..last], Indices(|alts|)) + Append(picks[last], Indices(|alts|));
    }
  }

  lemma PickOneMore(args: seq<Arg>, row: seq<Arg>, pick: seq<int>, i: int)
    requires args != [] && Selection(args[..|args| - 1], pick) && row == Pick(args[..|args| - 1], pick)
    requires 0 <= i < |Alternatives(args[|args| - 1])|
    ensures Selection(args, pick + [i])
    ensures row + [Alternatives(args[|args| - 1])[i]] == Pick(args, pick + [i])
  {
    assert (pick + [i])[..|pick|] == pick;
    SelectionSplit(args, pick + [i]);
  }

  // ---------------------------------------------------------------- joining return rows

  ghost predicate RowBelow(row: seq<Carrier>, joined: seq<Carrier>) {
    |row| == |joined| && forall i | 0 <= i < |row| :: Below(row[i], joined[i])
  }

  ghost predicate SameArity(rows: seq<seq<Carrier>>) {
    forall row | row in rows :: |row| == |rows[0]|
  }

  function JoinRow(a: seq<Carrier>, b: seq<Carrier>): seq<Carrier> {
    seq(|a|, i requires 0 <= i < |a| => if i < |b| then JoinCarriers(a[i], b[i]) else a[i])
  }

  /** The rows joined position by position, from the first to the last. */
  function FoldRows(rows: seq<seq<Carrier>>): seq<Carrier> {
    if rows == [] then []
    else if |rows| == 1 then rows[0]
    else JoinRow(FoldRows(rows[..|rows| - 1]), rows[|rows| - 1])
  }

  lemma {:induction false} FoldIsAbove(rows: seq<seq<Carrier>>)
    requires rows != [] && SameArity(rows)
    ensures |FoldRows(rows)| == |rows[0]|
    ensures forall row | row in rows :: RowBelow(row, FoldRows(rows))
  {
    if |rows| > 1 {
      var init, last := rows[..|rows| - 1], rows[|rows| - 1];
      assert rows == init + [last] && init[0] == rows[0];
      assert last in rows && forall row | row in init :: row in rows;
      FoldIsAbove(init);
      forall i | 0 <= i < |last| ensures Below(FoldRows(init)[i], FoldRows(rows)[i]) && Below(last[i], FoldRows(rows)[i]) {
        JoinIsUpperBound(FoldRows(init)[i], last[i]);
      }
      forall row | row in init ensures RowBelow(row, FoldRows(rows)) {
        RowBelowTransitive(row, FoldRows(init), FoldRows(rows));
      }
    }
  }

  lemma RowBelowTransitive(a: seq<Carrier>, b: seq<Carrier>, c: seq<Carrier>)
    requires RowBelow(a, b) && RowBelow(b, c)
    ensures RowBelow(a, c)
  {
    forall i | 0 <= i < |a| ensures Below(a[i], c[i]) {
      BelowTransitive(a[i], b[i], c[i]);
    }
  }

  /** One row joined into the accumulator, position by position. */
  method JoinInto(acc: seq<Carrier>, rets: seq<Carrier>) returns (joined: seq<Carrier>)
    requires |acc| == |rets|
    ensures joined == JoinRow(acc, rets)
  {
    joined := acc;
    for i := 0 to |joined|
      invariant |joined| == |acc|
      invariant forall p | 0 <= p < i :: joined[p] == JoinCarriers(acc[p], rets[p])
      invariant forall p | i <= p < |joined| :: joined[p] == acc[p]
    {
      joined := joined[i := JoinCarriers(joined[i], rets[i])];
    }
  }

  /** The position-wise fold. The first row is the accumulator, overwritten in place. */
  method JoinReturnRows(rows: seq<seq<Carrier>>) returns (joined: seq<Carrier>, ok: bool)
    ensures ok <==> rows != [] && SameArity(rows)
    ensures ok ==> joined == FoldRows(rows)
    ensures ok ==> forall row | row in rows :: RowBelow(row, joined)
  {
    if rows == [] {
      return [], false;
    }
    joined := rows[0];
    for k := 1 to |rows|
      invariant forall j | 0 <= j < k :: |rows[j]| == |rows[0]|
      invariant joined == FoldRows(rows[..k]) && |joined| == |rows[0]|
    {
      var rets := rows[k];
      if |rets| != |joined| {
        assert rows[k] in rows;
        return joined, false;
      }
      assert rows[..k + 1][..k] == rows[..k];
      joined := JoinInto(joined, rets);
    }
    assert rows[..|rows|] == rows;
    FoldIsAbove(rows);
    return joined, true;
  }

  // ---------------------------------------------------------------- the partitioned dispatch

  /** An alternative tuple no overload accepts; an error when every disjunct was a declared union. */
  datatype PartialDispatch = PartialDispatch(combo: seq<Arg>, error: bool)

  /** The return carriers of a matched overload. */
  function ReturnRow(s: Sig, combo: seq<Arg>): seq<Carrier>
    requires !s.out.Unannotated?
  {
    match s.out
    case Computed(run) => run(combo)
    case Declared(types) => seq(|types|, i requires 0 <= i < |types| => Carrier(Of(types[i]), false, 0))
  }

  /** Declared returns are strict carriers of the declared types, in order; computed ones are what the hook gives. */
  lemma DeclaredRow(params: seq<Type>, types: seq<Type>, combo: seq<Arg>)
    ensures var row := ReturnRow(Sig(params, Declared(types)), combo);
      && |row| == |types|
      && forall i | 0 <= i < |types| :: row[i].shape == Of(types[i]) && !row[i].dynamic && row[i].id == 0
  {
  }

  predicate BodyRunning(a: Arg) {
    a.Concrete? && (ConformsTo(a.tag, LIST) || ConformsTo(a.tag, MAP))
  }

  predicate DeclaredDomain(args: seq<Arg>) {
    forall a | a in args && StrictDisjunct(a) :: a.c.shape.declared
  }

  /** The partition applies: a strict disjunct, no body-running operand, a known word, within the cap. */
  ghost predicate Applies(sigs: seq<Sig>, args: seq<Arg>) {
    && (exists a | a in args :: StrictDisjunct(a))
    && (forall a | a in args :: !BodyRunning(a))
    && sigs != []
    && WithinCap(args, PARTITION_CAP, |args|)
  }

  /** When the partition applies: a strict union, no concrete list or map, a known word, no prefix over the limit. */
  lemma AppliesExactly(sigs: seq<Sig>, args: seq<Arg>)
    ensures Applies(sigs, args) <==>
      && (exists c :: Abstract(c) in args && c.shape.Disjunct? && !c.dynamic)
      && (forall tag | Concrete(tag) in args :: !ConformsTo(tag, LIST) && !ConformsTo(tag, MAP))
      && |sigs| > 0 && forall i | 0 < i <= |args| :: |Product(args[..i])| <= 16
  {
    if a :| a in args && StrictDisjunct(a) {
      assert Abstract(a.c) in args;
    }
    if forall tag | Concrete(tag) in args :: !ConformsTo(tag, LIST) && !ConformsTo(tag, MAP) {
      forall a | a in args ensures !BodyRunning(a) {
        if a.Concrete? {
          assert Concrete(a.tag) in args;
        }
      }
    }
    if forall a | a in args :: !BodyRunning(a) {
      forall tag | Concrete(tag) in args ensures !ConformsTo(tag, LIST) && !ConformsTo(tag, MAP) {
        assert !BodyRunning(Concrete(tag));
      }
    }
  }

  /** A report is an error exactly when every strict union was declared as one. */
  lemma DeclaredDomainIs(args: seq<Arg>)
    ensures DeclaredDomain(args) <==>
      forall c, alts, declared | Abstract(c) in args && c.shape == Disjunct(alts, declared) :: c.dynamic || declared
  {
    forall a | a in args && StrictDisjunct(a)
      ensures (forall c, alts, declared | Abstract(c) in args && c.shape == Disjunct(alts, declared) :: c.dynamic || declared)
        ==> a.c.shape.declared
    {
      assert Abstract(a.c) in args && a.c.shape == Disjunct(a.c.shape.alts, a.c.shape.declared);
    }
    forall c, alts, declared | DeclaredDomain(args) && Abstract(c) in args && c.shape == Disjunct(alts, declared)
      ensures c.dynamic || declared
    {
      assert Abstract(c) in args;
    }
  }

  /** What dispatching each tuple on its own reports, up to the first unannotated overload. */
  ghost function Reports(sigs: seq<Sig>, combos: seq<seq<Arg>>, error: bool): seq<PartialDispatch> {
    if combos == [] then []
    else
      Reports(sigs, combos[..|combos| - 1], error) +
      if NoMatch(sigs, combos[|combos| - 1]) then [PartialDispatch(combos[|combos| - 1], error)] else []
  }

  /** Every tuple that dispatches reaches an annotated overload. */
  ghost predicate Annotated(sigs: seq<Sig>, combos: seq<seq<Arg>>) {
    forall combo, k | combo in combos && FirstMatch(sigs, combo, k) :: !sigs[k].out.Unannotated?
  }

  /** `row` is what some tuple's first match returns. */
  ghost predicate RowOf(sigs: seq<Sig>, combos: seq<seq<Arg>>, row: seq<Carrier>) {
    exists combo, k :: combo in combos && FirstMatch(sigs, combo, k) && !sigs[k].out.Unannotated? && row == ReturnRow(sigs[k], combo)
  }

  /** The return row of the tuple's first match, if there is one. */
  ghost function RowIfAny(sigs: seq<Sig>, combo: seq<Arg>): seq<seq<Carrier>> {
    if k :| FirstMatch(sigs, combo, k) && !sigs[k].out.Unannotated? then [ReturnRow(sigs[k], combo)] else []
  }

  /** The return rows of the tuples that dispatch, in order. */
  ghost function Rows(sigs: seq<Sig>, combos: seq<seq<Arg>>): seq<seq<Carrier>> {
    if combos == [] then []
    else Rows(sigs, combos[..|combos| - 1]) + RowIfAny(sigs, combos[|combos| - 1])
  }

  lemma RowsNext(sigs: seq<Sig>, combos: seq<seq<Arg>>, n: nat)
    requires n < |combos|
    ensures NoMatch(sigs, combos[n]) ==> Rows(sigs, combos[..n + 1]) == Rows(sigs, combos[..n])
    ensures forall k | FirstMatch(sigs, combos[n], k) && !sigs[k].out.Unannotated? ::
      Rows(sigs, combos[..n + 1]) == Rows(sigs, combos[..n]) + [ReturnRow(sigs[k], combos[n])]
  {
    assert combos[..n + 1][..n] == combos[..n];
    forall k | FirstMatch(sigs, combos[n], k) && !sigs[k].out.Unannotated?
      ensures RowIfAny(sigs, combos[n]) == [ReturnRow(sigs[k], combos[n])]
    {
      forall j | FirstMatch(sigs, combos[n], j) ensures j == k {
        FirstMatchUnique(sigs, combos[n], j, k);
      }
    }
    if NoMatch(sigs, combos[n]) {
      forall k ensures !FirstMatch(sigs, combos[n], k) {
      }
    }
  }

  /** The partition yields an answer: it applies, something dispatches, and all rows agree on arity. */
  ghost predicate Joinable(sigs: seq<Sig>, args: seq<Arg>) {
    && Applies(sigs, args)
    && Annotated(sigs, Product(args))
    && (exists row :: RowOf(sigs, Product(args), row))
    && (forall a, b | RowOf(sigs, Product(args), a) && RowOf(sigs, Product(args), b) :: |a| == |b|)
  }

  class CheckState {
    var diagnostics: seq<PartialDispatch>

    constructor ()
      ensures diagnostics == []
    {
      diagnostics := [];
    }

    /**
      When the partition succeeds, every alternative tuple that dispatches has its
      first-match return row below the joined row, and exactly the tuples that do not
      dispatch are reported, in order.
    */
    method DisjunctPartitionReturns(sigs: seq<Sig>, args: seq<Arg>) returns (joined: seq<Carrier>, ok: bool)
      modifies this
      ensures old(diagnostics) <= diagnostics
      ensures !Applies(sigs, args) ==> !ok && diagnostics == old(diagnostics)
      ensures ok ==> diagnostics == old(diagnostics) + Reports(sigs, Product(args), DeclaredDomain(args))
      ensures ok ==> forall combo, k | combo in Product(args) && FirstMatch(sigs, combo, k) ::
                       !sigs[k].out.Unannotated? && RowBelow(ReturnRow(sigs[k], combo), joined)
      ensures ok <==> Joinable(sigs, args)
      ensures ok ==> joined == FoldRows(Rows(sigs, Product(args)))
    {
      joined := [];
      if (forall a | a in args :: !StrictDisjunct(a)) || (exists a | a in args :: BodyRunning(a)) || sigs == [] {
        return [], false;
      }
      var combos;
      combos, ok := DisjunctCombos(args, PARTITION_CAP);
      if !ok {
        return [], false;
      }
      var rows;
      rows, ok := DispatchEach(sigs, combos, DeclaredDomain(args));
      if !ok {
        return [], false;
      }
      forall row ensures row in rows <==> RowOf(sigs, combos, row) {
        RowsAre(sigs, combos, row);
      }
      JoinableFromRows(sigs, args, rows);
      joined, ok := JoinReturnRows(rows);
      forall combo, k | combo in combos && FirstMatch(sigs, combo, k) && !sigs[k].out.Unannotated?
        ensures ReturnRow(sigs[k], combo) in rows
      {
        assert RowOf(sigs, combos, ReturnRow(sigs[k], combo));
      }
    }

    method DispatchEach(sigs: seq<Sig>, combos: seq<seq<Arg>>, error: bool)
      returns (rows: seq<seq<Carrier>>, ok: bool)
      modifies this
      ensures old(diagnostics) <= diagnostics
      ensures ok ==> diagnostics == old(diagnostics) + Reports(sigs, combos, error)
      ensures ok <==> Annotated(sigs, combos)
      ensures ok ==> rows == Rows(sigs, combos)
    {
      rows := [];
      for i := 0 to |combos|
        invariant diagnostics == old(diagnostics) + Reports(sigs, combos[..i], error)
        invariant rows == Rows(sigs, combos[..i]) && Annotated(sigs, combos[..i])
      {
        var combo := combos[i];
        RowsNext(sigs, combos, i);
        ReportsNext(sigs, combos, i, error);
        AnnotatedNext(sigs, combos, i);
        var k := FirstMatchingSig(sigs, combo);
        if k < 0 {
          diagnostics := diagnostics + [PartialDispatch(combo, error)];
          continue;
        }
        if sigs[k].out.Unannotated? {
          assert combo in combos;
          return [], false;
        }
        rows := rows + [ReturnRow(sigs[k], combo)];
      }
      assert combos[..|combos|] == combos;
      return rows, true;
    }
  }

  lemma FirstMatchUnique(sigs: seq<Sig>, combo: seq<Arg>, j: int, k: int)
    requires FirstMatch(sigs, combo, j) && FirstMatch(sigs, combo, k)
    ensures j == k
  {
  }

  lemma ReportsNext(sigs: seq<Sig>, combos: seq<seq<Arg>>, n: nat, error: bool)
    requires n < |combos|
    ensures Reports(sigs, combos[..n + 1], error) == Reports(sigs, combos[..n], error)
      + if NoMatch(sigs, combos[n]) then [PartialDispatch(combos[n], error)] else []
  {
    assert combos[..n + 1][..n] == combos[..n];
  }

  lemma AnnotatedNext(sigs: seq<Sig>, combos: seq<seq<Arg>>, n: nat)
    requires n < |combos| && Annotated(sigs, combos[..n])
    ensures NoMatch(sigs, combos[n]) ==> Annotated(sigs, combos[..n + 1])
    ensures forall k | FirstMatch(sigs, combos[n], k) ::
      Annotated(sigs, combos[..n + 1]) <==> !sigs[k].out.Unannotated?
  {
    assert combos[..n + 1] == combos[..n] + [combos[n]];
    forall j, k | FirstMatch(sigs, combos[n], j) && FirstMatch(sigs, combos[n], k) ensures j == k {
      FirstMatchUnique(sigs, combos[n], j, k);
    }
  }

  lemma RowIfAnyIs(sigs: seq<Sig>, combo: seq<Arg>, row: seq<Carrier>)
    ensures row in RowIfAny(sigs, combo) <==>
      exists k :: FirstMatch(sigs, combo, k) && !sigs[k].out.Unannotated? && row == ReturnRow(sigs[k], combo)
  {
    if k :| FirstMatch(sigs, combo, k) && !sigs[k].out.Unannotated? && row == ReturnRow(sigs[k], combo) {
      forall j | FirstMatch(sigs, combo, j) ensures j == k {
        FirstMatchUnique(sigs, combo, j, k);
      }
    }
  }

  /** The rows listed are those of the tuples' first matches. */
  lemma {:induction false} RowsAre(sigs: seq<Sig>, combos: seq<seq<Arg>>, row: seq<Carrier>)
    ensures row in Rows(sigs, combos) <==> RowOf(sigs, combos, row)
  {
    if combos != [] {
      var init, last := combos[..|combos| - 1], combos[|combos| - 1];
      assert combos == init + [last];
      RowsAre(sigs, init, row);
      RowIfAnyIs(sigs, last, row);
      assert RowOf(sigs, combos, row) <==> RowOf(sigs, init, row) || row in RowIfAny(sigs, last);
    }
  }

  lemma JoinableFromRows(sigs: seq<Sig>, args: seq<Arg>, rows: seq<seq<Carrier>>)
    requires Applies(sigs, args) && Annotated(sigs, Product(args))
    requires forall row :: row in rows <==> RowOf(sigs, Product(args), row)
    ensures Joinable(sigs, args) <==> rows != [] && SameArity(rows)
  {
    if rows != [] {
      assert rows[0] in rows;
      assert RowOf(sigs, Product(args), rows[0]);
    }
  }

  predicate Strict(a: Arg) {
    a.Abstract? ==> !a.c.dynamic
  }

  /** The tuple stands for the call with these tags, and is strict where the arguments are. */
  ghost predicate CoveringTuple(args: seq<Arg>, tags: seq<Type>, combo: seq<Arg>) {
    && |combo| == |args| == |tags|
    && forall i | 0 <= i < |args| :: Admits(combo[i], tags[i]) && (Strict(args[i]) ==> Strict(combo[i]))
  }

  lemma CoveringTupleExtends(args: seq<Arg>, tags: seq<Type>, rest: seq<Arg>, last: Arg)
    requires args != [] && |tags| == |args| && CoveringTuple(args[..|args| - 1], tags[..|tags| - 1], rest)
    requires Admits(last, tags[|tags| - 1]) && (Strict(args[|args| - 1]) ==> Strict(last))
    ensures CoveringTuple(args, tags, rest + [last])
  {
    var init, upto := args[..|args| - 1], tags[..|tags| - 1];
    assert args == init + [args[|args| - 1]] && tags == upto + [tags[|tags| - 1]];
  }

  /** For any runtime call on values of the union types, some tuple of the product covers it. */
  lemma {:induction false} SomeTupleCovers(args: seq<Arg>, tags: seq<Type>) returns (combo: seq<Arg>)
    requires |tags| == |args|
    requires forall i | 0 <= i < |args| :: Admits(args[i], tags[i])
    ensures combo in Product(args) && CoveringTuple(args, tags, combo)
  {
    if args == [] {
      combo := [];
    } else {
      var n := |args| - 1;
      var rest := SomeTupleCovers(args[..n], tags[..n]);
      var last := SomeAlternativeCovers(args[n], tags[n]);
      combo := rest + [last];
      assert combo[..|combo| - 1] == rest && combo[|combo| - 1] == last;
      ExtendMembers(Product(args[..n]), Alternatives(args[n]), combo);
      CoveringTupleExtends(args, tags, rest, last);
    }
  }

  /** The runtime arguments with these tags. */
  function Values(tags: seq<Type>): seq<Arg> {
    seq(|tags|, i requires 0 <= i < |tags| => Concrete(tags[i]))
  }

  lemma {:induction false} LeastMatch(sigs: seq<Sig>, args: seq<Arg>, j: int) returns (k: int)
    requires 0 <= j < |sigs| && Matches(sigs[j], args)
    ensures FirstMatch(sigs, args, k) && k <= j
    decreases j
  {
    if i :| 0 <= i < j && Matches(sigs[i], args) {
      k := LeastMatch(sigs, args, i);
    } else {
      k := j;
    }
  }

  lemma {:induction false} NothingReported(sigs: seq<Sig>, combos: seq<seq<Arg>>, error: bool)
    ensures Reports(sigs, combos, error) == [] <==> forall combo | combo in combos :: !NoMatch(sigs, combo)
  {
    if combos != [] {
      var init, last := combos[..|combos| - 1], combos[|combos| - 1];
      NothingReported(sigs, init, error);
      assert combos == init + [last];
    }
  }

  /** The abstract argument stands for the values of that one tag's type. */
  predicate IsType(a: Arg, tag: Type) {
    match a
    case Abstract(c) => c.shape == Of(tag)
    case Concrete(t) => t == tag
  }

  /** No slot of any overload is a Never. */
  ghost predicate PopulatedSlots(sigs: seq<Sig>) {
    forall s | s in sigs :: forall j | 0 <= j < |s.params| :: Inhabited(s.params[j])
  }

  lemma AlternativesPopulated(a: Arg, alt: Arg)
    requires Populated(a) && alt in Alternatives(a)
    ensures Populated(alt)
  {
  }

  lemma {:induction false} TuplesPopulated(args: seq<Arg>, combo: seq<Arg>)
    requires (forall i | 0 <= i < |args| :: Populated(args[i])) && combo in Product(args)
    ensures |combo| == |args| && forall i | 0 <= i < |combo| :: Populated(combo[i])
  {
    if args != [] {
      var n := |args| - 1;
      ExtendMembers(Product(args[..n]), Alternatives(args[n]), combo);
      assert combo[..|combo| - 1] in Product(args[..n]);
      TuplesPopulated(args[..n], combo[..|combo| - 1]);
      AlternativesPopulated(args[n], combo[|combo| - 1]);
      forall i | 0 <= i < |combo| ensures Populated(combo[i]) {
        if i < |combo| - 1 {
          assert combo[i] == combo[..|combo| - 1][i];
        }
      }
    }
  }

  lemma {:induction false} ReportedIsUnmatched(sigs: seq<Sig>, combos: seq<seq<Arg>>, error: bool, report: PartialDispatch)
    ensures report in Reports(sigs, combos, error) <==>
      report.combo in combos && NoMatch(sigs, report.combo) && report.error == error
  {
    if combos != [] {
      var init, last := combos[..|combos| - 1], combos[|combos| - 1];
      ReportedIsUnmatched(sigs, init, error, report);
      assert combos == init + [last];
    }
  }

  /** A tuple is reported if and only if every overload of its arity has a slot that the tuple's value does not fit. */
  lemma ReportedExactly(sigs: seq<Sig>, args: seq<Arg>, combo: seq<Arg>, error: bool)
    requires PopulatedSlots(sigs) && forall a | a in args :: Populated(a)
    ensures PartialDispatch(combo, error) in Reports(sigs, Product(args), error) <==>
      && combo in Product(args)
      && forall s | s in sigs && |s.params| == |combo| :: exists j :: 0 <= j < |combo| && !Fits(combo[j], s.params[j])
  {
    ReportedIsUnmatched(sigs, Product(args), error, PartialDispatch(combo, error));
    if combo in Product(args) {
      TuplesPopulated(args, combo);
      forall s | s in sigs && |s.params| == |combo|
        ensures Matches(s, combo) <==> forall j | 0 <= j < |combo| :: Fits(combo[j], s.params[j])
      {
        forall j | 0 <= j < |combo| ensures SigTypeMatches(combo[j], s.params[j]) <==> Fits(combo[j], s.params[j]) {
          MatchIsFit(combo[j], s.params[j]);
        }
      }
    }
  }

  /**
    An overload that takes a tuple takes some runtime call: on the values the tuple's strict members stand for,
    whatever they are, and on values of the caller's choosing where the members are gradual.
  */
  lemma MatchReaches(s: Sig, combo: seq<Arg>, tags: seq<Type>) returns (seen: seq<Type>)
    requires Matches(s, combo) && |combo| == |tags|
    requires forall i | 0 <= i < |tags| :: Admits(combo[i], tags[i])
    ensures |seen| == |tags| && Matches(s, Values(seen))
    ensures forall i | 0 <= i < |tags| :: Admits(combo[i], seen[i]) && (Strict(combo[i]) ==> seen[i] == tags[i])
    ensures PopulatedSlots([s]) && (forall i | 0 <= i < |tags| :: Populated(combo[i]) && Inhabited(tags[i])) ==>
      forall i | 0 <= i < |tags| :: Inhabited(seen[i])
  {
    seen := [];
    while |seen| < |tags|
      invariant |seen| <= |tags|
      invariant forall i | 0 <= i < |seen| :: ConformsTo(seen[i], s.params[i]) && Admits(combo[i], seen[i])
      invariant forall i | 0 <= i < |seen| :: Strict(combo[i]) ==> seen[i] == tags[i]
      invariant forall i | 0 <= i < |seen| ::
        Populated(combo[i]) && Inhabited(tags[i]) && Inhabited(s.params[i]) ==> Inhabited(seen[i])
    {
      var tag := SomeTagReaches(combo[|seen|], s.params[|seen|], tags[|seen|]);
      seen := seen + [tag];
    }
    assert s in [s];
  }

  lemma SomeTagReaches(a: Arg, t: Type, tag: Type) returns (seen: Type)
    requires SigTypeMatches(a, t) && Admits(a, tag)
    ensures ConformsTo(seen, t) && Admits(a, seen) && (Strict(a) ==> seen == tag)
    ensures Populated(a) && Inhabited(tag) && Inhabited(t) ==> Inhabited(seen)
  {
    seen := tag;
    if a.Abstract? {
      if a.c.dynamic {
        var u :| u in Flatten(a.c.shape) && (ConformsTo(u, t) || ConformsTo(t, u));
        seen := if ConformsTo(u, t) then u else t;
      } else {
        var u :| u in Flatten(a.c.shape) && ConformsTo(tag, u);
        ConformsTransitive(tag, u, t);
      }
    }
  }

  /** Some tuple covers the call, and it was not reported: it has a first match. */
  lemma CoveringMatch(sigs: seq<Sig>, args: seq<Arg>, tags: seq<Type>, error: bool) returns (combo: seq<Arg>, k: int)
    requires |tags| == |args| && Reports(sigs, Product(args), error) == []
    requires forall i | 0 <= i < |args| :: Admits(args[i], tags[i])
    ensures combo in Product(args) && |combo| == |args| && FirstMatch(sigs, combo, k)
    ensures forall i | 0 <= i < |args| :: Admits(combo[i], tags[i]) && (Strict(args[i]) ==> Strict(combo[i]))
  {
    combo := SomeTupleCovers(args, tags);
    NothingReported(sigs, Product(args), error);
    assert !NoMatch(sigs, combo);
    var s :| s in sigs && Matches(s, combo);
    var j :| 0 <= j < |sigs| && sigs[j] == s;
    k := LeastMatch(sigs, combo, j);
  }

  /**
    If the partition reports nothing, every runtime call on values of the strict arguments dispatches, for some
    values of the gradual ones; with none gradual, every call does. Its first match comes no later than its
    covering tuple's: the two are one exactly when no earlier overload takes the call, and so whenever the tuple
    is made of the call's own types.
  */
  lemma NothingReportedDispatches(sigs: seq<Sig>, args: seq<Arg>, tags: seq<Type>, error: bool)
      returns (combo: seq<Arg>, seen: seq<Type>, k: int, first: int)
    requires |tags| == |args|
    requires forall i | 0 <= i < |args| :: Admits(args[i], tags[i])
    requires Reports(sigs, Product(args), error) == []
    ensures combo in Product(args) && |combo| == |args| == |seen|
    ensures forall i | 0 <= i < |args| ::
      Admits(combo[i], tags[i]) && Admits(combo[i], seen[i]) && (Strict(args[i]) ==> seen[i] == tags[i])
    ensures PopulatedSlots(sigs) && (forall a | a in args :: Populated(a)) && (forall t | t in tags :: Inhabited(t)) ==>
      forall t | t in seen :: Inhabited(t)
    ensures FirstMatch(sigs, combo, k) && FirstMatch(sigs, Values(seen), first) && first <= k
    ensures first == k <==> forall j | 0 <= j < k :: !Matches(sigs[j], Values(seen))
    ensures (forall i | 0 <= i < |args| :: IsType(combo[i], seen[i])) ==> first == k
  {
    combo, k := CoveringMatch(sigs, args, tags, error);
    seen := MatchReaches(sigs[k], combo, tags);
    if PopulatedSlots(sigs) && (forall a | a in args :: Populated(a)) && (forall t | t in tags :: Inhabited(t)) {
      TuplesPopulated(args, combo);
      assert sigs[k] in sigs;
    }
    first := LeastMatch(sigs, Values(seen), k);
    if (forall i | 0 <= i < |args| :: IsType(combo[i], seen[i])) && first < k {
      OwnTypesMatch(sigs[first], combo, seen);
    }
  }

  lemma OwnTypesMatch(s: Sig, combo: seq<Arg>, tags: seq<Type>)
    requires |combo| == |tags| && Matches(s, Values(tags))
    requires forall i | 0 <= i < |tags| :: IsType(combo[i], tags[i])
    ensures Matches(s, combo)
  {
    forall j | 0 <= j < |combo| ensures SigTypeMatches(combo[j], s.params[j]) {
      assert SigTypeMatches(Values(tags)[j], s.params[j]);
    }
  }

  /** The abstract argument stands for a runtime value with this tag. */
  predicate Admits(a: Arg, tag: Type) {
    match a
    case Abstract(c) => Covers(c.shape, tag)
    case Concrete(t) => t == tag
  }

  lemma SomeAlternativeCovers(a: Arg, tag: Type) returns (alt: Arg)
    requires Admits(a, tag)
    ensures alt in Alternatives(a) && Admits(alt, tag) && (Strict(a) ==> Strict(alt))
  {
    var alts := Alternatives(a);
    alt := a;
    if StrictDisjunct(a) {
      var u :| u in a.c.shape.alts && ConformsTo(tag, u);
      var j :| 0 <= j < |a.c.shape.alts| && a.c.shape.alts[j] == u;
      alt := alts[j];
    } else {
      assert alts == [a];
    }
  }
}
