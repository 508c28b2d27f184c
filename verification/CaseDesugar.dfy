/**
  The run-time clause walk of `case` and its desugar to a nested `if` (basic/go/conditional.go),
  over a small token machine: literals, parenthesised groups, words, and the two handlers involved.
*/
module CaseDesugar {

  datatype Val = Datum(key: string) | Bool(b: bool) | List(items: seq<Tok>)

  datatype Tok = Lit(v: Val) | Word(name: string) | Group(items: seq<Tok>)

  datatype Event = Matched(m: Val) | Called(name: string)

  /** A run ends with a result stack or an error, and leaves the list of the calls it made. */
  datatype Outcome = Done(stack: seq<Val>, log: seq<Event>) | Raised(error: string, log: seq<Event>)

  /** A function word takes some of the stack and the next `forward` tokens, or fails. */
  datatype Effect = Gives(stack: seq<Val>, forward: nat) | Fails(error: string)

  datatype Env = Env(
    functions: set<string>,
    resolve: string -> Val,
    call: (string, seq<Val>, seq<Tok>) -> Effect,
    unifies: (Val, Val) -> bool,
    truthy: Val -> bool
  )

  const IF := "if"
  const CASEMATCH := "__casematch"

  predicate IsFunction(env: Env, name: string) {
    name == IF || name == CASEMATCH || name in env.functions
  }

  // ---------------------------------------------------------------- sizes

  function Size(toks: seq<Tok>): nat {
    if toks == [] then 0 else TokSize(toks[0]) + Size(toks[1..])
  }

  function TokSize(t: Tok): (n: nat)
    ensures n >= 1
  {
    match t
    case Lit(List(items)) => 1 + Size(items)
    case Group(items) => 1 + Size(items)
    case _ => 1
  }

  lemma {:induction false} SizeFrom(toks: seq<Tok>, k: nat)
    requires k <= |toks|
    ensures Size(toks[k..]) + k <= Size(toks)
  {
    if k > 0 {
      SizeFrom(toks[1..], k - 1);
      assert toks[1..][k - 1..] == toks[k..];
    } else {
      assert toks[0..] == toks;
    }
  }

  lemma SizeCons(t: Tok, toks: seq<Tok>)
    ensures Size([t] + toks) == TokSize(t) + Size(toks)
  {
    assert ([t] + toks)[1..] == toks;
  }

  // ---------------------------------------------------------------- the machine

  function Run(env: Env, s: seq<Val>, toks: seq<Tok>, log: seq<Event>): Outcome
    decreases Size(toks), 0
  {
    if toks == [] then Done(s, log)
    else
      match toks[0]
      case Lit(v) => Run(env, s + [v], toks[1..], log)
      case Group(items) =>
        assert TokSize(toks[0]) == 1 + Size(items);
        (match Run(env, [], items, log)
         case Done(t, l) => Run(env, s + t, toks[1..], l)
         case Raised(e, l) => Raised(e, l))
      case Word(name) =>
        if name == IF then RunIf(env, s, toks[1..], log)
        else if name == CASEMATCH then
          if |s| < 2 then Raised("signature", log)
          else
            var m, v := s[|s| - 1], s[|s| - 2];
            Run(env, s[..|s| - 2] + [Bool(env.unifies(m, v))], toks[1..], log + [Matched(m)])
        else if name in env.functions then
          match env.call(name, s, toks[1..])
          case Fails(e) => Raised(e, log + [Called(name)])
          case Gives(t, forward) =>
            var k := if 1 + forward <= |toks| then 1 + forward else |toks|;
            SizeFrom(toks, k);
            Run(env, t, toks[k..], log + [Called(name)])
        else Run(env, s + [env.resolve(name)], toks[1..], log)
  }

  /** The condition is a parenthesised group netting one value, a list run in place, or a value. */
  function RunIf(env: Env, s: seq<Val>, toks: seq<Tok>, log: seq<Event>): Outcome
    decreases Size(toks), 1
  {
    if toks == [] then Raised("signature", log)
    else
      match toks[0]
      case Word(_) => Raised("signature", log)
      case Group(items) =>
        assert TokSize(toks[0]) == 1 + Size(items);
        (match Run(env, [], items, log)
         case Raised(e, l) => Raised(e, l)
         case Done(t, l) =>
           if |t| == 1 && !t[0].List? then Decide(env, s, env.truthy(t[0]), toks[1..], l)
           else Raised("condition", l))
      case Lit(List(items)) =>
        assert TokSize(toks[0]) == 1 + Size(items);
        (match Run(env, s, items, log)
         case Raised(e, l) => Raised(e, l)
         case Done(t, l) =>
           if |t| > |s| && t[..|s|] == s then Decide(env, s, env.truthy(t[|t| - 1]), toks[1..], l)
           else Raised("condition", l))
      case Lit(v) => Decide(env, s, env.truthy(v), toks[1..], log)
  }

  /** spliceArg: a list branch runs between parentheses. */
  function Splice(t: Tok): (r: Tok)
    ensures TokSize(r) == TokSize(t)
  {
    if t.Lit? && t.v.List? then Group(t.v.items) else t
  }

  /** The chosen branch takes the place of both. */
  function Decide(env: Env, s: seq<Val>, yes: bool, toks: seq<Tok>, log: seq<Event>): Outcome
    decreases Size(toks), 1
  {
    if toks == [] || !toks[0].Lit? then Raised("signature", log)
    else if |toks| > 1 && toks[1].Lit? then
      var branch := Splice(if yes then toks[0] else toks[1]);
      SizeCons(branch, toks[2..]);
      assert toks[1..][0] == toks[1] && toks[1..][1..] == toks[2..];
      assert Size(toks[1..]) == TokSize(toks[1]) + Size(toks[2..]);
      Run(env, s, [branch] + toks[2..], log)
    else if yes then
      SizeCons(Splice(toks[0]), toks[1..]);
      Run(env, s, [Splice(toks[0])] + toks[1..], log)
    else
      Run(env, s, toks[1..], log)
  }

  /** Two branches given, both literal: the one chosen runs, a list branch as a group, over the stack below. */
  ghost function Chosen(env: Env, s: seq<Val>, x: Val, yes: Val, no: Val, rest: seq<Tok>, log: seq<Event>): Outcome {
    var b := if env.truthy(x) then yes else no;
    Run(env, s, [match b case List(items) => Group(items) case _ => Lit(b)] + rest, log)
  }

  lemma DecideChooses(env: Env, s: seq<Val>, x: Val, yes: Val, no: Val, rest: seq<Tok>, log: seq<Event>)
    ensures Decide(env, s, env.truthy(x), [Lit(yes), Lit(no)] + rest, log) == Chosen(env, s, x, yes, no, rest, log)
  {
    var toks := [Lit(yes), Lit(no)] + rest;
    assert toks[2..] == rest && toks[0] == Lit(yes) && toks[1] == Lit(no);
  }

  lemma IfOnValue(env: Env, s: seq<Val>, x: Val, yes: Val, no: Val, rest: seq<Tok>, log: seq<Event>)
    requires !x.List?
    ensures Run(env, s, [Word(IF), Lit(x), Lit(yes), Lit(no)] + rest, log) == Chosen(env, s, x, yes, no, rest, log)
  {
    var toks := [Word(IF), Lit(x), Lit(yes), Lit(no)] + rest;
    assert toks[1..] == [Lit(x)] + ([Lit(yes), Lit(no)] + rest);
    assert toks[1..][1..] == [Lit(yes), Lit(no)] + rest;
    DecideChooses(env, s, x, yes, no, rest, log);
  }

  /** A parenthesised condition runs on its own; one value is the condition. */
  lemma IfOnGroup(env: Env, s: seq<Val>, items: seq<Tok>, yes: Val, no: Val, rest: seq<Tok>, log: seq<Event>)
    ensures
      var out, r := Run(env, s, [Word(IF), Group(items), Lit(yes), Lit(no)] + rest, log), Run(env, [], items, log);
      && (r.Raised? ==> out == r)
      && (r.Done? && |r.stack| == 1 && !r.stack[0].List? ==> out == Chosen(env, s, r.stack[0], yes, no, rest, r.log))
      && (r.Done? && (|r.stack| != 1 || r.stack[0].List?) ==> out == Raised("condition", r.log))
  {
    var toks := [Word(IF), Group(items), Lit(yes), Lit(no)] + rest;
    assert toks[1..] == [Group(items)] + ([Lit(yes), Lit(no)] + rest);
    assert toks[1..][1..] == [Lit(yes), Lit(no)] + rest;
    var r := Run(env, [], items, log);
    if r.Done? && |r.stack| == 1 {
      DecideChooses(env, s, r.stack[0], yes, no, rest, r.log);
    }
  }

  /** A list as condition runs in place, over the stack it finds, and the value it ends on is the condition. */
  lemma IfOnList(env: Env, s: seq<Val>, items: seq<Tok>, above: seq<Val>, yes: Val, no: Val, rest: seq<Tok>,
                 log: seq<Event>, after: seq<Event>)
    requires Run(env, s, items, log) == Done(s + above, after) && above != []
    ensures Run(env, s, [Word(IF), Lit(List(items)), Lit(yes), Lit(no)] + rest, log)
      == Chosen(env, s, above[|above| - 1], yes, no, rest, after)
  {
    var toks := [Word(IF), Lit(List(items)), Lit(yes), Lit(no)] + rest;
    assert toks[1..] == [Lit(List(items))] + ([Lit(yes), Lit(no)] + rest);
    assert toks[1..][1..] == [Lit(yes), Lit(no)] + rest;
    var t := s + above;
    assert t[..|s|] == s && t[|t| - 1] == above[|above| - 1];
    DecideChooses(env, s, above[|above| - 1], yes, no, rest, after);
  }

  lemma IfReadsValue(env: Env, s: seq<Val>, x: Val, rest: seq<Tok>, log: seq<Event>)
    requires !x.List?
    ensures Run(env, s, [Word(IF), Lit(x)] + rest, log) == Decide(env, s, env.truthy(x), rest, log)
  {
    var toks := [Word(IF), Lit(x)] + rest;
    assert toks[1..] == [Lit(x)] + rest && toks[1..][1..] == rest;
  }

  /** `if` takes no word as condition and no word or group as its branch. */
  lemma IfTakesLiterals(env: Env, s: seq<Val>, x: Val, t: Tok, rest: seq<Tok>, log: seq<Event>)
    requires !t.Lit? && !x.List?
    ensures Run(env, s, [Word(IF), Lit(x), t] + rest, log) == Raised("signature", log)
    ensures t.Word? ==> Run(env, s, [Word(IF), t] + rest, log) == Raised("signature", log)
  {
    IfReadsValue(env, s, x, [t] + rest, log);
    assert [Word(IF), Lit(x), t] + rest == [Word(IF), Lit(x)] + ([t] + rest);
    assert ([Word(IF), t] + rest)[1..] == [t] + rest;
  }

  /** What follows the one branch is its second branch only when it is a literal. */
  lemma IfWithOneBranch(env: Env, s: seq<Val>, x: Val, yes: Val, rest: seq<Tok>, log: seq<Event>)
    requires !x.List? && !yes.List? && (rest != [] ==> !rest[0].Lit?)
    ensures Run(env, s, [Word(IF), Lit(x), Lit(yes)] + rest, log)
      == Run(env, s, if env.truthy(x) then [Lit(yes)] + rest else rest, log)
  {
    var after := [Lit(yes)] + rest;
    IfReadsValue(env, s, x, after, log);
    assert [Word(IF), Lit(x), Lit(yes)] + rest == [Word(IF), Lit(x)] + after;
    assert after[1..] == rest;
  }

  /** A function word leaves the tokens behind the ones it took. */
  lemma CallTakesForward(env: Env, s: seq<Val>, name: string, args: seq<Tok>, rest: seq<Tok>, left: seq<Val>, log: seq<Event>)
    requires name in env.functions && name != IF && name != CASEMATCH
    requires env.call(name, s, args + rest) == Gives(left, |args|)
    ensures Run(env, s, [Word(name)] + args + rest, log) == Run(env, left, rest, log + [Called(name)])
  {
    var toks := [Word(name)] + args + rest;
    assert toks[1..] == args + rest && toks[1 + |args|..] == rest;
  }

  // ---------------------------------------------------------------- the walk

  predicate IsCodeBody(t: Tok) {
    t.Lit? && t.v.List?
  }

  /** A block: a code body runs on the case value alone, a value is itself. */
  function RunBody(env: Env, v: Val, b: Tok, log: seq<Event>): Outcome {
    match b
    case Lit(List(items)) => Run(env, [v], items, log)
    case Lit(x) => Done([x], log)
    case _ => Raised("block", log)
  }

  datatype Verdict = Says(yes: bool, log: seq<Event>) | Breaks(error: string, log: seq<Event>)

  /** One match position: a predicate body, or a value the case value unifies with. */
  function Guard(env: Env, v: Val, m: Tok, log: seq<Event>): Verdict {
    match m
    case Lit(List(items)) =>
      (match Run(env, [v], items, log)
       case Raised(e, l) => Breaks(e, l)
       case Done(t, l) => Says(t != [] && env.truthy(t[|t| - 1]), l))
    case Lit(x) => Says(env.unifies(x, v), log + [Matched(x)])
    case Word(name) => Says(env.unifies(env.resolve(name), v), log + [Matched(env.resolve(name))])
    case Group(items) =>
      (match Run(env, [], items, log)
       case Done(t, l) => if |t| == 1 then Says(env.unifies(t[0], v), l + [Matched(t[0])]) else Says(false, l)
       case Raised(_, l) => Says(false, l))
  }

  /** The clauses from position i on. */
  function Walk(env: Env, v: Val, elems: seq<Tok>, i: nat, log: seq<Event>): Outcome
    decreases |elems| - i
  {
    if i + 1 < |elems| then
      match Guard(env, v, elems[i], log)
      case Breaks(e, l) => Raised(e, l)
      case Says(yes, l) => if yes then RunBody(env, v, elems[i + 1], l) else Walk(env, v, elems, i + 2, l)
    else if i < |elems| then RunBody(env, v, elems[i], log)
    else Done([], log)
  }

  // ---------------------------------------------------------------- normalization

  predicate IsOpenCallHead(env: Env, m: Tok) {
    m.Word? && IsFunction(env, m.name)
  }

  /** Where the default starts: at an open call in match position, else after the last pair. */
  function DefaultFrom(env: Env, elems: seq<Tok>, i: nat): (start: nat)
    requires i <= |elems| && i % 2 == 0
    ensures i <= start <= |elems| && start % 2 == 0
    ensures forall k | i <= k < start && k % 2 == 0 :: !IsOpenCallHead(env, elems[k])
    ensures start + 1 < |elems| ==> IsOpenCallHead(env, elems[start])
    decreases |elems| - i
  {
    if i + 1 < |elems| && !IsOpenCallHead(env, elems[i]) then DefaultFrom(env, elems, i + 2) else i
  }

  function DefaultStart(env: Env, elems: seq<Tok>): nat {
    DefaultFrom(env, elems, 0)
  }

  function Normalize(env: Env, elems: seq<Tok>): seq<Tok> {
    var start := DefaultStart(env, elems);
    if start == |elems| || (start + 1 == |elems| && !IsOpenCallHead(env, elems[start])) then elems
    else elems[..start] + [Lit(List(elems[start..]))]
  }

  method CaseDefaultStart(env: Env, elems: seq<Tok>) returns (start: nat, hasDefault: bool)
    ensures start == DefaultStart(env, elems) && hasDefault == (start < |elems|)
  {
    var i := 0;
    while i + 1 < |elems|
      invariant i <= |elems| && i % 2 == 0
      invariant DefaultStart(env, elems) == DefaultFrom(env, elems, i)
    {
      if IsOpenCallHead(env, elems[i]) {
        return i, true;
      }
      i := i + 2;
    }
    if i < |elems| {
      return i, true;
    }
    return |elems|, false;
  }

  method CaseNormalizeClauses(env: Env, elems: seq<Tok>) returns (out: seq<Tok>)
    ensures out == Normalize(env, elems)
  {
    var start, hasDefault := CaseDefaultStart(env, elems);
    if !hasDefault {
      return elems;
    }
    var rest := elems[start..];
    if |rest| == 1 && !IsOpenCallHead(env, rest[0]) {
      return elems;
    }
    out := elems[..start] + [Lit(List(rest))];
  }

  method CaseClauses(env: Env, v: Val, elems: seq<Tok>, log: seq<Event>) returns (out: Outcome)
    ensures out == Walk(env, v, Normalize(env, elems), 0, log)
  {
    var clauses := CaseNormalizeClauses(env, elems);
    var i, seen := 0, log;
    while i + 1 < |clauses|
      invariant i <= |clauses|
      invariant Walk(env, v, clauses, 0, log) == Walk(env, v, clauses, i, seen)
    {
      var verdict := Guard(env, v, clauses[i], seen);
      if verdict.Breaks? {
        return Raised(verdict.error, verdict.log);
      }
      seen := verdict.log;
      if verdict.yes {
        return RunBody(env, v, clauses[i + 1], seen);
      }
      i := i + 2;
    }
    if i < |clauses| {
      return RunBody(env, v, clauses[i], seen);
    }
    return Done([], seen);
  }

  /** The default's tokens, back in the list they were folded from. */
  function Unfold(elems: seq<Tok>, start: nat): seq<Tok>
    requires start < |elems| && IsCodeBody(elems[start])
  {
    elems[..start] + elems[start].v.items
  }

  /** Pairs, then at most one default; no match is an open call; every token is still there. */
  lemma NormalizeShape(env: Env, elems: seq<Tok>)
    ensures var out := Normalize(env, elems);
      var start := DefaultStart(env, elems);
      && |out| <= start + 1 && start % 2 == 0 && start <= |out|
      && (forall k | 0 <= k < |out| && k % 2 == 0 :: !IsOpenCallHead(env, out[k]))
      && (out == elems || (start < |out| && IsCodeBody(out[start]) && Unfold(out, start) == elems))
  {
    var start := DefaultStart(env, elems);
    assert elems[..start] + elems[start..] == elems;
  }

  lemma {:induction false} NoHeadsNoFold(env: Env, elems: seq<Tok>, i: nat)
    requires i <= |elems| && i % 2 == 0
    requires forall k | 0 <= k < |elems| && k % 2 == 0 :: !IsOpenCallHead(env, elems[k])
    ensures DefaultFrom(env, elems, i) + 1 >= |elems|
    decreases |elems| - i
  {
    if i + 1 < |elems| {
      NoHeadsNoFold(env, elems, i + 2);
    }
  }

  lemma NormalizeIdempotent(env: Env, elems: seq<Tok>)
    ensures Normalize(env, Normalize(env, elems)) == Normalize(env, elems)
  {
    NormalizeShape(env, elems);
    NoHeadsNoFold(env, Normalize(env, elems), 0);
  }

  /** The walk is decided by the first match: what follows the matched pair is never looked at. */
  lemma {:induction false} FirstMatchDecides(env: Env, v: Val, elems: seq<Tok>, i: nat, rest: seq<Tok>, log: seq<Event>)
    requires i + 1 < |elems|
    requires var g := Guard(env, v, elems[i], log); g.Breaks? || g.yes
    ensures Walk(env, v, elems[..i + 2] + rest, i, log) == Walk(env, v, elems, i, log)
  {
    var other := elems[..i + 2] + rest;
    assert other[i] == elems[i] && other[i + 1] == elems[i + 1];
  }

  // ---------------------------------------------------------------- the desugar

  function GuardTokens(v: Val, m: Tok): seq<Tok> {
    if IsCodeBody(m) then [Lit(v)] + m.v.items else [Lit(v), m, Word(CASEMATCH)]
  }

  function BlockTokens(v: Val, b: Tok): seq<Tok> {
    if IsCodeBody(b) then [Lit(v)] + b.v.items else [b]
  }

  /** buildCaseChain: if (guard) [block] [the rest of the chain]. */
  function Chain(v: Val, elems: seq<Tok>, i: nat): seq<Tok>
    decreases |elems| - i
  {
    if i + 1 >= |elems| then
      if i < |elems| then BlockTokens(v, elems[i]) else []
    else
      var rest := Chain(v, elems, i + 2);
      [Word(IF), Group(GuardTokens(v, elems[i])), Lit(List(BlockTokens(v, elems[i + 1])))]
      + (if rest == [] then [] else [Lit(List(rest))])
  }

  /** The whole desugar: the first guard is a list condition, run in place. */
  function Desugar(v: Val, elems: seq<Tok>): seq<Tok>
    requires |elems| >= 2
  {
    [Word(IF), Lit(List(GuardTokens(v, elems[0]))), Lit(List(BlockTokens(v, elems[1]))), Lit(List(Chain(v, elems, 2)))]
  }

  /** A predicate body nets one value, no list, or fails; an expression nets one value. */
  ghost predicate NetsOne(env: Env, v: Val, m: Tok) {
    match m
    case Lit(List(items)) => forall log :: OneValue(Run(env, [v], items, log))
    case Group(items) => forall log :: Run(env, [], items, log).Done? && |Run(env, [], items, log).stack| == 1
    case _ => true
  }

  predicate OneValue(out: Outcome) {
    out.Done? ==> |out.stack| == 1 && !out.stack[0].List?
  }

  function Under(s: seq<Val>, out: Outcome): Outcome {
    match out
    case Done(t, l) => Done(s + t, l)
    case Raised(_, _) => out
  }

  /** The first guard keeps to its own value when run in place over a stack. */
  ghost predicate KeepsToItself(env: Env, s: seq<Val>, v: Val, m: Tok) {
    IsCodeBody(m) ==> forall log :: Run(env, s + [v], m.v.items, log) == Under(s, Run(env, [v], m.v.items, log))
  }

  /** Values and code bodies as blocks, guards that net one value. */
  ghost predicate Desugars(env: Env, v: Val, elems: seq<Tok>) {
    && (forall k | 0 <= k < |elems| && (k % 2 == 1 || k + 1 == |elems|) :: elems[k].Lit?)
    && (forall k | 0 <= k < |elems| - 1 && k % 2 == 0 :: NetsOne(env, v, elems[k]))
  }

  predicate NoHeads(env: Env, elems: seq<Tok>) {
    forall k | 0 <= k < |elems| && k % 2 == 0 :: !IsOpenCallHead(env, elems[k])
  }

  /** A block between parentheses is the block run on its own. */
  lemma BlockMeansBody(env: Env, v: Val, b: Tok, log: seq<Event>)
    requires b.Lit?
    ensures Run(env, [], BlockTokens(v, b), log) == RunBody(env, v, b, log)
  {
    if IsCodeBody(b) {
      assert BlockTokens(v, b)[1..] == b.v.items && [] + [v] == [v];
    } else {
      assert [b][1..] == [] && [] + [b.v] == [b.v];
    }
  }

  /** Unifying through __casematch is the value match of the walk. */
  lemma MatchTokens(env: Env, s: seq<Val>, v: Val, x: Val, log: seq<Event>)
    ensures Run(env, s + [v] + [x], [Word(CASEMATCH)], log)
      == Done(s + [Bool(env.unifies(x, v))], log + [Matched(x)])
  {
    var t := s + [v] + [x];
    assert t[..|t| - 2] == s && t[|t| - 1] == x && t[|t| - 2] == v;
    assert [Word(CASEMATCH)][1..] == [];
  }

  lemma Singleton(env: Env, s: seq<Val>, t: Tok, log: seq<Event>)
    ensures t.Group? ==> Run(env, s, [t], log) == Under(s, Run(env, [], t.items, log))
  {
    assert [t][1..] == [];
  }

  /** A run of guard tokens over s says what the walk says: the same error, or s and one value of that truth. */
  ghost predicate Tells(env: Env, s: seq<Val>, out: Outcome, verdict: Verdict) {
    match verdict
    case Breaks(e, l) => out == Raised(e, l)
    case Says(yes, l) => exists c :: out == Done(s + [c], l) && !c.List? && env.truthy(c) == yes
  }

  /** The guard tokens tell the verdict of the match position. */
  lemma GuardMeansVerdict(env: Env, s: seq<Val>, v: Val, m: Tok, log: seq<Event>)
    requires NetsOne(env, v, m) && !IsOpenCallHead(env, m) && KeepsToItself(env, s, v, m)
    requires forall b :: env.truthy(Bool(b)) == b
    ensures Tells(env, s, Run(env, s, GuardTokens(v, m), log), Guard(env, v, m, log))
  {
    var toks := GuardTokens(v, m);
    if IsCodeBody(m) {
      assert toks[1..] == m.v.items;
      var alone := Run(env, [v], m.v.items, log);
      assert OneValue(alone);
      if alone.Done? {
        assert alone.stack == [alone.stack[0]];
      }
    } else if m.Group? {
      ExpressionTells(env, s, v, m.items, log);
    } else {
      assert toks[1..] == [m, Word(CASEMATCH)] && toks[1..][1..] == [Word(CASEMATCH)];
      var x := if m.Word? then env.resolve(m.name) else m.v;
      assert Run(env, s + [v], toks[1..], log) == Run(env, s + [v] + [x], [Word(CASEMATCH)], log);
      MatchTokens(env, s, v, x, log);
      assert !Bool(env.unifies(x, v)).List?;
    }
  }

  /** For a parenthesised match the desugar is faithful exactly when the expression nets one value. */
  lemma ExpressionTells(env: Env, s: seq<Val>, v: Val, items: seq<Tok>, log: seq<Event>)
    requires forall b :: env.truthy(Bool(b)) == b
    ensures Tells(env, s, Run(env, s, GuardTokens(v, Group(items)), log), Guard(env, v, Group(items), log))
       <==> Run(env, [], items, log).Done? && |Run(env, [], items, log).stack| == 1
  {
    var toks := GuardTokens(v, Group(items));
    var inner := Run(env, [], items, log);
    assert toks[1..] == [Group(items), Word(CASEMATCH)] && toks[1..][1..] == [Word(CASEMATCH)];
    if inner.Done? {
      assert Run(env, s, toks, log) == Run(env, s + [v] + inner.stack, [Word(CASEMATCH)], inner.log);
      if |inner.stack| == 1 {
        assert inner.stack == [inner.stack[0]];
        MatchTokens(env, s, v, inner.stack[0], inner.log);
      } else {
        MatchLeavesATrace(env, s + [v] + inner.stack, inner.log);
      }
    }
  }

  /** __casematch never succeeds without a trace of its call. */
  lemma MatchLeavesATrace(env: Env, s: seq<Val>, log: seq<Event>)
    ensures var out := Run(env, s, [Word(CASEMATCH)], log);
      out.Done? ==> |out.log| == |log| + 1
  {
    assert [Word(CASEMATCH)][1..] == [];
  }

  lemma AloneKeepsToItself(env: Env, v: Val, m: Tok)
    ensures KeepsToItself(env, [], v, m)
  {
    assert [] + [v] == [v];
    UnderNothing();
  }

  lemma UnderNothing()
    ensures forall out :: Under([], out) == out
  {
    assert forall t: seq<Val> :: [] + t == t;
  }

  /** The nested part: each group is its clause, from position i to the end. */
  lemma {:induction false} ChainMeansWalk(env: Env, v: Val, elems: seq<Tok>, i: nat, log: seq<Event>)
    requires Desugars(env, v, elems) && NoHeads(env, elems) && i % 2 == 0
    requires forall b :: env.truthy(Bool(b)) == b
    ensures Run(env, [], Chain(v, elems, i), log) == Walk(env, v, elems, i, log)
    decreases |elems| - i
  {
    if i + 1 < |elems| {
      var rest := Chain(v, elems, i + 2);
      var toks := Chain(v, elems, i);
      var branches := [Lit(List(BlockTokens(v, elems[i + 1])))] + (if rest == [] then [] else [Lit(List(rest))]);
      assert toks[1..] == [Group(GuardTokens(v, elems[i]))] + branches && toks[1..][1..] == branches;
      AloneKeepsToItself(env, v, elems[i]);
      UnderNothing();
      assert forall c: Val :: [] + [c] == [c];
      assert Run(env, [], toks, log) == RunIf(env, [], toks[1..], log);
      GuardMeansVerdict(env, [], v, elems[i], log);
      var verdict := Guard(env, v, elems[i], log);
      if verdict.Says? {
        var l := verdict.log;
        assert RunIf(env, [], toks[1..], log) == Decide(env, [], verdict.yes, branches, l);
        if rest == [] {
          LastBranch(env, v, elems[i + 1], verdict.yes, l);
        } else {
          assert branches == [Lit(List(BlockTokens(v, elems[i + 1]))), Lit(List(rest))];
          Branches(env, [], v, elems[i + 1], rest, verdict.yes, l);
        }
        if !verdict.yes {
          ChainMeansWalk(env, v, elems, i + 2, l);
        }
      }
    } else if i < |elems| {
      BlockMeansBody(env, v, elems[i], log);
    }
  }

  /** Both branches present: the block, or the rest of the chain, over the stack below. */
  lemma Branches(env: Env, s: seq<Val>, v: Val, b: Tok, rest: seq<Tok>, yes: bool, log: seq<Event>)
    requires b.Lit?
    ensures Decide(env, s, yes, [Lit(List(BlockTokens(v, b))), Lit(List(rest))], log)
      == Under(s, if yes then RunBody(env, v, b, log) else Run(env, [], rest, log))
  {
    var toks := [Lit(List(BlockTokens(v, b))), Lit(List(rest))];
    assert toks[2..] == [];
    BlockMeansBody(env, v, b, log);
    var chosen := if yes then BlockTokens(v, b) else rest;
    assert Splice(if yes then toks[0] else toks[1]) == Group(chosen);
    assert [Group(chosen)] + toks[2..] == [Group(chosen)];
    Singleton(env, s, Group(chosen), log);
  }

  lemma LastBranch(env: Env, v: Val, b: Tok, yes: bool, log: seq<Event>)
    requires b.Lit?
    ensures Decide(env, [], yes, [Lit(List(BlockTokens(v, b)))], log)
      == if yes then RunBody(env, v, b, log) else Done([], log)
  {
    var toks := [Lit(List(BlockTokens(v, b)))];
    assert toks[1..] == [];
    BlockMeansBody(env, v, b, log);
    assert [Splice(toks[0])] + toks[1..] == [Group(BlockTokens(v, b))];
    Singleton(env, [], Group(BlockTokens(v, b)), log);
  }

  lemma DesugarMeansWalk(env: Env, s: seq<Val>, v: Val, elems: seq<Tok>, log: seq<Event>)
    requires |elems| >= 2 && Desugars(env, v, elems) && NoHeads(env, elems)
    requires KeepsToItself(env, s, v, elems[0])
    requires forall b :: env.truthy(Bool(b)) == b
    ensures Run(env, s, Desugar(v, elems), log) == Under(s, Walk(env, v, elems, 0, log))
  {
    var toks := Desugar(v, elems);
    GuardMeansVerdict(env, s, v, elems[0], log);
    match Guard(env, v, elems[0], log)
    case Breaks(e, l) =>
    case Says(yes, l) =>
      assert toks[1..][1..] == toks[2..];
      assert toks[2..] == [Lit(List(BlockTokens(v, elems[1]))), Lit(List(Chain(v, elems, 2)))];
      Branches(env, s, v, elems[1], Chain(v, elems, 2), yes, l);
      if !yes {
        ChainMeansWalk(env, v, elems, 2, l);
      }
  }

  /** The desugar of a clause list means what the walk over it means: result, error, and the calls on the way. */
  lemma CaseMeansNestedIf(env: Env, s: seq<Val>, v: Val, clauses: seq<Tok>, log: seq<Event>)
    requires var elems := Normalize(env, clauses);
      |elems| >= 2 && Desugars(env, v, elems) && KeepsToItself(env, s, v, elems[0])
    requires forall b :: env.truthy(Bool(b)) == b
    ensures var elems := Normalize(env, clauses);
      Run(env, s, Desugar(v, elems), log) == Under(s, Walk(env, v, elems, 0, log))
  {
    NormalizeShape(env, clauses);
    DesugarMeansWalk(env, s, v, Normalize(env, clauses), log);
  }

  /** A parenthesised match that fails is no match for the walk, and an error for the nested if. */
  lemma FailingExpressionDiffers(env: Env, v: Val, a: Val, b: Val, boom: string)
    requires boom in env.functions && boom != IF && boom != CASEMATCH && a.Datum? && b.Datum?
    requires forall s, rest :: env.call(boom, s, rest).Fails?
    ensures var elems := [Group([Word(boom)]), Lit(a), Lit(b)];
      && Walk(env, v, elems, 0, []) == Done([b], [Called(boom)])
      && Run(env, [], Desugar(v, elems), []).Raised?
  {
    var elems := [Group([Word(boom)]), Lit(a), Lit(b)];
    var guard := GuardTokens(v, elems[0]);
    assert Run(env, [], [Word(boom)], []).Raised? && Run(env, [], [Word(boom)], []).log == [Called(boom)];
    assert guard[1..][0] == elems[0];
    assert Run(env, [v], guard[1..], []).Raised?;
    assert [] + [v] == [v];
    assert Run(env, [], guard, []).Raised?;
    assert Walk(env, v, elems, 2, [Called(boom)]) == Done([b], [Called(boom)]);
  }

  // ---------------------------------------------------------------- where the default starts, and which pair is taken

  /**
    The default starts at the first even position before a pair's block that holds a word naming a function (the two
    handlers' words among them), and otherwise after the last pair.
  */
  lemma DefaultStartsAtFirstCall(env: Env, elems: seq<Tok>)
    ensures var start := DefaultStart(env, elems);
      && start % 2 == 0 && start <= |elems|
      && (forall k | 0 <= k < start && k % 2 == 0 ::
        elems[k].Word? ==> elems[k].name !in env.functions && elems[k].name != IF && elems[k].name != CASEMATCH)
      && (if start + 1 < |elems| then
            elems[start].Word?
            && (elems[start].name in env.functions || elems[start].name == IF || elems[start].name == CASEMATCH)
          else start == |elems| - |elems| % 2)
  {
  }

  /** No even position holds a word that names a function. */
  predicate NoCallInMatchPosition(env: Env, elems: seq<Tok>) {
    forall k | 0 <= k < |elems| && k % 2 == 0 && elems[k].Word? ::
      elems[k].name !in env.functions && elems[k].name != IF && elems[k].name != CASEMATCH
  }

  lemma PlainListIsNormal(env: Env, elems: seq<Tok>)
    requires NoCallInMatchPosition(env, elems)
    ensures Normalize(env, elems) == elems
  {
    NoHeadsNoFold(env, elems, 0);
  }

  /** A word naming a function at an even position folds the rest of the list into one block, from the first such on. */
  lemma CallFoldsTheRest(env: Env, elems: seq<Tok>, k: nat)
    requires k < |elems| && k % 2 == 0 && elems[k].Word?
    requires elems[k].name in env.functions || elems[k].name == IF || elems[k].name == CASEMATCH
    requires NoCallInMatchPosition(env, elems[..k])
    ensures Normalize(env, elems) == elems[..k] + [Lit(List(elems[k..]))]
  {
    StartsBy(env, elems, 0, k);
  }

  lemma {:induction false} StartsBy(env: Env, elems: seq<Tok>, i: nat, k: nat)
    requires i <= k < |elems| && i % 2 == 0 && k % 2 == 0 && IsOpenCallHead(env, elems[k])
    requires NoCallInMatchPosition(env, elems[..k])
    ensures DefaultFrom(env, elems, i) == k
    decreases k - i
  {
    if i < k {
      assert elems[..k][i] == elems[i];
      StartsBy(env, elems, i + 2, k);
    }
  }

  /** The log before the guard at position j when every guard before it said no. */
  ghost predicate SaysNoUpTo(env: Env, v: Val, elems: seq<Tok>, i: nat, j: nat, log: seq<Event>, reached: seq<Event>)
    requires i <= j <= |elems| && i % 2 == 0 && j % 2 == 0
    decreases j - i
  {
    if i == j then reached == log
    else
      var g := Guard(env, v, elems[i], log);
      g.Says? && !g.yes && SaysNoUpTo(env, v, elems, i + 2, j, g.log, reached)
  }

  /** The walk takes the first pair whose guard says yes. */
  lemma {:induction false} WalkTakesFirstYes(
      env: Env, v: Val, elems: seq<Tok>, i: nat, j: nat, log: seq<Event>, reached: seq<Event>)
    requires i <= j && j + 1 < |elems| && i % 2 == 0 && j % 2 == 0
    requires SaysNoUpTo(env, v, elems, i, j, log, reached)
    requires Guard(env, v, elems[j], reached).Says? && Guard(env, v, elems[j], reached).yes
    ensures Walk(env, v, elems, i, log) == RunBody(env, v, elems[j + 1], Guard(env, v, elems[j], reached).log)
    decreases j - i
  {
    if i < j {
      WalkTakesFirstYes(env, v, elems, i + 2, j, Guard(env, v, elems[i], log).log, reached);
    }
  }

  /** With every guard saying no, the walk runs the default, or gives nothing. */
  lemma {:induction false} WalkFallsThrough(
      env: Env, v: Val, elems: seq<Tok>, i: nat, log: seq<Event>, reached: seq<Event>)
    requires i % 2 == 0 && i <= |elems| - |elems| % 2
    requires SaysNoUpTo(env, v, elems, i, |elems| - |elems| % 2, log, reached)
    ensures Walk(env, v, elems, i, log)
      == if |elems| % 2 == 1 then RunBody(env, v, elems[|elems| - 1], reached) else Done([], reached)
    decreases |elems| - i
  {
    if i < |elems| - |elems| % 2 {
      WalkFallsThrough(env, v, elems, i + 2, Guard(env, v, elems[i], log).log, reached);
    }
  }

  /** A list of pairs with no call in match position runs the block of its first yes, as it stands. */
  lemma PlainCaseTakesFirstYes(env: Env, v: Val, elems: seq<Tok>, j: nat, log: seq<Event>, reached: seq<Event>)
    requires NoCallInMatchPosition(env, elems) && j + 1 < |elems| && j % 2 == 0
    requires SaysNoUpTo(env, v, elems, 0, j, log, reached)
    requires Guard(env, v, elems[j], reached).Says? && Guard(env, v, elems[j], reached).yes
    ensures Walk(env, v, Normalize(env, elems), 0, log)
      == RunBody(env, v, elems[j + 1], Guard(env, v, elems[j], reached).log)
  {
    PlainListIsNormal(env, elems);
    WalkTakesFirstYes(env, v, elems, 0, j, log, reached);
  }
}
