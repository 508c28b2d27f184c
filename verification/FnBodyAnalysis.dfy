/**
  The memoised, quota-bounded analysis of function bodies (check/go/carrier.go,
  AnalyseFnBody and refineRecursiveSummary) in a plain check pass.

  A body's run dispatches further calls, which analyse further bodies, with argument
  shapes that can grow without bound (a function that calls itself on a list of its
  argument never repeats a memo key). What a body does is left open here: a run makes
  any finite number of calls, to any functions of the program, with any arguments.
  Termination, the bound on runs and the restored bookkeeping hold for all of them.
*/
module FnBodyAnalysis {
  import opened Lattice
  import opened Text

  /** A definition site: registry scope, name, position of the body's first token. */
  datatype Site = Site(scope: nat, name: string, row: nat, col: nat)

  datatype FnDef = FnDef(site: Site, emptyBody: bool, declared: seq<Type>)

  /** A binding a closure was built over. */
  datatype Capture = Capture(name: string, value: Carrier)

  /** The memo key: the site, the names of the argument types, the captured names with the names of their types. */
  datatype Key = Key(site: Site, args: seq<string>, captures: seq<(string, string)>)

  /** A residual stack; `variadic` when it holds a spread of unknown length. */
  datatype Residual = Residual(stack: seq<Carrier>, variadic: bool)

  datatype Finding =
    | Truncated(site: Site)
    | Other(detail: string)

  const FN_ANALYSIS_QUOTA := 64

  /** carrierTypeName: a type prints as its own name, not as its path. */
  function KeyType(c: Carrier): string {
    match c.shape
    case Of(t) => TypeName(t)
    case Disjunct(_, _) => "Disjunct"
  }

  function KeyOf(f: FnDef, args: seq<Carrier>, captures: seq<Capture>): Key {
    Key(f.site,
      seq(|args|, i requires 0 <= i < |args| => KeyType(args[i])),
      seq(|captures|, i requires 0 <= i < |captures| => (captures[i].name, KeyType(captures[i].value))))
  }

  /** The carrier is of a type of this name, or a union. */
  ghost predicate OfTypeNamed(c: Carrier, name: string) {
    match c.shape
    case Of(Node(_, own, _)) => name == own
    case Of(Any) => name == "Any"
    case Of(NoneType) => name == "None"
    case Of(Never) => name == "Never"
    case Disjunct(_, _) => name == "Disjunct"
  }

  /** The key names a call of f on arguments of types of these names under such captures. */
  ghost predicate KeyNames(key: Key, f: FnDef, args: seq<Carrier>, captures: seq<Capture>) {
    && key.site == f.site && |key.args| == |args| && |key.captures| == |captures|
    && (forall i | 0 <= i < |args| :: OfTypeNamed(args[i], key.args[i]))
    && (forall i | 0 <= i < |captures| ::
      key.captures[i].0 == captures[i].name && OfTypeNamed(captures[i].value, key.captures[i].1))
  }

  lemma KeyTypeNames(c: Carrier, name: string)
    ensures KeyType(c) == name <==> OfTypeNamed(c, name)
  {
  }

  /** Exactly one key names a call. */
  lemma KeyOfNames(key: Key, f: FnDef, args: seq<Carrier>, captures: seq<Capture>)
    ensures key == KeyOf(f, args, captures) <==> KeyNames(key, f, args, captures)
  {
    forall c: Carrier, name ensures KeyType(c) == name <==> OfTypeNamed(c, name) {
      KeyTypeNames(c, name);
    }
    if KeyNames(key, f, args, captures) {
      assert key.args == KeyOf(f, args, captures).args;
      assert key.captures == KeyOf(f, args, captures).captures;
    }
  }

  /** Types of one name, a union counting as a type named Disjunct. */
  ghost predicate SameTypeName(a: Carrier, b: Carrier) {
    exists name :: OfTypeNamed(a, name) && OfTypeNamed(b, name)
  }

  /** Two calls share a key if and only if site, argument types and captures agree by name, position by position. */
  lemma KeysAgree(f: FnDef, args: seq<Carrier>, captures: seq<Capture>, g: FnDef, brgs: seq<Carrier>, daptures: seq<Capture>)
    ensures KeyOf(f, args, captures) == KeyOf(g, brgs, daptures) <==>
      && f.site == g.site && |args| == |brgs| && |captures| == |daptures|
      && (forall i | 0 <= i < |args| :: SameTypeName(args[i], brgs[i]))
      && (forall i | 0 <= i < |captures| ::
        captures[i].name == daptures[i].name && SameTypeName(captures[i].value, daptures[i].value))
  {
    var key := KeyOf(f, args, captures);
    KeyOfNames(key, f, args, captures);
    KeyOfNames(key, g, brgs, daptures);
    OneTypeName();
  }

  lemma OneTypeName()
    ensures forall a, b, name | SameTypeName(a, b) && OfTypeNamed(a, name) :: OfTypeNamed(b, name)
  {
  }

  /** The types a call brings, arguments first. */
  ghost function PlainTypes(args: seq<Carrier>): set<Type> {
    set c | c in args && c.shape.Of? :: c.shape.t
  }

  /** No two types share a name, and none has the name of unions. */
  ghost predicate NamesApart(types: set<Type>) {
    && (forall t, u | t in types && u in types && TypeName(t) == TypeName(u) :: t == u)
    && (forall t | t in types :: TypeName(t) != "Disjunct")
  }

  /** Where type names are unique, as the renderer takes them to be, plain arguments under one key are of one type. */
  lemma KeysSeparateTypes(f: FnDef, args: seq<Carrier>, brgs: seq<Carrier>, captures: seq<Capture>, i: nat)
    requires KeyOf(f, args, captures) == KeyOf(f, brgs, captures) && i < |args|
    requires NamesApart(PlainTypes(args) + PlainTypes(brgs))
    ensures i < |brgs|
    ensures match (args[i].shape, brgs[i].shape)
      case (Of(t), Of(u)) => t == u
      case (Disjunct(_, _), Disjunct(_, _)) => true
      case _ => false
  {
    var k, m := KeyOf(f, args, captures), KeyOf(f, brgs, captures);
    assert |k.args| == |args| && |m.args| == |brgs|;
    assert KeyType(args[i]) == k.args[i] == m.args[i] == KeyType(brgs[i]);
    assert args[i] in args && brgs[i] in brgs;
  }

  /** Two types may share a name: a second `def Foo` after the first. Then one summary answers for both. */
  lemma ShadowedTypeSharesKey(f: FnDef)
    ensures
      var text := Node(SCALAR, "String", false);
      var was, now := Carrier(Of(Node(INTEGER, "Foo", true)), false, 1), Carrier(Of(Node(text, "Foo", true)), false, 2);
      KeyOf(f, [was], []) == KeyOf(f, [now], []) && !Below(was, now) && !Below(now, was)
  {
    var text := Node(SCALAR, "String", false);
    var was, now := Node(INTEGER, "Foo", true), Node(text, "Foo", true);
    KeysAgree(f, [Carrier(Of(was), false, 1)], [], f, [Carrier(Of(now), false, 2)], []);
    assert OfTypeNamed(Carrier(Of(was), false, 1), "Foo") && OfTypeNamed(Carrier(Of(now), false, 2), "Foo");
    assert !ConformsTo(was, now) && !ConformsTo(now, was) by {
      assert !ConformsTo(INTEGER, now) && !ConformsTo(NUMBER, now) && !ConformsTo(SCALAR, now);
      assert !ConformsTo(text, was) && !ConformsTo(SCALAR, was);
    }
    assert !ConformsTo(was, Never) by {
      assert !ConformsTo(INTEGER, Never) && !ConformsTo(NUMBER, Never) && !ConformsTo(SCALAR, Never);
    }
    assert !ConformsTo(now, Never) by {
      assert !ConformsTo(text, Never) && !ConformsTo(SCALAR, Never);
    }
    assert Inhabited(was) && Inhabited(now);
    assert Covers(Of(was), was) && Covers(Of(now), now);
  }

  // ---------------------------------------------------------------- the key as text

  /** FnAnalysisKey, for a body with a first token. */
  function Print(key: Key): string {
    Digits(key.site.scope) + "#" + key.site.name + "#" + PrintArgs(key.args) + PrintTail(key)
  }

  function PrintArgs(args: seq<string>): string {
    if args == [] then "" else args[0] + "," + PrintArgs(args[1..])
  }

  function PrintCaptures(captures: seq<(string, string)>): string {
    if captures == [] then "" else captures[0].0 + ":" + captures[0].1 + "," + PrintCaptures(captures[1..])
  }

  function PrintSite(row: nat, col: nat): string {
    "@" + Digits(row) + ":" + Digits(col)
  }

  function PrintTail(key: Key): string {
    (if key.captures != [] then "|" + PrintCaptures(key.captures) else "") + PrintSite(key.site.row, key.site.col)
  }

  /** Free of the five separators. */
  ghost predicate Unmarked(s: string) {
    '#' !in s && ',' !in s && '|' !in s && ':' !in s && '@' !in s
  }

  ghost predicate UnmarkedKey(key: Key) {
    && Unmarked(key.site.name)
    && (forall i | 0 <= i < |key.args| :: Unmarked(key.args[i]))
    && (forall i | 0 <= i < |key.captures| :: Unmarked(key.captures[i].0) && Unmarked(key.captures[i].1))
  }

  /** A text ends at the first separator after it. */
  lemma CutAtSeparator(a: string, b: string, sep: char, rest: string, more: string)
    requires sep !in a && sep !in b && a + [sep] + rest == b + [sep] + more
    ensures a == b && rest == more
  {
    IndexByteIs(a, sep, rest);
    IndexByteIs(b, sep, more);
    var s := a + [sep] + rest;
    assert a == s[..|a|] && rest == s[|a| + 1..];
    assert b == s[..|b|] && more == s[|b| + 1..];
  }

  lemma {:induction false} ArgsAreRead(a: seq<string>, b: seq<string>, rest: string, more: string)
    requires (forall i | 0 <= i < |a| :: Unmarked(a[i])) && (forall i | 0 <= i < |b| :: Unmarked(b[i]))
    requires rest != "" && rest[0] in {'|', '@'} && more != "" && more[0] in {'|', '@'}
    requires PrintArgs(a) + rest == PrintArgs(b) + more
    ensures a == b && rest == more
  {
    ArgsStart(a, rest);
    ArgsStart(b, more);
    if a != [] && b != [] {
      assert PrintArgs(a) + rest == a[0] + [','] + (PrintArgs(a[1..]) + rest);
      assert PrintArgs(b) + more == b[0] + [','] + (PrintArgs(b[1..]) + more);
      CutAtSeparator(a[0], b[0], ',', PrintArgs(a[1..]) + rest, PrintArgs(b[1..]) + more);
      ArgsAreRead(a[1..], b[1..], rest, more);
      assert a == [a[0]] + a[1..] && b == [b[0]] + b[1..];
    } else {
      assert PrintArgs(a) + rest == rest && PrintArgs(b) + more == more;
    }
  }

  /** The first character tells whether an argument follows. */
  lemma ArgsStart(a: seq<string>, rest: string)
    requires (forall i | 0 <= i < |a| :: Unmarked(a[i])) && rest != "" && rest[0] in {'|', '@'}
    ensures var s := PrintArgs(a) + rest; s != "" && (a == [] <==> s[0] in {'|', '@'})
  {
    var s := PrintArgs(a) + rest;
    if a != [] {
      assert s[0] == (a[0] + ",")[0];
    } else {
      assert s == rest;
    }
  }

  lemma {:induction false} CapturesAreRead(a: seq<(string, string)>, b: seq<(string, string)>, rest: string, more: string)
    requires forall i | 0 <= i < |a| :: Unmarked(a[i].0) && Unmarked(a[i].1)
    requires forall i | 0 <= i < |b| :: Unmarked(b[i].0) && Unmarked(b[i].1)
    requires rest != "" && rest[0] == '@' && more != "" && more[0] == '@'
    requires PrintCaptures(a) + rest == PrintCaptures(b) + more
    ensures a == b && rest == more
  {
    CapturesStart(a, rest);
    CapturesStart(b, more);
    if a != [] && b != [] {
      var x, y := PrintCaptures(a[1..]) + rest, PrintCaptures(b[1..]) + more;
      assert PrintCaptures(a) + rest == a[0].0 + [':'] + (a[0].1 + [','] + x);
      assert PrintCaptures(b) + more == b[0].0 + [':'] + (b[0].1 + [','] + y);
      CutAtSeparator(a[0].0, b[0].0, ':', a[0].1 + [','] + x, b[0].1 + [','] + y);
      CutAtSeparator(a[0].1, b[0].1, ',', x, y);
      CapturesAreRead(a[1..], b[1..], rest, more);
      assert a == [a[0]] + a[1..] && b == [b[0]] + b[1..];
    } else {
      assert PrintCaptures(a) + rest == rest && PrintCaptures(b) + more == more;
    }
  }

  lemma CapturesStart(a: seq<(string, string)>, rest: string)
    requires (forall i | 0 <= i < |a| :: Unmarked(a[i].0) && Unmarked(a[i].1)) && rest != "" && rest[0] == '@'
    ensures var s := PrintCaptures(a) + rest; s != "" && (a == [] <==> s[0] == '@')
  {
    var s := PrintCaptures(a) + rest;
    if a != [] {
      assert s[0] == (a[0].0 + ":")[0];
    } else {
      assert s == rest;
    }
  }

  lemma DigitsAreRead(m: nat, n: nat)
    ensures forall c | c in Digits(m) :: '0' <= c <= '9'
    ensures Digits(m) == Digits(n) ==> m == n
  {
    ValueOfDigits(m);
    ValueOfDigits(n);
  }

  lemma SitesAreRead(row: nat, col: nat, line: nat, place: nat)
    requires PrintSite(row, col) == PrintSite(line, place)
    ensures row == line && col == place
  {
    DigitsAreRead(row, line);
    DigitsAreRead(line, row);
    DigitsAreRead(col, place);
    var s, t := PrintSite(row, col), PrintSite(line, place);
    assert s[1..] == Digits(row) + [':'] + Digits(col) && t[1..] == Digits(line) + [':'] + Digits(place);
    CutAtSeparator(Digits(row), Digits(line), ':', Digits(col), Digits(place));
  }

  lemma TailsAreRead(k: Key, m: Key)
    requires UnmarkedKey(k) && UnmarkedKey(m) && PrintTail(k) == PrintTail(m)
    ensures k.captures == m.captures && k.site.row == m.site.row && k.site.col == m.site.col
  {
    var s, t := PrintSite(k.site.row, k.site.col), PrintSite(m.site.row, m.site.col);
    assert PrintTail(k)[0] == if k.captures == [] then '@' else '|';
    assert PrintTail(m)[0] == if m.captures == [] then '@' else '|';
    if k.captures == [] {
      assert PrintTail(k) == s && PrintTail(m) == t;
    } else {
      assert PrintTail(k)[1..] == PrintCaptures(k.captures) + s;
      assert PrintTail(m)[1..] == PrintCaptures(m.captures) + t;
      CapturesAreRead(k.captures, m.captures, s, t);
    }
    SitesAreRead(k.site.row, k.site.col, m.site.row, m.site.col);
  }

  /** Keys whose names hold no separator print apart, so the text separates the calls the key does. */
  lemma PrintSeparates(k: Key, m: Key)
    requires UnmarkedKey(k) && UnmarkedKey(m)
    ensures Print(k) == Print(m) <==> k == m
  {
    if Print(k) == Print(m) {
      PrintParts(k);
      PrintParts(m);
      DigitsAreRead(k.site.scope, m.site.scope);
      DigitsAreRead(m.site.scope, k.site.scope);
      var a, b := PrintArgs(k.args) + PrintTail(k), PrintArgs(m.args) + PrintTail(m);
      CutAtSeparator(Digits(k.site.scope), Digits(m.site.scope), '#', k.site.name + ['#'] + a, m.site.name + ['#'] + b);
      CutAtSeparator(k.site.name, m.site.name, '#', a, b);
      ArgsAreRead(k.args, m.args, PrintTail(k), PrintTail(m));
      TailsAreRead(k, m);
    }
  }

  lemma PrintParts(k: Key)
    ensures Print(k) == Digits(k.site.scope) + ['#'] + (k.site.name + ['#'] + (PrintArgs(k.args) + PrintTail(k)))
    ensures PrintTail(k) != "" && PrintTail(k)[0] in {'|', '@'}
  {
    assert Print(k) == Digits(k.site.scope) + ['#'] + k.site.name + ['#'] + PrintArgs(k.args) + PrintTail(k);
  }

  /** One carrier per declared return, or a single gradual Any. */
  function DeclaredReturnBail(declared: seq<Type>): Residual {
    if declared != [] then
      Residual(seq(|declared|, i requires 0 <= i < |declared| => Carrier(Of(declared[i]), false, 0)), false)
    else Residual([Carrier(Of(Any), true, 0)], false)
  }

  /** The declaration is the hypothesis of a recursive call; without one, a spread of nothing yet. */
  function InFlightAnswer(declared: seq<Type>): Residual {
    if declared != [] then DeclaredReturnBail(declared) else Residual([Carrier(Of(Never), false, 0)], true)
  }

  /** A bail holds strict plain carriers of the declared types in order, or one gradual Any, and no spread. */
  lemma BailIsDeclared(declared: seq<Type>)
    ensures var r := DeclaredReturnBail(declared);
      && !r.variadic
      && (declared != [] ==> |r.stack| == |declared|)
      && (declared != [] ==> forall i | 0 <= i < |declared| :: r.stack[i] == Carrier(Of(declared[i]), false, 0))
      && (declared == [] ==> r.stack == [Carrier(Of(Any), true, 0)])
  {
  }

  // ---------------------------------------------------------------- joining summaries

  function At(s: seq<Carrier>, i: nat): Carrier {
    if i < |s| then s[i] else Carrier(Of(NoneType), false, 0)
  }

  predicate IsNone(c: Carrier) {
    c.shape == Of(NoneType)
  }

  /** A real value against a real None is gradual; against a padded None it stays strict. */
  function JoinAt(a: seq<Carrier>, b: seq<Carrier>, i: nat): Carrier {
    var j := JoinCarriers(At(a, i), At(b, i));
    if i < |a| && i < |b| && IsNone(a[i]) != IsNone(b[i]) then j.(dynamic := true) else j
  }

  function JoinCarrierStacks(a: Residual, b: Residual): Residual {
    var n := if |a.stack| < |b.stack| then |b.stack| else |a.stack|;
    Residual(seq(n, i requires 0 <= i < n => JoinAt(a.stack, b.stack, i)), a.variadic || b.variadic)
  }

  /**
    A position both stacks have holds the join of the two, gradual also where exactly one of them is None; one that a
    single stack has holds its join with a strict None.
  */
  lemma JoinedStackIs(a: Residual, b: Residual, i: nat)
    ensures var r := JoinCarrierStacks(a, b);
      && (r.variadic <==> a.variadic || b.variadic)
      && (i < |r.stack| <==> i < |a.stack| || i < |b.stack|)
      && (i < |a.stack| && i < |b.stack| ==>
            && r.stack[i].shape == JoinShapes(a.stack[i].shape, b.stack[i].shape)
            && (r.stack[i].dynamic <==>
                 || a.stack[i].dynamic || b.stack[i].dynamic
                 || (a.stack[i].shape == Of(NoneType) && b.stack[i].shape != Of(NoneType))
                 || (a.stack[i].shape != Of(NoneType) && b.stack[i].shape == Of(NoneType))))
      && (|b.stack| <= i < |a.stack| ==> r.stack[i] == JoinCarriers(a.stack[i], Carrier(Of(NoneType), false, 0)))
      && (|a.stack| <= i < |b.stack| ==> r.stack[i] == JoinCarriers(Carrier(Of(NoneType), false, 0), b.stack[i]))
  {
  }

  /** Either stack may be named first. */
  lemma JoinStacksCommute(a: Residual, b: Residual)
    ensures JoinCarrierStacks(a, b) == JoinCarrierStacks(b, a)
  {
    var ab, ba := JoinCarrierStacks(a, b), JoinCarrierStacks(b, a);
    forall i | 0 <= i < |ab.stack| ensures ab.stack[i] == ba.stack[i] {
      JoinCommutes(At(a.stack, i), At(b.stack, i));
    }
    assert ab.stack == ba.stack;
  }

  /** Position for position by value equality, which does not look at plain types. */
  predicate CarrierStacksEqual(a: Residual, b: Residual) {
    && |a.stack| == |b.stack| && a.variadic == b.variadic
    && forall i | 0 <= i < |a.stack| ::
         (a.stack[i].shape.Of? && b.stack[i].shape.Of?) || a.stack[i].shape == b.stack[i].shape
  }

  /** What value equality cannot tell apart: residuals that differ in plain types alone. */
  ghost predicate Alike(a: Residual, b: Residual) {
    && |a.stack| == |b.stack| && (a.variadic <==> b.variadic)
    && forall i | 0 <= i < |a.stack| ::
      match (a.stack[i].shape, b.stack[i].shape)
      case (Of(_), Of(_)) => true
      case (Disjunct(x, dx), Disjunct(y, dy)) => x == y && dx == dy
      case _ => false
  }

  /** The summary after one more run that gave `next`: joined, unless that changes nothing value equality sees. */
  ghost function Refined(summary: Residual, next: Residual): Residual {
    var joined := JoinCarrierStacks(summary, next);
    if Alike(joined, summary) then summary else joined
  }

  /** What the extra runs make of the first summary: a second one only if the first changed something. */
  ghost predicate RefinedBy(first: Residual, extra: seq<Residual>, result: Residual) {
    && 1 <= |extra| <= 2
    && (|extra| == 1 <==> Alike(JoinCarrierStacks(first, extra[0]), first))
    && result == if |extra| == 1 then first else Refined(Refined(first, extra[0]), extra[1])
  }

  /** After some extra runs, the last of which settled it or not. */
  ghost predicate Refining(first: Residual, extra: seq<Residual>, result: Residual, stable: bool) {
    match |extra|
    case 0 => result == first && !stable
    case 1 => result == Refined(first, extra[0]) && (stable <==> Alike(JoinCarrierStacks(first, extra[0]), first))
    case _ => |extra| == 2 && RefinedBy(first, extra, result)
  }

  lemma RefineStep(first: Residual, extra: seq<Residual>, result: Residual, next: Residual)
    requires |extra| < 2 && Refining(first, extra, result, false)
    ensures Refining(first, extra + [next], Refined(result, next), Alike(JoinCarrierStacks(result, next), result))
  {
    if extra == [] {
      assert (extra + [next])[0] == next;
    } else {
      assert (extra + [next])[0] == extra[0] && (extra + [next])[1] == next;
    }
  }

  ghost predicate StackBelow(a: Residual, b: Residual) {
    |a.stack| <= |b.stack| && forall i | 0 <= i < |a.stack| :: Below(a.stack[i], b.stack[i])
  }

  lemma JoinStacksIsUpperBound(a: Residual, b: Residual)
    ensures StackBelow(a, JoinCarrierStacks(a, b)) && StackBelow(b, JoinCarrierStacks(a, b))
  {
    var n := |JoinCarrierStacks(a, b).stack|;
    forall i | 0 <= i < n
      ensures Below(At(a.stack, i), JoinAt(a.stack, b.stack, i)) && Below(At(b.stack, i), JoinAt(a.stack, b.stack, i))
    {
      JoinIsUpperBound(At(a.stack, i), At(b.stack, i));
    }
  }

  lemma StackBelowTransitive(a: Residual, b: Residual, c: Residual)
    requires StackBelow(a, b) && StackBelow(b, c)
    ensures StackBelow(a, c)
  {
    forall i | 0 <= i < |a.stack| ensures Below(a.stack[i], c.stack[i]) {
      BelowTransitive(a.stack[i], b.stack[i], c.stack[i]);
    }
  }

  lemma RefinedIsAbove(first: Residual, summary: Residual, next: Residual)
    requires StackBelow(first, summary)
    ensures StackBelow(first, Refined(summary, next))
  {
    JoinStacksIsUpperBound(summary, next);
    StackBelowTransitive(first, summary, JoinCarrierStacks(summary, next));
  }

  lemma StackBelowItself(a: Residual)
    ensures StackBelow(a, a)
  {
  }

  lemma EqualIsAlike(a: Residual, b: Residual)
    ensures CarrierStacksEqual(a, b) <==> Alike(a, b)
  {
  }

  // ---------------------------------------------------------------- the check state

  class CheckState {
    const program: set<FnDef>
    var summaries: map<Key, Residual>
    var inflight: set<Key>
    var counts: map<Site, nat>
    var nameInflight: map<string, nat>
    var suppressed: int
    var bodyDepth: int
    var nameStack: seq<string>
    var specBaselines: seq<nat>
    var callEdges: set<(string, string)>
    var inflightBails: nat
    var diagnostics: seq<Finding>
    ghost var runs: map<Site, nat>

    constructor (program: set<FnDef>)
      ensures this.program == program && Clean()
      ensures forall s :: Count(s) == 0 && Runs(s) == 0
      ensures diagnostics == [] && summaries == map[]
    {
      this.program := program;
      summaries, inflight, counts, nameInflight := map[], {}, map[], map[];
      suppressed, bodyDepth, nameStack, specBaselines := 0, 0, [], [];
      callEdges, inflightBails, diagnostics, runs := {}, 0, [], map[];
    }

    /** The bookkeeping of a state outside any analysis. */
    ghost predicate Clean()
      reads this
    {
      && inflight == {} && suppressed == 0 && bodyDepth == 0 && nameStack == [] && specBaselines == []
      && forall n :: NameCount(n) == 0
    }

    function Count(s: Site): nat
      reads this
    {
      if s in counts then counts[s] else 0
    }

    function NameCount(n: string): nat
      reads this
    {
      if n in nameInflight then nameInflight[n] else 0
    }

    ghost function Runs(s: Site): nat
      reads this
    {
      if s in runs then runs[s] else 0
    }

    /** Analyses a site may still spend: quota positions not yet counted. */
    ghost function Slots(): set<(Site, int)>
      reads this
    {
      set f, i | f in program && Count(f.site) <= i < FN_ANALYSIS_QUOTA :: (f.site, i)
    }

    /** Counted analyses that were within the quota. */
    ghost function Used(s: Site): nat
      reads this
    {
      if Count(s) < FN_ANALYSIS_QUOTA then Count(s) else FN_ANALYSIS_QUOTA
    }

    /** Everything that tracks the analyses in progress is as it was. */
    twostate predicate Restored()
      reads this
    {
      && inflight == old(inflight) && suppressed == old(suppressed) && bodyDepth == old(bodyDepth)
      && nameStack == old(nameStack) && specBaselines == old(specBaselines)
      && forall n :: NameCount(n) == old(NameCount(n))
    }

    /** Counters only grow, findings are only added, memoised keys stay memoised. */
    twostate predicate Grown()
      reads this
    {
      && (forall s :: old(Count(s)) <= Count(s))
      && old(inflightBails) <= inflightBails
      && old(diagnostics) <= diagnostics
      && old(summaries).Keys <= summaries.Keys
      && old(callEdges) <= callEdges
      && (forall s :: old(Runs(s)) <= Runs(s))
    }

    /** Runs a site may still make: three for every quota position counted, less those made. */
    ghost function Credit(s: Site): int
      reads this
    {
      3 * Used(s) - Runs(s)
    }

    /** No site overdrew, except `site` by at most `extra` runs. */
    twostate predicate Paid(site: Site, extra: nat)
      reads this
    {
      forall s :: Credit(s) >= old(Credit(s)) - if s == site then extra else 0
    }

    /** A site past its quota is reported at most once, and no other site is. */
    ghost predicate SaidOnce()
      reads this
    {
      && (forall i | 0 <= i < |diagnostics| && diagnostics[i].Truncated? :: Count(diagnostics[i].site) > FN_ANALYSIS_QUOTA)
      && (forall i, j | 0 <= i < j < |diagnostics| && diagnostics[i].Truncated? :: diagnostics[i] != diagnostics[j])
    }

    method RecordCallEdge(name: string)
      modifies this`callEdges
      ensures callEdges == old(callEdges) + if name != "" && nameStack != [] then {(nameStack[|nameStack| - 1], name)} else {}
    {
      if name != "" && nameStack != [] {
        callEdges := callEdges + {(nameStack[|nameStack| - 1], name)};
      }
    }

    method TruncateDiagnostics(n: nat)
      modifies this`diagnostics
      ensures diagnostics == if n < |old(diagnostics)| then old(diagnostics)[..n] else old(diagnostics)
    {
      if n < |diagnostics| {
        diagnostics := diagnostics[..n];
      }
    }

    method ReportOther(detail: string)
      requires SaidOnce()
      modifies this`diagnostics
      ensures SaidOnce() && diagnostics == old(diagnostics) + [Other(detail)]
    {
      diagnostics := diagnostics + [Other(detail)];
    }

    /** One run of a body: any calls with any arguments, any findings, any residual. */
    method RunFnBodyOnce(f: FnDef) returns (result: Residual)
      requires SaidOnce()
      requires f in program
      modifies this
      ensures SaidOnce()
      ensures Restored() && Grown() && Paid(f.site, 1) && old(Runs(f.site)) < Runs(f.site)
      decreases Slots(), 1, 0
    {
      runs := runs[f.site := Runs(f.site) + 1];
      var calls: nat := *;
      ghost var slots := Slots();
      while calls > 0
        invariant Restored() && Grown() && Paid(f.site, 1) && SaidOnce() && old(Runs(f.site)) < Runs(f.site)
        invariant Slots() <= slots
        decreases calls
      {
        label Here:
        MakeAnyCall(f.site);
        CountsShrinkSlots@Here();
        calls := calls - 1;
      }
      result := *;
    }

    /** Some call the body makes: any function of the program, any arguments, any finding after it. */
    method MakeAnyCall(ghost site: Site)
      requires SaidOnce()
      requires program != {}
      modifies this
      ensures SaidOnce()
      ensures Restored() && Grown() && Paid(site, 0)
      decreases Slots(), 0, 2
    {
      var callee :| callee in program;
      var args: seq<Carrier>, captures: seq<Capture> := *, *;
      var _ := AnalyseFnBody(callee, args, captures);
      var detail: string := *;
      ReportOther(detail);
    }

    twostate lemma CountsShrinkSlots()
      requires forall s :: old(Count(s)) <= Count(s)
      ensures Slots() <= old(Slots())
    {
    }

    /**
      AnalyseFnBody. Whatever bodies do, this terminates; on every exit the bookkeeping of
      analyses in progress is restored; a memoised key is answered from the memo and
      changes nothing but the call edges; an answer past the quota, or for a key already
      in flight, runs no body; every other call runs the body and memoises its answer.
    */
    method AnalyseFnBody(f: FnDef, args: seq<Carrier>, captures: seq<Capture>) returns (result: Residual)
      requires SaidOnce()
      requires f in program
      modifies this
      ensures SaidOnce()
      ensures Restored() && Grown() && Paid(f.site, 0)
      ensures f.emptyBody ==> result == Residual([], false) && runs == old(runs) && summaries == old(summaries)
      ensures forall key | KeyNames(key, f, args, captures) && !f.emptyBody ::
                && (key in old(summaries) ==>
                      && result == old(summaries)[key] && runs == old(runs)
                      && summaries == old(summaries) && counts == old(counts) && diagnostics == old(diagnostics))
                && (key in old(inflight) || old(Count(f.site)) >= FN_ANALYSIS_QUOTA ==>
                      runs == old(runs) && summaries == old(summaries))
                && (key !in old(summaries) && key !in old(inflight) && old(Count(f.site)) < FN_ANALYSIS_QUOTA ==>
                      old(Runs(f.site)) < Runs(f.site) && key in summaries && summaries[key] == result)
                && (key !in old(summaries) && old(Count(f.site)) >= FN_ANALYSIS_QUOTA ==>
                      result == DeclaredReturnBail(f.declared))
                && (key !in old(summaries) && key in old(inflight) && old(Count(f.site)) < FN_ANALYSIS_QUOTA ==>
                      result == InFlightAnswer(f.declared))
      ensures old(Count(f.site)) > FN_ANALYSIS_QUOTA ==> diagnostics == old(diagnostics)
      decreases Slots(), 0, 1
    {
      if f.emptyBody {
        return Residual([], false);
      }
      RecordCallEdge(f.site.name);
      label Here:
      var key := KeyOf(f, args, captures);
      forall k ensures KeyNames(k, f, args, captures) <==> k == key {
        KeyOfNames(k, f, args, captures);
      }
      CountsShrinkSlots@Here();
      result := AnalyseKey(f, key);
    }

    /** The analysis of a call whose key is known. */
    method AnalyseKey(f: FnDef, key: Key) returns (result: Residual)
      requires SaidOnce()
      requires f in program && key.site == f.site
      modifies this
      ensures SaidOnce()
      ensures Restored() && Grown() && Paid(f.site, 0)
      ensures key in old(summaries) ==>
                && result == old(summaries)[key] && runs == old(runs)
                && summaries == old(summaries) && counts == old(counts) && diagnostics == old(diagnostics)
      ensures key in old(inflight) || old(Count(f.site)) >= FN_ANALYSIS_QUOTA ==>
                runs == old(runs) && summaries == old(summaries)
      ensures key !in old(summaries) && key !in old(inflight) && old(Count(f.site)) < FN_ANALYSIS_QUOTA ==>
                old(Runs(f.site)) < Runs(f.site) && key in summaries && summaries[key] == result
      ensures key !in old(summaries) && old(Count(f.site)) >= FN_ANALYSIS_QUOTA ==>
                result == DeclaredReturnBail(f.declared)
      ensures key !in old(summaries) && key in old(inflight) && old(Count(f.site)) < FN_ANALYSIS_QUOTA ==>
                result == InFlightAnswer(f.declared)
      ensures old(Count(f.site)) > FN_ANALYSIS_QUOTA ==> diagnostics == old(diagnostics)
      decreases Slots(), 0, 0
    {
      if key in summaries {
        return summaries[key];
      }
      var done;
      done, result := CountAndBail(f, key);
      if done {
        return;
      }
      SlotSpent(f);
      result := AnalyseFresh(f, key, f.site.name);
    }

    /** Spend a quota position; answer without a run past the quota or for a key in flight. */
    method CountAndBail(f: FnDef, key: Key) returns (done: bool, result: Residual)
      requires SaidOnce()
      modifies this`counts, this`diagnostics, this`inflightBails
      ensures SaidOnce() && Grown()
      ensures forall s :: Count(s) == old(Count(s)) + if s == f.site then 1 else 0
      ensures done <==> key in inflight || old(Count(f.site)) >= FN_ANALYSIS_QUOTA
      ensures old(Count(f.site)) > FN_ANALYSIS_QUOTA ==> diagnostics == old(diagnostics)
      ensures old(Count(f.site)) == FN_ANALYSIS_QUOTA ==> diagnostics == old(diagnostics) + [Truncated(f.site)]
      ensures done && f.declared == [] && old(Count(f.site)) < FN_ANALYSIS_QUOTA ==>
        result == Residual([Carrier(Of(Never), false, 0)], true)
      ensures done && (f.declared != [] || old(Count(f.site)) >= FN_ANALYSIS_QUOTA) ==> result == DeclaredReturnBail(f.declared)
    {
      counts := counts[f.site := Count(f.site) + 1];
      var n := Count(f.site);
      if n > FN_ANALYSIS_QUOTA {
        if n == FN_ANALYSIS_QUOTA + 1 {
          diagnostics := diagnostics + [Truncated(f.site)];
        }
        return true, DeclaredReturnBail(f.declared);
      }
      if key in inflight {
        if f.declared != [] {
          return true, DeclaredReturnBail(f.declared);
        }
        inflightBails := inflightBails + 1;
        return true, Residual([Carrier(Of(Never), false, 0)], true);
      }
      return false, Residual([], false);
    }

    twostate lemma SlotSpent(f: FnDef)
      requires f in program && old(Count(f.site)) < FN_ANALYSIS_QUOTA && Count(f.site) == old(Count(f.site)) + 1
      requires forall s | s != f.site :: Count(s) == old(Count(s))
      ensures Slots() < old(Slots())
    {
      var slot := (f.site, old(Count(f.site)));
      assert slot in old(Slots()) && slot !in Slots();
      CountsShrinkSlots();
    }

    method Enter(key: Key, name: string) returns (reentry: bool)
      requires key !in inflight
      modifies this`inflight, this`suppressed, this`nameInflight, this`bodyDepth, this`specBaselines, this`nameStack
      ensures reentry == (name != "" && old(NameCount(name)) > 0)
      ensures inflight == old(inflight) + {key} && suppressed == old(suppressed) + if reentry then 1 else 0
      ensures bodyDepth == old(bodyDepth) + 1 && specBaselines == old(specBaselines) + [0]
      ensures nameStack == old(nameStack) + if name != "" then [name] else []
      ensures forall n :: NameCount(n) == old(NameCount(n)) + if n == name && name != "" then 1 else 0
    {
      inflight := inflight + {key};
      reentry := false;
      if name != "" {
        if NameCount(name) > 0 {
          reentry := true;
          suppressed := suppressed + 1;
        }
        nameInflight := nameInflight[name := NameCount(name) + 1];
      }
      bodyDepth := bodyDepth + 1;
      specBaselines := specBaselines + [0];
      if name != "" {
        nameStack := nameStack + [name];
      }
    }

    /** The deferred undoing, in reverse order. */
    method Leave(key: Key, name: string, reentry: bool)
      requires specBaselines != [] && (name != "" ==> nameStack != [] && NameCount(name) > 0)
      modifies this`inflight, this`suppressed, this`nameInflight, this`bodyDepth, this`specBaselines, this`nameStack
      ensures inflight == old(inflight) - {key} && suppressed == old(suppressed) - if reentry && name != "" then 1 else 0
      ensures bodyDepth == old(bodyDepth) - 1 && specBaselines == old(specBaselines)[..|old(specBaselines)| - 1]
      ensures nameStack == if name != "" then old(nameStack)[..|old(nameStack)| - 1] else old(nameStack)
      ensures forall n :: NameCount(n) == old(NameCount(n)) - if n == name && name != "" then 1 else 0
    {
      if name != "" {
        nameStack := nameStack[..|nameStack| - 1];
      }
      specBaselines := specBaselines[..|specBaselines| - 1];
      bodyDepth := bodyDepth - 1;
      if name != "" {
        nameInflight := nameInflight[name := NameCount(name) - 1];
        if reentry {
          suppressed := suppressed - 1;
        }
      }
      inflight := inflight - {key};
    }

    /** The analysis proper: mark in flight, run, refine, memoise, unmark. */
    method AnalyseFresh(f: FnDef, key: Key, name: string) returns (result: Residual)
      requires SaidOnce()
      requires f in program && key.site == f.site && key !in inflight
      modifies this
      ensures SaidOnce()
      ensures Restored() && Grown() && Paid(f.site, 3) && old(Runs(f.site)) < Runs(f.site)
      ensures key in summaries && summaries[key] == result
      decreases Slots(), 4, 0
    {
      label Outside:
      var reentry := Enter(key, name);
      CountsShrinkSlots@Outside();
      assert forall s :: Credit(s) == old(Credit(s)) && Runs(s) == old(Runs(s));
      result := RunAndRefine(f, key);
      label Ran:
      Leave(key, name, reentry);
      assert forall s :: Credit(s) == old@Ran(Credit(s)) && Runs(s) == old@Ran(Runs(s));
    }

    /** One run; if it leaned on an in-flight guess, refine, else memoise as it is. */
    method RunAndRefine(f: FnDef, key: Key) returns (result: Residual)
      requires SaidOnce()
      requires f in program && key.site == f.site
      modifies this
      ensures SaidOnce()
      ensures Restored() && Grown() && Paid(f.site, 3) && old(Runs(f.site)) < Runs(f.site)
      ensures key in summaries && summaries[key] == result
      decreases Slots(), 3, 0
    {
      var bailsBefore := inflightBails;
      var diagBase := |diagnostics|;
      label Before:
      var first := RunFnBodyOnce(f);
      CountsShrinkSlots@Before();
      assert diagnostics[..diagBase] == old(diagnostics);
      label Ran:
      ghost var extra;
      result, extra := RefineAndMemoise(f, key, diagBase, bailsBefore, first);
      assert forall s :: Credit(s) >= old@Ran(Credit(s)) - if s == f.site then 2 else 0;
    }

    /**
      Refine a summary whose run leaned on an in-flight guess, unless it is empty or a spread, and memoise it; any other
      summary is memoised as it is.
    */
    method RefineAndMemoise(f: FnDef, key: Key, diagBase: nat, bailsBefore: nat, first: Residual)
        returns (result: Residual, ghost extra: seq<Residual>)
      requires SaidOnce()
      requires f in program && key.site == f.site && diagBase <= |diagnostics|
      modifies this
      ensures SaidOnce()
      ensures Restored() && Paid(f.site, 2)
      ensures forall s :: old(Count(s)) <= Count(s) && old(Runs(s)) <= Runs(s)
      ensures old(inflightBails) <= inflightBails && old(diagnostics)[..diagBase] <= diagnostics
      ensures old(summaries).Keys <= summaries.Keys && old(callEdges) <= callEdges
      ensures key in summaries && summaries[key] == result && StackBelow(first, result)
      ensures if old(inflightBails) > bailsBefore && first.stack != [] && !first.variadic
        then RefinedBy(first, extra, result)
        else result == first && runs == old(runs) && summaries == old(summaries)[key := first]
      decreases Slots(), 2, 1
    {
      result, extra := first, [];
      StackBelowItself(first);
      if inflightBails > bailsBefore && first.stack != [] && !first.variadic {
        result, extra := RefineRecursiveSummary(f, key, diagBase, first);
      }
      summaries := summaries[key := result];
    }

    /**
      Up to two more runs, each reading the summary so far from the memo; the summary only
      goes up, and the last run is below it or was judged equal by value equality.
    */
    method RefineRecursiveSummary(f: FnDef, key: Key, diagBase: nat, first: Residual)
        returns (result: Residual, ghost extra: seq<Residual>)
      requires SaidOnce()
      requires f in program && key.site == f.site && diagBase <= |diagnostics|
      modifies this
      ensures SaidOnce()
      ensures Restored() && Paid(f.site, 2)
      ensures forall s :: old(Count(s)) <= Count(s)
      ensures old(inflightBails) <= inflightBails && old(diagnostics)[..diagBase] <= diagnostics
      ensures old(summaries).Keys <= summaries.Keys && old(callEdges) <= callEdges
      ensures forall s :: old(Runs(s)) <= Runs(s)
      ensures StackBelow(first, result) && RefinedBy(first, extra, result)
      decreases Slots(), 2, 0
    {
      result, extra := first, [];
      StackBelowItself(first);
      ghost var slots := Slots();
      var round := 0;
      var stable := false;
      while round < 2 && !stable
        invariant 0 <= round <= 2 && |extra| == round && Refining(first, extra, result, stable)
        invariant Restored() && Paid(f.site, round) && SaidOnce()
        invariant forall s :: old(Count(s)) <= Count(s)
        invariant old(inflightBails) <= inflightBails
        invariant diagBase <= |diagnostics| && old(diagnostics)[..diagBase] <= diagnostics
        invariant old(summaries).Keys <= summaries.Keys && old(callEdges) <= callEdges
        invariant forall s :: old(Runs(s)) <= Runs(s)
        invariant Slots() <= slots
        invariant StackBelow(first, result)
        decreases 2 - round
      {
        label Again:
        var next := ExtraRun(f, key, diagBase, result);
        CountsShrinkSlots@Again();
        RefineStep(first, extra, result, next);
        RefinedIsAbove(first, result, next);
        extra := extra + [next];
        result, stable := JoinRound(result, next);
        round := round + 1;
      }
    }

    /** One more run that finds the summary so far in the memo; its findings replace the earlier runs'. */
    method ExtraRun(f: FnDef, key: Key, diagBase: nat, summary: Residual) returns (next: Residual)
      requires SaidOnce()
      requires f in program && key.site == f.site && diagBase <= |diagnostics|
      modifies this
      ensures SaidOnce()
      ensures Restored() && Paid(f.site, 1)
      ensures forall s :: old(Count(s)) <= Count(s) && old(Runs(s)) <= Runs(s)
      ensures old(inflightBails) <= inflightBails && old(diagnostics)[..diagBase] <= diagnostics
      ensures old(summaries).Keys <= summaries.Keys && old(callEdges) <= callEdges
      decreases Slots(), 1, 1
    {
      summaries := summaries[key := summary];
      TruncateDiagnostics(diagBase);
      assert Slots() <= old(Slots()) by { CountsShrinkSlots(); }
      next := RunFnBodyOnce(f);
    }

    /** Join a run's residual into the summary, unless value equality sees no change. */
    static method JoinRound(summary: Residual, next: Residual) returns (result: Residual, stable: bool)
      ensures result == Refined(summary, next)
      ensures stable <==> Alike(JoinCarrierStacks(summary, next), summary)
    {
      var joined := JoinCarrierStacks(summary, next);
      EqualIsAlike(joined, summary);
      stable := CarrierStacksEqual(joined, summary);
      result := if stable then summary else joined;
    }
  }

  /** A whole pass: any sequence of top-level analyses from a fresh state. */
  method Pass(program: set<FnDef>, entry: seq<(FnDef, seq<Carrier>, seq<Capture>)>) returns (state: CheckState)
    requires forall e | e in entry :: e.0 in program
    ensures fresh(state) && state.Clean() && state.SaidOnce()
    ensures forall s :: state.Runs(s) <= 3 * FN_ANALYSIS_QUOTA
    ensures forall s :: state.Runs(s) <= 3 * state.Count(s)
  {
    state := new CheckState(program);
    for i := 0 to |entry|
      invariant state.program == program && state.Clean() && fresh(state) && state.SaidOnce()
      invariant forall s :: state.Credit(s) >= 0
    {
      var _ := state.AnalyseFnBody(entry[i].0, entry[i].1, entry[i].2);
    }
    forall s ensures state.Runs(s) <= 3 * FN_ANALYSIS_QUOTA && state.Runs(s) <= 3 * state.Count(s) {
      assert state.Credit(s) >= 0;
    }
  }
}
