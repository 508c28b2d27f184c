/**
  The transitive flow-leak search (check/go/carrier.go): does a `break` or
  `continue` escape a code body, directly or out of a function it calls?

  The search marks every name it enters in one shared `seen` set and never
  unmarks one. A revisit answers "no" at once, even for a name that is still
  being scanned further up the stack. The main result is that this never loses
  a leak: the answer is exactly reachability in the call graph.
*/
module FlowLeaks {

  /** A token of a code body. Native signatures have an empty body. */
  datatype Value =
    | Word(name: string)
    | Fn(sigs: seq<Sig>)
    | List(elems: seq<Value>)
    | ParenExpr(toks: seq<Value>)
    | InterpString(parts: seq<Part>)
    | XmlInterp(tmpl: XmlTmpl)
    | Map(values: seq<Value>)
    | Leaf

  datatype Sig = Sig(body: seq<Value>)
  datatype Part = Part(expr: seq<Value>)
  datatype XmlTmpl = XmlTmpl(attrs: seq<XmlAttr>, cren: seq<XmlCren>)
  datatype XmlAttr = XmlAttr(parts: seq<Part>)
  datatype XmlCren = Text | Expr(toks: seq<Value>) | Child(child: XmlTmpl)

  /** What each name's def stack dispatches over: the union of its overloads. */
  type Defs = map<string, seq<Sig>>

  // ---------------------------------------------------------------- words in code position

  /** The words that run when `v` runs; with `fns`, also those of constructed function values. */
  function Words(v: Value, fns: bool): set<string> {
    match v
    case Word(name) => {name}
    case Fn(sigs) => if fns then SigWords(sigs) else {}
    case List(elems) => SeqWords(elems, fns)
    case ParenExpr(toks) => SeqWords(toks, fns)
    case InterpString(parts) => PartWords(parts, fns)
    case XmlInterp(tmpl) => TmplWords(tmpl, fns)
    case Map(values) => SeqWords(values, fns)
    case Leaf => {}
  }

  function SeqWords(vs: seq<Value>, fns: bool): set<string> {
    if vs == [] then {} else Words(vs[0], fns) + SeqWords(vs[1..], fns)
  }

  function SigWords(sigs: seq<Sig>): set<string> {
    if sigs == [] then {} else SeqWords(sigs[0].body, true) + SigWords(sigs[1..])
  }

  function PartWords(parts: seq<Part>, fns: bool): set<string> {
    if parts == [] then {} else SeqWords(parts[0].expr, fns) + PartWords(parts[1..], fns)
  }

  function AttrWords(attrs: seq<XmlAttr>, fns: bool): set<string> {
    if attrs == [] then {} else PartWords(attrs[0].parts, fns) + AttrWords(attrs[1..], fns)
  }

  function CrenWords(cren: seq<XmlCren>, fns: bool): set<string> {
    if cren == [] then {} else ChildWords(cren[0], fns) + CrenWords(cren[1..], fns)
  }

  function ChildWords(c: XmlCren, fns: bool): set<string> {
    match c
    case Text => {}
    case Expr(toks) => SeqWords(toks, fns)
    case Child(child) => TmplWords(child, fns)
  }

  function TmplWords(tmpl: XmlTmpl, fns: bool): set<string> {
    AttrWords(tmpl.attrs, fns) + CrenWords(tmpl.cren, fns)
  }

  // ---------------------------------------------------------------- the specification: reachability

  /** A chain of calls that ends in a body with a bare break or continue. */
  ghost predicate LeakPath(defs: Defs, path: seq<string>) {
    && path != []
    && (forall i | 0 <= i < |path| :: path[i] in defs && path[i] != "")
    && (forall i | 0 <= i < |path| - 1 :: path[i + 1] in SigWords(defs[path[i]]))
    && ("break" in SigWords(defs[path[|path| - 1]]) || "continue" in SigWords(defs[path[|path| - 1]]))
  }

  /** Running code with these words can raise a break or continue. */
  ghost predicate Leaks(defs: Defs, words: set<string>) {
    "break" in words || "continue" in words || exists path :: LeakPath(defs, path) && path[0] in words
  }

  /** The words of this name's body are flow-free and all of them have been entered. */
  ghost predicate Closed(defs: Defs, name: string, seen: set<string>) {
    name in defs ==>
      && "break" !in SigWords(defs[name]) && "continue" !in SigWords(defs[name])
      && SigWords(defs[name]) <= seen + {""}
  }

  /** Everything entered since `before` is closed under `seen`. */
  ghost predicate Done(defs: Defs, words: set<string>, before: set<string>, seen: set<string>) {
    && before <= seen
    && "break" !in words && "continue" !in words
    && words <= seen + {""}
    && forall n | n in seen && n !in before :: Closed(defs, n, seen)
  }

  lemma {:induction false} NoPathFromClosed(defs: Defs, path: seq<string>, seen: set<string>)
    requires forall n | n in seen :: Closed(defs, n, seen)
    requires path != [] && path[0] in seen
    ensures !LeakPath(defs, path)
  {
    assert Closed(defs, path[0], seen);
    if LeakPath(defs, path) && |path| > 1 {
      assert path[1] in SigWords(defs[path[0]]);
      var tail := path[1..];
      assert forall i | 0 <= i < |tail| - 1 :: tail[i + 1] in SigWords(defs[tail[i]]) by {
        forall i | 0 <= i < |tail| - 1 ensures tail[i + 1] in SigWords(defs[tail[i]]) {
          assert path[i + 1 + 1] in SigWords(defs[path[i + 1]]);
        }
      }
      assert LeakPath(defs, tail);
      NoPathFromClosed(defs, tail, seen);
    }
  }

  /** A finished search that started from nothing leaves no path to a leak. */
  lemma DoneFromNothing(defs: Defs, words: set<string>, seen: set<string>)
    requires Done(defs, words, {}, seen)
    ensures !Leaks(defs, words)
  {
    forall path | LeakPath(defs, path) && path[0] in words ensures false {
      NoPathFromClosed(defs, path, seen);
    }
  }

  lemma DoneThen(defs: Defs, a: set<string>, b: set<string>, s0: set<string>, s1: set<string>, s2: set<string>)
    requires Done(defs, a, s0, s1) && Done(defs, b, s1, s2)
    ensures Done(defs, a + b, s0, s2)
  {
  }

  lemma CallExtends(defs: Defs, name: string)
    requires name in defs && name != "" && Leaks(defs, SigWords(defs[name]))
    ensures Leaks(defs, {name})
  {
    if "break" in SigWords(defs[name]) || "continue" in SigWords(defs[name]) {
      assert LeakPath(defs, [name]);
    } else {
      var path :| LeakPath(defs, path) && path[0] in SigWords(defs[name]);
      var longer := [name] + path;
      assert forall i | 0 <= i < |longer| - 1 :: longer[i + 1] in SigWords(defs[longer[i]]);
      assert LeakPath(defs, longer);
    }
  }

  // ---------------------------------------------------------------- the search

  class LeakScan {
    const defs: Defs
    var seen: set<string>

    constructor (defs: Defs)
      ensures this.defs == defs && seen == {}
    {
      this.defs := defs;
      seen := {};
    }

    ghost predicate Answered(hit: bool, words: set<string>, before: set<string>)
      reads this
    {
      && before <= seen
      && (hit ==> Leaks(defs, words))
      && (!hit ==> Done(defs, words, before, seen))
    }

    /** calleeValueLeaksFlow */
    method ValueLeaks(v: Value) returns (hit: bool)
      modifies this
      ensures Answered(hit, Words(v, true), old(seen))
      decreases defs.Keys - seen, 1, v
    {
      match v {
        case Fn(sigs) => hit := SigsLeak(sigs);
        case Word(name) =>
          if name == "break" || name == "continue" {
            return true;
          }
          hit := CalleeLeaks(name);
        case List(elems) => hit := SeqLeaks(elems);
        case ParenExpr(toks) => hit := SeqLeaks(toks);
        case InterpString(parts) => hit := PartsLeak(parts);
        case XmlInterp(tmpl) => hit := TmplLeaks(tmpl);
        case Map(values) => hit := SeqLeaks(values);
        case Leaf => hit := false;
      }
    }

    /** calleeLeaksFlow */
    method CalleeLeaks(name: string) returns (hit: bool)
      requires name != "break" && name != "continue"
      modifies this
      ensures Answered(hit, {name}, old(seen))
      decreases defs.Keys - seen, 0
    {
      if name == "" || name in seen {
        return false;
      }
      seen := seen + {name};
      if name !in defs {
        return false;
      }
      hit := SigsLeak(defs[name]);
      if hit {
        CallExtends(defs, name);
      }
    }

    /** fnDefLeaksFlow */
    method SigsLeak(sigs: seq<Sig>) returns (hit: bool)
      modifies this
      ensures Answered(hit, SigWords(sigs), old(seen))
      decreases defs.Keys - seen, 1, sigs
    {
      ghost var done := {};
      for i := 0 to |sigs|
        invariant SigWords(sigs) == done + SigWords(sigs[i..])
        invariant Done(defs, done, old(seen), seen)
      {
        ghost var here := seen;
        assert sigs[i..][1..] == sigs[i + 1..];
        hit := SeqLeaks(sigs[i].body);
        if hit {
          return true;
        }
        DoneThen(defs, done, SeqWords(sigs[i].body, true), old(seen), here, seen);
        done := done + SeqWords(sigs[i].body, true);
      }
      return false;
    }

    /** scanBodyContainers over a list, a paren expression or the values of a map */
    method SeqLeaks(vs: seq<Value>) returns (hit: bool)
      modifies this
      ensures Answered(hit, SeqWords(vs, true), old(seen))
      decreases defs.Keys - seen, 1, vs
    {
      ghost var done := {};
      for i := 0 to |vs|
        invariant SeqWords(vs, true) == done + SeqWords(vs[i..], true)
        invariant Done(defs, done, old(seen), seen)
      {
        ghost var here := seen;
        assert vs[i..][1..] == vs[i + 1..];
        hit := ValueLeaks(vs[i]);
        if hit {
          return true;
        }
        DoneThen(defs, done, Words(vs[i], true), old(seen), here, seen);
        done := done + Words(vs[i], true);
      }
      return false;
    }

    /** scanBodyContainers over the ${...} parts of a string */
    method PartsLeak(parts: seq<Part>) returns (hit: bool)
      modifies this
      ensures Answered(hit, PartWords(parts, true), old(seen))
      decreases defs.Keys - seen, 1, parts
    {
      ghost var done := {};
      for i := 0 to |parts|
        invariant PartWords(parts, true) == done + PartWords(parts[i..], true)
        invariant Done(defs, done, old(seen), seen)
      {
        ghost var here := seen;
        assert parts[i..][1..] == parts[i + 1..];
        hit := SeqLeaks(parts[i].expr);
        if hit {
          return true;
        }
        DoneThen(defs, done, SeqWords(parts[i].expr, true), old(seen), here, seen);
        done := done + SeqWords(parts[i].expr, true);
      }
      return false;
    }

    /** xmlTmplScan, attributes */
    method AttrsLeak(attrs: seq<XmlAttr>) returns (hit: bool)
      modifies this
      ensures Answered(hit, AttrWords(attrs, true), old(seen))
      decreases defs.Keys - seen, 1, attrs
    {
      ghost var done := {};
      for i := 0 to |attrs|
        invariant AttrWords(attrs, true) == done + AttrWords(attrs[i..], true)
        invariant Done(defs, done, old(seen), seen)
      {
        ghost var here := seen;
        assert attrs[i..][1..] == attrs[i + 1..];
        hit := PartsLeak(attrs[i].parts);
        if hit {
          return true;
        }
        DoneThen(defs, done, PartWords(attrs[i].parts, true), old(seen), here, seen);
        done := done + PartWords(attrs[i].parts, true);
      }
      return false;
    }

    /** xmlTmplScan, children */
    method CrenLeak(cren: seq<XmlCren>) returns (hit: bool)
      modifies this
      ensures Answered(hit, CrenWords(cren, true), old(seen))
      decreases defs.Keys - seen, 1, cren
    {
      ghost var done := {};
      for i := 0 to |cren|
        invariant CrenWords(cren, true) == done + CrenWords(cren[i..], true)
        invariant Done(defs, done, old(seen), seen)
      {
        ghost var here := seen;
        assert cren[i..][1..] == cren[i + 1..];
        hit := ChildLeaks(cren[i]);
        if hit {
          return true;
        }
        DoneThen(defs, done, ChildWords(cren[i], true), old(seen), here, seen);
        done := done + ChildWords(cren[i], true);
      }
      return false;
    }

    method ChildLeaks(c: XmlCren) returns (hit: bool)
      modifies this
      ensures Answered(hit, ChildWords(c, true), old(seen))
      decreases defs.Keys - seen, 1, c
    {
      match c {
        case Text => hit := false;
        case Expr(toks) => hit := SeqLeaks(toks);
        case Child(child) => hit := TmplLeaks(child);
      }
    }

    method TmplLeaks(tmpl: XmlTmpl) returns (hit: bool)
      modifies this
      ensures Answered(hit, TmplWords(tmpl, true), old(seen))
      decreases defs.Keys - seen, 1, tmpl
    {
      hit := AttrsLeak(tmpl.attrs);
      if hit {
        return;
      }
      ghost var here := seen;
      hit := CrenLeak(tmpl.cren);
      if !hit {
        DoneThen(defs, AttrWords(tmpl.attrs, true), CrenWords(tmpl.cren, true), old(seen), here, seen);
      }
    }
  }

  // ---------------------------------------------------------------- the entry points

  /** valueHasSentinel: a purely syntactic scan that stops at nested functions. */
  predicate HasSentinel(body: Value) {
    var words := Words(body, false);
    "break" in words || "continue" in words || "return" in words
  }

  /** BodyHasSentinelDeep: exact for every body and every call graph, cyclic or not. */
  method BodyHasSentinelDeep(defs: Defs, body: Value) returns (hit: bool)
    ensures hit <==>
      || "break" in Words(body, false) || "continue" in Words(body, false) || "return" in Words(body, false)
      || Leaks(defs, Words(body, true))
  {
    if HasSentinel(body) {
      return true;
    }
    var scan := new LeakScan(defs);
    hit := scan.ValueLeaks(body);
    if !hit {
      DoneFromNothing(defs, Words(body, true), scan.seen);
    }
  }

  /**
    A function value among others: the syntactic scan passes over its body, the call-graph search looks into it.
    So a `return` inside it does not count, and a `break` inside it does.
  */
  lemma {:induction false} FunctionValueInAList(before: seq<Value>, sigs: seq<Sig>, after: seq<Value>)
    ensures SeqWords(before + [Fn(sigs)] + after, false) == SeqWords(before + after, false)
    ensures SeqWords(before + [Fn(sigs)] + after, true) == SeqWords(before + after, true) + SigWords(sigs)
  {
    var with, without := before + [Fn(sigs)] + after, before + after;
    if before == [] {
      assert without == after;
      assert with[0] == Fn(sigs) && with[1..] == after;
    } else {
      FunctionValueInAList(before[1..], sigs, after);
      assert with[1..] == before[1..] + [Fn(sigs)] + after && without[1..] == before[1..] + after;
      assert with[0] == without[0] == before[0];
    }
  }
}
