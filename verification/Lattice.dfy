/**
  The type lattice and the carrier join (core/go/types.go, carrier_join.go):
  a carrier is the checker's abstract value, a join is what it knows after a branch.
*/
module Lattice {
  import opened Text

  /** A lattice node is its own ancestor chain. None and Never are degenerate roots below Any only. */
  datatype Type =
    | Any
    | NoneType
    | Never
    | Node(parent: Type, name: string, user: bool)

  const SCALAR := Node(Any, "Scalar", false)
  const NUMBER := Node(SCALAR, "Number", false)
  const INTEGER := Node(NUMBER, "Integer", false)
  const FLOAT := Node(NUMBER, "Float", false)
  const DISJUNCT := Node(Node(Any, "Type", false), "Disjunct", false)

  /** Reflexive, transitive ancestry with Any on top. */
  predicate ConformsTo(t: Type, pattern: Type) {
    pattern == Any || t == pattern || (t.Node? && ConformsTo(t.parent, pattern))
  }

  function Depth(t: Type): nat {
    match t
    case Any => 0
    case NoneType => 1
    case Never => 1
    case Node(parent, _, _) => 1 + Depth(parent)
  }

  lemma {:induction false} ConformsTransitive(a: Type, b: Type, c: Type)
    requires ConformsTo(a, b) && ConformsTo(b, c)
    ensures ConformsTo(a, c)
  {
    if c != Any && a != b && b != Any {
      ConformsTransitive(a.parent, b, c);
    }
  }

  lemma {:induction false} ConformsDepth(a: Type, b: Type)
    requires ConformsTo(a, b) && a != b
    ensures Depth(b) < Depth(a)
  {
    if b != Any && a.parent != b {
      ConformsDepth(a.parent, b);
    }
  }

  lemma ConformsAntisymmetric(a: Type, b: Type)
    requires ConformsTo(a, b) && ConformsTo(b, a)
    ensures a == b
  {
    if a != b {
      ConformsDepth(a, b);
      ConformsDepth(b, a);
    }
  }

  /** Two ancestors of one node are comparable. */
  lemma {:induction false} ChainIsLinear(t: Type, a: Type, b: Type)
    requires ConformsTo(t, a) && ConformsTo(t, b)
    ensures ConformsTo(a, b) || ConformsTo(b, a)
  {
    if t != a && t != b && a != Any && b != Any {
      ChainIsLinear(t.parent, a, b);
    }
  }

  lemma OneUp(t: Type, above: Type)
    requires t.Node?
    ensures ConformsTo(t, above) ==> above == t || above == Any || ConformsTo(t.parent, above)
    ensures ConformsTo(t, above) && t.parent == Any ==> above == t || above == Any
  {
  }

  predicate AllBuiltin(t: Type) {
    t.Node? ==> !t.user && AllBuiltin(t.parent)
  }

  /** Above a builtin node there are only builtin nodes. */
  lemma {:induction false} BuiltinAbove(t: Type, above: Type)
    requires ConformsTo(t, above) && AllBuiltin(t)
    ensures AllBuiltin(above)
  {
    if t != above && above != Any {
      BuiltinAbove(t.parent, above);
    }
  }

  /** The closest node of b's chain that is on a's chain. */
  function CommonAncestor(a: Type, b: Type): (c: Type)
    ensures ConformsTo(a, c) && ConformsTo(b, c)
  {
    if ConformsTo(a, b) then b
    else if b.Node? then CommonAncestor(a, b.parent)
    else Any
  }

  // ---------------------------------------------------------------- carriers

  datatype Shape =
    | Of(t: Type)
    | Disjunct(alts: seq<Type>, declared: bool)

  datatype Carrier = Carrier(shape: Shape, dynamic: bool, id: nat)

  /** The types of the runtime values a shape stands for. */
  predicate Covers(s: Shape, t: Type) {
    match s
    case Of(u) => ConformsTo(t, u)
    case Disjunct(alts, _) => exists u | u in alts :: ConformsTo(t, u)
  }

  predicate Inhabited(t: Type) {
    !ConformsTo(t, Never)
  }

  /** The abstract order: fewer runtime values, and no more of them known. */
  ghost predicate Below(a: Carrier, b: Carrier) {
    && (forall t | Inhabited(t) && Covers(a.shape, t) :: Covers(b.shape, t))
    && (a.dynamic ==> b.dynamic)
  }

  lemma BelowTransitive(a: Carrier, b: Carrier, c: Carrier)
    requires Below(a, b) && Below(b, c)
    ensures Below(a, c)
  {
  }

  // ---------------------------------------------------------------- SimplifyDisjunctAlts

  const DISJUNCT_CAP := 8

  /** Strictly below some other alternative: dropped in its favour. */
  predicate Subsumed(t: Type, alts: seq<Type>) {
    exists u | u in alts :: u != Never && u != t && ConformsTo(t, u)
  }

  /** Never, duplicates of an earlier alternative, and subsumed alternatives go. */
  function Survivors(alts: seq<Type>, n: nat): (r: seq<Type>)
    requires n <= |alts|
    ensures forall t | t in r :: t in alts[..n] && t != Never && !Subsumed(t, alts)
    ensures forall t | t in alts[..n] && t != Never && !Subsumed(t, alts) :: t in r
  {
    if n == 0 then []
    else
      var rest := Survivors(alts, n - 1);
      var t := alts[n - 1];
      assert alts[..n] == alts[..n - 1] + [t];
      if t == Never || t in alts[..n - 1] || Subsumed(t, alts) then rest else rest + [t]
  }

  function TypeName(t: Type): string {
    match t
    case Any => "Any"
    case NoneType => "None"
    case Never => "Never"
    case Node(_, name, _) => name
  }

  /** compareTypes: depth, then name, then what else tells two nodes apart. */
  function CompareTypes(a: Type, b: Type): int {
    if Depth(a) != Depth(b) then CompareInt(Depth(a), Depth(b))
    else if TypeName(a) != TypeName(b) then Compare(TypeName(a), TypeName(b))
    else if a.Node? && b.Node? then
      var c := CompareTypes(a.parent, b.parent);
      if c != 0 then c else CompareInt(if a.user then 1 else 0, if b.user then 1 else 0)
    else CompareInt(if a.Node? then 1 else 0, if b.Node? then 1 else 0)
  }

  /** Two distinct types never compare equal. */
  lemma {:induction false} TypesFlip(a: Type, b: Type)
    ensures CompareTypes(a, b) == -CompareTypes(b, a)
    ensures CompareTypes(a, b) == 0 <==> a == b
  {
    CompareFlips(TypeName(a), TypeName(b));
    if a.Node? && b.Node? {
      TypesFlip(a.parent, b.parent);
    }
  }

  /** The more general type comes first; of two at one depth, the one whose name is below the other's. */
  lemma GeneralFirst(a: Type, b: Type)
    ensures Depth(a) < Depth(b) ==> CompareTypes(a, b) < 0
    ensures ConformsTo(b, a) && a != b ==> CompareTypes(a, b) < 0
    ensures Depth(a) == Depth(b) && LexBelow(TypeName(a), TypeName(b)) ==> CompareTypes(a, b) < 0
  {
    CompareIsLexical(TypeName(a), TypeName(b));
    if ConformsTo(b, a) && a != b {
      ConformsDepth(b, a);
    }
    CompareFlips(TypeName(a), TypeName(b));
  }

  lemma {:induction false} TypesTransitive(a: Type, b: Type, c: Type)
    requires CompareTypes(a, b) <= 0 && CompareTypes(b, c) <= 0
    ensures CompareTypes(a, c) <= 0
  {
    CompareFlips(TypeName(a), TypeName(b));
    CompareFlips(TypeName(b), TypeName(c));
    CompareFlips(TypeName(a), TypeName(c));
    if Compare(TypeName(a), TypeName(b)) <= 0 && Compare(TypeName(b), TypeName(c)) <= 0 {
      CompareTransitive(TypeName(a), TypeName(b), TypeName(c));
    }
    if a.Node? && b.Node? && c.Node? {
      TypesFlip(a.parent, b.parent);
      TypesFlip(b.parent, c.parent);
      TypesFlip(a.parent, c.parent);
      if CompareTypes(a.parent, b.parent) <= 0 && CompareTypes(b.parent, c.parent) <= 0 {
        TypesTransitive(a.parent, b.parent, c.parent);
      }
    }
  }

  predicate Precedes(a: Type, b: Type) {
    CompareTypes(a, b) < 0
  }

  function Insert(t: Type, sorted: seq<Type>): (r: seq<Type>)
    ensures |r| == |sorted| + 1 && forall u :: u in r <==> u == t || u in sorted
  {
    if sorted == [] || Precedes(t, sorted[0]) then [t] + sorted
    else
      assert sorted == [sorted[0]] + sorted[1..];
      [sorted[0]] + Insert(t, sorted[1..])
  }

  function Sort(alts: seq<Type>): (r: seq<Type>)
    ensures |r| == |alts| && forall u :: u in r <==> u in alts
  {
    if alts == [] then []
    else
      assert alts == alts[..|alts| - 1] + [alts[|alts| - 1]];
      Insert(alts[|alts| - 1], Sort(alts[..|alts| - 1]))
  }

  function Simplify(alts: seq<Type>): seq<Type> {
    Sort(Survivors(alts, |alts|))
  }

  /** Nothing is lost: every inhabited alternative is still covered. */
  lemma {:induction false} SimplifyCovers(alts: seq<Type>, t: Type)
    requires t in alts && Inhabited(t)
    ensures exists u :: u in Simplify(alts) && ConformsTo(t, u)
    decreases Depth(t)
  {
    assert alts[..|alts|] == alts;
    if Subsumed(t, alts) {
      var u :| u in alts && u != Never && u != t && ConformsTo(t, u);
      ConformsDepth(t, u);
      if !Inhabited(u) {
        ConformsTransitive(t, u, Never);
      }
      SimplifyCovers(alts, u);
      var w :| w in Simplify(alts) && ConformsTo(u, w);
      ConformsTransitive(t, u, w);
    } else {
      assert t in Simplify(alts) && ConformsTo(t, t);
    }
  }

  function Widest(alts: seq<Type>): (c: Type)
    requires alts != []
    ensures forall t | t in alts :: ConformsTo(t, c)
  {
    if |alts| == 1 then alts[0]
    else
      var c := Widest(alts[..|alts| - 1]);
      var last := alts[|alts| - 1];
      var w := CommonAncestor(c, last);
      assert forall t | t in alts :: ConformsTo(t, w) by {
        assert alts == alts[..|alts| - 1] + [last];
        forall t | t in alts[..|alts| - 1] ensures ConformsTo(t, w) {
          ConformsTransitive(t, c, w);
        }
      }
      w
  }

  // ---------------------------------------------------------------- equal unions are equal lists

  ghost predicate Sorted(s: seq<Type>) {
    forall i, j | 0 <= i < j < |s| :: CompareTypes(s[i], s[j]) < 0
  }

  ghost predicate Distinct(s: seq<Type>) {
    forall i, j | 0 <= i < j < |s| :: s[i] != s[j]
  }

  lemma PrependSorted(t: Type, rest: seq<Type>)
    requires Sorted(rest) && (rest != [] ==> CompareTypes(t, rest[0]) < 0)
    ensures Sorted([t] + rest)
  {
    forall j | 0 < j < |rest| ensures CompareTypes(t, rest[j]) < 0 {
      TypesTransitive(t, rest[0], rest[j]);
      TypesFlip(t, rest[j]);
      TypesFlip(rest[0], rest[j]);
    }
  }

  lemma {:induction false} InsertSorted(t: Type, sorted: seq<Type>)
    requires Sorted(sorted) && t !in sorted
    ensures Sorted(Insert(t, sorted))
  {
    if sorted == [] || Precedes(t, sorted[0]) {
      PrependSorted(t, sorted);
    } else {
      var rest := Insert(t, sorted[1..]);
      InsertSorted(t, sorted[1..]);
      TypesFlip(t, sorted[0]);
      assert rest[0] in rest;
      PrependSorted(sorted[0], rest);
    }
  }

  lemma {:induction false} SortSorts(alts: seq<Type>)
    requires Distinct(alts)
    ensures Sorted(Sort(alts))
  {
    if alts != [] {
      var n := |alts| - 1;
      SortSorts(alts[..n]);
      assert alts[n] !in alts[..n];
      InsertSorted(alts[n], Sort(alts[..n]));
    }
  }

  lemma {:induction false} SurvivorsDistinct(alts: seq<Type>, n: nat)
    requires n <= |alts|
    ensures Distinct(Survivors(alts, n))
  {
    if n > 0 {
      SurvivorsDistinct(alts, n - 1);
    }
  }

  /** A sorted list is the only one with its members. */
  lemma {:induction false} SortedUnique(a: seq<Type>, b: seq<Type>)
    requires Sorted(a) && Sorted(b) && forall t :: t in a <==> t in b
    ensures a == b
  {
    if b != [] {
      assert b[0] in a;
    }
    if a != [] {
      assert a[0] in b && b[0] in a;
      TypesFlip(a[0], b[0]);
      assert a[0] == b[0];
      assert a == [a[0]] + a[1..] && b == [b[0]] + b[1..];
      forall t ensures t in a[1..] <==> t in b[1..] {
        TypesFlip(a[0], a[0]);
        assert t in a <==> t == a[0] || t in a[1..];
        assert t in b <==> t == b[0] || t in b[1..];
      }
      SortedUnique(a[1..], b[1..]);
    }
  }

  /** What is kept is the maximal inhabited alternatives, once each, in the order of types. */
  lemma SimplifyKeepsMaximal(alts: seq<Type>)
    ensures Sorted(Simplify(alts))
    ensures forall t :: t in Simplify(alts) <==>
              t in alts && t != Never && forall u | u in alts && u != Never && ConformsTo(t, u) :: u == t
  {
    SurvivorsDistinct(alts, |alts|);
    SortSorts(Survivors(alts, |alts|));
    assert alts[..|alts|] == alts;
  }

  /** The order the alternatives were met in, and how often, does not show. */
  lemma SimplifyIsCanonical(a: seq<Type>, b: seq<Type>)
    requires forall t :: t in a <==> t in b
    ensures Simplify(a) == Simplify(b)
  {
    SimplifyKeepsMaximal(a);
    SimplifyKeepsMaximal(b);
    SortedUnique(Simplify(a), Simplify(b));
  }

  // ---------------------------------------------------------------- least ancestors

  lemma {:induction false} CommonAncestorIsLeast(a: Type, b: Type, above: Type)
    requires ConformsTo(a, above) && ConformsTo(b, above)
    ensures ConformsTo(CommonAncestor(a, b), above)
  {
    if !ConformsTo(a, b) && b.Node? {
      OneUp(b, above);
      CommonAncestorIsLeast(a, b.parent, above);
    }
  }

  lemma {:induction false} WidestIsLeast(alts: seq<Type>, above: Type)
    requires alts != [] && forall t | t in alts :: ConformsTo(t, above)
    ensures ConformsTo(Widest(alts), above)
  {
    if |alts| > 1 {
      WidestIsLeast(alts[..|alts| - 1], above);
      CommonAncestorIsLeast(Widest(alts[..|alts| - 1]), alts[|alts| - 1], above);
    }
  }

  // ---------------------------------------------------------------- JoinCarriers

  function Flatten(s: Shape): seq<Type> {
    match s
    case Of(t) => [t]
    case Disjunct(alts, _) => alts
  }

  function JoinAlternatives(a: Shape, b: Shape): Shape {
    var alts := Simplify(Flatten(a) + Flatten(b));
    if |alts| == 1 then Of(alts[0])
    else if |alts| > DISJUNCT_CAP then Of(Widest(alts))
    else Disjunct(alts, false)
  }

  function JoinShapes(a: Shape, b: Shape): Shape {
    if a.Of? && b.Of? then
      if a.t == b.t then a
      else if ConformsTo(a.t, b.t) then b
      else if ConformsTo(b.t, a.t) then a
      else if a.t.Node? && b.t.Node? && a.t.parent == b.t.parent && a.t.parent != Any then Of(a.t.parent)
      else JoinAlternatives(a, b)
    else JoinAlternatives(a, b)
  }

  /** The join is a new value; it is gradual as soon as one arm is. */
  function JoinCarriers(a: Carrier, b: Carrier): Carrier {
    Carrier(JoinShapes(a.shape, b.shape), a.dynamic || b.dynamic, 0)
  }

  lemma JoinAlternativesCovers(a: Shape, b: Shape, t: Type)
    requires Inhabited(t) && (Covers(a, t) || Covers(b, t))
    ensures Covers(JoinAlternatives(a, b), t)
  {
    var combined := Flatten(a) + Flatten(b);
    var alts := Simplify(combined);
    var u :| u in combined && ConformsTo(t, u);
    var w := SomeSurvivor(combined, u, t);
    if |alts| > DISJUNCT_CAP {
      ConformsTransitive(t, w, Widest(alts));
    }
  }

  lemma SomeSurvivor(alts: seq<Type>, u: Type, t: Type) returns (w: Type)
    requires u in alts && ConformsTo(t, u) && Inhabited(t)
    ensures w in Simplify(alts) && ConformsTo(t, w)
  {
    if !Inhabited(u) {
      ConformsTransitive(t, u, Never);
    }
    SimplifyCovers(alts, u);
    w :| w in Simplify(alts) && ConformsTo(u, w);
    ConformsTransitive(t, u, w);
  }

  /** The join is an upper bound, through subsumption, sibling collapse and widening alike. */
  lemma JoinIsUpperBound(a: Carrier, b: Carrier)
    ensures Below(a, JoinCarriers(a, b)) && Below(b, JoinCarriers(a, b))
  {
    forall t | Inhabited(t) && (Covers(a.shape, t) || Covers(b.shape, t))
      ensures Covers(JoinShapes(a.shape, b.shape), t)
    {
      JoinAlternativesCovers(a.shape, b.shape, t);
      if a.shape.Of? && b.shape.Of? {
        if Covers(a.shape, t) { ConformsUp(t, a.shape.t, b.shape.t); }
        if Covers(b.shape, t) { ConformsUp(t, b.shape.t, a.shape.t); }
      }
    }
  }

  lemma ConformsUp(t: Type, u: Type, w: Type)
    requires ConformsTo(t, u)
    ensures ConformsTo(u, w) ==> ConformsTo(t, w)
    ensures u.Node? ==> ConformsTo(t, u.parent)
  {
    if ConformsTo(u, w) { ConformsTransitive(t, u, w); }
    if u.Node? { ConformsTransitive(t, u, u.parent); }
  }

  /** Folding in either order gives one carrier. */
  lemma JoinCommutes(a: Carrier, b: Carrier)
    ensures JoinCarriers(a, b) == JoinCarriers(b, a)
  {
    SimplifyIsCanonical(Flatten(a.shape) + Flatten(b.shape), Flatten(b.shape) + Flatten(a.shape));
    if a.shape.Of? && b.shape.Of? && ConformsTo(a.shape.t, b.shape.t) && ConformsTo(b.shape.t, a.shape.t) {
      ConformsAntisymmetric(a.shape.t, b.shape.t);
    }
  }

  /** Comparable plain types give the wider one, siblings below Any their parent. */
  lemma JoinOfPlain(a: Type, b: Type)
    ensures ConformsTo(a, b) ==> JoinShapes(Of(a), Of(b)) == Of(b)
    ensures ConformsTo(b, a) ==> JoinShapes(Of(a), Of(b)) == Of(a)
    ensures a.Node? && b.Node? && a != b && a.parent == b.parent && a.parent != Any ==>
              JoinShapes(Of(a), Of(b)) == Of(a.parent)
  {
    if ConformsTo(a, b) && ConformsTo(b, a) {
      ConformsAntisymmetric(a, b);
    }
    if a.Node? && b.Node? && a.parent == b.parent && a != b {
      if ConformsTo(a, b) { ConformsDepth(a, b); }
      if ConformsTo(b, a) { ConformsDepth(b, a); }
    }
  }

  /** The types the two sides stand for between them, nothing added. */
  ghost predicate Exactly(a: Shape, b: Shape, join: Shape) {
    forall t | Inhabited(t) :: Covers(join, t) <==> Covers(a, t) || Covers(b, t)
  }

  /**
    Any other join keeps the union as it is, as one type or as two to eight incomparable ones; past eight
    it widens to the least type above them all.
  */
  lemma JoinIsTight(a: Shape, b: Shape)
    requires a.Disjunct? || b.Disjunct? ||
      (!ConformsTo(a.t, b.t) && !ConformsTo(b.t, a.t) && !(a.t.Node? && b.t.Node? && a.t.parent == b.t.parent && a.t.parent != Any))
    ensures
      var join, kept := JoinShapes(a, b), Simplify(Flatten(a) + Flatten(b));
      && (|kept| <= DISJUNCT_CAP ==> Exactly(a, b, join))
      && (|kept| == 1 ==> join == Of(kept[0]))
      && (|kept| != 1 && |kept| <= DISJUNCT_CAP ==> join == Disjunct(kept, false))
      && (|kept| > DISJUNCT_CAP ==> join.Of? && forall above ::
            ConformsTo(join.t, above) <==> forall t | t in kept :: ConformsTo(t, above))
  {
    var join, all := JoinShapes(a, b), Flatten(a) + Flatten(b);
    var kept := Simplify(all);
    assert join == JoinAlternatives(a, b);
    if |kept| <= DISJUNCT_CAP {
      KeptIsExact(a, b);
    } else {
      forall above ensures ConformsTo(join.t, above) <==> forall t | t in kept :: ConformsTo(t, above) {
        WidestIsAbove(kept, above);
      }
    }
  }

  lemma KeptIsExact(a: Shape, b: Shape)
    requires |Simplify(Flatten(a) + Flatten(b))| <= DISJUNCT_CAP
    ensures Exactly(a, b, JoinAlternatives(a, b))
  {
    var join, all := JoinAlternatives(a, b), Flatten(a) + Flatten(b);
    SimplifyKeepsMaximal(all);
    forall t | Inhabited(t) ensures Covers(join, t) <==> Covers(a, t) || Covers(b, t) {
      if Covers(a, t) || Covers(b, t) {
        JoinAlternativesCovers(a, b, t);
      }
      if Covers(join, t) {
        var u :| u in Simplify(all) && ConformsTo(t, u);
        assert u in all;
      }
    }
  }

  lemma WidestIsAbove(alts: seq<Type>, above: Type)
    requires alts != []
    ensures ConformsTo(Widest(alts), above) <==> forall t | t in alts :: ConformsTo(t, above)
  {
    if ConformsTo(Widest(alts), above) {
      forall t | t in alts ensures ConformsTo(t, above) {
        ConformsTransitive(t, Widest(alts), above);
      }
    }
    if forall t | t in alts :: ConformsTo(t, above) {
      WidestIsLeast(alts, above);
    }
  }
}
