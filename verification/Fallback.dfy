/**
  Where recovery takes its assumed arguments from (check/go/check_recovery.go,
  checkModeFallbackPositions; core/go/engine.go, ResolvedIndicesBefore), and why
  cutting them out leaves the tape's parens in place.
*/
module Fallback {
  import opened Tape
  import opened Recovery

  predicate SkippedBefore(t: Token) {
    t.Forward? || t.Mark? || t.Move?
  }

  predicate SkippedAhead(t: Token) {
    t.Forward? || t.Mark? || t.Move? || t.ReturnCheck? || t.DefCleanup?
  }

  /** The last `n` resolved positions below `i`, ascending, not reaching past an open paren. */
  function Before(tape: seq<Token>, i: int, n: nat): (r: seq<int>)
    requires 0 <= i <= |tape|
    ensures |r| <= n
    ensures forall k | 0 <= k < |r| :: 0 <= r[k] < i && !tape[r[k]].OpenParen? && !SkippedBefore(tape[r[k]])
    ensures StrictlySorted(r)
    decreases i
  {
    if i == 0 || n == 0 || tape[i - 1].OpenParen? then []
    else if SkippedBefore(tape[i - 1]) then Before(tape, i - 1, n)
    else Before(tape, i - 1, n - 1) + [i - 1]
  }

  /** The first `n` argument positions from `i` on, inside the group that is `depth` opens up. */
  function Ahead(tape: seq<Token>, i: int, depth: nat, n: int): (r: seq<int>)
    requires 0 <= i
    ensures forall p | p in r :: i <= p < |tape| && !tape[p].IsParen()
    decreases |tape| - i
  {
    if n <= 0 || i >= |tape| then []
    else if tape[i].CloseParen? then
      if depth == 0 then [] else Ahead(tape, i + 1, depth - 1, n)
    else if tape[i].OpenParen? then Ahead(tape, i + 1, depth + 1, n)
    else if SkippedAhead(tape[i]) then Ahead(tape, i + 1, depth, n)
    else [i] + Ahead(tape, i + 1, depth, n - 1)
  }

  function Positions(tape: seq<Token>, pointer: int, n: nat): (r: seq<int>)
    requires 0 <= pointer <= |tape|
    ensures forall p | p in r :: 0 <= p < |tape|
  {
    var before := Before(tape, pointer, n);
    before + Ahead(tape, pointer + 1, 0, n - |before|)
  }

  // ---------------------------------------------------------------- the loops

  method ResolvedIndicesBefore(e: Engine, n: nat) returns (indices: seq<int>)
    requires 0 <= e.pointer <= |e.tape|
    ensures indices == Before(e.tape, e.pointer, n)
  {
    indices := [];
    ghost var found: seq<int> := [];
    var i := e.pointer - 1;
    while i >= 0 && |indices| < n
      invariant -1 <= i < |e.tape| && |indices| <= n && |found| == |indices|
      invariant forall k | 0 <= k < |found| :: found[k] == indices[|found| - 1 - k]
      invariant Before(e.tape, e.pointer, n) == Before(e.tape, i + 1, n - |indices|) + found
    {
      if e.tape[i].OpenParen? {
        break;
      }
      if !SkippedBefore(e.tape[i]) {
        ghost var below := Before(e.tape, i, n - |indices| - 1);
        assert (below + [i]) + found == below + ([i] + found);
        indices := indices + [i];
        found := [i] + found;
      }
      i := i - 1;
    }
    assert Before(e.tape, i + 1, n - |indices|) == [];
    indices := ReverseIndices(indices);
    assert indices == found;
  }

  /** Two cursors swapping toward the middle. */
  method ReverseIndices(s: seq<int>) returns (r: seq<int>)
    ensures |r| == |s| && forall k | 0 <= k < |s| :: r[k] == s[|s| - 1 - k]
  {
    r := s;
    var lo, hi := 0, |s| - 1;
    while lo < hi
      invariant |r| == |s| && 0 <= lo <= hi + 1 && hi == |s| - 1 - lo
      invariant forall k | 0 <= k < lo || hi < k < |s| :: r[k] == s[|s| - 1 - k]
      invariant forall k | lo <= k <= hi :: r[k] == s[k]
    {
      r := r[lo := r[hi]][hi := r[lo]];
      lo, hi := lo + 1, hi - 1;
    }
  }

  method CheckModeFallbackPositions(e: Engine, n: nat) returns (positions: seq<int>)
    requires 0 <= e.pointer <= |e.tape|
    ensures positions == Positions(e.tape, e.pointer, n)
  {
    positions := ResolvedIndicesBefore(e, n);
    var remaining := n - |positions|;
    var depth: nat := 0;
    var i := e.pointer + 1;
    while remaining > 0 && i < |e.tape|
      invariant i > e.pointer
      invariant positions + Ahead(e.tape, i, depth, remaining) == Positions(e.tape, e.pointer, n)
      decreases |e.tape| - i
    {
      var v := e.tape[i];
      if v.CloseParen? {
        if depth == 0 {
          break;
        }
        depth := depth - 1;
      } else if v.OpenParen? {
        depth := depth + 1;
      } else if !SkippedAhead(v) {
        positions := positions + [i];
        remaining := remaining - 1;
      }
      i := i + 1;
    }
  }

  // ---------------------------------------------------------------- staying inside the group

  /** Opens minus closes in tape[lo..hi]. */
  function Net(tape: seq<Token>, lo: int, hi: int): int
    requires 0 <= lo <= hi <= |tape|
    decreases hi - lo
  {
    if lo == hi then 0 else Delta(tape[lo]) + Net(tape, lo + 1, hi)
  }

  function Delta(t: Token): int {
    if t.OpenParen? then 1 else if t.CloseParen? then -1 else 0
  }

  /** No position gathered ahead lies past the close of the group the search started in. */
  lemma {:induction false} AheadStaysInGroup(tape: seq<Token>, i: int, depth: nat, n: int, p: int)
    requires 0 <= i && p in Ahead(tape, i, depth, n)
    ensures forall q | i <= q <= p :: depth + Net(tape, i, q) >= 0
    decreases |tape| - i
  {
    var rest :=
      if tape[i].CloseParen? then depth - 1 else if tape[i].OpenParen? then depth + 1 else depth;
    if p > i {
      var m := if tape[i].IsParen() || SkippedAhead(tape[i]) then n else n - 1;
      AheadStaysInGroup(tape, i + 1, rest, m, p);
    }
    forall q | i <= q <= p ensures depth + Net(tape, i, q) >= 0 {
      if q > i {
        assert rest + Net(tape, i + 1, q) >= 0;
      }
    }
  }

  // ---------------------------------------------------------------- exactly which positions

  /** The positions in [lo, hi) that hold neither a pending word's mark nor a move: what counts below the word. */
  ghost function ResolvedIn(tape: seq<Token>, lo: int, hi: int): set<int>
    requires 0 <= lo && hi <= |tape|
  {
    set q | lo <= q < hi && !tape[q].Forward? && !tape[q].Mark? && !tape[q].Move?
  }

  /** What counts as an argument above the word: neither scaffolding nor a paren. */
  ghost function ArgumentsIn(tape: seq<Token>, lo: int, hi: int): set<int>
    requires 0 <= lo && hi <= |tape|
  {
    set q | lo <= q < hi && (tape[q].End? || tape[q].Internal? || tape[q].Word? || tape[q].Datum?)
  }

  /** It counts, fewer than `n` do between it and `i`, and no open paren stands there or between. */
  ghost predicate NearBelow(tape: seq<Token>, i: int, n: nat, p: int)
    requires i <= |tape|
  {
    && 0 <= p < i && p in ResolvedIn(tape, p, p + 1) && |ResolvedIn(tape, p + 1, i)| < n
    && forall q | p <= q < i :: !tape[q].OpenParen?
  }

  lemma {:induction false} BeforeExactly(tape: seq<Token>, i: int, n: nat, p: int)
    requires 0 <= i <= |tape|
    ensures p in Before(tape, i, n) <==> NearBelow(tape, i, n, p)
    decreases i
  {
    if p == i - 1 {
      assert ResolvedIn(tape, p + 1, i) == {};
    } else if 0 <= p < i && n > 0 {
      var m := if SkippedBefore(tape[i - 1]) then n else n - 1;
      BeforeExactly(tape, i - 1, m, p);
      NearBelowStep(tape, i, n, p);
    }
  }

  lemma NearBelowStep(tape: seq<Token>, i: int, n: nat, p: int)
    requires 0 <= p < i - 1 && i <= |tape| && n > 0
    ensures NearBelow(tape, i, n, p) <==>
      && !tape[i - 1].OpenParen?
      && NearBelow(tape, i - 1, if tape[i - 1].Forward? || tape[i - 1].Mark? || tape[i - 1].Move? then n else n - 1, p)
  {
    var between, below := ResolvedIn(tape, p + 1, i), ResolvedIn(tape, p + 1, i - 1);
    if tape[i - 1].Forward? || tape[i - 1].Mark? || tape[i - 1].Move? {
      assert between == below;
    } else {
      assert between == below + {i - 1};
    }
  }

  /** No group open at `i`, or open `depth` further out, has closed before `p`. */
  ghost predicate SameGroup(tape: seq<Token>, i: int, depth: nat, p: int)
    requires 0 <= i && p < |tape|
  {
    forall q | i <= q <= p :: depth + Net(tape, i, q) >= 0
  }

  /** Above the word: it counts, fewer than `n` do before it, and no group around the start has closed by then. */
  lemma {:induction false} AheadExactly(tape: seq<Token>, i: int, depth: nat, n: int, p: int)
    requires 0 <= i
    ensures p in Ahead(tape, i, depth, n) <==>
      && i <= p < |tape| && p in ArgumentsIn(tape, p, p + 1) && |ArgumentsIn(tape, i, p)| < n
      && SameGroup(tape, i, depth, p)
    decreases |tape| - i
  {
    if i <= p < |tape| {
      assert ArgumentsIn(tape, i, i) == {};
      if p > i {
        AheadStep(tape, i, depth, n, p);
      }
    }
  }

  lemma AheadStep(tape: seq<Token>, i: int, depth: nat, n: int, p: int)
    requires 0 <= i < p < |tape|
    ensures p in Ahead(tape, i, depth, n) <==>
      && p in ArgumentsIn(tape, p, p + 1) && |ArgumentsIn(tape, i, p)| < n
      && SameGroup(tape, i, depth, p)
    decreases |tape| - i, 0
  {
    var counts := i in ArgumentsIn(tape, i, i + 1);
    var rest := depth + Delta(tape[i]);
    var m := if counts then n - 1 else n;
    assert ArgumentsIn(tape, i, p) == (if counts then {i} else {}) + ArgumentsIn(tape, i + 1, p);
    assert counts <==> !tape[i].IsParen() && !SkippedAhead(tape[i]);
    GroupStep(tape, i, depth, p);
    if rest >= 0 {
      AheadExactly(tape, i + 1, rest, m, p);
      if n > 0 {
        assert Ahead(tape, i, depth, n) == (if counts then [i] else []) + Ahead(tape, i + 1, rest, m);
      }
    }
  }

  lemma GroupStep(tape: seq<Token>, i: int, depth: nat, p: int)
    requires 0 <= i < p < |tape|
    ensures SameGroup(tape, i, depth, p) <==> depth + Delta(tape[i]) >= 0 && SameGroup(tape, i + 1, depth + Delta(tape[i]), p)
  {
    var rest := depth + Delta(tape[i]);
    assert Net(tape, i, i) == 0 && Net(tape, i + 1, i + 1) == 0;
    NetStep(tape, i, i + 1);
    if SameGroup(tape, i, depth, p) {
      assert depth + Net(tape, i, i + 1) >= 0;
      var next := i + 1;
      forall q | next <= q <= p ensures rest + Net(tape, next, q) >= 0 {
        NetStep(tape, i, q);
      }
    } else {
      var q :| i <= q <= p && depth + Net(tape, i, q) < 0;
      NetStep(tape, i, q);
    }
  }

  lemma NetStep(tape: seq<Token>, i: int, q: int)
    requires 0 <= i < q <= |tape|
    ensures Net(tape, i, q) == Delta(tape[i]) + Net(tape, i + 1, q)
  {
  }

  lemma {:induction false} AheadSorted(tape: seq<Token>, i: int, depth: nat, n: int)
    requires 0 <= i
    ensures StrictlySorted(Ahead(tape, i, depth, n)) && |Ahead(tape, i, depth, n)| <= if n < 0 then 0 else n
    decreases |tape| - i
  {
    if n > 0 && i < |tape| && !(tape[i].CloseParen? && depth == 0) {
      var rest := if tape[i].CloseParen? then depth - 1 else if tape[i].OpenParen? then depth + 1 else depth;
      var tail := Ahead(tape, i + 1, rest, if tape[i].IsParen() || SkippedAhead(tape[i]) then n else n - 1);
      AheadSorted(tape, i + 1, rest, if tape[i].IsParen() || SkippedAhead(tape[i]) then n else n - 1);
      forall k | 0 <= k < |tail| ensures i < tail[k] {
        assert tail[k] in tail;
      }
    }
  }

  /**
    The positions recovery takes its arguments from: ascending, at most `n`, none of them the word's own; the nearest
    counting ones below the word in its group, and the nearest ahead for as many as are then missing.
  */
  lemma PositionsExactly(tape: seq<Token>, pointer: int, n: nat, p: int)
    requires 0 <= pointer <= |tape|
    ensures var r := Positions(tape, pointer, n); StrictlySorted(r) && |r| <= n && pointer !in r
    ensures p in Positions(tape, pointer, n) <==>
      || NearBelow(tape, pointer, n, p)
      || (&& pointer < p < |tape| && p in ArgumentsIn(tape, p, p + 1)
          && |ArgumentsIn(tape, pointer + 1, p)| < n - |Before(tape, pointer, n)|
          && SameGroup(tape, pointer + 1, 0, p))
  {
    BeforeExactly(tape, pointer, n, p);
    AheadExactly(tape, pointer + 1, 0, n - |Before(tape, pointer, n)|, p);
    PositionsSorted(tape, pointer, n);
  }

  lemma PositionsSorted(tape: seq<Token>, pointer: int, n: nat)
    requires 0 <= pointer <= |tape|
    ensures var r := Positions(tape, pointer, n); StrictlySorted(r) && |r| <= n && pointer !in r
  {
    var before := Before(tape, pointer, n);
    var ahead := Ahead(tape, pointer + 1, 0, n - |before|);
    AheadSorted(tape, pointer + 1, 0, n - |before|);
    forall k | 0 <= k < |ahead| ensures pointer < ahead[k] {
      assert ahead[k] in ahead;
    }
  }

  // ---------------------------------------------------------------- the paren skeleton

  function Skeleton(tape: seq<Token>): seq<Token> {
    if tape == [] then []
    else (if tape[0].IsParen() then [tape[0]] else []) + Skeleton(tape[1..])
  }

  lemma SkeletonCons(t: Token, rest: seq<Token>)
    ensures Skeleton([t] + rest) == (if t.IsParen() then [t] else []) + Skeleton(rest)
  {
    assert ([t] + rest)[1..] == rest;
  }

  lemma {:induction false} SkeletonConcat(a: seq<Token>, b: seq<Token>)
    ensures Skeleton(a + b) == Skeleton(a) + Skeleton(b)
  {
    if a == [] {
      assert a + b == b;
    } else {
      SkeletonConcat(a[1..], b);
      SkeletonCons(a[0], a[1..] + b);
      SkeletonCons(a[0], a[1..]);
      assert a + b == [a[0]] + (a[1..] + b) && a == [a[0]] + a[1..];
    }
  }

  lemma {:induction false} SkeletonFree(a: seq<Token>)
    requires forall t | t in a :: !t.IsParen()
    ensures Skeleton(a) == []
  {
    if a != [] {
      SkeletonFree(a[1..]);
    }
  }

  ghost predicate CutsParen(tape: seq<Token>, cut: set<int>, lo: int, hi: int)
    requires 0 <= lo <= hi <= |tape|
  {
    exists p | lo <= p < hi :: p in cut && tape[p].IsParen()
  }

  /** Cutting keeps the skeleton exactly when no paren is cut. */
  lemma {:induction false} SkeletonOfKeep(tape: seq<Token>, cut: set<int>, lo: int, hi: int)
    requires 0 <= lo <= hi <= |tape|
    ensures !CutsParen(tape, cut, lo, hi) ==> Skeleton(Keep(tape, cut, lo, hi)) == Skeleton(tape[lo..hi])
    ensures |Skeleton(Keep(tape, cut, lo, hi))| <= |Skeleton(tape[lo..hi])|
    ensures CutsParen(tape, cut, lo, hi) ==> |Skeleton(Keep(tape, cut, lo, hi))| < |Skeleton(tape[lo..hi])|
    decreases hi - lo
  {
    if lo < hi {
      SkeletonOfKeep(tape, cut, lo + 1, hi);
      SkeletonCons(tape[lo], tape[lo + 1..hi]);
      assert tape[lo..hi] == [tape[lo]] + tape[lo + 1..hi];
      SkeletonCons(tape[lo], Keep(tape, cut, lo + 1, hi));
      assert Keep(tape, cut, lo, hi) == if lo in cut then Keep(tape, cut, lo + 1, hi) else [tape[lo]] + Keep(tape, cut, lo + 1, hi);
      assert CutsParen(tape, cut, lo, hi) <==> (lo in cut && tape[lo].IsParen()) || CutsParen(tape, cut, lo + 1, hi);
    } else {
      assert tape[lo..hi] == [];
    }
  }

  /** The tape after recovery, as SpliceCheckResults leaves it. */
  function Recovered(tape: seq<Token>, pointer: int, positions: seq<int>, results: seq<Token>): seq<Token>
    requires 0 <= pointer < |tape|
  {
    var cut := {pointer} + Elements(positions);
    Keep(tape, cut, 0, pointer) + results + Keep(tape, cut, pointer, |tape|)
  }

  /**
    Recovery of a word keeps the paren sequence of the tape exactly when no resolved
    position below the word is a close paren. Forward positions never matter.
  */
  lemma RecoveryKeepsBrackets(tape: seq<Token>, pointer: int, n: nat, results: seq<Token>)
    requires 0 <= pointer < |tape| && !tape[pointer].IsParen()
    requires forall t | t in results :: !t.IsParen()
    ensures Skeleton(Recovered(tape, pointer, Positions(tape, pointer, n), results)) == Skeleton(tape)
       <==> forall p | p in Before(tape, pointer, n) :: !tape[p].CloseParen?
  {
    var positions := Positions(tape, pointer, n);
    var cut := {pointer} + Elements(positions);
    var left, right := Keep(tape, cut, 0, pointer), Keep(tape, cut, pointer, |tape|);
    SkeletonConcat(left + results, right);
    SkeletonConcat(left, results);
    SkeletonFree(results);
    KeepSplit(tape, cut, 0, pointer, |tape|);
    SkeletonConcat(left, right);
    SkeletonOfKeep(tape, cut, 0, |tape|);
    assert tape[0..|tape|] == tape;
    CutParens(tape, pointer, n);
  }

  /** A paren is cut exactly when a close paren stands among the positions taken below the word. */
  lemma CutParens(tape: seq<Token>, pointer: int, n: nat)
    requires 0 <= pointer < |tape| && !tape[pointer].IsParen()
    ensures CutsParen(tape, {pointer} + Elements(Positions(tape, pointer, n)), 0, |tape|)
       <==> exists p | p in Before(tape, pointer, n) :: tape[p].CloseParen?
  {
    var positions := Positions(tape, pointer, n);
    var cut := {pointer} + Elements(positions);
    var before := Before(tape, pointer, n);
    if p :| p in before && tape[p].CloseParen? {
      assert p in positions && p in cut;
    }
    if CutsParen(tape, cut, 0, |tape|) {
      var p :| 0 <= p < |tape| && p in cut && tape[p].IsParen();
      assert p in positions;
      assert p in before;
    }
  }

  /** The engine's invariant: stepCloseParen removes a group's pair on reaching its close, so none lies below the pointer. */
  predicate Settled(tape: seq<Token>, pointer: int) {
    forall p | 0 <= p < pointer && p < |tape| :: !tape[p].CloseParen?
  }

  lemma {:induction false} KeptWithoutClose(tape: seq<Token>, cut: set<int>, lo: int, hi: int)
    requires 0 <= lo <= hi <= |tape| && forall p | lo <= p < hi :: !tape[p].CloseParen?
    ensures forall t | t in Keep(tape, cut, lo, hi) :: !t.CloseParen?
    decreases hi - lo
  {
    if lo < hi {
      KeptWithoutClose(tape, cut, lo + 1, hi);
    }
  }

  /** Gather, then splice: the recovery step of checkModeAssumeSig keeps the paren sequence and the invariant. */
  method RecoverWord(e: Engine, n: nat, results: seq<Token>)
    requires 0 <= e.pointer < |e.tape| && !e.tape[e.pointer].IsParen()
    requires forall t | t in results :: !t.IsParen()
    modifies e
    ensures e.tape == Recovered(old(e.tape), old(e.pointer), Positions(old(e.tape), old(e.pointer), n), results)
    ensures Skeleton(e.tape) == Skeleton(old(e.tape))
       <==> forall p | p in Before(old(e.tape), old(e.pointer), n) :: !old(e.tape)[p].CloseParen?
    ensures old(Settled(e.tape, e.pointer)) ==> Skeleton(e.tape) == Skeleton(old(e.tape)) && Settled(e.tape, e.pointer)
  {
    ghost var tape, pointer := e.tape, e.pointer;
    var positions := CheckModeFallbackPositions(e, n);
    RecoveryKeepsBrackets(tape, pointer, n, results);
    SpliceCheckResults(e, positions, results);
    if Settled(tape, pointer) {
      KeptWithoutClose(tape, {pointer} + Elements(positions), 0, pointer);
      assert forall p | 0 <= p < e.pointer ::
        e.tape[p] == Keep(tape, {pointer} + Elements(positions), 0, pointer)[p];
    }
  }
}
