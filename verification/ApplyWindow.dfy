/**
  Collapsing an apply window in place (check/go/check_recovery.go): a function
  value with its arguments becomes its results, and a parenthesised apply of a
  function carrier becomes one gradual value.
*/
module ApplyWindow {
  import opened Tape
  import opened Recovery
  import opened Fallback

  // ---------------------------------------------------------------- spliceFnCheckTail

  /** The tape a function-value dispatch at `valIdx` leaves. */
  function Applied(tape: seq<Token>, pointer: int, valIdx: int, nArgs: nat, result: seq<Token>): seq<Token>
    requires 0 <= pointer <= valIdx < |tape|
  {
    var args := Before(tape, pointer, nArgs);
    if |args| == nArgs then
      Keep(tape, Elements(args) + {valIdx}, 0, valIdx) + result + tape[valIdx + 1..]
    else
      tape[..Clamp(valIdx - nArgs, |tape|)] + result + tape[valIdx + 1..]
  }

  /**
    The consumed arguments and the function literal go, tokens between them that were
    not consumed close up in order, and the results follow. With too few arguments on
    the tape the whole window goes.
  */
  method SpliceFnCheckTail(e: Engine, valIdx: int, nArgs: nat, result: seq<Token>)
    requires 0 <= e.pointer <= valIdx < |e.tape|
    modifies e
    ensures e.tape == Applied(old(e.tape), old(e.pointer), valIdx, nArgs, result)
    ensures e.nextId == old(e.nextId)
    ensures
      var args := Before(old(e.tape), old(e.pointer), nArgs);
      e.pointer ==
        if nArgs == 0 then old(e.pointer)
        else if |args| == nArgs then args[0]
        else if valIdx < nArgs then 0
        else valIdx - nArgs
  {
    var indices := ResolvedIndicesBefore(e, nArgs);
    if |indices| == nArgs && nArgs > 0 {
      FirstCut(indices, Elements(indices));
      Compact(e, indices[0], valIdx, (set idx | idx in indices) + {valIdx}, result);
      e.pointer := indices[0];
    } else if nArgs == 0 {
      KeepAll(e.tape, {valIdx}, 0, valIdx);
      assert Elements(indices) + {valIdx} == {valIdx};
      e.Splice(valIdx, 1, result);
    } else {
      var argStart := valIdx - nArgs;
      if argStart < 0 {
        argStart := 0;
      }
      e.Splice(argStart, valIdx + 1 - argStart, result);
      e.pointer := argStart;
    }
  }

  /** With fewer resolved tokens below than arguments, that many tokens of any kind go, or all there are. */
  lemma ShortWindowGoesWhole(tape: seq<Token>, pointer: int, valIdx: int, nArgs: nat, result: seq<Token>)
    requires 0 <= pointer <= valIdx < |tape| && |Before(tape, pointer, nArgs)| < nArgs
    ensures valIdx < nArgs ==> Applied(tape, pointer, valIdx, nArgs, result) == result + tape[valIdx + 1..]
    ensures valIdx >= nArgs ==>
      var left := Applied(tape, pointer, valIdx, nArgs, result);
      |left| == |tape| - nArgs - 1 + |result| && left == tape[..valIdx - nArgs] + result + tape[valIdx + 1..]
  {
  }

  /** The tokens up to `valIdx` that stay move down in place, and the results overwrite the rest. */
  method Compact(e: Engine, firstArgIdx: int, valIdx: int, skipSet: set<int>, result: seq<Token>)
    requires 0 <= firstArgIdx <= valIdx < |e.tape|
    requires valIdx in skipSet && forall p | p in skipSet :: firstArgIdx <= p
    modifies e`tape
    ensures e.tape == Keep(old(e.tape), skipSet, 0, valIdx) + result + old(e.tape)[valIdx + 1..]
  {
    ghost var tape := e.tape;
    var dst := firstArgIdx;
    KeepAll(tape, skipSet, 0, firstArgIdx);
    for i := firstArgIdx to valIdx + 1
      invariant 0 <= dst <= i && |e.tape| == |tape|
      invariant e.tape[..dst] == Keep(tape, skipSet, 0, i)
      invariant e.tape[i..] == tape[i..]
    {
      KeepNext(tape, skipSet, i);
      assert e.tape[i] == tape[i];
      if i !in skipSet {
        ghost var was := e.tape;
        e.Set(dst, e.tape[i]);
        assert e.tape[..dst + 1] == was[..dst] + [tape[i]];
        dst := dst + 1;
      }
    }
    KeepNext(tape, skipSet, valIdx);
    e.Splice(dst, valIdx + 1 - dst, result);
  }

  lemma KeepNext(tape: seq<Token>, cut: set<int>, i: int)
    requires 0 <= i < |tape|
    ensures Keep(tape, cut, 0, i + 1) == Keep(tape, cut, 0, i) + if i in cut then [] else [tape[i]]
  {
    KeepSplit(tape, cut, 0, i, i + 1);
    assert Keep(tape, cut, i + 1, i + 1) == [];
  }

  // ---------------------------------------------------------------- checkModeParenFnCollapse

  /** The positions of user-visible literals in tape[lo..hi], ascending. */
  function Literals(tape: seq<Token>, lo: int, hi: int): (r: seq<int>)
    requires 0 <= lo <= hi <= |tape|
    ensures forall k | 0 <= k < |r| :: lo <= r[k] < hi && tape[r[k]].Recordable()
    decreases hi - lo
  {
    if lo == hi then []
    else Literals(tape, lo, hi - 1) + if tape[hi - 1].Recordable() then [hi - 1] else []
  }

  predicate Applies(t: Token) {
    t.Datum? && !t.dynamic && !t.quoted && t.fnCarrier
  }

  /** The two window shapes that net one value: `(a b comp)` and `(g x)`. */
  predicate Collapses(tape: seq<Token>, open: int, close: int)
    requires 0 <= open < close <= |tape|
  {
    var lits := Literals(tape, open + 1, close);
    |lits| >= 2 &&
    var last := tape[lits[|lits| - 1]];
    Applies(last) || (Applies(tape[lits[0]]) && |lits| == 2 && !(last.Datum? && last.fnValue))
  }

  /** A position of the window holding a word or a datum. */
  predicate Holds(tape: seq<Token>, open: int, close: int, p: int)
    requires 0 <= open < close <= |tape|
  {
    open < p < close && (tape[p].Word? || tape[p].Datum?)
  }

  lemma {:induction false} LiteralsAre(tape: seq<Token>, open: int, close: int)
    requires 0 <= open < close <= |tape|
    ensures StrictlySorted(Literals(tape, open + 1, close))
    ensures forall p :: p in Literals(tape, open + 1, close) <==> Holds(tape, open, close, p)
    decreases close
  {
    var lits := Literals(tape, open + 1, close);
    if open + 1 < close {
      var init := Literals(tape, open + 1, close - 1);
      LiteralsAre(tape, open, close - 1);
      assert lits == init + if tape[close - 1].Recordable() then [close - 1] else [];
      forall p ensures p in lits <==> Holds(tape, open, close, p) {
        assert p in init <==> Holds(tape, open, close - 1, p);
      }
      assert forall k | 0 <= k < |init| :: init[k] < close - 1;
    }
  }

  /**
    A window collapses when it ends in a strict function carrier with something before it, or when such a carrier
    and one other datum or word, not a function value, are all it holds.
  */
  lemma CollapsesExactly(tape: seq<Token>, open: int, close: int, first: int, last: int)
    requires 0 <= open < close <= |tape|
    requires Holds(tape, open, close, first) && forall p | Holds(tape, open, close, p) :: first <= p
    requires Holds(tape, open, close, last) && forall p | Holds(tape, open, close, p) :: p <= last
    ensures Collapses(tape, open, close) <==>
      && first < last
      && (|| (tape[last].Datum? && tape[last].fnCarrier && !tape[last].dynamic && !tape[last].quoted)
          || (&& tape[first].Datum? && tape[first].fnCarrier && !tape[first].dynamic && !tape[first].quoted
              && (forall p | first < p < last :: !Holds(tape, open, close, p))
              && (tape[last].Word? || !tape[last].fnValue)))
  {
    LiteralsAre(tape, open, close);
    var lits := Literals(tape, open + 1, close);
    assert first in lits && last in lits;
    assert lits[0] in lits && lits[|lits| - 1] in lits;
    assert forall k | 0 <= k < |lits| :: Holds(tape, open, close, lits[k]) by {
      assert forall k | 0 <= k < |lits| :: lits[k] in lits;
    }
    assert lits[0] == first && lits[|lits| - 1] == last;
    if |lits| > 2 {
      assert first < lits[1] < last;
    }
    if p :| first < p < last && Holds(tape, open, close, p) {
      var k :| 0 <= k < |lits| && lits[k] == p;
      assert 0 < k < |lits| - 1;
    }
  }

  /** A window that collapses holds something. */
  lemma CollapsingHolds(tape: seq<Token>, open: int, close: int) returns (p: int)
    requires 0 <= open < close <= |tape| && Collapses(tape, open, close)
    ensures Holds(tape, open, close, p)
  {
    LiteralsAre(tape, open, close);
    p := Literals(tape, open + 1, close)[0];
    assert p in Literals(tape, open + 1, close);
  }

  /** Literals of the window other than its first. */
  function LaterLiterals(tape: seq<Token>, seat: int, close: int): set<int>
    requires 0 <= seat < close <= |tape|
  {
    set p | seat < p < close && tape[p].Recordable()
  }

  lemma {:induction false} LiteralsCount(tape: seq<Token>, cut: set<int>, lo: int, hi: int)
    requires 0 <= lo <= hi <= |tape|
    requires forall p | lo <= p < hi :: p in cut <==> tape[p].Recordable()
    ensures |Keep(tape, cut, lo, hi)| == hi - lo - |Literals(tape, lo, hi)|
    ensures forall t | t in Keep(tape, cut, lo, hi) :: !t.Recordable()
    decreases hi - lo
  {
    if lo < hi {
      LiteralsCount(tape, cut, lo, hi - 1);
      KeepSplit(tape, cut, lo, hi - 1, hi);
      assert Keep(tape, cut, hi - 1, hi) == if tape[hi - 1].Recordable() then [] else [tape[hi - 1]];
    }
  }

  lemma {:induction false} LiteralsFrom(tape: seq<Token>, lo: int, seat: int, hi: int)
    requires 0 <= lo <= seat < hi <= |tape|
    requires tape[seat].Recordable() && forall p | lo <= p < seat :: !tape[p].Recordable()
    ensures Literals(tape, lo, hi) == [seat] + Literals(tape, seat + 1, hi)
    decreases hi
  {
    if hi == seat + 1 {
      NoLiterals(tape, lo, seat);
    } else {
      LiteralsFrom(tape, lo, seat, hi - 1);
    }
  }

  lemma LiteralsNext(tape: seq<Token>, lo: int, i: int)
    requires 0 <= lo <= i < |tape|
    ensures Literals(tape, lo, i + 1) == if tape[i].Recordable() then Literals(tape, lo, i) + [i] else Literals(tape, lo, i)
  {
  }

  lemma {:induction false} NoLiterals(tape: seq<Token>, lo: int, hi: int)
    requires 0 <= lo <= hi <= |tape|
    requires forall p | lo <= p < hi :: !tape[p].Recordable()
    ensures Literals(tape, lo, hi) == []
    decreases hi
  {
    if lo < hi {
      NoLiterals(tape, lo, hi - 1);
    }
  }

  /** The window scan: how many literals, the last, and a leading function carrier if any. */
  method ScanWindow(e: Engine, openIdx: int, closeIdx: int) returns (count: nat, lastIdx: int, leadIdx: int)
    requires 0 <= openIdx < closeIdx <= |e.tape|
    ensures
      var lits := Literals(e.tape, openIdx + 1, closeIdx);
      && count == |lits|
      && lastIdx == (if lits == [] then -1 else lits[|lits| - 1])
      && leadIdx == (if lits != [] && Applies(e.tape[lits[0]]) then lits[0] else -1)
  {
    count, lastIdx, leadIdx := 0, -1, -1;
    ghost var lits := [];
    for i := openIdx + 1 to closeIdx
      invariant lits == Literals(e.tape, openIdx + 1, i) && count == |lits|
      invariant lastIdx == if lits == [] then -1 else lits[|lits| - 1]
      invariant leadIdx == if lits != [] && Applies(e.tape[lits[0]]) then lits[0] else -1
    {
      var v := e.tape[i];
      LiteralsNext(e.tape, openIdx + 1, i);
      lits := if v.Recordable() then lits + [i] else lits;
      if v.Recordable() {
        if count == 0 && v.Datum? && !v.dynamic && !v.quoted && v.fnCarrier {
          leadIdx := i;
        }
        count := count + 1;
        lastIdx := i;
      }
    }
  }

  /** Removal of every literal after `seat`, from the right, with the close index following. */
  method RemoveLater(e: Engine, seat: int, closeIdx: int) returns (newClose: int)
    requires 0 <= seat < closeIdx <= |e.tape|
    modifies e`tape
    ensures
      var kept := Keep(old(e.tape), LaterLiterals(old(e.tape), seat, closeIdx), seat + 1, closeIdx);
      && e.tape == old(e.tape)[..seat + 1] + kept + old(e.tape)[closeIdx..]
      && newClose == seat + 1 + |kept|
  {
    ghost var tape := e.tape;
    ghost var cut := LaterLiterals(tape, seat, closeIdx);
    newClose := closeIdx;
    var i := closeIdx - 1;
    while i > seat
      invariant seat <= i < closeIdx
      invariant e.tape == tape[..i + 1] + Keep(tape, cut, i + 1, closeIdx) + tape[closeIdx..]
      invariant newClose == i + 1 + |Keep(tape, cut, i + 1, closeIdx)|
    {
      RemoveOne(tape, cut, i, closeIdx, e.tape);
      if e.tape[i].Recordable() {
        e.Remove(i);
        newClose := newClose - 1;
      }
      i := i - 1;
    }
  }

  lemma RemoveOne(tape: seq<Token>, cut: set<int>, i: int, close: int, now: seq<Token>)
    requires 0 <= i < close <= |tape|
    requires now == tape[..i + 1] + Keep(tape, cut, i + 1, close) + tape[close..]
    ensures now[i] == tape[i]
    ensures i in cut ==> now[..i] + now[i + 1..] == tape[..i] + Keep(tape, cut, i, close) + tape[close..]
    ensures i !in cut ==> now == tape[..i] + Keep(tape, cut, i, close) + tape[close..]
    ensures |Keep(tape, cut, i, close)| == |Keep(tape, cut, i + 1, close)| + if i in cut then 0 else 1
  {
    var kept := Keep(tape, cut, i + 1, close);
    DropOne(tape, i, kept, tape[close..]);
    if i in cut {
      assert Keep(tape, cut, i, close) == [] + kept == kept;
    } else {
      assert Keep(tape, cut, i, close) == [tape[i]] + kept;
    }
  }

  lemma DropOne(tape: seq<Token>, i: nat, kept: seq<Token>, rest: seq<Token>)
    requires i < |tape|
    ensures
      var now := tape[..i + 1] + kept + rest;
      && now[i] == tape[i]
      && now[..i] + now[i + 1..] == tape[..i] + kept + rest
      && now == tape[..i] + ([tape[i]] + kept) + rest
  {
    var now := tape[..i + 1] + kept + rest;
    assert now[..i] == tape[..i];
    assert now[i + 1..] == kept + rest;
  }

  /**
    A window that collapses ends up with exactly one literal, a fresh gradual value on
    its first literal's seat; every other token of the tape stays, in order; the
    returned index is that of the same closing token. Any other window is untouched.
  */
  method CheckModeParenFnCollapse(e: Engine, openIdx: int, closeIdx: int) returns (newClose: int)
    requires 0 <= openIdx < closeIdx < |e.tape|
    modifies e
    ensures e.pointer == old(e.pointer)
    ensures !(e.checkMode && Collapses(old(e.tape), openIdx, closeIdx)) ==>
              e.tape == old(e.tape) && newClose == closeIdx
    ensures e.checkMode && Collapses(old(e.tape), openIdx, closeIdx) ==>
              var lits := Literals(old(e.tape), openIdx + 1, closeIdx);
              && Collapsed(old(e.tape), e.tape, lits[0], closeIdx, newClose, old(e.nextId))
              && Literals(e.tape, openIdx + 1, newClose) == [lits[0]]
              && newClose == closeIdx - (|lits| - 1)
  {
    newClose := closeIdx;
    if !e.checkMode {
      return;
    }
    var count, lastIdx, leadIdx := ScanWindow(e, openIdx, closeIdx);
    if count < 2 {
      return;
    }
    var last := e.tape[lastIdx];
    var trailing := last.Datum? && !last.dynamic && !last.quoted && last.fnCarrier;
    var leading := leadIdx >= 0 && count == 2 && !(last.Datum? && last.fnValue);
    if !trailing && !leading {
      return;
    }
    newClose := CollapseWindow(e, openIdx, closeIdx);
  }

  /** Seat the gradual value on the first literal and splice every later one out. */
  method CollapseWindow(e: Engine, openIdx: int, closeIdx: int) returns (newClose: int)
    requires 0 <= openIdx < closeIdx < |e.tape| && Literals(e.tape, openIdx + 1, closeIdx) != []
    modifies e
    ensures e.pointer == old(e.pointer)
    ensures
      var lits := Literals(old(e.tape), openIdx + 1, closeIdx);
      && Collapsed(old(e.tape), e.tape, lits[0], closeIdx, newClose, old(e.nextId))
      && Literals(e.tape, openIdx + 1, newClose) == [lits[0]]
      && newClose == closeIdx - (|lits| - 1)
  {
    ghost var tape := e.tape;
    var out := Datum(e.nextId, true, false, false, false);
    e.nextId := e.nextId + 1;
    var seat := SeatOf(e, openIdx, closeIdx);
    e.Set(seat, out);
    ghost var later := Literals(tape, seat + 1, closeIdx);
    assert Literals(tape, openIdx + 1, closeIdx) == [seat] + later;
    assert e.tape == tape[seat := out];
    newClose := RemoveLater(e, seat, closeIdx);
    CollapseIsFaithful(tape, e.tape, openIdx + 1, closeIdx, seat, newClose, out);
  }

  method SeatOf(e: Engine, openIdx: int, closeIdx: int) returns (seat: int)
    requires 0 <= openIdx < closeIdx <= |e.tape| && Literals(e.tape, openIdx + 1, closeIdx) != []
    ensures openIdx < seat < closeIdx && e.tape[seat].Recordable()
    ensures forall p | openIdx < p < seat :: !e.tape[p].Recordable()
    ensures Literals(e.tape, openIdx + 1, closeIdx) == [seat] + Literals(e.tape, seat + 1, closeIdx)
  {
    seat := openIdx + 1;
    ghost var last := Literals(e.tape, openIdx + 1, closeIdx)[0];
    while !e.tape[seat].Recordable()
      invariant openIdx < seat <= last
      invariant forall p | openIdx < p < seat :: !e.tape[p].Recordable()
      decreases last - seat
    {
      seat := seat + 1;
    }
    LiteralsFrom(e.tape, openIdx + 1, seat, closeIdx);
  }

  /** A fresh value sits on `seat`, what is kept of the window follows, then the same closing token. */
  ghost predicate Collapsed(was: seq<Token>, now: seq<Token>, seat: int, close: int, newClose: int, id: nat) {
    && 0 <= seat < close < |was|
    && now == was[..seat] + [Datum(id, true, false, false, false)]
            + Keep(was, LaterLiterals(was, seat, close), seat + 1, close) + was[close..]
    && 0 <= newClose < |now| && now[newClose..] == was[close..] && now[newClose] == was[close]
  }

  lemma CollapseIsFaithful(was: seq<Token>, now: seq<Token>, lo: int, close: int, seat: int,
                           newClose: int, out: Token)
    requires 0 <= lo <= seat < close < |was|
    requires was[seat].Recordable() && forall p | lo <= p < seat :: !was[p].Recordable()
    requires out.Datum? && out.dynamic && !out.quoted && !out.fnCarrier && !out.fnValue
    requires
      var mid := was[seat := out];
      var kept := Keep(mid, LaterLiterals(mid, seat, close), seat + 1, close);
      now == mid[..seat + 1] + kept + mid[close..] && newClose == seat + 1 + |kept|
    ensures Collapsed(was, now, seat, close, newClose, out.id)
    ensures Literals(now, lo, newClose) == [seat]
    ensures newClose == close - |Literals(was, seat + 1, close)|
  {
    var mid := was[seat := out];
    var kept := KeptLater(was, mid, seat, close);
    assert mid[..seat + 1] == was[..seat] + [out];
    assert mid[close..] == was[close..];
    OneLiteral(was[..seat], out, kept, was[close..], lo);
  }

  /** What is kept of the window after its seat does not depend on the token in the seat. */
  lemma KeptLater(was: seq<Token>, mid: seq<Token>, seat: int, close: int) returns (kept: seq<Token>)
    requires 0 <= seat < close <= |was| == |mid|
    requires forall p | seat < p < |was| :: was[p] == mid[p]
    ensures kept == Keep(was, LaterLiterals(was, seat, close), seat + 1, close)
    ensures kept == Keep(mid, LaterLiterals(mid, seat, close), seat + 1, close)
    ensures |kept| == close - seat - 1 - |Literals(was, seat + 1, close)|
    ensures forall t | t in kept :: !t.Recordable()
  {
    var cut := LaterLiterals(was, seat, close);
    assert cut == LaterLiterals(mid, seat, close);
    KeepSame(was, mid, cut, seat + 1, close);
    LiteralsCount(was, cut, seat + 1, close);
    kept := Keep(was, cut, seat + 1, close);
  }

  lemma OneLiteral(before: seq<Token>, out: Token, kept: seq<Token>, after: seq<Token>, lo: int)
    requires 0 <= lo <= |before| && out.Recordable() && after != []
    requires forall p | lo <= p < |before| :: !before[p].Recordable()
    requires forall t | t in kept :: !t.Recordable()
    ensures
      var now := before + [out] + kept + after;
      var newClose := |before| + 1 + |kept|;
      && now[newClose..] == after && now[newClose] == after[0]
      && Literals(now, lo, newClose) == [|before|]
  {
    var now := before + [out] + kept + after;
    var seat, newClose := |before|, |before| + 1 + |kept|;
    forall p | seat + 1 <= p < newClose ensures !now[p].Recordable() {
      assert now[p] == kept[p - seat - 1];
    }
    LiteralsFrom(now, lo, seat, newClose);
    NoLiterals(now, seat + 1, newClose);
  }

  lemma {:induction false} KeepSame(a: seq<Token>, b: seq<Token>, cut: set<int>, lo: int, hi: int)
    requires 0 <= lo <= hi <= |a| == |b|
    requires forall p | lo <= p < hi :: a[p] == b[p]
    ensures Keep(a, cut, lo, hi) == Keep(b, cut, lo, hi)
    decreases hi - lo
  {
    if lo < hi {
      KeepSame(a, b, cut, lo + 1, hi);
    }
  }
}
