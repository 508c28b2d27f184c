/**
  Tape surgery in check-mode recovery (check/go/check_recovery.go).

  Each routine edits the tape by index arithmetic that shifts under its own
  feet; each is proved against the sequence of tokens it keeps.
*/
module Recovery {
  import opened Tape

  // ---------------------------------------------------------------- kept tokens

  /** The tokens of tape[lo..hi] whose positions are not in `cut`, in order. */
  function Keep(tape: seq<Token>, cut: set<int>, lo: int, hi: int): (r: seq<Token>)
    requires 0 <= lo <= hi <= |tape|
    ensures |r| <= hi - lo
    decreases hi - lo
  {
    if lo == hi then []
    else (if lo in cut then [] else [tape[lo]]) + Keep(tape, cut, lo + 1, hi)
  }

  lemma {:induction false} KeepSplit(tape: seq<Token>, cut: set<int>, lo: int, mid: int, hi: int)
    requires 0 <= lo <= mid <= hi <= |tape|
    ensures Keep(tape, cut, lo, hi) == Keep(tape, cut, lo, mid) + Keep(tape, cut, mid, hi)
    decreases mid - lo
  {
    if lo < mid {
      KeepSplit(tape, cut, lo + 1, mid, hi);
    }
  }

  lemma {:induction false} KeepAll(tape: seq<Token>, cut: set<int>, lo: int, hi: int)
    requires 0 <= lo <= hi <= |tape|
    requires forall p | lo <= p < hi :: p !in cut
    ensures Keep(tape, cut, lo, hi) == tape[lo..hi]
    decreases hi - lo
  {
    if lo < hi {
      KeepAll(tape, cut, lo + 1, hi);
    }
  }

  /** A cut at `lo` followed by tokens that stay, up to the next cut at `hi`. */
  lemma KeepFrom(tape: seq<Token>, cut: set<int>, lo: int, hi: int, end: int)
    requires 0 <= lo < hi <= end <= |tape|
    requires lo in cut && forall p | lo < p < hi :: p !in cut
    ensures Keep(tape, cut, lo, end) == tape[lo + 1..hi] + Keep(tape, cut, hi, end)
  {
    KeepSplit(tape, cut, lo + 1, hi, end);
    KeepAll(tape, cut, lo + 1, hi);
  }

  // ---------------------------------------------------------------- spliceCheckResults

  ghost predicate Sorted(s: seq<int>) {
    forall i, j | 0 <= i < j < |s| :: s[i] <= s[j]
  }

  ghost predicate StrictlySorted(s: seq<int>) {
    forall i, j | 0 <= i < j < |s| :: s[i] < s[j]
  }

  function Elements(s: seq<int>): set<int> {
    set x | x in s
  }

  /** The insertion sort of the index slice, in place, by adjacent swaps. */
  method SortIndices(a: array<int>)
    requires a.Length > 0
    modifies a
    ensures Sorted(a[..])
    ensures Permutation(a[..], old(a[..]))
  {
    for i := 1 to a.Length
      invariant Sorted(a[..i])
      invariant Permutation(a[..], old(a[..]))
    {
      var j := i;
      while j > 0 && a[j] < a[j - 1]
        invariant 0 <= j <= i
        invariant forall p, q | 0 <= p < q <= i && q != j :: a[p] <= a[q]
        invariant Permutation(a[..], old(a[..]))
        decreases j
      {
        ghost var was := a[..];
        a[j], a[j - 1] := a[j - 1], a[j];
        SwapPermutes(was, a[..], j - 1, j);
        j := j - 1;
      }
    }
    assert a[..] == a[..a.Length];
  }

  ghost predicate Permutation(s: seq<int>, t: seq<int>) {
    multiset(s) == multiset(t)
  }

  lemma SwapPermutes(s: seq<int>, t: seq<int>, i: int, j: int)
    requires 0 <= i < j < |s| && t == s[i := s[j]][j := s[i]]
    ensures Permutation(t, s)
  {
    var between, after := s[i + 1..j], s[j + 1..];
    assert s == s[..i] + [s[i]] + between + [s[j]] + after;
    assert t == s[..i] + [s[j]] + between + [s[i]] + after;
  }

  lemma PermutationKeepsElements(s: seq<int>, t: seq<int>)
    requires Permutation(s, t)
    ensures Elements(s) == Elements(t)
  {
    assert forall x :: x in s <==> x in multiset(s);
    assert forall x :: x in t <==> x in multiset(t);
  }

  /** Dedupe into the front of the same array; -1 is the initial "previous" value. */
  method DedupeIndices(a: array<int>) returns (n: nat)
    requires Sorted(a[..]) && forall x | x in a[..] :: x >= 0
    modifies a
    ensures n <= a.Length && StrictlySorted(a[..n])
    ensures Elements(a[..n]) == Elements(old(a[..]))
  {
    n := 0;
    var prev := -1;
    ghost var was := a[..];
    for i := 0 to a.Length
      invariant n <= i
      invariant a[i..] == was[i..]
      invariant StrictlySorted(a[..n])
      invariant Elements(a[..n]) == Elements(was[..i])
      invariant if n == 0 then prev == -1 else prev == a[n - 1]
      invariant n > 0 ==> i > 0 && prev == was[i - 1]
      invariant i > 0 ==> n > 0
    {
      var idx := a[i];
      assert idx == was[i];
      OneMoreElement(was, i);
      ghost var front := a[..n];
      DedupeStep(front, idx, prev);
      if idx != prev {
        a[n] := idx;
        n := n + 1;
        assert a[..n] == front + [idx];
        prev := idx;
      }
    }
    assert was[..a.Length] == was;
  }

  lemma OneMoreElement(s: seq<int>, i: nat)
    requires i < |s|
    ensures s[i] in s && Elements(s[..i + 1]) == Elements(s[..i]) + {s[i]}
  {
    assert s[..i + 1] == s[..i] + [s[i]];
  }

  /** The next of a sorted list is the last distinct one again, or above them all. */
  lemma DedupeStep(front: seq<int>, idx: int, prev: int)
    requires StrictlySorted(front) && prev <= idx
    requires if front == [] then prev == -1 < idx else prev == front[|front| - 1]
    ensures idx != prev ==> StrictlySorted(front + [idx]) && Elements(front + [idx]) == Elements(front) + {idx}
    ensures idx == prev ==> Elements(front) == Elements(front) + {idx}
  {
    var more := front + [idx];
    assert forall x :: x in more <==> x in front || x == idx;
  }

  /** The sorted, distinct positions to cut: the word at the pointer and its candidates. */
  method CutPositions(pointer: int, positions: seq<int>) returns (indices: array<int>, n: nat)
    requires 0 <= pointer && forall p | p in positions :: 0 <= p
    ensures fresh(indices) && n <= indices.Length
    ensures StrictlySorted(indices[..n])
    ensures Elements(indices[..n]) == {pointer} + Elements(positions)
  {
    indices := new int[1 + |positions|](i requires 0 <= i < 1 + |positions| =>
                                          if i == 0 then pointer else positions[i - 1]);
    assert indices[..] == [pointer] + positions;
    assert Elements(indices[..]) == {pointer} + Elements(positions);
    SortIndices(indices);
    PermutationKeepsElements(indices[..], [pointer] + positions);
    assert forall x | x in indices[..] :: x in Elements(indices[..]);
    n := DedupeIndices(indices);
  }

  /** Removal from the highest position down, while the insertion point slides left. */
  method RemoveFromTop(e: Engine, indices: array<int>, n: nat, ghost cut: set<int>) returns (insertAt: int)
    requires n <= indices.Length && StrictlySorted(indices[..n]) && Elements(indices[..n]) == cut
    requires e.pointer in cut && forall p | p in cut :: 0 <= p < |e.tape|
    modifies e`tape
    ensures e.tape == Keep(old(e.tape), cut, 0, old(e.pointer)) + Keep(old(e.tape), cut, old(e.pointer), |old(e.tape)|)
    ensures insertAt == |Keep(old(e.tape), cut, 0, old(e.pointer))|
  {
    ghost var tape, uniq := e.tape, indices[..n];
    assert e.pointer in uniq;
    assert forall k | 0 <= k < n :: uniq[k] in cut;
    insertAt := e.pointer;
    var i := n;
    while i > 0
      invariant 0 <= i <= n
      invariant e.tape == tape[..Bound(uniq, i, |tape|)] + Keep(tape, cut, Bound(uniq, i, |tape|), |tape|)
      invariant insertAt == InsertAt(tape, cut, Bound(uniq, i, |tape|), e.pointer)
    {
      i := i - 1;
      RemovalStep(tape, cut, uniq, i, e.pointer, e.tape, insertAt);
      if indices[i] < insertAt {
        insertAt := insertAt - 1;
      }
      e.Remove(indices[i]);
    }
    FirstCut(uniq, cut);
    KeepAll(tape, cut, 0, uniq[0]);
    KeepSplit(tape, cut, 0, uniq[0], |tape|);
    KeepSplit(tape, cut, 0, uniq[0], e.pointer);
    KeepSplit(tape, cut, 0, e.pointer, |tape|);
  }

  lemma RemovalStep(tape: seq<Token>, cut: set<int>, uniq: seq<int>, i: nat, pointer: int,
                    now: seq<Token>, insertAt: int)
    requires StrictlySorted(uniq) && Elements(uniq) == cut && i < |uniq|
    requires pointer in cut && forall p | p in cut :: 0 <= p < |tape|
    requires forall k | 0 <= k < |uniq| :: uniq[k] in cut
    requires now == tape[..Bound(uniq, i + 1, |tape|)] + Keep(tape, cut, Bound(uniq, i + 1, |tape|), |tape|)
    requires insertAt == InsertAt(tape, cut, Bound(uniq, i + 1, |tape|), pointer)
    ensures uniq[i] < |now|
    ensures now[..uniq[i]] + now[uniq[i] + 1..] == tape[..uniq[i]] + Keep(tape, cut, uniq[i], |tape|)
    ensures InsertAt(tape, cut, uniq[i], pointer) == if uniq[i] < insertAt then insertAt - 1 else insertAt
  {
    GapIsKept(uniq, cut, i, |tape|);
    TapeStep(tape, cut, uniq[i], Bound(uniq, i + 1, |tape|), now);
    InsertStep(tape, cut, uniq[i], Bound(uniq, i + 1, |tape|), pointer, insertAt);
  }

  /** The cut at `lo` goes; what lies between it and the next cut at `hi` is kept. */
  lemma TapeStep(tape: seq<Token>, cut: set<int>, lo: int, hi: int, now: seq<Token>)
    requires 0 <= lo < hi <= |tape| && lo in cut && forall p | lo < p < hi :: p !in cut
    requires now == tape[..hi] + Keep(tape, cut, hi, |tape|)
    ensures lo < |now| && now[..lo] + now[lo + 1..] == tape[..lo] + Keep(tape, cut, lo, |tape|)
  {
    KeepFrom(tape, cut, lo, hi, |tape|);
    assert now[..lo] == tape[..lo];
    assert now[lo + 1..] == tape[lo + 1..hi] + Keep(tape, cut, hi, |tape|);
  }

  lemma InsertStep(tape: seq<Token>, cut: set<int>, lo: int, hi: int, pointer: int, insertAt: int)
    requires 0 <= lo < hi <= |tape| && lo in cut && forall p | lo < p < hi :: p !in cut
    requires pointer in cut && pointer < |tape| && 0 <= pointer && insertAt == InsertAt(tape, cut, hi, pointer)
    ensures InsertAt(tape, cut, lo, pointer) == if lo < insertAt then insertAt - 1 else insertAt
  {
    if lo < pointer {
      KeepFrom(tape, cut, lo, hi, pointer);
    }
  }

  /**
    The word at the pointer and every candidate position go; the results take the
    word's place; everything else keeps its order; the pointer is on the first result.
  */
  method SpliceCheckResults(e: Engine, positions: seq<int>, results: seq<Token>)
    requires 0 <= e.pointer < |e.tape|
    requires forall p | p in positions :: 0 <= p < |e.tape|
    modifies e
    ensures e.nextId == old(e.nextId)
    ensures
      var cut := {old(e.pointer)} + Elements(positions);
      && e.tape == Keep(old(e.tape), cut, 0, old(e.pointer)) + results
                 + Keep(old(e.tape), cut, old(e.pointer), |old(e.tape)|)
      && e.pointer == |Keep(old(e.tape), cut, 0, old(e.pointer))|
  {
    var indices, n := CutPositions(e.pointer, positions);
    var insertAt := RemoveFromTop(e, indices, n, {e.pointer} + Elements(positions));
    e.Splice(insertAt, 0, results);
    e.pointer := insertAt;
  }

  /** The least position not yet removed when uniq[..i] is still to do. */
  function Bound(uniq: seq<int>, i: int, end: int): int
    requires 0 <= i <= |uniq|
  {
    if i < |uniq| then uniq[i] else end
  }

  ghost function InsertAt(tape: seq<Token>, cut: set<int>, bound: int, pointer: int): int
    requires 0 <= bound <= |tape| && 0 <= pointer < |tape|
  {
    if bound <= pointer then bound + |Keep(tape, cut, bound, pointer)| else pointer
  }

  lemma GapIsKept(uniq: seq<int>, cut: set<int>, i: int, end: int)
    requires StrictlySorted(uniq) && Elements(uniq) == cut && 0 <= i < |uniq|
    ensures forall p | uniq[i] < p < Bound(uniq, i + 1, end) :: p !in cut
  {
    forall p | uniq[i] < p < Bound(uniq, i + 1, end) ensures p !in cut {
      if p in cut {
        var k :| 0 <= k < |uniq| && uniq[k] == p;
      }
    }
  }

  lemma FirstCut(uniq: seq<int>, cut: set<int>)
    requires StrictlySorted(uniq) && Elements(uniq) == cut && uniq != []
    ensures forall p | p < uniq[0] :: p !in cut
    ensures forall p | p in cut :: uniq[0] <= p
  {
    forall p | p in cut ensures uniq[0] <= p {
      var k :| 0 <= k < |uniq| && uniq[k] == p;
    }
  }
}
