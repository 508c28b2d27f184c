/**
  The engine's token tape as the check-mode recovery sees it (core/go/tape.go):
  a mutable sequence with total edit operations.
*/
module Tape {

  datatype Token =
    | OpenParen
    | CloseParen
    | End
    | Forward
    | Mark
    | Move
    | ReturnCheck
    | DefCleanup
    | Internal
    | Word(name: string)
    | Datum(id: nat, dynamic: bool, quoted: bool, fnCarrier: bool, fnValue: bool)
  {
    predicate IsParen() { OpenParen? || CloseParen? }

    /** IsRecordableLiteral: user-visible data, as opposed to engine scaffolding. */
    predicate Recordable() { Word? || Datum? }
  }

  class Engine {
    var tape: seq<Token>
    var pointer: int
    const checkMode: bool
    var nextId: nat

    constructor (tape: seq<Token>, pointer: int, checkMode: bool)
      ensures this.tape == tape && this.pointer == pointer && this.checkMode == checkMode
    {
      this.tape, this.pointer, this.checkMode, this.nextId := tape, pointer, checkMode, 0;
    }

    /** Out-of-range writes are ignored. */
    method Set(i: int, v: Token)
      modifies this`tape
      ensures tape == if 0 <= i < |old(tape)| then old(tape)[i := v] else old(tape)
    {
      if 0 <= i < |tape| {
        tape := tape[i := v];
      }
    }

    /** Out-of-range removals are ignored. */
    method Remove(i: int)
      modifies this`tape
      ensures tape == if 0 <= i < |old(tape)| then old(tape)[..i] + old(tape)[i + 1..] else old(tape)
    {
      if 0 <= i < |tape| {
        tape := tape[..i] + tape[i + 1..];
      }
    }

    /** Replaces `count` tokens from `i`; both are clamped to the tape. */
    method Splice(i: int, count: int, repl: seq<Token>)
      modifies this`tape
      ensures
        var at := Clamp(i, |old(tape)|);
        var n := Clamp(count, |old(tape)| - at);
        tape == old(tape)[..at] + repl + old(tape)[at + n..]
    {
      var at := Clamp(i, |tape|);
      var n := Clamp(count, |tape| - at);
      tape := tape[..at] + repl + tape[at + n..];
    }
  }

  function Clamp(i: int, max: nat): (r: nat)
    ensures r <= max
    ensures 0 <= i <= max ==> r == i
  {
    if i < 0 then 0 else if i > max then max else i
  }
}
