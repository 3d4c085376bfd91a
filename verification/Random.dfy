/**
 * The random source. Every draw is an arbitrary value of the range it is drawn from, so what is
 * proved of a generator holds for every seed.
 */
module Randoms {
  import opened Strings

  datatype Fault =
    | QuantifierCapped(low: nat, high: nat)
    | InvalidArray(reason: Reason)

  datatype Reason = CappedLength | ProhibitedItems | NotUnique | ContainsConflict

  class Random {
    var error: Option<Fault>

    constructor ()
      ensures error == None
    {
      error := None;
    }

    /** Only the first error is kept. */
    method SetError(fault: Fault)
      modifies this
      ensures error == if old(error).None? then Some(fault) else old(error)
    {
      if error.None? {
        error := Some(fault);
      }
    }

    method Int(min: int, max: int) returns (n: int)
      ensures if min >= max then n == min else min <= n <= max
    {
      if min >= max {
        return min;
      }
      n :| min <= n <= max;
    }

    method PickIndex(len: nat) returns (k: nat)
      ensures if len == 0 then k == 0 else k < len
    {
      if len == 0 {
        return 0;
      }
      k :| k < len;
    }

    method PickChar(chars: set<char>) returns (c: char)
      requires chars != {}
      ensures c in chars
    {
      c :| c in chars;
    }
  }
}
