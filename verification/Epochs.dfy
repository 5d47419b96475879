/** Ownership epochs: every writer draws its own from a process-wide counter, and 0 is nobody's. */
module Epochs {

  class EpochCounter {
    var last: nat

    constructor()
      ensures last == 0
    {
      last := 0;
    }

    method Add() returns (e: nat)
      modifies this
      ensures e == last == old(last) + 1
    {
      last := last + 1;
      e := last;
    }
  }

  /** The epoch has been drawn: it is the one the writer had, or a new one. */
  ghost predicate Drawn(e: nat, last: nat, e': nat, last': nat)
  {
    e' != 0 && if e != 0 then e' == e && last' == last else e' == last' == last + 1
  }
}
