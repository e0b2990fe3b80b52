/** The shared "next unit of work" counter of the row and block strategies.
    The semaphore around it makes a claim one atomic step, so a claim is a
    single method call here. */
module SharedCursor {

  class Cursor {
    /** Index of the next unit to hand out; it starts at 0 and only grows. */
    var next: nat

    constructor ()
      ensures next == 0
    {
      next := 0;
    }

    /** Reads the current index and advances the cursor by exactly one,
        whether or not the index still denotes a unit of work. */
    method Claim() returns (u: nat)
      modifies this
      ensures u == old(next)
      ensures next == old(next) + 1
    {
      u := next;
      next := next + 1;
    }
  }

  /** The claim phase of a run over `limit` units: a fresh cursor is claimed
      from until a claim reaches `limit`, and `claimed` lists the units
      handed out. Every unit is handed out exactly once, in increasing order. */
  method ClaimUntil(limit: nat) returns (claimed: seq<nat>)
    ensures |claimed| == limit
    ensures forall t :: 0 <= t < limit ==> claimed[t] == t
  {
    var cursor := new Cursor();
    claimed := [];
    while true
      invariant cursor.next == |claimed| <= limit
      invariant forall t :: 0 <= t < |claimed| ==> claimed[t] == t
      decreases limit - |claimed|
    {
      var u := cursor.Claim();
      if u >= limit {
        break;
      }
      claimed := claimed + [u];
    }
  }
}
