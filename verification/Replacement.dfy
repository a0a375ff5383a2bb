/** The tag of unused slots, and marks of recently used slots, from which the slot to replace is chosen. */
module Replacement {

  const INVALID: nat := 0xffff_ffff_ffff_ffff

  predicate AllSet(marks: seq<bool>) {
    forall k | 0 <= k < |marks| :: marks[k]
  }

  /** The first clear mark; the first slot when all are set. */
  function FirstClear(marks: seq<bool>): (k: nat)
    requires marks != []
    ensures k < |marks|
    ensures !AllSet(marks) ==> !marks[k] && forall j | 0 <= j < k :: marks[j]
    ensures AllSet(marks) ==> k == 0
  {
    if AllSet(marks) then 0
    else if !marks[0] then 0
    else
      assert marks == [true] + marks[1..];
      1 + FirstClear(marks[1..])
  }
}
