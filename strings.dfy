/** The one string operation the comparators use: Go's strings.Contains. */
module Strings {

  /** `sub` occurs in `s` starting at position `i`. */
  predicate OccursAt(s: string, sub: string, i: nat)
  {
    i + |sub| <= |s| && s[i..i + |sub|] == sub
  }

  /** strings.Contains: `sub` occurs in `s` at some position. */
  predicate Contains(s: string, sub: string)
  {
    exists i: nat | i <= |s| :: OccursAt(s, sub, i)
  }

  /** A string without a capital E has no "Event" in it. */
  lemma NoEvent(field: string)
    requires forall i :: 0 <= i < |field| ==> field[i] != 'E'
    ensures !Contains(field, "Event")
  {
    forall i: nat | i <= |field|
      ensures !OccursAt(field, "Event", i)
    {
      if i + 5 <= |field| {
        assert field[i..i + 5][0] == field[i];
      }
    }
  }
}
