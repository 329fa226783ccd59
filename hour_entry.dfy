/**
 * The immutable shift record of src/HourEntry.ts. Instants are minutes
 * counted from midnight starting day 0 of the `Calendar` module.
 */
module Entries {

  datatype HourEntry = HourEntry(name: string, identifier: nat, start: nat, end: nat)

  /**
   * `isEqual`: same name, same identifier, same start and end instants,
   * which is structural equality of the record.
   */
  predicate IsEqual(a: HourEntry, b: HourEntry)
    ensures IsEqual(a, b) <==> a == b
  {
    a.name == b.name && a.identifier == b.identifier && a.start == b.start && a.end == b.end
  }

  lemma IsEqualReflexive(a: HourEntry)
    ensures IsEqual(a, a)
  {
  }

  lemma IsEqualSymmetric(a: HourEntry, b: HourEntry)
    ensures IsEqual(a, b) <==> IsEqual(b, a)
  {
  }

  lemma IsEqualTransitive(a: HourEntry, b: HourEntry, c: HourEntry)
    requires IsEqual(a, b) && IsEqual(b, c)
    ensures IsEqual(a, c)
  {
  }
}
