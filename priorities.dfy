/**
 * The `Priority` enumeration of Todoey/Extensions.swift: an `Int16`-backed,
 * `CaseIterable` enum with the cases high = 1, medium = 2, low = 3, declared
 * in that order. Items store the raw `Int16`, not the enum.
 */
module Priorities {
  import opened SwiftTypes

  datatype Priority = High | Medium | Low

  /** `Priority.rawValue`. */
  function RawValue(p: Priority): (r: int16)
    ensures 1 <= r <= 3
  {
    match p
    case High => 1
    case Medium => 2
    case Low => 3
  }

  /** The failable initialiser `Priority(rawValue:)`. */
  function FromRawValue(r: int16): (p: Option<Priority>)
    ensures p.Some? <==> 1 <= r <= 3
  {
    if r == 1 then Some(High)
    else if r == 2 then Some(Medium)
    else if r == 3 then Some(Low)
    else None
  }

  /** `Priority.allCases`: the cases in declaration order, which is ascending raw-value order. */
  function AllCases(): (r: seq<Priority>)
    ensures |r| == 3
    ensures forall i :: 0 <= i < |r| ==> RawValue(r[i]) as int == i + 1
  {
    [High, Medium, Low]
  }

  /** Constructing from a case's raw value gives that case back. */
  lemma RawValueRoundTrip(p: Priority)
    ensures FromRawValue(RawValue(p)) == Some(p)
  {
  }

  /** The other direction: a raw value that names a case is that case's raw value. */
  lemma FromRawValueRoundTrip(r: int16, p: Priority)
    requires FromRawValue(r) == Some(p)
    ensures RawValue(p) == r
  {
  }

  /** No two cases share a raw value. */
  lemma RawValueInjective(p: Priority, q: Priority)
    requires RawValue(p) == RawValue(q)
    ensures p == q
  {
  }

  /** `allCases` lists every case exactly once, so the picker offers three rows. */
  lemma AllCasesEnumerates()
    ensures |AllCases()| == 3
    ensures forall p: Priority :: p in AllCases()
    ensures forall i, j :: 0 <= i < j < |AllCases()| ==> AllCases()[i] != AllCases()[j]
  {
    forall p: Priority ensures p in AllCases() {
      match p
      case High => assert AllCases()[0] == p;
      case Medium => assert AllCases()[1] == p;
      case Low => assert AllCases()[2] == p;
    }
  }

  /**
   * The raw value stored when the priority picker's row `row` is selected
   * (`Priority.allCases[row].rawValue`): row i stores i + 1, always a
   * valid case.
   */
  function PickerSelection(row: nat): (raw: int16)
    requires row < |AllCases()|
    ensures raw as int == row + 1
    ensures FromRawValue(raw).Some?
  {
    RawValue(AllCases()[row])
  }

  /** Ascending raw value ranks high before medium before low. */
  lemma AscendingRawValueRanksByUrgency(p: Priority, q: Priority)
    ensures RawValue(p) < RawValue(q) <==> (p == High && q != High) || (p == Medium && q == Low)
  {
  }
}
