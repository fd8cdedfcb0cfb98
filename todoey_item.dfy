/**
 * The `TodoeyItem` managed object (TodoeyItem+CoreDataProperties.swift) as a
 * value: its six stored attributes plus the object's identity, which Core
 * Data provides implicitly and which the model makes explicit as `id`.
 */
module TodoeyItems {
  import opened SwiftTypes

  /** Identity of a managed `TodoeyItem` object. */
  type ItemId = nat

  /** Identity of the owning `TodoeySection` object. */
  type SectionId = nat

  /** `Date`, kept opaque: the model never looks inside it. */
  datatype Timestamp = Timestamp(secondsSinceReferenceDate: int)

  datatype Item = Item(
    id: ItemId,
    name: string,
    desc: string,
    priority: int16,
    isCompleted: bool,
    createdAt: Timestamp,
    section: SectionId
  )
}
