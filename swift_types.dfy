/**
 * The two Swift standard-library types the model needs: the fixed-width
 * integer `Int16`, in which Core Data stores an item's priority, and
 * `Optional`, the result of a failable initialiser.
 */
module SwiftTypes {

  /** Swift's `Int16`. */
  newtype int16 = x: int | -0x8000 <= x < 0x8000

  /** Swift's `Optional`. */
  datatype Option<T> = None | Some(value: T)
}
