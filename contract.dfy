/**
 * The contract of the pets table: query-type constants, the gender values,
 * the writable columns, the shape of a row, and the exceptions the provider
 * raises.
 */
module PetContract {
  import opened Wrappers

  /** Query types handed to validation. */
  const QueryTypeInsert: int := 10
  const QueryTypeUpdate: int := 11

  /** The three admissible gender codes. */
  const GenderUnknown: int := 0
  const GenderMale: int := 1
  const GenderFemale: int := 2

  predicate IsGender(g: int) {
    g == GenderUnknown || g == GenderMale || g == GenderFemale
  }

  /** The columns a caller writes; the id column is assigned by the store. */
  datatype Column = Name | Breed | Gender | Weight

  /** What a ContentValues slot holds: a string or an integer. */
  datatype Value = Text(text: string) | Whole(n: int)

  /**
   * ContentValues: a present key maps to a value or to an explicit null
   * (None); an absent key is not in the map.
   */
  type ContentValues = map<Column, Option<Value>>

  /** One row of the pets table; its id is the row's key in the table. */
  datatype Pet = Pet(name: Value, breed: Option<Value>, gender: int, weight: int)

  /** Why an IllegalArgumentException is thrown. */
  datatype Reason =
    | UnsupportedUri
    | MissingName
    | InvalidGender(gender: int)
    | NegativeWeight(weight: int)

  /** The exceptions the provider lets escape. */
  datatype Error =
    | IllegalArgument(reason: Reason)
    | IllegalState
    | NullPointer(column: Column)
}
