/**
 * Validation of submitted values. An insert reads every column whether or
 * not it was supplied; an update reads only the columns present. A failed
 * read throws; a successful validation reports whether any value was given.
 */
module Validation {
  import opened Wrappers
  import opened PetContract

  /** True exactly for the insert query type 10, so never for an update query. */
  function IsInsertQuery(queryType: int): (r: bool)
    ensures r <==> queryType == 10
    ensures r ==> !IsUpdateQuery(queryType)
  {
    queryType == QueryTypeInsert
  }

  /** Declared beside IsInsertQuery; nothing calls it. */
  function IsUpdateQuery(queryType: int): bool {
    queryType == QueryTypeUpdate
  }

  /** ContentValues.get: an absent key reads as null. */
  function Lookup(values: ContentValues, c: Column): Option<Value> {
    if c in values then values[c] else None
  }

  /**
   * ContentValues.getAsInteger: the integer in the slot; null for an absent
   * key, an explicit null, or a text value (text is not parsed here).
   */
  function AsInteger(v: Option<Value>): Option<int> {
    match v
    case Some(Whole(n)) => Some(n)
    case _ => None
  }

  /** Whether validation reads column c for this query type. */
  predicate Checked(values: ContentValues, queryType: int, c: Column) {
    IsInsertQuery(queryType) || c in values
  }

  /**
   * The exception that reading column c raises, if any: a null name, a null
   * integer unboxed into `int`, a gender outside the three codes, a negative
   * weight. A null breed is only logged.
   */
  function ColumnFault(values: ContentValues, c: Column): Option<Error> {
    match c
    case Name =>
      if Lookup(values, Name).None? then Some(IllegalArgument(MissingName)) else None
    case Breed => None
    case Gender => (
      match AsInteger(Lookup(values, Gender))
      case None => Some(NullPointer(Gender))
      case Some(g) => if IsGender(g) then None else Some(IllegalArgument(InvalidGender(g))))
    case Weight =>
      match AsInteger(Lookup(values, Weight))
      case None => Some(NullPointer(Weight))
      case Some(w) => if w < 0 then Some(IllegalArgument(NegativeWeight(w))) else None
  }

  /** Every column that is read (all of them on insert) reads without fault. */
  predicate Acceptable(values: ContentValues, insert: bool) {
    forall c :: (insert || c in values) ==> ColumnFault(values, c).None?
  }

  /**
   * validation(contentValues, queryType): the columns are read in the order
   * name, breed, gender, weight and the first fault is thrown; otherwise the
   * result is whether the value set is non-empty.
   */
  function Validate(values: ContentValues, queryType: int): (r: Result<bool, Error>)
    ensures r.Ok? <==> Acceptable(values, IsInsertQuery(queryType))
    ensures r.Ok? ==> (r.value <==> |values| > 0)
    ensures r.Err? ==>
      exists c :: Checked(values, queryType, c) && ColumnFault(values, c) == Some(r.error)
    ensures r.Err? && Checked(values, queryType, Name) && Lookup(values, Name).None? ==>
      r.error == IllegalArgument(MissingName)
    ensures Checked(values, queryType, Name) && ColumnFault(values, Name).Some? ==>
      r == Err(ColumnFault(values, Name).value)
    ensures !(Checked(values, queryType, Name) && ColumnFault(values, Name).Some?) &&
            Checked(values, queryType, Gender) && ColumnFault(values, Gender).Some? ==>
      r == Err(ColumnFault(values, Gender).value)
    ensures !(Checked(values, queryType, Name) && ColumnFault(values, Name).Some?) &&
            !(Checked(values, queryType, Gender) && ColumnFault(values, Gender).Some?) &&
            Checked(values, queryType, Weight) && ColumnFault(values, Weight).Some? ==>
      r == Err(ColumnFault(values, Weight).value)
  {
    if Checked(values, queryType, Name) && ColumnFault(values, Name).Some? then
      Err(ColumnFault(values, Name).value)
    // reading the breed only logs a null, so it never throws
    else if Checked(values, queryType, Gender) && ColumnFault(values, Gender).Some? then
      Err(ColumnFault(values, Gender).value)
    else if Checked(values, queryType, Weight) && ColumnFault(values, Weight).Some? then
      Err(ColumnFault(values, Weight).value)
    else
      Ok(|values| > 0)
  }
}
