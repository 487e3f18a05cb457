/**
 * What each provider operation does to the pets table, stated on values.
 * A Store is the table (id to row), the next id the autoincrement key will
 * hand out, and the log of addresses passed to notifyChange. An operation
 * either throws (Err, and nothing is written) or returns a Step: the store
 * afterwards and the value returned to the caller.
 */
module PetStore {
  import opened Wrappers
  import opened PetContract
  import opened Locators
  import opened Validation

  datatype Store = Store(rows: map<nat, Pet>, nextId: nat, notified: seq<Locator>)

  datatype Step<T> = Step(post: Store, value: T)

  /** The rows a query returns and the address the cursor watches for changes. */
  datatype Cursor = Cursor(rows: map<nat, Pet>, notificationUri: Locator)

  /** A stored row obeys the constraints validation enforces. */
  predicate PetOk(p: Pet) {
    IsGender(p.gender) && p.weight >= 0
  }

  /**
   * The store's invariant: ids start at 1 and are below the next id the
   * autoincrement key will assign, and every row obeys the constraints.
   */
  predicate Valid(s: Store) {
    && 1 <= s.nextId
    && forall id :: id in s.rows ==> 1 <= id < s.nextId && PetOk(s.rows[id])
  }

  /** A freshly created database: no rows, the first id is 1, nothing notified. */
  const Empty: Store := Store(map[], 1, [])

  /** The rows a selection picks. */
  function Selected(rows: map<nat, Pet>, sel: Selection): map<nat, Pet> {
    map id | id in rows && sel(id, rows[id]) :: rows[id]
  }

  /** query: the rows the (possibly forced) selection picks; unknown addresses throw. */
  function QueryOp(s: Store, loc: Locator, sel: Selection): (r: Result<Cursor, Error>)
    ensures r.Err? <==> loc.Unknown?
    ensures r.Err? ==> r.error == IllegalArgument(UnsupportedUri)
    ensures r.Ok? ==> r.value.notificationUri == loc
    ensures r.Ok? ==> forall id :: id in r.value.rows <==>
      id in s.rows && (if loc.Item? then id == loc.id else sel(id, s.rows[id]))
    ensures r.Ok? ==> forall id :: id in r.value.rows ==> r.value.rows[id] == s.rows[id]
  {
    match loc
    case Unknown => Err(IllegalArgument(UnsupportedUri))
    case _ => Ok(Cursor(Selected(s.rows, ForcedSelection(loc, sel)), loc))
  }

  /** The row an accepted insert writes: every column comes from the values. */
  function NewPet(values: ContentValues): (p: Pet)
    requires Acceptable(values, true)
    ensures PetOk(p)
    ensures Some(p.name) == Lookup(values, Name)
    ensures p.breed == Lookup(values, Breed)
    ensures Some(Whole(p.gender)) == Lookup(values, Gender)
    ensures Some(Whole(p.weight)) == Lookup(values, Weight)
  {
    assert ColumnFault(values, Name).None? && ColumnFault(values, Gender).None?
      && ColumnFault(values, Weight).None?;
    Pet(Lookup(values, Name).value, Lookup(values, Breed),
        AsInteger(Lookup(values, Gender)).value, AsInteger(Lookup(values, Weight)).value)
  }

  /** A row after an accepted update: present columns replaced, absent ones kept. */
  function Patch(p: Pet, values: ContentValues): (q: Pet)
    requires Acceptable(values, false)
    ensures PetOk(p) ==> PetOk(q)
    ensures Name !in values ==> q.name == p.name
    ensures Breed !in values ==> q.breed == p.breed
    ensures Gender !in values ==> q.gender == p.gender
    ensures Weight !in values ==> q.weight == p.weight
    ensures Name in values ==> Some(q.name) == values[Name]
    ensures Breed in values ==> q.breed == values[Breed]
    ensures Gender in values ==> Some(Whole(q.gender)) == values[Gender]
    ensures Weight in values ==> Some(Whole(q.weight)) == values[Weight]
  {
    assert Name in values ==> ColumnFault(values, Name).None?;
    assert Gender in values ==> ColumnFault(values, Gender).None?;
    assert Weight in values ==> ColumnFault(values, Weight).None?;
    Pet(if Name in values then Lookup(values, Name).value else p.name,
        if Breed in values then values[Breed] else p.breed,
        if Gender in values then AsInteger(Lookup(values, Gender)).value else p.gender,
        if Weight in values then AsInteger(Lookup(values, Weight)).value else p.weight)
  }

  /**
   * insertPet: validate every column; on a non-empty value set write a new
   * row under the next id and return the item address, otherwise return the
   * address unchanged.
   */
  function InsertPet(s: Store, uri: Locator, values: ContentValues): (r: Result<Step<Locator>, Error>)
    ensures r.Ok? <==> Acceptable(values, true)
    ensures r.Err? ==> r.error == Validate(values, QueryTypeInsert).error
    ensures r.Ok? ==> r.value.value == Item(s.nextId)
    ensures r.Ok? ==>
      r.value.post == Store(s.rows[s.nextId := NewPet(values)], s.nextId + 1, s.notified)
  {
    match Validate(values, QueryTypeInsert)
    case Err(e) => Err(e)
    case Ok(nonEmpty) =>
      if nonEmpty then
        Ok(Step(Store(s.rows[s.nextId := NewPet(values)], s.nextId + 1, s.notified), Item(s.nextId)))
      else
        Ok(Step(s, uri))
  }

  /**
   * insert: only the collection address is accepted; after insertPet returns
   * the collection address is notified.
   */
  function InsertOp(s: Store, loc: Locator, values: ContentValues): (r: Result<Step<Locator>, Error>)
    ensures loc != Collection ==> r == Err(IllegalArgument(UnsupportedUri))
    ensures loc == Collection ==> (r.Ok? <==> Acceptable(values, true))
    ensures loc == Collection && r.Err? ==> r.error == Validate(values, QueryTypeInsert).error
    ensures r.Ok? ==> r.value.value == Item(s.nextId)
    ensures r.Ok? ==>
      r.value.post == Store(s.rows[s.nextId := NewPet(values)], s.nextId + 1, s.notified + [Collection])
  {
    match loc
    case Collection => (
      match InsertPet(s, loc, values)
      case Err(e) => Err(e)
      case Ok(st) => Ok(Step(st.post.(notified := st.post.notified + [loc]), st.value)))
    case _ => Err(IllegalArgument(UnsupportedUri))
  }

  /**
   * updatePet: patch every selected row; return how many rows the selection
   * matched, and notify the address only when that count is non-zero.
   */
  function UpdatePet(s: Store, uri: Locator, values: ContentValues, sel: Selection): (r: Step<int>)
    requires Acceptable(values, false)
    ensures r.value == |Selected(s.rows, sel)|
    ensures r.post.rows.Keys == s.rows.Keys && r.post.nextId == s.nextId
    ensures forall id :: id in s.rows && !sel(id, s.rows[id]) ==> r.post.rows[id] == s.rows[id]
    ensures forall id :: id in s.rows && sel(id, s.rows[id]) ==> r.post.rows[id] == Patch(s.rows[id], values)
    ensures r.post.notified == if r.value != 0 then s.notified + [uri] else s.notified
  {
    var matched := Selected(s.rows, sel);
    var rows := map id | id in s.rows :: if id in matched then Patch(s.rows[id], values) else s.rows[id];
    Step(Store(rows, s.nextId, if |matched| != 0 then s.notified + [uri] else s.notified), |matched|)
  }

  /**
   * update: validate the present columns first (an empty value set returns
   * -1), then dispatch on the address; an item address forces the selection.
   */
  function UpdateOp(s: Store, loc: Locator, values: ContentValues, sel: Selection): (r: Result<Step<int>, Error>)
    ensures r.Ok? <==> Acceptable(values, false) && (values == map[] || !loc.Unknown?)
    ensures r.Ok? && values == map[] ==> r.value == Step(s, -1)
    ensures r.Err? ==>
      r.error == (if Validate(values, QueryTypeUpdate).Err? then Validate(values, QueryTypeUpdate).error
                  else IllegalArgument(UnsupportedUri))
    ensures r.Ok? && values != map[] ==>
      var matched, post := Selected(s.rows, ForcedSelection(loc, sel)), r.value.post;
      && r.value.value == |matched|
      && post.rows.Keys == s.rows.Keys
      && post.nextId == s.nextId
      && (forall id :: id in s.rows && id !in matched ==> post.rows[id] == s.rows[id])
      && (forall id :: id in matched ==> post.rows[id] == Patch(s.rows[id], values))
      && post.notified == if |matched| != 0 then s.notified + [loc] else s.notified
  {
    match Validate(values, QueryTypeUpdate)
    case Err(e) => Err(e)
    case Ok(nonEmpty) =>
      if !nonEmpty then Ok(Step(s, -1))
      else if loc.Unknown? then Err(IllegalArgument(UnsupportedUri))
      else Ok(UpdatePet(s, loc, values, ForcedSelection(loc, sel)))
  }

  /**
   * deletePet: remove every selected row; return how many were removed and
   * notify the address only when that count is non-zero.
   */
  function DeletePet(s: Store, uri: Locator, sel: Selection): (r: Step<nat>)
    ensures r.value == |Selected(s.rows, sel)|
    ensures forall id :: id in r.post.rows <==> id in s.rows && !sel(id, s.rows[id])
    ensures forall id :: id in r.post.rows ==> r.post.rows[id] == s.rows[id]
    ensures r.post.nextId == s.nextId
    ensures r.post.notified == if r.value != 0 then s.notified + [uri] else s.notified
  {
    var matched := Selected(s.rows, sel);
    Step(Store(s.rows - matched.Keys, s.nextId, if |matched| != 0 then s.notified + [uri] else s.notified), |matched|)
  }

  /** delete: dispatch on the address; an item address forces the selection. */
  function DeleteOp(s: Store, loc: Locator, sel: Selection): (r: Result<Step<nat>, Error>)
    ensures r.Err? <==> loc.Unknown?
    ensures r.Err? ==> r.error == IllegalArgument(UnsupportedUri)
    ensures r.Ok? ==>
      var matched, post := Selected(s.rows, ForcedSelection(loc, sel)), r.value.post;
      && r.value.value == |matched|
      && post.rows.Keys == s.rows.Keys - matched.Keys
      && (forall id :: id in post.rows ==> post.rows[id] == s.rows[id])
      && post.nextId == s.nextId
      && post.notified == if |matched| != 0 then s.notified + [loc] else s.notified
  {
    match loc
    case Unknown => Err(IllegalArgument(UnsupportedUri))
    case _ => Ok(DeletePet(s, loc, ForcedSelection(loc, sel)))
  }

  /** What the caller receives: the returned value or the exception. */
  function Response<T>(o: Result<Step<T>, Error>): Result<T, Error> {
    match o
    case Ok(st) => Ok(st.value)
    case Err(e) => Err(e)
  }

  /** The store after the call: unchanged when it threw. */
  function After<T>(s: Store, o: Result<Step<T>, Error>): Store {
    match o
    case Ok(st) => st.post
    case Err(_) => s
  }
}
