/** What the provider promises, stated as lemmas over the operations of PetStore. */
module Properties {
  import opened Wrappers
  import opened PetContract
  import opened Locators
  import opened Validation
  import opened PetStore

  // ---------------------------------------------------------------------
  // Address dispatch

  /**
   * An address matching neither registered pattern fails every operation:
   * query, insert and delete throw IllegalArgument, getType throws
   * IllegalState. Update validates first, so it either throws or, for an
   * empty value set, returns -1 without touching the store.
   */
  lemma UnknownLocatorFails(s: Store, values: ContentValues, sel: Selection)
    ensures QueryOp(s, Unknown, sel) == Err(IllegalArgument(UnsupportedUri))
    ensures InsertOp(s, Unknown, values) == Err(IllegalArgument(UnsupportedUri))
    ensures DeleteOp(s, Unknown, sel) == Err(IllegalArgument(UnsupportedUri))
    ensures GetType(Unknown) == Err(IllegalState)
    ensures UpdateOp(s, Unknown, values, sel).Err? || UpdateOp(s, Unknown, values, sel) == Ok(Step(s, -1))
  {
  }

  /** Insert accepts only the collection address; an item address throws. */
  lemma InsertRejectsItemAddress(s: Store, id: nat, values: ContentValues)
    ensures InsertOp(s, Item(id), values) == Err(IllegalArgument(UnsupportedUri))
  {
  }

  /** getType, query and delete agree on which addresses are supported. */
  lemma SupportedAddressesAgree(s: Store, loc: Locator, sel: Selection)
    ensures GetType(loc).Ok? <==> QueryOp(s, loc, sel).Ok?
    ensures GetType(loc).Ok? <==> DeleteOp(s, loc, sel).Ok?
  {
  }

  // ---------------------------------------------------------------------
  // Validation

  /** Insert with a null or missing name throws, whatever the other columns hold. */
  lemma InsertRejectsMissingName(s: Store, values: ContentValues)
    requires Lookup(values, Name).None?
    ensures InsertOp(s, Collection, values) == Err(IllegalArgument(MissingName))
  {
  }

  /** Insert with a named pet and a gender outside {0, 1, 2} throws. */
  lemma InsertRejectsInvalidGender(s: Store, values: ContentValues, g: int)
    requires Lookup(values, Name).Some?
    requires Lookup(values, Gender) == Some(Whole(g)) && !IsGender(g)
    ensures InsertOp(s, Collection, values) == Err(IllegalArgument(InvalidGender(g)))
  {
  }

  /** Insert with a named pet, a valid gender and a negative weight throws. */
  lemma InsertRejectsNegativeWeight(s: Store, values: ContentValues, w: int)
    requires Lookup(values, Name).Some?
    requires AsInteger(Lookup(values, Gender)).Some? && IsGender(AsInteger(Lookup(values, Gender)).value)
    requires Lookup(values, Weight) == Some(Whole(w)) && w < 0
    ensures InsertOp(s, Collection, values) == Err(IllegalArgument(NegativeWeight(w)))
  {
  }

  /**
   * Insert reads gender and weight even when they are absent: the null they
   * read as cannot be unboxed, so the column defaults are never used.
   */
  lemma InsertRequiresGenderAndWeight(s: Store, values: ContentValues)
    requires Lookup(values, Name).Some?
    ensures Gender !in values ==> InsertOp(s, Collection, values) == Err(NullPointer(Gender))
    ensures Gender in values && Weight !in values && ColumnFault(values, Gender).None? ==>
      InsertOp(s, Collection, values) == Err(NullPointer(Weight))
  {
  }

  /** Only a null name is rejected: an empty text name is accepted. */
  lemma InsertAcceptsEmptyName(s: Store, breed: Option<Value>, g: int, w: int)
    requires IsGender(g) && w >= 0
    ensures var values := map[Name := Some(Text("")), Breed := breed, Gender := Some(Whole(g)), Weight := Some(Whole(w))];
      InsertOp(s, Collection, values).Ok?
  {
  }

  /**
   * Update validates exactly the columns present: it accepts a value set
   * iff every present column reads without fault, and never consults an
   * absent column.
   */
  lemma UpdateChecksOnlyPresent(values: ContentValues)
    ensures Validate(values, QueryTypeUpdate).Ok? <==>
      forall c :: c in values ==> ColumnFault(values, c).None?
  {
  }

  /** Dropping a column from an accepted update leaves it accepted. */
  lemma UpdateAcceptanceSurvivesDroppingColumn(values: ContentValues, c: Column)
    requires Validate(values, QueryTypeUpdate).Ok?
    ensures Validate(values - {c}, QueryTypeUpdate).Ok?
  {
  }

  /** The breed, null or not, never decides whether validation throws. */
  lemma BreedNeverFails(values: ContentValues, queryType: int, breed: Option<Value>)
    ensures Validate(values[Breed := breed], queryType).Ok? <==> Validate(values - {Breed}, queryType).Ok?
  {
    var withBreed, without := values[Breed := breed], values - {Breed};
    assert Lookup(withBreed, Name) == Lookup(without, Name);
    assert Lookup(withBreed, Gender) == Lookup(without, Gender);
    assert Lookup(withBreed, Weight) == Lookup(without, Weight);
    assert Acceptable(withBreed, IsInsertQuery(queryType)) <==> Acceptable(without, IsInsertQuery(queryType));
  }

  // ---------------------------------------------------------------------
  // Update

  /** An update with no values returns -1 and changes nothing, on any address. */
  lemma EmptyUpdateIsNoOp(s: Store, loc: Locator, sel: Selection)
    ensures UpdateOp(s, loc, map[], sel) == Ok(Step(s, -1))
  {
  }

  /** The selection by one id picks that row if it exists and nothing else. */
  lemma SelectedById(rows: map<nat, Pet>, id: nat)
    ensures Selected(rows, IdSelection(id)) == if id in rows then map[id := rows[id]] else map[]
    ensures |Selected(rows, IdSelection(id))| == if id in rows then 1 else 0
  {
  }

  /**
   * On an item address the caller's selection is replaced, not merged: an
   * accepted non-empty update patches the row with that id, if there is one,
   * and no other row; it reports 1 and notifies, or reports 0 and does not.
   */
  lemma ItemUpdateTouchesOnlyThatRow(s: Store, id: nat, values: ContentValues, sel: Selection)
    requires Acceptable(values, false) && values != map[]
    ensures id in s.rows ==>
      UpdateOp(s, Item(id), values, sel) ==
      Ok(Step(Store(s.rows[id := Patch(s.rows[id], values)], s.nextId, s.notified + [Item(id)]), 1))
    ensures id !in s.rows ==> UpdateOp(s, Item(id), values, sel) == Ok(Step(s, 0))
  {
    SelectedById(s.rows, id);
    var st := PetStore.UpdatePet(s, Item(id), values, IdSelection(id));
    if id in s.rows {
      assert st.post.rows == s.rows[id := Patch(s.rows[id], values)];
    } else {
      assert st.post.rows == s.rows;
    }
  }

  /** An item query returns that row if it exists and nothing else. */
  lemma ItemQueryReturnsOnlyThatRow(s: Store, id: nat, sel: Selection)
    ensures QueryOp(s, Item(id), sel) ==
      Ok(Cursor(if id in s.rows then map[id := s.rows[id]] else map[], Item(id)))
  {
    SelectedById(s.rows, id);
  }

  /** Update reports how many rows it matched and notifies only if that is not zero. */
  lemma UpdateCountAndNotification(s: Store, loc: Locator, values: ContentValues, sel: Selection)
    requires UpdateOp(s, loc, values, sel).Ok? && values != map[]
    ensures var st := UpdateOp(s, loc, values, sel).value;
      && 0 <= st.value <= |s.rows|
      && st.value == |Selected(s.rows, ForcedSelection(loc, sel))|
      && st.post.notified == if st.value != 0 then s.notified + [loc] else s.notified
  {
    SelectedKeysWithin(s.rows, ForcedSelection(loc, sel));
  }

  // ---------------------------------------------------------------------
  // Delete

  lemma SelectedKeysWithin(rows: map<nat, Pet>, sel: Selection)
    ensures Selected(rows, sel).Keys <= rows.Keys
    ensures |Selected(rows, sel)| <= |rows|
  {
    var k := Selected(rows, sel).Keys;
    assert rows.Keys == k + (rows.Keys - k);
  }

  /** The rows delete removes and the rows it keeps add up to the table before. */
  lemma DeleteCount(s: Store, uri: Locator, sel: Selection)
    ensures var st := PetStore.DeletePet(s, uri, sel);
      |st.post.rows| + st.value == |s.rows|
  {
  }

  /** Delete on an item address removes that row if it exists and nothing else. */
  lemma ItemDeleteTouchesOnlyThatRow(s: Store, id: nat, sel: Selection)
    ensures id in s.rows ==>
      DeleteOp(s, Item(id), sel) == Ok(Step(Store(s.rows - {id}, s.nextId, s.notified + [Item(id)]), 1))
    ensures id !in s.rows ==> DeleteOp(s, Item(id), sel) == Ok(Step(s, 0))
  {
    SelectedById(s.rows, id);
    var st := PetStore.DeletePet(s, Item(id), IdSelection(id));
    if id in s.rows {
      assert st.post.rows == s.rows - {id};
    } else {
      assert st.post.rows == s.rows;
    }
  }

  /**
   * Delete on the collection address with a selection that picks every row
   * empties the table, and a later query on the collection returns nothing.
   */
  lemma DeleteAllEmptiesTable(s: Store, later: Selection)
    ensures var all: Selection := (k: nat, p: Pet) => true;
      var st := DeleteOp(s, Collection, all).value;
      && st.value == |s.rows|
      && st.post.rows == map[]
      && QueryOp(st.post, Collection, later) == Ok(Cursor(map[], Collection))
  {
    var all: Selection := (k: nat, p: Pet) => true;
    DeleteCount(s, Collection, all);
    var st := DeleteOp(s, Collection, all).value;
    assert st.post.rows.Keys == {};
    assert Selected(st.post.rows, later) == map[];
  }

  // ---------------------------------------------------------------------
  // Insert

  /**
   * A successful insert writes one new row under a fresh id, returns the
   * collection address with that id appended, and notifies the collection.
   * Querying the returned address gives back exactly the submitted name,
   * breed, gender and weight.
   */
  lemma InsertRoundTrip(s: Store, values: ContentValues, sel: Selection)
    requires Valid(s) && InsertOp(s, Collection, values).Ok?
    ensures var st := InsertOp(s, Collection, values).value;
      && st.value == Item(s.nextId)
      && s.nextId !in s.rows
      && st.post.notified == s.notified + [Collection]
      && QueryOp(st.post, st.value, sel) == Ok(Cursor(map[s.nextId := NewPet(values)], st.value))
      && Some(NewPet(values).name) == Lookup(values, Name)
      && NewPet(values).breed == Lookup(values, Breed)
      && Some(Whole(NewPet(values).gender)) == Lookup(values, Gender)
      && Some(Whole(NewPet(values).weight)) == Lookup(values, Weight)
  {
    var st := InsertOp(s, Collection, values).value;
    ItemQueryReturnsOnlyThatRow(st.post, s.nextId, sel);
  }

  /**
   * The branch of insertPet that returns the address unchanged is never
   * taken: accepted insert values always contain a name, so the value set is
   * never empty.
   */
  lemma InsertNeverReturnsCollection(s: Store, values: ContentValues)
    requires InsertPet(s, Collection, values).Ok?
    ensures InsertPet(s, Collection, values).value.value == Item(s.nextId)
  {
  }

  // ---------------------------------------------------------------------
  // The dummy pet the catalog screen inserts

  /**
   * Inserting Toto, a male terrier weighing 7, into an empty table gives id 1.
   * The second half is an illustrative update step the app itself does not
   * make: updating id 1 with weight 9, whatever selection the caller passes,
   * changes only the weight, reports one row and notifies the item address.
   */
  lemma TotoScenario(sel: Selection)
    ensures var toto := map[Name := Some(Text("Toto")), Breed := Some(Text("Terrier")),
                            Gender := Some(Whole(GenderMale)), Weight := Some(Whole(7))];
      var row := Pet(Text("Toto"), Some(Text("Terrier")), GenderMale, 7);
      var inserted := Store(map[1 := row], 2, [Collection]);
      && InsertOp(Empty, Collection, toto) == Ok(Step(inserted, Item(1)))
      && UpdateOp(inserted, Item(1), map[Weight := Some(Whole(9))], sel) ==
         Ok(Step(Store(map[1 := row.(weight := 9)], 2, [Collection, Item(1)]), 1))
  {
    var toto := map[Name := Some(Text("Toto")), Breed := Some(Text("Terrier")),
                    Gender := Some(Whole(GenderMale)), Weight := Some(Whole(7))];
    var row := Pet(Text("Toto"), Some(Text("Terrier")), GenderMale, 7);
    var inserted := Store(map[1 := row], 2, [Collection]);
    assert ColumnFault(toto, Name).None? && ColumnFault(toto, Gender).None? && ColumnFault(toto, Weight).None?;
    assert Acceptable(toto, true);
    assert NewPet(toto) == row;
    assert Empty.rows[1 := row] == map[1 := row];
    assert InsertOp(Empty, Collection, toto).Ok?;
    assert InsertOp(Empty, Collection, toto).value == Step(inserted, Item(1));
    var nine := map[Weight := Some(Whole(9))];
    assert ColumnFault(nine, Weight).None?;
    ItemUpdateTouchesOnlyThatRow(inserted, 1, nine, sel);
    assert Patch(row, nine) == row.(weight := 9);
    assert inserted.rows[1 := row.(weight := 9)] == map[1 := row.(weight := 9)];
    assert inserted.notified + [Item(1)] == [Collection, Item(1)];
  }
}
