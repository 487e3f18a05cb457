# Pets content provider, modelled in Dafny

The Pets app keeps a catalog of pets (name, breed, gender, weight) in one
SQLite table and exposes it through an Android content provider,
`PetProvider`. The provider classifies each content address as the whole
collection (`pets`) or one pet (`pets/#`), validates the submitted
`ContentValues`, runs the query, insert, update or delete against the table,
and notifies observers of the address it changed.

This project models that provider:

- `contract.dfy` (module `PetContract`): the query-type constants 10 and 11,
  the gender codes 0, 1 and 2, the four writable columns, a row (`Pet`), and
  the exceptions the provider throws (`IllegalArgument` with its reason,
  `IllegalState`, `NullPointer` for unboxing a null integer).
- `locators.dfy` (module `Locators`): the address as `Collection | Item(id) |
  Unknown` in place of `UriMatcher`; the caller's selection as a predicate on
  (id, row); the selection forced to "id equals the address id" on an item
  address; `getType`.
- `validation.dfy` (module `Validation`): `validation` and `isInsertQuery`.
  `ContentValues` is a map from column to an optional value (None is an
  explicit null; an absent key is not in the map). `ColumnFault` is what
  reading one column throws, if anything; `Validate` reads the columns in
  the source's order and throws the first fault. `isUpdateQuery` is modelled
  as `IsUpdateQuery`; nothing in the source calls it.
- `store.dfy` (module `PetStore`): each operation as a function on a `Store`
  value (the table as `map<nat, Pet>`, the next autoincrement id, the log of
  addresses passed to `notifyChange`). An operation either throws (`Err`,
  and nothing is written) or returns the new store and the caller's result.
- `provider.dfy` (module `Provider`): the class `PetProvider` with fields
  `rows`, `nextId` and `notified`, whose methods `Insert`, `InsertPet`,
  `Update`, `UpdatePet`, `Delete`, `DeletePet` change them in place and are
  proved to do exactly what the `PetStore` functions say, keeping the
  store's invariant (ids in `[1, nextId)`, every row with a gender code and
  a non-negative weight).
- `properties.dfy` (module `Properties`) and `history.dfy` (module `History`):
  the provider's promises as lemmas, including fresh, strictly increasing
  ids across any sequence of calls (the id column is `INTEGER PRIMARY KEY
  AUTOINCREMENT`).

Behaviour of the code that the model keeps and that a reader may not expect:

- A name is rejected only when it is null or missing; an empty string passes.
- Insert reads gender and weight unconditionally and unboxes them into
  `int`, so a missing gender or weight throws a `NullPointerException`; the
  schema defaults of 0 are never reached through `insert`.
- A failed update validation throws; the sentinel -1 is returned only for an
  empty value set, and since validation runs before the address is matched,
  this holds even for an unknown address.
- Delete on the collection address applies the caller's selection; it removes
  every row only when that selection picks every row.
- The branch of `insertPet` that returns the address unchanged cannot be
  taken: accepted insert values always hold a name, so the value set is
  never empty.

## Model

| member | source | states |
|---|---|---|
| `Locators.ForcedSelection` | app/src/main/java/com/example/android/pets/data/PetProvider.java:101-102 | on an item address the selection is "id equals the address id" whatever the caller passed; on the collection address the caller's selection is used unchanged |
| `Locators.GetType` | app/src/main/java/com/example/android/pets/data/PetProvider.java:124-134 | getType fails with IllegalState exactly for an unknown address, and reports the item type exactly for an item address |
| `Validation.IsInsertQuery` | app/src/main/java/com/example/android/pets/data/PetProvider.java:284-286 | true exactly for query type 10, hence never for the update query type 11 |
| `Validation.Validate` | app/src/main/java/com/example/android/pets/data/PetProvider.java:169-205 | validation succeeds iff every column it reads (all four on insert, only the present ones on update) reads without fault; on success it returns whether any value was given; a thrown error is the fault of some column it read, and the fault thrown is the first in the order name, gender, weight (a missing name first, then an invalid or null gender, then an invalid or null weight) |
| `PetStore.QueryOp` | app/src/main/java/com/example/android/pets/data/PetProvider.java:75-118 | query throws IllegalArgument exactly for an unknown address; otherwise the cursor holds exactly the stored rows the selection picks (only the address id on an item address), unaltered, and watches the given address |
| `PetStore.NewPet` | app/src/main/java/com/example/android/pets/data/PetProvider.java:159-160 | the inserted row holds exactly the submitted name, breed, gender and weight, and obeys the gender and weight constraints |
| `PetStore.Patch` | app/src/main/java/com/example/android/pets/data/PetProvider.java:271-273 | an updated row takes each present column's submitted value and keeps every absent column; a row obeying the constraints still obeys them |
| `PetStore.InsertPet` | app/src/main/java/com/example/android/pets/data/PetProvider.java:155-167 | insertPet succeeds iff every column validates, and then writes the new row under the next id, advances the id and returns the item address of that id, notifying nothing; otherwise it throws the validation error |
| `PetStore.InsertOp` | app/src/main/java/com/example/android/pets/data/PetProvider.java:140-166 | insert throws IllegalArgument on any address but the collection; on the collection it succeeds iff every column validates, throws the validation error otherwise, and on success writes the new row under the next id, advances the id, appends the collection address to the notifications and returns the item address of the new id |
| `PetStore.UpdatePet` | app/src/main/java/com/example/android/pets/data/PetProvider.java:271-278 | every selected row is patched and every other row is unchanged, no row is added or removed, the count is the number of selected rows, and the address is notified iff that count is non-zero |
| `PetStore.UpdateOp` | app/src/main/java/com/example/android/pets/data/PetProvider.java:242-264 | update succeeds iff the present columns validate and either the value set is empty or the address is known; it throws the validation error, else IllegalArgument for an unknown address; an empty value set returns -1 and leaves the store as it was; otherwise exactly the rows the effective selection picks are patched, all other rows are unchanged, the count is the number picked, and the address is notified iff that count is non-zero |
| `PetStore.DeletePet` | app/src/main/java/com/example/android/pets/data/PetProvider.java:228-236 | exactly the unselected rows remain, unaltered; the count is the number of selected rows; the address is notified iff that count is non-zero |
| `PetStore.DeleteOp` | app/src/main/java/com/example/android/pets/data/PetProvider.java:211-226 | delete throws IllegalArgument exactly for an unknown address; otherwise exactly the rows the effective selection picks are removed, the other rows are kept unaltered, the count is the number removed, and the address is notified iff that count is non-zero |
| `Provider.PetProvider.constructor` | app/src/main/java/com/example/android/pets/data/PetProvider.java:61-69 | the provider starts over an empty table whose first id is 1, with nothing notified, and its invariant holds |
| `Provider.PetProvider.Query` | app/src/main/java/com/example/android/pets/data/PetProvider.java:75-118 | reading the fields, query returns what QueryOp gives for the current table |
| `Provider.PetProvider.Insert` | app/src/main/java/com/example/android/pets/data/PetProvider.java:140-153 | the fields after insert and its result are those InsertOp gives; the invariant is kept; a thrown error leaves the fields unchanged |
| `Provider.PetProvider.InsertPet` | app/src/main/java/com/example/android/pets/data/PetProvider.java:155-167 | validates every column, then writes the new row under nextId and advances it, or returns the address unchanged for an empty value set |
| `Provider.PetProvider.Update` | app/src/main/java/com/example/android/pets/data/PetProvider.java:242-264 | the fields after update and its result are those UpdateOp gives; the invariant is kept |
| `Provider.PetProvider.UpdatePet` | app/src/main/java/com/example/android/pets/data/PetProvider.java:271-278 | the fields and the count afterwards are those UpdatePet gives for the old fields |
| `Provider.PetProvider.Delete` | app/src/main/java/com/example/android/pets/data/PetProvider.java:211-226 | the fields after delete and its result are those DeleteOp gives; the invariant is kept |
| `Provider.PetProvider.DeletePet` | app/src/main/java/com/example/android/pets/data/PetProvider.java:228-236 | the fields and the count afterwards are those DeletePet gives for the old fields |
| `Properties.UnknownLocatorFails` | app/src/main/java/com/example/android/pets/data/PetProvider.java:109-110 | on an unknown address query, insert and delete throw IllegalArgument, getType throws IllegalState, and update either throws or returns -1 with the store unchanged |
| `Properties.InsertRejectsItemAddress` | app/src/main/java/com/example/android/pets/data/PetProvider.java:143-149 | insert on an item address throws IllegalArgument |
| `Properties.SupportedAddressesAgree` | app/src/main/java/com/example/android/pets/data/PetProvider.java:222-223 | getType, query and delete accept exactly the same addresses |
| `Properties.InsertRejectsMissingName` | app/src/main/java/com/example/android/pets/data/PetProvider.java:174-178 | insert with a null or missing name throws "Pet requires a name", whatever the other columns hold |
| `Properties.InsertRejectsInvalidGender` | app/src/main/java/com/example/android/pets/data/PetProvider.java:188-195 | insert with a name and a gender outside {0, 1, 2} throws the invalid-gender error for that gender |
| `Properties.InsertRejectsNegativeWeight` | app/src/main/java/com/example/android/pets/data/PetProvider.java:197-202 | insert with a name, a valid gender and a negative weight throws the negative-weight error for that weight |
| `Properties.InsertRequiresGenderAndWeight` | app/src/main/java/com/example/android/pets/data/PetProvider.java:189-198 | insert with a name but no gender, or with a valid gender but no weight, throws a NullPointerException from unboxing |
| `Properties.InsertAcceptsEmptyName` | app/src/main/java/com/example/android/pets/data/PetProvider.java:175-178 | an empty text name passes: with a valid gender and weight the insert succeeds |
| `Properties.UpdateChecksOnlyPresent` | app/src/main/java/com/example/android/pets/data/PetProvider.java:174-197 | update validation accepts iff every present column reads without fault; absent columns are never read |
| `Properties.UpdateAcceptanceSurvivesDroppingColumn` | app/src/main/java/com/example/android/pets/data/PetProvider.java:174-197 | removing a column from an accepted update value set keeps it accepted |
| `Properties.BreedNeverFails` | app/src/main/java/com/example/android/pets/data/PetProvider.java:181-186 | whether validation throws does not depend on the breed, null or not, present or not |
| `Properties.EmptyUpdateIsNoOp` | app/src/main/java/com/example/android/pets/data/PetProvider.java:261-263 | update with no values returns -1 and leaves table, counter and notifications unchanged, on every address |
| `Properties.SelectedById` | app/src/main/java/com/example/android/pets/data/PetProvider.java:219-220 | the selection by one id picks that row if it exists and nothing else, so it matches one row or none |
| `Properties.ItemUpdateTouchesOnlyThatRow` | app/src/main/java/com/example/android/pets/data/PetProvider.java:255-257 | an accepted non-empty update on an item address patches only the row with that id and returns 1 with a notification of the item address, or returns 0 with no change and no notification when there is no such row |
| `Properties.ItemQueryReturnsOnlyThatRow` | app/src/main/java/com/example/android/pets/data/PetProvider.java:92-108 | a query on an item address returns that row if it exists and nothing else, whatever selection the caller passed |
| `Properties.UpdateCountAndNotification` | app/src/main/java/com/example/android/pets/data/PetProvider.java:271-278 | an accepted non-empty update returns a count between 0 and the table size, the number of rows the effective selection matches, and notifies iff it is non-zero |
| `Properties.SelectedKeysWithin` | app/src/main/java/com/example/android/pets/data/PetProvider.java:231 | a selection picks only stored rows, so it never matches more rows than the table holds |
| `Properties.DeleteCount` | app/src/main/java/com/example/android/pets/data/PetProvider.java:231-235 | the rows delete keeps plus the count it returns equal the rows the table held |
| `Properties.ItemDeleteTouchesOnlyThatRow` | app/src/main/java/com/example/android/pets/data/PetProvider.java:217-221 | delete on an item address removes only that row and returns 1 with a notification, or returns 0 with no change and no notification when there is no such row |
| `Properties.DeleteAllEmptiesTable` | app/src/main/java/com/example/android/pets/data/PetProvider.java:214-216 | delete on the collection with a selection picking every row returns the table size, empties the table, and a later collection query returns no rows |
| `Properties.InsertRoundTrip` | app/src/main/java/com/example/android/pets/data/PetProvider.java:155-166 | a successful insert uses a fresh id, notifies the collection, and a query on the returned address gives back one row holding exactly the submitted name, breed, gender and weight |
| `Properties.InsertNeverReturnsCollection` | app/src/main/java/com/example/android/pets/data/PetProvider.java:164-166 | the branch of insertPet returning the address unchanged is unreachable: an accepted insert always returns the item address of the next id |
| `Properties.TotoScenario` | app/src/main/java/com/example/android/pets/ui/activities/CatalogActivity.java:143-151 | inserting the dummy pet Toto into an empty table gives id 1 and that row; as an illustrative step the app itself does not take, updating id 1 with weight 9 then changes only the weight, returns 1 and notifies the item address |
| `History.ApplyKeepsInvariant` | app/src/main/java/com/example/android/pets/data/PetDbHelper.java:16 | one call keeps the store invariant, never lowers the next id, only appends notifications, and any id it assigns is the old next id, held by no row |
| `History.IdsFreshAndIncreasing` | app/src/main/java/com/example/android/pets/data/PetDbHelper.java:16 | over any sequence of calls the invariant holds, the notification log only grows, and the ids inserts receive are strictly increasing, at least the starting next id and below the final one |

## Left out

- `onCreate` and the database helper: the lazily created `PetDbHelper`, opening the database and creating the table belong to Android and SQLite; the class constructor stands for a provider whose table exists and is empty.
- SQLite itself: storage failures, `insert` returning -1 on a constraint error, and type affinity (a name given as an integer is stored as given, not converted to text).
- Selection strings, selection arguments, projection and sort order: a selection is an abstract predicate on (id, row) and a query result is the set of matching rows, not a lazily read `Cursor`.
- `UriMatcher`, `ContentUris.parseId` and `withAppendedId`, and the MIME type strings: addresses are the `Locator` datatype and MIME types the `MimeType` datatype.
- `ContentValues` keys other than the four columns: a key naming no column makes SQLite fail, and these failures are not modelled.
- A caller-supplied `_id`: `_id` is a real column (PetContract.java:87, PetDbHelper.java:16), so an insert passing it would store the row under the caller's id, possibly a deleted one that autoincrement never reuses, and an update passing it would renumber rows. The model has no such key; the invariant "ids below nextId" and `History.IdsFreshAndIncreasing` assume no caller passes `_id`, which no caller in the app does.
- The text-to-integer coercion in `ContentValues.getAsInteger`: a text value in the gender or weight slot reads as null, which is what text that does not parse as an integer gives. As a consequence the app's own save, which puts the weight as text such as "7" (EditorActivity.java:304) and which the source parses and accepts, is an insert that fails with `NullPointer(Weight)` in the model.
- Integer widths: gender and weight values are Java `Integer`s and the update count is cast from `long` to `int`; the model uses unbounded integers and assumes values within range.
- `notifyChange` and `setNotificationUri` plumbing: a notification is an append of the address to the `notified` log, and a cursor's registration is its `notificationUri` field; the `getContext() != null` guard in query is taken as always true.
- Logging of a null breed.
