/**
 * The content provider as an object: the pets table, the autoincrement
 * counter and the notification log are fields that insert, update and
 * delete change in place. Each method is proved to do what the matching
 * operation of PetStore says.
 */
module Provider {
  import opened Wrappers
  import opened PetContract
  import opened Locators
  import opened Validation
  import opened PetStore

  class PetProvider {
    var rows: map<nat, Pet>
    var nextId: nat
    var notified: seq<Locator>

    function State(): Store
      reads this
    {
      Store(rows, nextId, notified)
    }

    ghost predicate Valid()
      reads this
    {
      PetStore.Valid(State())
    }

    /** The provider over a newly created, empty table. */
    constructor ()
      ensures Valid() && State() == Empty
    {
      rows := map[];
      nextId := 1;
      notified := [];
    }

    /** query: the matching rows, watched under the given address. */
    function Query(loc: Locator, sel: Selection): (r: Result<Cursor, Error>)
      reads this
      ensures r == QueryOp(State(), loc, sel)
    {
      match loc
      case Collection => Ok(Cursor(Selected(rows, sel), loc))
      case Item(id) => Ok(Cursor(Selected(rows, IdSelection(id)), loc))
      case Unknown => Err(IllegalArgument(UnsupportedUri))
    }

    method Insert(loc: Locator, values: ContentValues) returns (r: Result<Locator, Error>)
      requires Valid()
      modifies this
      ensures Valid()
      ensures r == Response(InsertOp(old(State()), loc, values))
      ensures State() == After(old(State()), InsertOp(old(State()), loc, values))
    {
      match loc {
        case Collection =>
          r := InsertPet(loc, values);
          if r.Ok? {
            notified := notified + [loc];
          }
        case _ =>
          r := Err(IllegalArgument(UnsupportedUri));
      }
    }

    method InsertPet(uri: Locator, values: ContentValues) returns (r: Result<Locator, Error>)
      requires Valid()
      modifies this
      ensures Valid()
      ensures r == Response(PetStore.InsertPet(old(State()), uri, values))
      ensures State() == After(old(State()), PetStore.InsertPet(old(State()), uri, values))
    {
      var checked := Validate(values, QueryTypeInsert);
      if checked.Err? {
        return Err(checked.error);
      }
      if checked.value {
        var id := nextId;
        rows := rows[id := NewPet(values)];
        nextId := nextId + 1;
        r := Ok(Item(id));
      } else {
        r := Ok(uri);
      }
    }

    method Update(loc: Locator, values: ContentValues, sel: Selection) returns (r: Result<int, Error>)
      requires Valid()
      modifies this
      ensures Valid()
      ensures r == Response(UpdateOp(old(State()), loc, values, sel))
      ensures State() == After(old(State()), UpdateOp(old(State()), loc, values, sel))
    {
      var checked := Validate(values, QueryTypeUpdate);
      if checked.Err? {
        return Err(checked.error);
      }
      if !checked.value {
        return Ok(-1);
      }
      match loc {
        case Collection =>
          var n := UpdatePet(loc, values, sel);
          r := Ok(n);
        case Item(id) =>
          var n := UpdatePet(loc, values, IdSelection(id));
          r := Ok(n);
        case Unknown =>
          r := Err(IllegalArgument(UnsupportedUri));
      }
    }

    method UpdatePet(uri: Locator, values: ContentValues, sel: Selection) returns (affected: int)
      requires Valid() && Acceptable(values, false)
      modifies this
      ensures Valid()
      ensures Step(State(), affected) == PetStore.UpdatePet(old(State()), uri, values, sel)
    {
      var matched := Selected(rows, sel);
      rows := map id | id in rows :: if id in matched then Patch(rows[id], values) else rows[id];
      if |matched| != 0 {
        notified := notified + [uri];
      }
      affected := |matched|;
    }

    method Delete(loc: Locator, sel: Selection) returns (r: Result<nat, Error>)
      requires Valid()
      modifies this
      ensures Valid()
      ensures r == Response(DeleteOp(old(State()), loc, sel))
      ensures State() == After(old(State()), DeleteOp(old(State()), loc, sel))
    {
      match loc {
        case Collection =>
          var n := DeletePet(loc, sel);
          r := Ok(n);
        case Item(id) =>
          var n := DeletePet(loc, IdSelection(id));
          r := Ok(n);
        case Unknown =>
          r := Err(IllegalArgument(UnsupportedUri));
      }
    }

    method DeletePet(uri: Locator, sel: Selection) returns (affected: nat)
      requires Valid()
      modifies this
      ensures Valid()
      ensures Step(State(), affected) == PetStore.DeletePet(old(State()), uri, sel)
    {
      var matched := Selected(rows, sel);
      rows := rows - matched.Keys;
      if |matched| != 0 {
        notified := notified + [uri];
      }
      affected := |matched|;
    }
  }
}
