/**
 * Content addresses. The two registered patterns, the collection `pets` and
 * one item `pets/#`, become constructors; every other address is Unknown.
 */
module Locators {
  import opened Wrappers
  import opened PetContract

  datatype Locator = Collection | Item(id: nat) | Unknown

  /** The two MIME types getType reports. */
  datatype MimeType = ListType | ItemType

  /** A caller's selection on the table: which (id, row) pairs it picks. */
  type Selection = (nat, Pet) -> bool

  /** The selection "_id = id". */
  function IdSelection(id: nat): Selection {
    (k: nat, p: Pet) => k == id
  }

  /**
   * The selection an operation runs with: an item address replaces the
   * caller's selection by "id equals the address id"; the collection address
   * passes the caller's selection through.
   */
  function ForcedSelection(loc: Locator, sel: Selection): (r: Selection)
    ensures loc.Item? ==> forall k, p :: r(k, p) <==> k == loc.id
    ensures !loc.Item? ==> forall k, p :: r(k, p) == sel(k, p)
  {
    if loc.Item? then IdSelection(loc.id) else sel
  }

  /** getType: the MIME type of an address, IllegalState for an unknown one. */
  function GetType(loc: Locator): (r: Result<MimeType, Error>)
    ensures r.Err? <==> loc.Unknown?
    ensures r.Err? ==> r.error == IllegalState
    ensures r.Ok? ==> (r.value == ItemType <==> loc.Item?)
  {
    match loc
    case Collection => Ok(ListType)
    case Item(_) => Ok(ItemType)
    case Unknown => Err(IllegalState)
  }
}
