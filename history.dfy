/**
 * A sequence of calls to the provider. The id column is declared
 * INTEGER PRIMARY KEY AUTOINCREMENT, so across any sequence of calls the ids
 * handed out by inserts are fresh and strictly increasing, even when rows
 * are deleted in between.
 */
module History {
  import opened Wrappers
  import opened PetContract
  import opened Locators
  import opened Validation
  import opened PetStore

  datatype Request =
    | QueryRequest(loc: Locator, sel: Selection)
    | InsertRequest(loc: Locator, values: ContentValues)
    | UpdateRequest(loc: Locator, values: ContentValues, sel: Selection)
    | DeleteRequest(loc: Locator, sel: Selection)

  /** The store after one call (queries change nothing). */
  function Apply(s: Store, q: Request): Store {
    match q
    case QueryRequest(_, _) => s
    case InsertRequest(loc, values) => After(s, InsertOp(s, loc, values))
    case UpdateRequest(loc, values, sel) => After(s, UpdateOp(s, loc, values, sel))
    case DeleteRequest(loc, sel) => After(s, DeleteOp(s, loc, sel))
  }

  /** The id a call was given: the new row's id for a successful insert. */
  function Assigned(s: Store, q: Request): seq<nat> {
    if q.InsertRequest? && InsertOp(s, q.loc, q.values).Ok? then
      match InsertOp(s, q.loc, q.values).value.value
      case Item(id) => [id]
      case _ => []
    else []
  }

  /** The store after a sequence of calls. */
  function Run(s: Store, qs: seq<Request>): Store
    decreases |qs|
  {
    if qs == [] then s else Run(Apply(s, qs[0]), qs[1..])
  }

  /** The ids inserts were given, in call order. */
  function AssignedIds(s: Store, qs: seq<Request>): seq<nat>
    decreases |qs|
  {
    if qs == [] then [] else Assigned(s, qs[0]) + AssignedIds(Apply(s, qs[0]), qs[1..])
  }

  /**
   * One call keeps the store's invariant, never lowers the next id, only
   * appends to the notification log, and any id it assigns is the old next
   * id, which no row held.
   */
  lemma ApplyKeepsInvariant(s: Store, q: Request)
    requires Valid(s)
    ensures var t := Apply(s, q);
      && Valid(t)
      && s.nextId <= t.nextId
      && s.notified <= t.notified
      && (forall id :: id in Assigned(s, q) ==> id == s.nextId && id !in s.rows && id < t.nextId)
  {
  }

  /**
   * Over any sequence of calls from a valid store: the invariant holds at
   * the end, the notification log only grows, and the ids given out are
   * strictly increasing, at least the starting next id (so no row of the
   * starting table, nor any deleted row, has them) and below the final next id.
   */
  lemma {:induction false} IdsFreshAndIncreasing(s: Store, qs: seq<Request>)
    requires Valid(s)
    ensures Valid(Run(s, qs))
    ensures s.nextId <= Run(s, qs).nextId
    ensures s.notified <= Run(s, qs).notified
    ensures forall i :: 0 <= i < |AssignedIds(s, qs)| ==>
      s.nextId <= AssignedIds(s, qs)[i] < Run(s, qs).nextId
    ensures forall i, j :: 0 <= i < j < |AssignedIds(s, qs)| ==>
      AssignedIds(s, qs)[i] < AssignedIds(s, qs)[j]
    decreases |qs|
  {
    if qs != [] {
      var s1 := Apply(s, qs[0]);
      ApplyKeepsInvariant(s, qs[0]);
      IdsFreshAndIncreasing(s1, qs[1..]);
      var head, tail := Assigned(s, qs[0]), AssignedIds(s1, qs[1..]);
      assert AssignedIds(s, qs) == head + tail;
      assert |head| <= 1;
      forall i | 0 <= i < |head|
        ensures head[i] == s.nextId < s1.nextId
      {
        assert head[i] in Assigned(s, qs[0]);
      }
      assert Run(s, qs) == Run(s1, qs[1..]);
      var ids := head + tail;
      forall i | 0 <= i < |ids|
        ensures s.nextId <= ids[i] < Run(s, qs).nextId
      {
        if i < |head| { assert ids[i] == head[i]; } else { assert ids[i] == tail[i - |head|]; }
      }
      forall i, j | 0 <= i < j < |ids|
        ensures ids[i] < ids[j]
      {
        if j >= |head| {
          assert ids[j] == tail[j - |head|];
          if i < |head| { assert ids[i] == head[i]; } else { assert ids[i] == tail[i - |head|]; }
        }
      }
    }
  }
}
