/** The system-of-record side: one relational table per category, seen
    through a repository that inserts, finds, deletes and lists rows.
    The database engine is not modelled; each write reports its outcome
    through a `StoreReply` supplied by the caller of the model. */
module Repositories {
  import opened Globals
  import opened NumericStrings

  /** A stored row: the auto-increment id, the name and the quantity in
      grams. */
  datatype Entity = Entity(id: int, name: string, quantity: real)

  /** What the database answered to a write: it went through, the
      repository reported `false`, or it raised an exception with a
      message. */
  datatype StoreReply = Succeeded | Declined | Raised(msg: string)

  /** `sub` occurs in `s` as a contiguous substring (SQL `LIKE '%sub%'`,
      compared case-sensitively here). */
  predicate Contains(s: string, sub: string) {
    exists i :: 0 <= i <= |s| - |sub| && OccursAt(s, sub, i)
  }

  /** `sub` occurs in `s` starting at position `i`. */
  predicate OccursAt(s: string, sub: string, i: int) {
    0 <= i && i + |sub| <= |s| && s[i..i + |sub|] == sub
  }

  lemma EverythingContainsEmpty(s: string)
    ensures Contains(s, "")
  {
    assert OccursAt(s, "", 0);
  }

  /** The rows with ids in [1, n) whose name contains `filter`, in
      ascending id order. */
  function Select(rows: map<int, Entity>, n: int, filter: string): (selected: seq<Entity>)
    decreases n
  {
    if n <= 1 then []
    else Select(rows, n - 1, filter)
         + (if n - 1 in rows && Contains(rows[n - 1].name, filter) then [rows[n - 1]] else [])
  }

  /** The ids of a table are consistent: each row is filed under its own
      id, ids start at 1 and stay below the next id to hand out. */
  ghost predicate WellKeyed(rows: map<int, Entity>, nextId: int) {
    nextId >= 1 && forall k :: k in rows ==> 1 <= k < nextId && rows[k].id == k
  }

  /** `Select` returns exactly the stored rows in [1, n) whose name
      contains the filter, each once, in strictly ascending id order. */
  lemma {:induction false} SelectSpec(rows: map<int, Entity>, nextId: int, n: int, filter: string)
    requires WellKeyed(rows, nextId)
    ensures forall e :: e in Select(rows, n, filter) ==>
              e.id in rows && rows[e.id] == e && e.id < n && Contains(e.name, filter)
    ensures forall k :: 1 <= k < n && k in rows && Contains(rows[k].name, filter) ==>
              rows[k] in Select(rows, n, filter)
    ensures forall i, j :: 0 <= i < j < |Select(rows, n, filter)| ==>
              Select(rows, n, filter)[i].id < Select(rows, n, filter)[j].id
    decreases n
  {
    if n > 1 {
      SelectSpec(rows, nextId, n - 1, filter);
    }
  }

  /** An item the table can hold: a string name and a quantity that is
      a number or a numeral string (both columns are NOT NULL). */
  predicate Storable(item: Item) {
    Get(item, "name").Str? && NumericValue(Get(item, "quantity")).Some?
  }

  /** The row an item is stored as, under id `id`. */
  function RowOf(id: int, item: Item): (e: Entity)
    requires Storable(item)
    ensures e.id == id && Str(e.name) == Get(item, "name")
    ensures NumericValue(Get(item, "quantity")) == Some(e.quantity)
  {
    Entity(id, Get(item, "name").s, NumericValue(Get(item, "quantity")).value)
  }

  /** The state of one table: its rows by id and the next id the
      auto-increment column hands out. */
  datatype Table = Table(rows: map<int, Entity>, nextId: int)

  /** The table after inserting a row built from the item's name and
      quantity: the new row gets the next id, which no row had, and every
      existing row is kept. */
  function Inserted(t: Table, item: Item): (u: Table)
    requires WellKeyed(t.rows, t.nextId) && Storable(item)
    ensures WellKeyed(u.rows, u.nextId) && u.nextId == t.nextId + 1
    ensures t.nextId !in t.rows && u.rows.Keys == t.rows.Keys + {t.nextId}
    ensures u.rows[t.nextId] == RowOf(t.nextId, item)
    ensures forall k :: k in t.rows ==> u.rows[k] == t.rows[k]
  {
    Table(t.rows[t.nextId := RowOf(t.nextId, item)], t.nextId + 1)
  }

  /** The table after deleting the row with id `id`; ids are never
      reused. */
  function Removed(t: Table, id: int): (u: Table)
    requires WellKeyed(t.rows, t.nextId)
    ensures WellKeyed(u.rows, u.nextId) && u.nextId == t.nextId
    ensures u.rows.Keys == t.rows.Keys - {id}
    ensures forall k :: k in u.rows ==> u.rows[k] == t.rows[k]
  {
    Table(t.rows - {id}, t.nextId)
  }

  /** A repository over one category's table. */
  class Repository {
    const category: Category
    var rows: map<int, Entity>
    var nextId: int

    ghost predicate Valid()
      reads this
    {
      WellKeyed(rows, nextId)
    }

    /** The table this repository currently holds. */
    function Snapshot(): (t: Table)
      reads this
    {
      Table(rows, nextId)
    }

    constructor (category: Category)
      ensures Valid() && this.category == category
      ensures rows == map[] && nextId == 1
    {
      this.category := category;
      rows := map[];
      nextId := 1;
    }

    /** Insert a new row built from the item's name and quantity.  The
        database's reply decides the outcome; a raised exception is
        rethrown with the same message. */
    method Add(item: Item, reply: StoreReply) returns (r: Result<bool>)
      requires Valid()
      requires reply == Succeeded ==> Storable(item)
      modifies this
      ensures Valid()
      ensures reply == Succeeded ==> r == Ok(true) && Snapshot() == Inserted(old(Snapshot()), item)
      ensures reply == Declined ==> r == Ok(false) && Snapshot() == old(Snapshot())
      ensures reply.Raised? ==> r == Err(Generic(reply.msg)) && Snapshot() == old(Snapshot())
    {
      match reply
      case Succeeded =>
        rows := rows[nextId := RowOf(nextId, item)];
        nextId := nextId + 1;
        r := Ok(true);
      case Declined =>
        r := Ok(false);
      case Raised(msg) =>
        r := Err(Generic(msg));
    }

    /** Look a row up by id. */
    function Find(id: int): (e: Option<Entity>)
      reads this
      ensures e.Some? <==> id in rows
      ensures e.Some? ==> e.value == rows[id]
    {
      if id in rows then Some(rows[id]) else None
    }

    /** Delete a row.  The database's reply decides the outcome; a raised
        exception is rethrown with the same message. */
    method Delete(e: Entity, reply: StoreReply) returns (r: Result<bool>)
      requires Valid()
      modifies this
      ensures Valid()
      ensures reply == Succeeded ==> r == Ok(true) && Snapshot() == Removed(old(Snapshot()), e.id)
      ensures reply == Declined ==> r == Ok(false) && Snapshot() == old(Snapshot())
      ensures reply.Raised? ==> r == Err(Generic(reply.msg)) && Snapshot() == old(Snapshot())
    {
      match reply
      case Succeeded =>
        rows := rows - {e.id};
        r := Ok(true);
      case Declined =>
        r := Ok(false);
      case Raised(msg) =>
        r := Err(Generic(msg));
    }

    /** Every row, in ascending id order. */
    function FindAll(): (all: seq<Entity>)
      reads this
    {
      Select(rows, nextId, "")
    }

    /** The rows whose name contains `name`, in ascending id order. */
    function FindByName(name: string): (found: seq<Entity>)
      reads this
    {
      Select(rows, nextId, name)
    }

    /** `FindAll` lists every stored row exactly once, in id order. */
    lemma FindAllSpec()
      requires Valid()
      ensures forall e :: e in FindAll() ==> e.id in rows && rows[e.id] == e
      ensures forall k :: k in rows ==> rows[k] in FindAll()
      ensures forall i, j :: 0 <= i < j < |FindAll()| ==> FindAll()[i].id < FindAll()[j].id
    {
      SelectSpec(rows, nextId, nextId, "");
      forall k | k in rows
        ensures rows[k] in FindAll()
      {
        EverythingContainsEmpty(rows[k].name);
      }
    }

    /** `FindByName` lists exactly the stored rows whose name contains
        `name`, each once, in id order. */
    lemma FindByNameSpec(name: string)
      requires Valid()
      ensures forall e :: e in FindByName(name) ==> e.id in rows && rows[e.id] == e && Contains(e.name, name)
      ensures forall k :: k in rows && Contains(rows[k].name, name) ==> rows[k] in FindByName(name)
      ensures forall i, j :: 0 <= i < j < |FindByName(name)| ==> FindByName(name)[i].id < FindByName(name)[j].id
    {
      SelectSpec(rows, nextId, nextId, name);
    }
  }
}
