/**
 * A historical event as the parser produces it and the store holds it.
 * Timestamps are milliseconds; `duration` is whole minutes.
 */
module Events {
  import opened Wrappers

  /** The `metadata` object: `{}` from the parser, provenance once ingested. */
  datatype Metadata = NoMetadata | Provenance(sourceFile: string, lineNumber: nat)

  datatype Event = Event(
    id: string,
    name: string,
    description: Option<string>,
    start: int,
    end: int,
    duration: int,
    parent: Option<string>,
    metadata: Metadata)

  /** JavaScript truthiness of an optional id: present and not the empty string. */
  predicate Truthy(o: Option<string>) {
    o.Some? && o.value != ""
  }

  /** The set of ids in a list of events. */
  function Ids(rows: seq<Event>): set<string> {
    set e | e in rows :: e.id
  }

  /** No two rows share an id (the store's primary key). */
  predicate UniqueIds(rows: seq<Event>) {
    forall i, j | 0 <= i < j < |rows| :: rows[i].id != rows[j].id
  }

  type EventMap = map<string, Event>

  function Init<T>(s: seq<T>): seq<T>
    requires s != []
  {
    s[..|s| - 1]
  }

  function Last<T>(s: seq<T>): T
    requires s != []
  {
    s[|s| - 1]
  }

  lemma IdsSnoc(rows: seq<Event>, i: nat)
    requires i < |rows|
    ensures Ids(rows[..i + 1]) == Ids(rows[..i]) + {rows[i].id}
  {
    assert rows[..i + 1] == rows[..i] + [rows[i]];
  }

  // ---------------------------------------------------------------------
  // Rows by id
  // ---------------------------------------------------------------------

  /** The map from id to row that `Map.set` builds over the rows in order: a later row with an id replaces an earlier one. */
  function EventMapOf(rows: seq<Event>): (m: EventMap)
    ensures m.Keys == Ids(rows)
    ensures forall id | id in m :: m[id].id == id && m[id] in rows
    decreases |rows|
  {
    if rows == [] then map[]
    else
      var m := EventMapOf(Init(rows));
      assert Ids(rows) == Ids(Init(rows)) + {Last(rows).id} by { IdsSnoc(rows, |rows| - 1); }
      m[Last(rows).id := Last(rows)]
  }

  /** An id maps to the last row carrying it; with distinct ids, to its only row. */
  lemma {:induction false} EventMapLastWins(rows: seq<Event>, k: nat)
    requires k < |rows|
    requires forall j | k < j < |rows| :: rows[j].id != rows[k].id
    ensures EventMapOf(rows)[rows[k].id] == rows[k]
    decreases |rows|
  {
    if k < |rows| - 1 {
      EventMapLastWins(Init(rows), k);
    }
  }
}
