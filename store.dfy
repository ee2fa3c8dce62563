/** The `horses` table of myapp/main.ts (declared at lines 10-17) and the
    statements the request handler runs on it: select all, select by id,
    and insert followed by reading back the inserted row. */
module Store {
  import opened Wrappers
  import Slug

  /** One row of `horses`; the record type Horse of myapp/main.ts:31-36. */
  datatype Horse = Horse(id: int, name: string, age: int, permalink: string)

  const PermalinkHost: string := "horsetider.dev/"

  /** The largest rowid SQLite assigns (2^63 - 1). With AUTOINCREMENT, once
      it has been used every later insert fails. */
  const MaxRowId: int := 0x7FFF_FFFF_FFFF_FFFF

  /** The permalink stored with a new horse (myapp/main.ts:69): the host,
      then the slug of the name. */
  function Permalink(name: string): (p: string)
    ensures |PermalinkHost| <= |p| && p[..|PermalinkHost|] == PermalinkHost
    ensures Slug.IsSlug(p[|PermalinkHost|..])
  {
    var p := PermalinkHost + Slug.ToKebabCase(name);
    assert p[|PermalinkHost|..] == Slug.ToKebabCase(name);
    p
  }

  /** What the table keeps true: ids come from AUTOINCREMENT, so they are
      positive, below the next id to be handed out, and increase in
      insertion order (which is also the order `SELECT *` returns); every
      permalink is the one computed from the row's name. */
  predicate ValidRows(rows: seq<Horse>, nextId: int) {
    && 1 <= nextId <= MaxRowId + 1
    && (forall k :: 0 <= k < |rows| ==> 1 <= rows[k].id < nextId)
    && (forall k :: 0 <= k < |rows| ==> rows[k].permalink == Permalink(rows[k].name))
    && (forall j, k :: 0 <= j < k < |rows| ==> rows[j].id < rows[k].id)
  }

  /** `SELECT * FROM horses WHERE id = ?` read with `.get`: the first row
      with that id, or nothing. */
  function FindById(rows: seq<Horse>, id: int): (found: Option<Horse>)
    ensures found.Some? ==> found.value in rows && found.value.id == id
    ensures found.None? <==> forall k :: 0 <= k < |rows| ==> rows[k].id != id
  {
    if rows == [] then None
    else if rows[0].id == id then Some(rows[0])
    else FindById(rows[1..], id)
  }

  /** In a valid table every row is found by its own id. */
  lemma {:induction false} FindByIdOfRow(rows: seq<Horse>, nextId: int, k: nat)
    requires ValidRows(rows, nextId)
    requires k < |rows|
    ensures FindById(rows, rows[k].id) == Some(rows[k])
  {
    if k > 0 {
      assert rows[0].id < rows[k].id;
      assert ValidRows(rows[1..], nextId);
      FindByIdOfRow(rows[1..], nextId, k - 1);
    }
  }

  /** Appending a row changes no lookup of an id already present, and makes
      the new row's id find the new row when it was absent before. */
  lemma {:induction false} FindByIdAppend(rows: seq<Horse>, h: Horse, id: int)
    ensures FindById(rows + [h], id) ==
      if FindById(rows, id).Some? then FindById(rows, id)
      else if h.id == id then Some(h)
      else None
  {
    if rows == [] {
      assert rows + [h] == [h];
    } else {
      assert (rows + [h])[1..] == rows[1..] + [h];
      FindByIdAppend(rows[1..], h, id);
    }
  }

  /** The open database handle `db` (myapp/main.ts:4), reduced to the one
      table it holds and to SQLite's per-connection last inserted rowid. */
  class HorseTable {
    var rows: seq<Horse>
    /** The id AUTOINCREMENT hands out next: one more than the largest used. */
    var nextId: int
    var lastRowId: int

    predicate Valid()
      reads this
    {
      ValidRows(rows, nextId)
    }

    /** A new, empty store: `CREATE TABLE IF NOT EXISTS horses` on a fresh
        database file (myapp/main.ts:10-17). */
    constructor ()
      ensures Valid()
      ensures rows == [] && nextId == 1 && lastRowId == 0
    {
      rows := [];
      nextId := 1;
      lastRowId := 0;
    }

    /** `INSERT INTO horses (name, age, permalink) VALUES (?, ?, ?)` with
        the permalink computed from the name (myapp/main.ts:69-70). It fails,
        changing nothing, once the largest rowid has been used; otherwise it
        appends exactly one row under a fresh id and records that id as the
        last inserted rowid. */
    method Insert(name: string, age: int) returns (ok: bool)
      requires Valid()
      modifies this
      ensures Valid()
      ensures ok <==> old(nextId) <= MaxRowId
      ensures ok ==> rows == old(rows) + [Horse(old(nextId), name, age, Permalink(name))]
                     && nextId == old(nextId) + 1 && lastRowId == old(nextId)
      ensures ok ==> forall k :: 0 <= k < |old(rows)| ==> old(rows)[k].id < lastRowId
      ensures !ok ==> unchanged(this)
    {
      if nextId > MaxRowId {
        return false;
      }
      rows := rows + [Horse(nextId, name, age, Permalink(name))];
      lastRowId := nextId;
      nextId := nextId + 1;
      ok := true;
    }
  }
}
