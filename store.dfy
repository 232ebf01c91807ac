/**
 * The country table as the service uses it through Prisma: find the first row with an
 * exactly equal name, update by id, create under a fresh id, delete by id, count.
 * Rows are kept in the store's own order; "first" means first in that order.
 */
module Store {
  import opened Wrappers
  import opened Countries

  /** The table's abstract value: its rows and the next autoincrement id. */
  datatype Table = Table(rows: seq<Country>, nextId: nat)

  /** Every id is below the autoincrement counter and no two rows share an id. */
  predicate IdsFresh(t: Table) {
    && (forall i | 0 <= i < |t.rows| :: t.rows[i].id < t.nextId)
    && (forall i, j | 0 <= i < j < |t.rows| :: t.rows[i].id != t.rows[j].id)
  }

  /** The names present in the table. */
  function Names(rows: seq<Country>): set<string> {
    set c | c in rows :: c.name
  }

  /** No two rows share a name. */
  predicate DistinctNames(rows: seq<Country>) {
    forall i, j | 0 <= i < j < |rows| :: rows[i].name != rows[j].name
  }

  /** Position of the first row whose name equals `name` exactly (`findFirst` with `equals`). */
  function FirstByName(rows: seq<Country>, name: string): (r: Option<nat>)
    ensures r.Some? ==> r.value < |rows| && rows[r.value].name == name
    ensures r.Some? ==> forall j | 0 <= j < r.value :: rows[j].name != name
    ensures r.None? <==> name !in Names(rows)
  {
    if rows == [] then None
    else if rows[0].name == name then Some(0)
    else
      assert Names(rows) == {rows[0].name} + Names(rows[1..]) by {
        assert rows == [rows[0]] + rows[1..];
      }
      match FirstByName(rows[1..], name)
      case None => None
      case Some(k) => Some(k + 1)
  }

  /** Position of the row with id `id`. */
  function IndexOfId(rows: seq<Country>, id: nat): (r: Option<nat>)
    ensures r.Some? ==> r.value < |rows| && rows[r.value].id == id
    ensures r.Some? ==> forall j | 0 <= j < r.value :: rows[j].id != id
    ensures r.None? ==> forall j | 0 <= j < |rows| :: rows[j].id != id
  {
    if rows == [] then None
    else if rows[0].id == id then Some(0)
    else match IndexOfId(rows[1..], id)
      case None => None
      case Some(k) => Some(k + 1)
  }

  /** With distinct ids, the id of the row at `k` leads back to `k`. */
  lemma IdLeadsBack(t: Table, k: nat)
    requires IdsFresh(t) && k < |t.rows|
    ensures IndexOfId(t.rows, t.rows[k].id) == Some(k)
  {
    var r := IndexOfId(t.rows, t.rows[k].id);
    assert r.Some?;
  }

  /** The rows with position `k` taken out. */
  function Without(rows: seq<Country>, k: nat): (r: seq<Country>)
    requires k < |rows|
    ensures |r| == |rows| - 1
    ensures forall i | 0 <= i < k :: r[i] == rows[i]
    ensures forall i | k <= i < |r| :: r[i] == rows[i + 1]
  {
    rows[..k] + rows[k + 1..]
  }

  /** The in-memory stand-in for the Prisma `country` table. */
  class CountryStore {
    var rows: seq<Country>
    var nextId: nat

    ghost predicate Valid()
      reads this
    {
      IdsFresh(Table(rows, nextId))
    }

    function Snapshot(): Table
      reads this
    {
      Table(rows, nextId)
    }

    /** An empty table whose autoincrement starts at 1. */
    constructor ()
      ensures Valid() && rows == [] && nextId == 1
    {
      rows := [];
      nextId := 1;
    }

    /** `findFirst({where: {name: {equals: name}}})`. */
    function FindFirstByName(name: string): (r: Option<Country>)
      reads this
      ensures r.Some? ==> r.value in rows && r.value.name == name
      ensures r.None? <==> name !in Names(rows)
      ensures r.Some? ==> exists k :: FirstByName(rows, name) == Some(k) && r.value == rows[k]
    {
      match FirstByName(rows, name)
      case Some(k) => Some(rows[k])
      case None => None
    }

    /** `count()`. */
    function Count(): nat
      reads this
    {
      |rows|
    }

    /**
     * `update({where: {id}, data})`: rewrites the one row with that id; without such a row
     * Prisma throws, which is `found == false` with nothing written.
     */
    method UpdateById(id: nat, d: CountryData, now: int) returns (found: bool)
      requires Valid()
      modifies this
      ensures Valid() && nextId == old(nextId)
      ensures found <==> IndexOfId(old(rows), id).Some?
      ensures !found ==> rows == old(rows)
      ensures found ==> var k := IndexOfId(old(rows), id).value;
                        rows == old(rows)[k := Updated(old(rows)[k], d, now)]
    {
      var k := IndexOfId(rows, id);
      found := k.Some?;
      if found {
        rows := rows[k.value := Updated(rows[k.value], d, now)];
      }
    }

    /** `create({data})`: appends a row under the next autoincrement id. */
    method Create(d: CountryData, now: int) returns (c: Country)
      requires Valid()
      modifies this
      ensures Valid()
      ensures c == Created(old(nextId), d, now)
      ensures rows == old(rows) + [c] && nextId == old(nextId) + 1
      ensures forall i | 0 <= i < |old(rows)| :: old(rows)[i].id != c.id
    {
      c := Created(nextId, d, now);
      rows := rows + [c];
      nextId := nextId + 1;
    }

    /** `delete({where: {id}})`: removes the row with that id; without one Prisma throws. */
    method DeleteById(id: nat) returns (found: bool)
      requires Valid()
      modifies this
      ensures Valid() && nextId == old(nextId)
      ensures found <==> IndexOfId(old(rows), id).Some?
      ensures !found ==> rows == old(rows)
      ensures found ==> rows == Without(old(rows), IndexOfId(old(rows), id).value)
    {
      var k := IndexOfId(rows, id);
      found := k.Some?;
      if found {
        rows := Without(rows, k.value);
      }
    }
  }
}
