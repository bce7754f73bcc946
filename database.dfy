/**
 * The PostgreSQL side that the collections talk to through sqlx, reduced to
 * what the car operations observe: the `car` table (id -> car_name), the
 * `serial` sequence behind its `id` column, and one transaction at a time.
 *
 * Every call that can fail on a real server takes a `fail` flag: the caller
 * supplies which round trips fail. A transaction keeps the rows as they were at
 * `Begin` and restores them on rollback or on a failed commit. The sequence is
 * not transactional: ids drawn inside a rolled-back transaction stay used.
 */
module Database {
  import opened Base
  import opened ExpHelper
  import opened SqlReader

  /** A fetched record: the `id` and `car_name` columns. */
  datatype Row = Row(id: I32, carName: string)

  /** `recs` lists every entry of `m` exactly once, in some order. */
  ghost predicate Lists(recs: seq<Row>, m: map<I32, string>)
  {
    && (forall i :: 0 <= i < |recs| ==> recs[i].id in m && m[recs[i].id] == recs[i].carName)
    && (forall i, j :: 0 <= i < j < |recs| ==> recs[i].id != recs[j].id)
    && (forall k :: k in m ==> exists i :: 0 <= i < |recs| && recs[i].id == k)
  }

  /** The rows whose id is one of `ids`: what `WHERE id IN (ids)` selects. */
  function Restrict(rows: map<I32, string>, ids: seq<int>): (r: map<I32, string>)
    ensures forall k :: k in r <==> k in rows && k in ids
    ensures forall k :: k in r ==> r[k] == rows[k]
  {
    map k | k in rows && k in ids :: rows[k]
  }

  /** The result set of a scan over `m`, in whatever order the server produces. */
  method Scan(m: map<I32, string>) returns (recs: seq<Row>)
    ensures Lists(recs, m)
  {
    recs := [];
    var rest := m.Keys;
    while rest != {}
      invariant rest <= m.Keys
      invariant forall i :: 0 <= i < |recs| ==> recs[i].id in m && recs[i].id !in rest && m[recs[i].id] == recs[i].carName
      invariant forall i, j :: 0 <= i < j < |recs| ==> recs[i].id != recs[j].id
      invariant forall k :: k in m && k !in rest ==> exists i :: 0 <= i < |recs| && recs[i].id == k
      decreases rest
    {
      var k :| k in rest;
      var next := recs + [Row(k, m[k])];
      forall k' | k' in m && k' !in rest - {k}
        ensures exists i :: 0 <= i < |next| && next[i].id == k'
      {
        if k' == k {
          assert next[|recs|].id == k';
        } else {
          var i :| 0 <= i < |recs| && recs[i].id == k';
          assert next[i].id == k';
        }
      }
      recs, rest := next, rest - {k};
    }
  }

  class CarTable {
    /** The qualified table name the statements address (`public.car`, `webapi.car`). */
    const name: string
    /** The rows as the current transaction sees them; the committed rows when none is open. */
    var rows: map<I32, string>
    /** The committed rows at the start of the open transaction. */
    var savepoint: map<I32, string>
    var inTx: bool
    /** The next value of the `id` sequence. */
    var nextId: int

    ghost predicate Valid()
      reads this
    {
      && 1 <= nextId
      && nextId <= MaxI32 + 1
      && (forall k :: k in rows ==> 1 <= k < nextId)
      && (forall k :: k in savepoint ==> 1 <= k < nextId)
    }

    /** True when `sql` reads as `<verb><name> WHERE id IN (<list>)` for this table. */
    predicate Addresses(verb: string, sql: string)
    {
      ReadInStatement(verb, sql).Some? && ReadInStatement(verb, sql).value.0 == name
    }

    constructor (name: string)
      ensures Valid() && this.name == name
      ensures rows == map[] && !inTx && nextId == 1
    {
      this.name := name;
      rows, savepoint := map[], map[];
      inTx, nextId := false, 1;
    }

    /** `pool.begin()`. */
    method Begin(fail: bool) returns (ok: bool)
      requires Valid() && !inTx
      modifies this
      ensures Valid() && ok == !fail && inTx == ok
      ensures rows == old(rows) && nextId == old(nextId)
      ensures ok ==> savepoint == old(rows)
    {
      ok := !fail;
      if ok {
        inTx, savepoint := true, rows;
      }
    }

    /** `tx.commit()`: a failed commit leaves nothing of the transaction behind. */
    method Commit(fail: bool) returns (ok: bool)
      requires Valid() && inTx
      modifies this
      ensures Valid() && !inTx && ok == !fail && nextId == old(nextId)
      ensures rows == if ok then old(rows) else old(savepoint)
    {
      ok := !fail;
      if !ok {
        rows := savepoint;
      }
      inTx := false;
    }

    /** `tx.rollback()`: whether or not the call itself reports success, the transaction's work is discarded. */
    method Rollback(fail: bool) returns (ok: bool)
      requires Valid() && inTx
      modifies this
      ensures Valid() && !inTx && ok == !fail && nextId == old(nextId)
      ensures rows == old(savepoint)
    {
      ok := !fail;
      rows, inTx := savepoint, false;
    }

    /**
     * `INSERT INTO car ( car_name ) VALUES ( $1 ) RETURNING id`; fails once the
     * `integer` sequence is exhausted. A statement that fails after its `serial`
     * default was evaluated (`draws`) has used up a sequence value all the same.
     */
    method InsertReturningId(carName: string, fail: bool, draws: bool) returns (id: Option<I32>)
      requires Valid() && inTx
      modifies this
      ensures Valid() && inTx && savepoint == old(savepoint)
      ensures id.None? <==> fail || old(nextId) > MaxI32
      ensures id.None? ==> rows == old(rows)
      ensures id.None? ==> nextId == old(nextId) + (if fail && draws && old(nextId) <= MaxI32 then 1 else 0)
      ensures id.Some? ==> id.value == old(nextId) && id.value !in old(rows)
      ensures id.Some? ==> rows == old(rows)[id.value := carName] && nextId == old(nextId) + 1
    {
      if nextId > MaxI32 {
        return None;
      }
      if fail {
        if draws {
          nextId := nextId + 1;
        }
        return None;
      }
      id := Some(nextId);
      rows := rows[nextId := carName];
      nextId := nextId + 1;
    }

    /** `UPDATE car SET car_name = $1 WHERE id = $2`: affects one row if the id is present, none otherwise. */
    method UpdateName(id: I32, carName: string, fail: bool) returns (affected: Option<nat>)
      requires Valid() && inTx
      modifies this
      ensures Valid() && inTx && savepoint == old(savepoint) && nextId == old(nextId)
      ensures fail ==> affected == None && rows == old(rows)
      ensures !fail ==> affected == Some(if id in old(rows) then 1 else 0)
      ensures !fail ==> rows == if id in old(rows) then old(rows)[id := carName] else old(rows)
    {
      if fail {
        return None;
      }
      if id in rows {
        rows := rows[id := carName];
        affected := Some(1);
      } else {
        affected := Some(0);
      }
    }

    /** Executes a `DELETE FROM <name> WHERE id IN (...)` text; a statement of any other shape is an error. */
    method ExecuteDelete(sql: string, fail: bool) returns (affected: Option<nat>)
      requires Valid() && inTx
      modifies this
      ensures Valid() && inTx && savepoint == old(savepoint) && nextId == old(nextId)
      ensures affected.None? <==> fail || !Addresses(DeleteVerb, sql)
      ensures affected.None? ==> rows == old(rows)
      ensures affected.Some? ==>
        var gone := Restrict(old(rows), ReadInStatement(DeleteVerb, sql).value.1).Keys;
        rows == old(rows) - gone && affected.value == |gone|
    {
      if fail || !Addresses(DeleteVerb, sql) {
        return None;
      }
      var gone := Restrict(rows, ReadInStatement(DeleteVerb, sql).value.1).Keys;
      rows := rows - gone;
      affected := Some(|gone|);
    }

    /** `SELECT id, car_name FROM car`, through the pool: it sees the committed rows. */
    method FetchAll(fail: bool) returns (recs: Option<seq<Row>>)
      requires !inTx
      ensures recs.None? <==> fail
      ensures recs.Some? ==> Lists(recs.value, rows)
    {
      if fail {
        return None;
      }
      var all := Scan(rows);
      recs := Some(all);
    }

    /** Executes a `SELECT * FROM <name> WHERE id IN (...)` text; a statement of any other shape is an error. */
    method FetchIn(sql: string, fail: bool) returns (recs: Option<seq<Row>>)
      requires !inTx
      ensures recs.None? <==> fail || !Addresses(SelectVerb, sql)
      ensures recs.Some? ==> Lists(recs.value, Restrict(rows, ReadInStatement(SelectVerb, sql).value.1))
    {
      if fail || !Addresses(SelectVerb, sql) {
        return None;
      }
      var found := Scan(Restrict(rows, ReadInStatement(SelectVerb, sql).value.1));
      recs := Some(found);
    }
  }
}
