/**
 * `CarCollection` (src/webapi/collections/car.rs, postgres build; the older
 * copy in src/webapi/collections.rs runs the same statements): the batch
 * operations on the `car` table. Each write opens one transaction, runs its
 * statements in input order, checks the affected-row count where there is
 * one, and then commits or rolls back as a whole.
 */
module Cars {
  import opened Base
  import opened ExpHelper
  import opened SqlReader
  import opened Database

  /** `car::Car`: `id` is absent on records that are still to be added. */
  datatype Car = Car(id: Option<I32>, carName: string)

  /** The codes the car operations reply with. */
  datatype ErrorCode = ReplyOk | DatabaseError | NotFoundError

  /** What `add` replies with: the code and, on success, the generated ids. */
  datatype AddReply = AddReply(code: ErrorCode, ids: Option<seq<I32>>)

  /**
   * How an operation ends: `Ok(value)`, an `Err` passed up by `?` (from
   * `begin` or `rollback`), or a panic (the `.unwrap()` on `rollback` in `add`).
   */
  datatype Completion<T> = Done(value: T) | Raised | Panicked

  /**
   * Which round trips of one call fail: `begin`, the statements of the
   * transaction by position (0 for the first), `commit` and `rollback`.
   * `drawing` names the failing inserts that fail only after their `serial`
   * default has drawn a value (a constraint or trigger rejecting the row), as
   * opposed to failing before the statement runs.
   */
  datatype Faults = Faults(begin: bool, failing: set<nat>, drawing: set<nat>, commit: bool, rollback: bool)

  /** The column mapping of `get`: `id: rec.get(0), car_name: rec.get(1)`. */
  function AsCar(rec: Row): Car
  {
    Car(Some(rec.id), rec.carName)
  }

  /** The records that cars carrying ids stand for. */
  function RowsOf(cars: seq<Car>): (recs: seq<Row>)
    requires forall i :: 0 <= i < |cars| ==> cars[i].id.Some?
    ensures |recs| == |cars|
    ensures forall i :: 0 <= i < |cars| ==> recs[i] == Row(cars[i].id.value, cars[i].carName)
  {
    seq(|cars|, i requires 0 <= i < |cars| => Row(cars[i].id.value, cars[i].carName))
  }

  /** `cars` carry ids and list every entry of `m` exactly once, in some order. */
  ghost predicate ListsCars(cars: seq<Car>, m: map<I32, string>)
  {
    (forall i :: 0 <= i < |cars| ==> cars[i].id.Some?) && Lists(RowsOf(cars), m)
  }

  /** Mapping fetched records to cars one by one keeps the listing. */
  lemma ListsAsCars(recs: seq<Row>, cars: seq<Car>, m: map<I32, string>)
    requires Lists(recs, m)
    requires |cars| == |recs| && forall j :: 0 <= j < |recs| ==> cars[j] == AsCar(recs[j])
    ensures ListsCars(cars, m)
  {
    assert RowsOf(cars) == recs;
  }

  /** A listing has exactly one entry per row it lists. */
  lemma ListsCarsCount(cars: seq<Car>, m: map<I32, string>)
    requires ListsCars(cars, m)
    ensures |cars| == |m|
  {
    var recs := RowsOf(cars);
    var ids := seq(|recs|, i requires 0 <= i < |recs| => recs[i].id);
    assert Distinct(ids) by {
      forall i, j | 0 <= i < j < |ids| ensures ids[i] != ids[j] {
        assert recs[i].id != recs[j].id;
      }
    }
    IdSetSize(ids);
    assert IdSet(ids) == m.Keys by {
      forall k | k in m ensures k in IdSet(ids) {
        var i :| 0 <= i < |recs| && recs[i].id == k;
        assert ids[i] == k;
      }
    }
  }

  /** The rows `get(ids)` is after: all of them, or those whose id is listed. */
  function Selected(rows: map<I32, string>, ids: Option<seq<I32>>): map<I32, string>
  {
    match ids
    case None => rows
    case Some(list) => Restrict(rows, list)
  }

  // ---- add ----

  /** The insert at position `i` fails: it is told to, or the sequence, starting at `start`, has passed the `integer` range. */
  predicate Stops(i: nat, faults: Faults, start: int)
  {
    i in faults.failing || start + i > MaxI32
  }

  /**
   * How many inserts of an add of `n` items succeed before the first that
   * fails; the items after it are not tried. All of them succeed exactly when
   * this is `n`.
   */
  function Inserted(n: nat, faults: Faults, start: int): (p: nat)
    ensures p <= n
    ensures forall i: nat :: i < p ==> !Stops(i, faults, start)
    ensures p < n ==> Stops(p, faults, start)
  {
    if n == 0 then 0
    else
      var q := Inserted(n - 1, faults, start);
      if q < n - 1 then q
      else if Stops(n - 1, faults, start) then n - 1
      else n
  }

  /**
   * How many sequence values an add of `n` items draws: one per insert that
   * succeeds, plus one when the insert that stops the batch fails after its
   * default was evaluated. The sequence keeps them whatever the transaction's
   * fate.
   */
  function Drawn(n: nat, faults: Faults, start: int): (d: nat)
    ensures Inserted(n, faults, start) <= d <= Inserted(n, faults, start) + 1
    ensures d == Inserted(n, faults, start) + 1 <==>
      Inserted(n, faults, start) < n && Inserted(n, faults, start) in faults.drawing && start + Inserted(n, faults, start) <= MaxI32
    ensures d <= n
    ensures start <= MaxI32 + 1 ==> start + d <= MaxI32 + 1
  {
    var p := Inserted(n, faults, start);
    assert p > 0 ==> !Stops(p - 1, faults, start);
    if p < n && p in faults.drawing && start + p <= MaxI32 then p + 1 else p
  }

  /** The add committed and replied with ids. */
  predicate Added(r: Completion<AddReply>)
  {
    r.Done? && r.value.code == ReplyOk && r.value.ids.Some?
  }

  // ---- modify ----

  /** None of the first `n` updates of a modify fails. */
  predicate UpdatesSucceed(n: nat, faults: Faults)
  {
    forall i :: 0 <= i < n ==> i !in faults.failing
  }

  /** The id an item is updated under: `item.id.unwrap_or(0)`. */
  function KeyOf(item: Car): I32
  {
    item.id.GetOr(0)
  }

  predicate AllPresent(items: seq<Car>, keys: set<I32>)
  {
    forall i :: 0 <= i < |items| ==> KeyOf(items[i]) in keys
  }

  /** The affected-row count that `modify` accumulates: one per item whose id is present. */
  function Matched(items: seq<Car>, keys: set<I32>): nat
  {
    if items == [] then 0
    else Matched(items[..|items| - 1], keys) + (if KeyOf(items[|items| - 1]) in keys then 1 else 0)
  }

  /** The count reaches the number of items exactly when every item's id is present. */
  lemma {:induction false} MatchedAllPresent(items: seq<Car>, keys: set<I32>)
    ensures Matched(items, keys) <= |items|
    ensures Matched(items, keys) == |items| <==> AllPresent(items, keys)
    decreases |items|
  {
    if items != [] {
      var init := items[..|items| - 1];
      MatchedAllPresent(init, keys);
      if AllPresent(items, keys) {
        assert AllPresent(init, keys) by {
          forall i | 0 <= i < |init| ensures KeyOf(init[i]) in keys {
            assert init[i] == items[i];
          }
        }
      }
      if AllPresent(init, keys) && KeyOf(items[|items| - 1]) in keys {
        forall i | 0 <= i < |items| ensures KeyOf(items[i]) in keys {
          if i < |init| {
            assert items[i] == init[i];
          }
        }
      }
    }
  }

  /** An item without an id is updated as id 0, which a `serial` column never holds: such a batch cannot be accepted. */
  lemma MissingIdNeverPresent(items: seq<Car>, keys: set<I32>, i: nat)
    requires i < |items| && items[i].id.None?
    requires forall k :: k in keys ==> k >= 1
    ensures !AllPresent(items, keys)
  {
  }

  /** The rows after the updates of `items`, applied in order. */
  function Renamed(rows: map<I32, string>, items: seq<Car>): (r: map<I32, string>)
    ensures r.Keys == rows.Keys
  {
    if items == [] then rows
    else
      var before := Renamed(rows, items[..|items| - 1]);
      var last := items[|items| - 1];
      if KeyOf(last) in before then before[KeyOf(last) := last.carName] else before
  }

  /**
   * After the updates, an id carries the name of the last item updating it;
   * an id that no item names keeps its name.
   */
  lemma {:induction false} RenamedNames(rows: map<I32, string>, items: seq<Car>)
    ensures forall i :: 0 <= i < |items| && KeyOf(items[i]) in rows && (forall j :: i < j < |items| ==> KeyOf(items[j]) != KeyOf(items[i])) ==>
              Renamed(rows, items)[KeyOf(items[i])] == items[i].carName
    ensures forall k :: k in rows && (forall i :: 0 <= i < |items| ==> KeyOf(items[i]) != k) ==>
              Renamed(rows, items)[k] == rows[k]
    decreases |items|
  {
    if items != [] {
      var init := items[..|items| - 1];
      RenamedNames(rows, init);
      forall i | 0 <= i < |init| && KeyOf(items[i]) in rows && (forall j :: i < j < |items| ==> KeyOf(items[j]) != KeyOf(items[i]))
        ensures Renamed(rows, items)[KeyOf(items[i])] == items[i].carName
      {
        assert items[|items| - 1] != items[i] by {
          assert KeyOf(items[|items| - 1]) != KeyOf(items[i]);
        }
        forall j | i < j < |init| ensures KeyOf(init[j]) != KeyOf(init[i]) {
          assert init[j] == items[j];
        }
        assert init[i] == items[i];
      }
      forall k | k in rows && (forall i :: 0 <= i < |items| ==> KeyOf(items[i]) != k)
        ensures Renamed(rows, items)[k] == rows[k]
      {
        forall i | 0 <= i < |init| ensures KeyOf(init[i]) != k {
          assert init[i] == items[i];
        }
      }
    }
  }

  // ---- remove ----

  /** The ids of a list, as a set. */
  function IdSet(ids: seq<I32>): set<I32>
  {
    set id | id in ids
  }

  predicate Distinct(ids: seq<I32>)
  {
    forall i, j :: 0 <= i < j < |ids| ==> ids[i] != ids[j]
  }

  /** A list has as many distinct ids as entries exactly when none repeats. */
  lemma {:induction false} IdSetSize(ids: seq<I32>)
    ensures |IdSet(ids)| <= |ids|
    ensures |IdSet(ids)| == |ids| <==> Distinct(ids)
    decreases |ids|
  {
    if ids != [] {
      var init := ids[..|ids| - 1];
      var last := ids[|ids| - 1];
      assert ids == init + [last];
      IdSetSize(init);
      DistinctSnoc(init, last);
      assert IdSet(ids) == IdSet(init) + {last};
      if last in init {
        assert IdSet(ids) == IdSet(init);
      } else {
        assert last !in IdSet(init);
      }
    }
  }

  /** Appending an id keeps a list free of repeats exactly when the id is new. */
  lemma DistinctSnoc(init: seq<I32>, last: I32)
    ensures Distinct(init + [last]) <==> Distinct(init) && last !in init
  {
    var ids := init + [last];
    if Distinct(ids) {
      forall i, j | 0 <= i < j < |init| ensures init[i] != init[j] {
        assert ids[i] == init[i] && ids[j] == init[j];
      }
    }
    if last in init {
      var i :| 0 <= i < |init| && init[i] == last;
      assert ids[i] == ids[|init|];
    }
    if Distinct(init) && last !in init {
      forall i, j | 0 <= i < j < |ids| ensures ids[i] != ids[j] {
        if j < |init| {
          assert ids[i] == init[i] && ids[j] == init[j];
        } else {
          assert ids[i] == init[i];
        }
      }
    }
  }

  /**
   * The rows `DELETE ... WHERE id IN (ids)` deletes number `|ids|` exactly when
   * the ids are distinct and all present: a repeated or a missing id makes the
   * count fall short.
   */
  lemma DeleteCountExact(ids: seq<I32>, rows: map<I32, string>)
    ensures |Restrict(rows, ids).Keys| <= |ids|
    ensures |Restrict(rows, ids).Keys| == |ids| <==> Distinct(ids) && forall i :: 0 <= i < |ids| ==> ids[i] in rows
    ensures |Restrict(rows, ids).Keys| == |ids| ==> Restrict(rows, ids).Keys == IdSet(ids)
  {
    var gone := Restrict(rows, ids).Keys;
    var all := IdSet(ids);
    IdSetSize(ids);
    assert gone <= all;
    SubsetSize(gone, all);
    if |gone| == |ids| {
      assert gone == all;
      forall i | 0 <= i < |ids| ensures ids[i] in rows {
        assert ids[i] in gone;
      }
    }
    if Distinct(ids) && forall i :: 0 <= i < |ids| ==> ids[i] in rows {
      forall k | k in all ensures k in gone {
        var i :| 0 <= i < |ids| && ids[i] == k;
      }
      SubsetSize(all, gone);
    }
  }

  /** A subset is at most as large as its superset, and as large only when it is the superset. */
  lemma SubsetSize(a: set<I32>, b: set<I32>)
    requires a <= b
    ensures |a| <= |b|
    ensures |a| == |b| ==> a == b
  {
    assert b == a + (b - a);
    assert |b| == |a| + |b - a|;
  }

  /** The loop of `get` that pushes one `Car` per fetched record, in fetch order. */
  method CopyCars(recs: seq<Row>) returns (items: seq<Car>)
    ensures |items| == |recs|
    ensures forall j :: 0 <= j < |recs| ==> items[j] == AsCar(recs[j])
  {
    items := [];
    for i := 0 to |recs|
      invariant |items| == i
      invariant forall j :: 0 <= j < i ==> items[j] == AsCar(recs[j])
    {
      items := items + [AsCar(recs[i])];
    }
  }

  class CarCollection {
    const db: CarTable

    constructor (db: CarTable)
      ensures this.db == db
    {
      this.db := db;
    }

    /**
     * `get(ids)`: every row, or the rows whose id is listed, each once and in no
     * particular order; listed ids with no row are left out. A failed fetch, and
     * the `IN ()` statement an empty list produces, come back as an `Err`.
     */
    method Get(ids: Option<seq<I32>>, fetchFails: bool) returns (r: Completion<seq<Car>>)
      requires !db.inTx
      ensures fetchFails || ids == Some([]) ==> r == Raised
      ensures !fetchFails && ids != Some([]) ==> r.Done? && ListsCars(r.value, Selected(db.rows, ids))
      ensures r.Done? ==> |r.value| == |Selected(db.rows, ids)|
    {
      if ids.None? {
        var recs := db.FetchAll(fetchFails);
        if recs.None? {
          return Raised;
        }
        var cars := seq(|recs.value|, i requires 0 <= i < |recs.value| => AsCar(recs.value[i]));
        ListsAsCars(recs.value, cars, db.rows);
        ListsCarsCount(cars, db.rows);
        return Done(cars);
      }
      var sql := SelectInExp(db.name, ids.value);
      InStatementRoundTrip(SelectVerb, db.name, ids.value);
      var recs := db.FetchIn(sql, fetchFails);
      if recs.None? {
        return Raised;
      }
      var items := CopyCars(recs.value);
      ListsAsCars(recs.value, items, Selected(db.rows, ids));
      ListsCarsCount(items, Selected(db.rows, ids));
      return Done(items);
    }

    /**
     * `add(items)`: inserts the items in order inside one transaction. On
     * success it replies with one new id per item, in input order, and the
     * table gains exactly those rows; if any insert fails nothing is kept and
     * later items are not tried.
     */
    method Add(items: seq<Car>, faults: Faults) returns (r: Completion<AddReply>)
      requires db.Valid() && !db.inTx
      modifies db
      ensures db.Valid() && !db.inTx
      ensures faults.begin ==> r == Raised && db.nextId == old(db.nextId)
      ensures !faults.begin ==> db.nextId == old(db.nextId) + Drawn(|items|, faults, old(db.nextId))
      ensures !faults.begin && Inserted(|items|, faults, old(db.nextId)) < |items| ==>
        r == if faults.rollback then Panicked else Done(AddReply(DatabaseError, None))
      ensures !faults.begin && Inserted(|items|, faults, old(db.nextId)) == |items| && faults.commit ==>
        r == Done(AddReply(DatabaseError, None))
      ensures !faults.begin && Inserted(|items|, faults, old(db.nextId)) == |items| && !faults.commit ==> Added(r)
      ensures Added(r) ==>
        var ids := r.value.ids.value;
        && |ids| == |items|
        && (forall i :: 0 <= i < |ids| ==> ids[i] == old(db.nextId) + i && ids[i] !in old(db.rows))
        && db.rows.Keys == old(db.rows).Keys + IdSet(ids)
        && (forall i :: 0 <= i < |ids| ==> db.rows[ids[i]] == items[i].carName)
        && (forall k :: k in old(db.rows) ==> db.rows[k] == old(db.rows)[k])
      ensures !Added(r) ==> db.rows == old(db.rows)
    {
      var ok := db.Begin(faults.begin);
      if !ok {
        return Raised;
      }
      var ids: seq<I32> := [];
      var i := 0;
      while i < |items|
        invariant 0 <= i <= |items|
        invariant db.Valid() && db.inTx && db.savepoint == old(db.rows)
        invariant db.nextId == old(db.nextId) + i
        invariant forall j: nat :: j < i ==> !Stops(j, faults, old(db.nextId))
        invariant |ids| == i
        invariant forall j :: 0 <= j < i ==> ids[j] == old(db.nextId) + j && ids[j] !in old(db.rows)
        invariant db.rows.Keys == old(db.rows).Keys + IdSet(ids)
        invariant forall j :: 0 <= j < i ==> db.rows[ids[j]] == items[j].carName
        invariant forall k :: k in old(db.rows) ==> db.rows[k] == old(db.rows)[k]
      {
        var id := db.InsertReturningId(items[i].carName, i in faults.failing, i in faults.drawing);
        if id.None? {
          assert Stops(i, faults, old(db.nextId));
          assert Inserted(|items|, faults, old(db.nextId)) == i;
          var rolledBack := db.Rollback(faults.rollback);
          if !rolledBack {
            return Panicked;
          }
          return Done(AddReply(DatabaseError, None));
        }
        assert IdSet(ids + [id.value]) == IdSet(ids) + {id.value};
        ids := ids + [id.value];
        i := i + 1;
      }
      var committed := db.Commit(faults.commit);
      if !committed {
        return Done(AddReply(DatabaseError, None));
      }
      r := Done(AddReply(ReplyOk, Some(ids)));
    }

    /**
     * `modify(items)`: updates each item's name by id, in order, inside one
     * transaction, and accepts the batch only when every item's id is present
     * (the affected rows add up to the number of items); otherwise nothing
     * changes and the reply is `NotFoundError`. A failing update stops the
     * batch at once with `DatabaseError`.
     */
    method Modify(items: seq<Car>, faults: Faults) returns (r: Completion<ErrorCode>)
      requires db.Valid() && !db.inTx
      modifies db
      ensures db.Valid() && !db.inTx && db.nextId == old(db.nextId)
      ensures faults.begin ==> r == Raised
      ensures !faults.begin && !UpdatesSucceed(|items|, faults) ==>
        r == if faults.rollback then Raised else Done(DatabaseError)
      ensures !faults.begin && UpdatesSucceed(|items|, faults) && AllPresent(items, old(db.rows).Keys) ==>
        r == if faults.commit then Done(DatabaseError) else Done(ReplyOk)
      ensures !faults.begin && UpdatesSucceed(|items|, faults) && !AllPresent(items, old(db.rows).Keys) ==>
        r == if faults.rollback then Raised else Done(NotFoundError)
      ensures r == Done(ReplyOk) ==> db.rows == Renamed(old(db.rows), items)
      ensures r != Done(ReplyOk) ==> db.rows == old(db.rows)
      ensures (exists i :: 0 <= i < |items| && items[i].id.None?) ==> r != Done(ReplyOk)
    {
      var ok := db.Begin(faults.begin);
      if !ok {
        return Raised;
      }
      var count: nat := 0;
      for i := 0 to |items|
        invariant db.Valid() && db.inTx && db.savepoint == old(db.rows) && db.nextId == old(db.nextId)
        invariant db.rows == Renamed(old(db.rows), items[..i])
        invariant count == Matched(items[..i], old(db.rows).Keys)
        invariant UpdatesSucceed(i, faults)
      {
        assert items[..i + 1][..i] == items[..i];
        var affected := db.UpdateName(KeyOf(items[i]), items[i].carName, i in faults.failing);
        if affected.None? {
          var rolledBack := db.Rollback(faults.rollback);
          if !rolledBack {
            return Raised;
          }
          return Done(DatabaseError);
        }
        count := count + affected.value;
      }
      assert items[..|items|] == items;
      MatchedAllPresent(items, old(db.rows).Keys);
      if i :| 0 <= i < |items| && items[i].id.None? {
        MissingIdNeverPresent(items, old(db.rows).Keys, i);
      }
      if |items| == count {
        var committed := db.Commit(faults.commit);
        if !committed {
          return Done(DatabaseError);
        }
        return Done(ReplyOk);
      } else {
        var rolledBack := db.Rollback(faults.rollback);
        if !rolledBack {
          return Raised;
        }
        return Done(NotFoundError);
      }
    }

    /**
     * `remove(ids)`: one `DELETE ... WHERE id IN (ids)` inside a transaction,
     * accepted only when it deletes `|ids|` rows, that is when the ids are
     * distinct and all present; then exactly the listed rows are gone.
     * Otherwise nothing changes and the reply is `NotFoundError`, or
     * `DatabaseError` when the statement fails (an empty list gives `IN ()`,
     * which is not a statement).
     */
    method Remove(ids: seq<I32>, faults: Faults) returns (r: Completion<ErrorCode>)
      requires db.Valid() && !db.inTx
      modifies db
      ensures db.Valid() && !db.inTx && db.nextId == old(db.nextId)
      ensures faults.begin ==> r == Raised
      ensures !faults.begin && (0 in faults.failing || ids == []) ==>
        r == if faults.rollback then Raised else Done(DatabaseError)
      ensures !faults.begin && 0 !in faults.failing && ids != [] && Distinct(ids) && (forall i :: 0 <= i < |ids| ==> ids[i] in old(db.rows)) ==>
        r == if faults.commit then Done(DatabaseError) else Done(ReplyOk)
      ensures !faults.begin && 0 !in faults.failing && ids != [] && !(Distinct(ids) && forall i :: 0 <= i < |ids| ==> ids[i] in old(db.rows)) ==>
        r == if faults.rollback then Raised else Done(NotFoundError)
      ensures r == Done(ReplyOk) ==> db.rows == old(db.rows) - IdSet(ids)
      ensures r != Done(ReplyOk) ==> db.rows == old(db.rows)
    {
      var ok := db.Begin(faults.begin);
      if !ok {
        return Raised;
      }
      var sql := DeleteInExp(db.name, ids);
      InStatementRoundTrip(DeleteVerb, db.name, ids);
      var deleted := db.ExecuteDelete(sql, 0 in faults.failing);
      if deleted.None? {
        var rolledBack := db.Rollback(faults.rollback);
        if !rolledBack {
          return Raised;
        }
        return Done(DatabaseError);
      }
      DeleteCountExact(ids, old(db.rows));
      if |ids| == deleted.value {
        var committed := db.Commit(faults.commit);
        if !committed {
          return Done(DatabaseError);
        }
        assert db.rows == old(db.rows) - IdSet(ids);
        return Done(ReplyOk);
      } else {
        var rolledBack := db.Rollback(faults.rollback);
        if !rolledBack {
          return Raised;
        }
        return Done(NotFoundError);
      }
    }
  }
}
