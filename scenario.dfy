/**
 * Clients of `CarCollection` that rely on the operations' contracts alone:
 * two cars are added, one is renamed, a batch naming an unknown id is turned
 * away without effect, a list with a repeated id is refused, and both cars are
 * removed.
 */
module CarScenario {
  import opened Base
  import opened Database
  import opened Cars

  const Healthy := Faults(false, {}, {}, false, false)

  method AddTwo() returns (cars: CarCollection)
    ensures cars.db.Valid() && !cars.db.inTx && fresh(cars.db)
    ensures cars.db.rows == map[1 := "Volvo", 2 := "Saab"]
    ensures cars.db.nextId == 5
  {
    var table := new CarTable("webapi.car");
    cars := new CarCollection(table);
    var added := cars.Add([Car(None, "Volvo"), Car(None, "Saab")], Healthy);
    assert Added(added);
    var ids := added.value.ids.value;
    assert ids[0] == 1 && ids[1] == 2;
    assert table.rows.Keys == {1, 2};
    // The second insert of this batch is rejected after drawing its id:
    // nothing is kept, but both ids the batch drew stay used.
    var rejected := Faults(false, {1}, {1}, false, false);
    var failed := cars.Add([Car(None, "Saab 900"), Car(None, "Volvo 240")], rejected);
    assert Inserted(2, rejected, 3) == 1;
    assert failed == Done(AddReply(DatabaseError, None));
  }

  method RenameThenReject(cars: CarCollection)
    requires cars.db.Valid() && !cars.db.inTx
    requires cars.db.rows == map[1 := "Volvo", 2 := "Saab"]
    modifies cars.db
    ensures cars.db.Valid() && !cars.db.inTx
    ensures cars.db.rows == map[1 := "Volvo V60", 2 := "Saab"]
  {
    var renamed := cars.Modify([Car(Some(1), "Volvo V60")], Healthy);
    assert AllPresent([Car(Some(1), "Volvo V60")], {1, 2});
    assert renamed == Done(ReplyOk);
    var rejected := cars.Modify([Car(Some(999), "Amazon"), Car(Some(1), "Volvo XC60")], Healthy);
    assert KeyOf([Car(Some(999), "Amazon"), Car(Some(1), "Volvo XC60")][0]) !in cars.db.rows;
    assert rejected == Done(NotFoundError);
  }

  method RemoveBoth(cars: CarCollection)
    requires cars.db.Valid() && !cars.db.inTx
    requires cars.db.rows == map[1 := "Volvo V60", 2 := "Saab"]
    modifies cars.db
  {
    var twice: seq<I32> := [1, 1];
    var repeated := cars.Remove(twice, Healthy);
    assert twice[0] == twice[1];
    assert repeated == Done(NotFoundError);
    var removed := cars.Remove([1, 2], Healthy);
    assert removed == Done(ReplyOk);
    assert cars.db.rows == map[];
    var fetched := cars.Get(Some([1, 2]), false);
    assert Selected(cars.db.rows, Some([1, 2])) == map[];
    ListsCarsCount(fetched.value, map[]);
    assert fetched == Done([]);
  }
}
