/** Properties that relate several requests, or a request and what a later
    one observes. */
module Properties {
  import opened Wrappers
  import opened Json
  import opened Text
  import opened Cafes
  import opened Queries
  import opened Responses
  import opened Handlers
  import opened Api

  /* ---------------- /report-closed ---------------- */

  /** Once a cafe is reported closed, reporting it again finds nothing and
      changes nothing. */
  lemma DeleteTwice(store: Store, id: nat)
    requires DeleteCafe(store, id, Some(ApiKey)).response
      == Reply(200, MessageBody("Cafe successfully deleted"))
    ensures var after := DeleteCafe(store, id, Some(ApiKey)).store;
      DeleteCafe(after, id, Some(ApiKey)) == Outcome(after, Reply(404, ErrorBody("Cafe not found")))
  {
  }

  /** Without the right key nothing is deleted, whatever the id. */
  lemma {:induction false} WrongKeyDeletesNothing(store: Store, reqs: seq<Request>, key: Option<string>)
    requires key != Some(ApiKey)
    requires forall i :: 0 <= i < |reqs| ==> reqs[i].ReportClosed? && reqs[i].apiKey == key
    ensures Run(store, reqs) == store
    decreases |reqs|
  {
    if |reqs| > 0 {
      WrongKeyDeletesNothing(store, reqs[1..], key);
    }
  }

  /** Reporting a freshly added cafe closed restores the table it was added to.
      The new id fits a 64-bit INTEGER when the ids in use leave room. */
  lemma AddThenDelete(store: Store, form: map<string, string>)
    requires PositiveIds(store) && RowidsBelowMax(store)
    requires AddCafe(store, form).response.Redirect?
    ensures exists id: nat ::
      DeleteCafe(AddCafe(store, form).store, id, Some(ApiKey))
        == Outcome(store, Reply(200, MessageBody("Cafe successfully deleted")))
  {
    var after := AddCafe(store, form).store;
    var id :| AddedFromForm(store, after, id, form);
    assert 0 < id <= MaxRowid;
    DeleteUndoesAdd(store, after, id, form);
  }

  /** Deleting the row an INSERT added gives back the table before it. */
  lemma DeleteUndoesAdd(before: Store, after: Store, id: nat, form: map<string, string>)
    requires AddedFromForm(before, after, id, form) && id <= MaxRowid
    ensures DeleteCafe(after, id, Some(ApiKey))
      == Outcome(before, Reply(200, MessageBody("Cafe successfully deleted")))
  {
    var r := DeleteCafe(after, id, Some(ApiKey));
    assert r.store.Keys == before.Keys;
    forall k | k in before ensures r.store[k] == before[k] {
      assert r.store[k] == after[k];
    }
    assert r.store == before;
  }

  /* ---------------- /update-price ---------------- */

  /** Setting the same price twice has the effect of setting it once. */
  lemma UpdatePriceIdempotent(store: Store, id: nat, price: Option<string>)
    ensures var once := UpdatePrice(store, id, price);
      UpdatePrice(once.store, id, price) == once
  {
  }

  /** Putting the old price back restores the table. */
  lemma UpdatePriceUndo(store: Store, id: nat, price: Option<string>)
    requires id in store
    ensures UpdatePrice(UpdatePrice(store, id, price).store, id, store[id].coffeePrice).store == store
  {
    var restored := UpdatePrice(UpdatePrice(store, id, price).store, id, store[id].coffeePrice).store;
    assert restored[id] == store[id];
  }

  /** After an update the row serialises with the new price, `null` when no
      price was given. */
  lemma UpdatedPriceIsServed(store: Store, id: nat, price: Option<string>)
    requires id in store
    ensures var row := UpdatePrice(store, id, price).store[id];
      && "coffee_price" in ToDict(row)
      && ToDict(row)["coffee_price"] == (if price.None? then Null else String(price.value))
  {
    var row := UpdatePrice(store, id, price).store[id];
    ToDictPrice(row);
  }

  /** The confirmation message ends with the id, which reads back exactly. */
  lemma UpdateMessageNamesId(store: Store, id: nat, price: Option<string>)
    requires id in store
    ensures exists digits ::
      && UpdatePrice(store, id, price).response == Reply(200, MessageBody("Price updated for product " + digits))
      && IsDigits(digits) && ParseDecimal(digits) == id
  {
    ParseDecimalOfDecimal(id);
    assert UpdatePrice(store, id, price).response
      == Reply(200, MessageBody("Price updated for product " + Decimal(id)));
  }

  /* ---------------- /all and /random ---------------- */

  /** With unique names, `/all` lists names in strictly increasing order. */
  lemma GetAllStrictlyByName(store: Store)
    requires Valid(store) && |store| > 0
    ensures ReadRows(GetAllCafes(store).response.body, "cafe") == Some(OrderByName(store))
    ensures StrictlyByName(OrderByName(store))
  {
    ReadRowsBody("cafe", OrderByName(store));
    OrderByNameStrict(store);
  }

  /** The first cafe added to an empty table is the one `/all` then lists. */
  lemma AddToEmptyThenList(form: map<string, string>)
    requires HasRequiredFields(form)
    ensures var after := AddCafe(map[], form).store;
      && |after| == 1
      && GetAllCafes(after).response.status == 200
      && exists c :: ReadRows(GetAllCafes(after).response.body, "cafe") == Some([c])
                    && RowFromForm(c, 1, form)
  {
    var after := AddCafe(map[], form).store;
    assert !NameTaken(map[], form["name"]);
    var id :| AddedFromForm(map[], after, id, form);
    assert after.Keys == {id};
    var rows := ReadRows(GetAllCafes(after).response.body, "cafe").value;
    assert |rows| == 1;
    assert rows[0] in after.Values;
    assert rows == [after[id]];
    assert id == 1 by {
      var ins := Insert(map[], DraftOf(form)).value;
      assert ins.id == 1;
      assert after == ins.store;
    }
  }

  /** `/random` can answer with any cafe in the table. */
  lemma RandomReachesEveryCafe(store: Store, c: Cafe)
    requires c in store.Values
    ensures exists pick: nat :: GetRandomCafe(store, pick).response == Reply(200, Object(ToDict(c)))
  {
    var rows := Scan(store);
    assert c in rows;
    var i :| 0 <= i < |rows| && rows[i] == c;
    SmallRemainder(i, |rows|);
    assert GetRandomCafe(store, i).response == Reply(200, Object(ToDict(c)));
  }

  lemma SmallRemainder(i: nat, n: nat)
    requires i < n
    ensures i % n == i
  {
  }

  /* ---------------- /add ---------------- */

  /** A flag submitted as the text "false" is stored as true in the new row. */
  lemma FalseTextSetsFlag(store: Store, form: map<string, string>)
    requires "has_wifi" in form && form["has_wifi"] == "false"
    requires AddCafe(store, form).response.Redirect?
    ensures var after := AddCafe(store, form).store;
      forall id :: id in after && id !in store ==> after[id].hasWifi
  {
    var after := AddCafe(store, form).store;
    var added :| AddedFromForm(store, after, added, form);
    forall id | id in after && id !in store ensures after[id].hasWifi {
      assert id == added;
    }
  }

  /** Submitting a name already in the table changes nothing and reports the
      UNIQUE constraint. */
  lemma DuplicateNameRefused(store: Store, form: map<string, string>)
    requires HasRequiredFields(form) && NameTaken(store, form["name"])
    ensures AddCafe(store, form)
      == Outcome(store, AddFailedPage(UniqueFailed(Name)))
  {
  }

  /* ---------------- /search ---------------- */

  /** The search is case-insensitive: "new" finds "New York" and "NEW" finds
      "new jersey", while "new" does not find "Boston". */
  lemma SearchIgnoresCase()
    ensures ContainsIgnoringCase("New York", "new")
    ensures ContainsIgnoringCase("new jersey", "NEW")
    ensures !ContainsIgnoringCase("Boston", "new")
  {
    assert Lower("new") == "new";
    assert Lower("NEW") == "new";
    var ny, nj, boston := Lower("New York"), Lower("new jersey"), Lower("Boston");
    assert ny[0..3] == "new";
    assert OccursAt(ny, "new", 0);
    assert nj[0..3] == "new";
    assert OccursAt(nj, "new", 0);
    assert boston == "boston";
    forall i | 0 <= i <= 3 ensures !OccursAt(boston, "new", i) {
      assert boston[i] != 'n';
    }
  }
}
