/** The view functions of the cafe API, each a pure transition from the table
    and the request's parameters to the new table and the response. */
module Handlers {
  import opened Wrappers
  import opened Json
  import opened Text
  import opened Cafes
  import opened Queries
  import opened Responses

  /** The table after a request, and what the client receives. */
  datatype Outcome = Outcome(store: Store, response: Response)

  /** The static secret `/report-closed` compares the `api-key` argument with. */
  const ApiKey: string := "TopSecretAPIKey"

  /* ---------------- GET /random ---------------- */

  /** `get_random_cafe`: `random.choice` over all rows, the draw being `pick`
      taken modulo the number of rows. On an empty table `random.choice`
      raises, and the request fails with a server error. */
  function GetRandomCafe(store: Store, pick: nat): (r: Outcome)
    ensures r.store == store
    ensures |store| == 0 <==> r.response == InternalServerError
    ensures |store| > 0 ==>
      && r.response.Reply? && r.response.status == 200 && r.response.body.Object?
      && FromDict(r.response.body.fields).Some?
      && FromDict(r.response.body.fields).value in store.Values
  {
    var rows := Scan(store);
    if |rows| == 0 then
      Outcome(store, InternalServerError)
    else
      var c := rows[pick % |rows|];
      ToDictRoundTrip(c);
      Outcome(store, Reply(200, Object(ToDict(c))))
  }

  /* ---------------- GET /all ---------------- */

  /** `get_all_cafe`: every row, ordered by name, or 404 on an empty table. */
  function GetAllCafes(store: Store): (r: Outcome)
    ensures r.store == store
    ensures |store| == 0 <==> r.response == Reply(404, ErrorBody("No cafes found"))
    ensures |store| > 0 ==>
      && r.response.Reply? && r.response.status == 200
      && ReadRows(r.response.body, "cafe").Some?
      && var rows := ReadRows(r.response.body, "cafe").value;
         && |rows| == |store|
         && (forall c :: c in rows <==> c in store.Values)
         && SortedByName(rows)
  {
    var rows := OrderByName(store);
    if |rows| == 0 then
      Outcome(store, Reply(404, ErrorBody("No cafes found")))
    else
      ReadRowsBody("cafe", rows);
      Outcome(store, Reply(200, RowsBody("cafe", rows)))
  }

  /* ---------------- GET /search ---------------- */

  /** Some row's location contains `loc`, ignoring case. */
  ghost predicate AnyLocationMatches(store: Store, loc: string) {
    exists c :: c in store.Values && LocationMatches(c, loc)
  }

  /** The rows a search for `l` lists: `SELECT … WHERE location ILIKE '%l%'`
      over the table in rowid order. */
  function Matches(store: Store, l: string): seq<Cafe> {
    WhereLocation(Scan(store), l)
  }

  /** The search lists exactly the matching rows of the table, by increasing
      id, and lists nothing exactly when no location matches. */
  lemma MatchesListed(store: Store, l: string)
    ensures forall c :: c in Matches(store, l) <==> c in store.Values && LocationMatches(c, l)
    ensures KeyedById(store) ==> ByIdAscending(Matches(store, l))
    ensures |Matches(store, l)| == 0 <==> !AnyLocationMatches(store, l)
  {
    var rows := Matches(store, l);
    if KeyedById(store) {
      ScanByIdAscending(store);
    }
    if |rows| > 0 {
      assert rows[0] in rows;
    }
  }

  /** The two 404 messages of `/search` cannot be confused. */
  lemma SearchMessagesDiffer(l: string)
    ensures ErrorBody("No cafes found for location '" + l + "'")
      != ErrorBody("Location parameter is required")
  {
    var a := "No cafes found for location '" + l + "'";
    assert a[0] == 'N';
    assert ErrorBody(a).fields["error"] != ErrorBody("Location parameter is required").fields["error"];
  }

  /** `search_location`: the rows whose location contains `loc` ignoring case,
      in table order. A missing or empty `loc` and an empty result give 404. */
  function SearchLocation(store: Store, loc: Option<string>): (r: Outcome)
    ensures r.store == store
    ensures loc.None? || loc.value == "" <==>
      r.response == Reply(404, ErrorBody("Location parameter is required"))
    ensures loc.Some? && loc.value != "" ==>
      (!AnyLocationMatches(store, loc.value) <==>
       r.response == Reply(404, ErrorBody("No cafes found for location '" + loc.value + "'")))
    ensures loc.Some? && loc.value != "" && AnyLocationMatches(store, loc.value) ==>
      && r.response.Reply? && r.response.status == 200
      && ReadRows(r.response.body, "cafes").Some?
      && var rows := ReadRows(r.response.body, "cafes").value;
         && (forall c :: c in rows <==> c in store.Values && LocationMatches(c, loc.value))
         && (KeyedById(store) ==> ByIdAscending(rows))
  {
    if loc.None? || loc.value == "" then
      Outcome(store, Reply(404, ErrorBody("Location parameter is required")))
    else
      var rows := Matches(store, loc.value);
      MatchesListed(store, loc.value);
      SearchMessagesDiffer(loc.value);
      if |rows| == 0 then
        Outcome(store, Reply(404, ErrorBody("No cafes found for location '" + loc.value + "'")))
      else
        ReadRowsBody("cafes", rows);
        Outcome(store, Reply(200, RowsBody("cafes", rows)))
  }

  /* ---------------- POST /add ---------------- */

  /** `request.form.get(key)` */
  function FormValue(form: map<string, string>, key: string): (v: Option<string>)
    ensures v.Some? <==> key in form
    ensures v.Some? ==> v.value == form[key]
  {
    if key in form then Some(form[key]) else None
  }

  /** `bool(request.form.get(key))`: a flag is set by any non-empty value,
      whatever it says. */
  function FormFlag(form: map<string, string>, key: string): (b: bool)
    ensures b <==> key in form && form[key] != ""
  {
    match FormValue(form, key)
    case None => false
    case Some(v) => v != ""
  }

  /** The `Cafe` object the view builds from the submitted form. */
  function DraftOf(form: map<string, string>): Draft {
    Draft(
      FormValue(form, "name"), FormValue(form, "map_url"), FormValue(form, "img_url"),
      FormValue(form, "location"), FormValue(form, "seats"),
      FormFlag(form, "has_toilet"), FormFlag(form, "has_wifi"),
      FormFlag(form, "has_sockets"), FormFlag(form, "can_take_calls"),
      FormValue(form, "coffee_price"))
  }

  /** The form supplies a value for every NOT NULL text column. */
  predicate HasRequiredFields(form: map<string, string>) {
    "name" in form && "map_url" in form && "img_url" in form
    && "location" in form && "seats" in form
  }

  /** The row a form becomes under `id`: text columns as submitted, flags
      coerced. */
  ghost predicate RowFromForm(c: Cafe, id: int, form: map<string, string>) {
    && HasRequiredFields(form)
    && c.id == id
    && c.name == form["name"] && c.mapUrl == form["map_url"] && c.imgUrl == form["img_url"]
    && c.location == form["location"] && c.seats == form["seats"]
    && (c.hasToilet <==> "has_toilet" in form && form["has_toilet"] != "")
    && (c.hasWifi <==> "has_wifi" in form && form["has_wifi"] != "")
    && (c.hasSockets <==> "has_sockets" in form && form["has_sockets"] != "")
    && (c.canTakeCalls <==> "can_take_calls" in form && form["can_take_calls"] != "")
    && c.coffeePrice == FormValue(form, "coffee_price")
  }

  /** A form without some required value fails on the first such column, and
      that column's field is indeed absent from the form. */
  lemma FirstNullMissing(form: map<string, string>)
    requires !HasRequiredFields(form)
    ensures FirstNull(DraftOf(form)).Some?
    ensures ColumnName(FirstNull(DraftOf(form)).value) !in form
  {
    var d := DraftOf(form);
    if "name" !in form {
      assert FirstNull(d) == Some(Name);
    } else if "map_url" !in form {
      assert FirstNull(d) == Some(MapUrl);
    } else if "img_url" !in form {
      assert FirstNull(d) == Some(ImgUrl);
    } else if "location" !in form {
      assert FirstNull(d) == Some(Location);
    } else {
      assert FirstNull(d) == Some(Seats);
    }
  }

  /** The draft has every NOT NULL value exactly when the form does, and its
      name is the submitted one. */
  lemma DraftComplete(form: map<string, string>)
    ensures Complete(DraftOf(form)) <==> HasRequiredFields(form)
    ensures HasRequiredFields(form) ==> DraftOf(form).name.value == form["name"]
  {
  }

  /** `after` is `before` with one more row, built from `form` under `id`,
      which is above every id in use. */
  ghost predicate AddedFromForm(before: Store, after: Store, id: int, form: map<string, string>) {
    && id !in before
    && (forall k :: k in before ==> k < id)
    && (PositiveIds(before) ==> id > 0)
    && (RowidsBelowMax(before) ==> id <= MaxRowid)
    && after.Keys == before.Keys + {id}
    && RowFromForm(after[id], id, form)
    && (forall k :: k in before ==> after[k] == before[k])
  }

  /** Why an INSERT from `form` was refused: a missing required value (the
      first one in column order), or else a name already in use. */
  ghost predicate RefusedBecause(e: IntegrityError, form: map<string, string>) {
    && (HasRequiredFields(form) <==> e == UniqueFailed(Name))
    && (!HasRequiredFields(form) ==> e.NotNullFailed? && ColumnName(e.column) !in form)
  }

  /** A committed INSERT from a form adds exactly the row the form describes. */
  lemma InsertFromForm(store: Store, form: map<string, string>)
    requires Insert(store, DraftOf(form)).Ok?
    ensures AddedFromForm(store, Insert(store, DraftOf(form)).value.store, Insert(store, DraftOf(form)).value.id, form)
  {
    DraftComplete(form);
    var ins := Insert(store, DraftOf(form)).value;
    StoreRowFromForm(store, ins.id, form);
  }

  /** Storing the row a complete form describes under a fresh id above all
      others adds exactly that row. */
  lemma StoreRowFromForm(store: Store, id: int, form: map<string, string>)
    requires HasRequiredFields(form)
    requires id !in store && forall k :: k in store ==> k < id
    requires PositiveIds(store) ==> id > 0
    requires RowidsBelowMax(store) ==> id <= MaxRowid
    ensures Complete(DraftOf(form))
    ensures AddedFromForm(store, store[id := RowOf(id, DraftOf(form))], id, form)
  {
    var after := store[id := RowOf(id, DraftOf(form))];
    RowOfForm(id, form);
    assert after.Keys == store.Keys + {id};
  }

  /** The row built from a complete form holds the form's values. */
  lemma RowOfForm(id: int, form: map<string, string>)
    requires HasRequiredFields(form)
    ensures Complete(DraftOf(form))
    ensures RowFromForm(RowOf(id, DraftOf(form)), id, form)
  {
  }

  /** A refused INSERT from a form names the reason the form gives. */
  lemma InsertFromFormRefused(store: Store, form: map<string, string>)
    requires Insert(store, DraftOf(form)).Err?
    ensures RefusedBecause(Insert(store, DraftOf(form)).error, form)
  {
    DraftComplete(form);
    if !HasRequiredFields(form) {
      FirstNullMissing(form);
    }
  }

  const AddedMessage: Flash := Flash("success", "Cafe added successfully!")

  /** The page shown again after a refused INSERT, flashing the database's error. */
  function AddFailedPage(e: IntegrityError): Response {
    Render("add.html", [Flash("danger", "Error adding cafe: " + ErrorText(e))])
  }

  /** `add_cafe` on POST: the INSERT either commits, and the client is sent
      to `/all`, or it is rolled back, and the form is shown again with the
      database's error. */
  function AddCafe(store: Store, form: map<string, string>): (r: Outcome)
    ensures r.response.Redirect? <==> HasRequiredFields(form) && !NameTaken(store, form["name"])
    ensures r.response.Redirect? ==>
      r.response == Redirect("/all", [AddedMessage]) && exists id :: AddedFromForm(store, r.store, id, form)
    ensures !r.response.Redirect? ==>
      && r.store == store
      && exists e :: r.response == AddFailedPage(e) && RefusedBecause(e, form)
  {
    DraftComplete(form);
    match Insert(store, DraftOf(form))
    case Ok(ins) =>
      InsertFromForm(store, form);
      Outcome(ins.store, Redirect("/all", [AddedMessage]))
    case Err(e) =>
      InsertFromFormRefused(store, form);
      Outcome(store, AddFailedPage(e))
  }

  /* ---------------- PATCH /update-price/<id> ---------------- */

  /** The body of the 404 answer: `get_or_404` raises NotFound, and the view
      turns the exception's text into the error's key. */
  const PriceNotFound: Value :=
    Object(map["error" := Object(map["404 Not Found" := String("Cafe not found.")])])

  /** `update_price`: overwrites the price of the row with that id with
      `new_price`, which may be absent, in which case the price becomes NULL. */
  function UpdatePrice(store: Store, id: nat, newPrice: Option<string>): (r: Outcome)
    ensures id !in store <==> r.response == Reply(404, PriceNotFound)
    ensures id !in store ==> r.store == store
    ensures id in store ==>
      && r.response == Reply(200, MessageBody("Price updated for product " + Decimal(id)))
      && r.store.Keys == store.Keys
      && r.store[id].coffeePrice == newPrice
      && r.store[id] == store[id].(coffeePrice := r.store[id].coffeePrice)
      && (forall k :: k in store && k != id ==> r.store[k] == store[k])
  {
    if id !in store then
      Outcome(store, Reply(404, PriceNotFound))
    else
      var updated := store[id].(coffeePrice := newPrice);
      Outcome(store[id := updated], Reply(200, MessageBody("Price updated for product " + Decimal(id))))
  }

  /* ---------------- DELETE /report-closed/<id> ---------------- */

  /** `delete_cafe`: the key is checked first; then the row with that id is
      removed if there is one. An id SQLite cannot bind as a 64-bit INTEGER
      makes the driver raise `OverflowError`, which the view does not catch. */
  function DeleteCafe(store: Store, id: nat, apiKey: Option<string>): (r: Outcome)
    ensures apiKey != Some(ApiKey) <==> r.response == Reply(403, ErrorBody("Incorrect API key"))
    ensures apiKey == Some(ApiKey) && id > MaxRowid <==> r.response == InternalServerError
    ensures apiKey == Some(ApiKey) && id <= MaxRowid && id !in store <==>
      r.response == Reply(404, ErrorBody("Cafe not found"))
    ensures apiKey == Some(ApiKey) && id <= MaxRowid && id in store <==>
      r.response == Reply(200, MessageBody("Cafe successfully deleted"))
    ensures r.response != Reply(200, MessageBody("Cafe successfully deleted")) ==> r.store == store
    ensures r.response == Reply(200, MessageBody("Cafe successfully deleted")) ==>
      && r.store.Keys == store.Keys - {id}
      && (forall k :: k in r.store ==> r.store[k] == store[k])
  {
    if apiKey != Some(ApiKey) then
      Outcome(store, Reply(403, ErrorBody("Incorrect API key")))
    else if id > MaxRowid then
      Outcome(store, InternalServerError)
    else if id !in store then
      Outcome(store, Reply(404, ErrorBody("Cafe not found")))
    else
      Outcome(store - {id}, Reply(200, MessageBody("Cafe successfully deleted")))
  }
}
