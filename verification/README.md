# Cafe API — a Dafny model

A model of the cafe API in `day-66-starting-files-cafe-api/main.py`, a Flask
application over one SQLite table, `cafe`, reached through SQLAlchemy. The
model has three layers:

- **The table.** Its rows are the `Cafe` datatype. The table is a finite map
  from primary key to row (`Cafes.Store`). It carries the invariant the schema
  enforces (`Cafes.Valid`): every row sits under its own id, ids are positive,
  and names are unique.
- **The queries.** The SQL the views issue is modelled as pure functions over
  that map (`Queries`):
  - the full scan, in rowid order;
  - `ORDER BY name`, under the BINARY collation;
  - `location ILIKE '%loc%'`;
  - the `INSERT`, with its NOT NULL and UNIQUE checks.
- **The views.** Each view is a pure function from the table and the request's
  parameters to an `Outcome`: the table afterwards plus the response
  (`Handlers`). A response is a JSON reply with a status code, a redirect, a
  re-rendered form, or a server error. `Api` dispatches a request to its view
  and threads the table through a run of requests.

The properties proved:

- **Each view's contract**, covering error branches and status codes, and what
  changes in the table and what stays the same.
- **Serialisation is lossless.** `to_dict` can be read back (`Cafes.FromDict`),
  and list replies can be read back as the very rows they list
  (`Responses.ReadRows`).
- **The schema's invariant survives any run of requests.**
- **Properties spanning requests:**
  - a second delete finds nothing;
  - deleting what was just added restores the table;
  - resetting a price undoes an update;
  - the first cafe added to an empty table is the one `/all` lists.

Files: `wrappers.dfy` (Option, Result), `json.dfy` (JSON values), `text.dfy`
(case folding, substring search, collation order, decimal rendering),
`cafe.dfy` (row, columns, `to_dict`, table invariant), `query.dfy` (SQL),
`responses.dfy` (response shapes, list bodies), `handlers.dfy` (views),
`api.dfy` (dispatch and runs), `properties.dfy` (multi-request properties).

Modelling choices:

- **The random draw is a parameter.** `/random`'s `random.choice` becomes the
  parameter `pick`, and the view answers with row `pick mod n` of the scan.
- **`/random` on an empty table gives 500.** `random.choice([])` raises
  `IndexError`, which Flask turns into a 500. The model answers
  `InternalServerError`.
- **An id too large for SQLite gives 500 on delete.** The route converter
  accepts any non-negative integer, but the sqlite3 driver cannot bind one
  above 2^63 - 1 (`Queries.MaxRowid`). It raises `OverflowError`, which
  `delete_cafe` does not catch (`Handlers.DeleteCafe`).
- **Scan order is rowid order.** A `SELECT` without `ORDER BY` walks a rowid
  table in ascending rowid order. So `/search` lists its matches by increasing
  id (`Queries.Scan`, `Queries.ScanByIdAscending`).
- **`ORDER BY name` is a sort.** It is an insertion sort by code-point
  lexicographic order (`Text.Less`), the order the BINARY collation gives UTF-8
  text.
- **Constraint order on INSERT.** The NOT NULL columns are checked in table
  order, then the UNIQUE index on `name`. The new rowid is one more than the
  largest in use, or 1 for an empty table (`Queries.NextId`).
- **Flags come from `bool(...)`.** `bool(request.form.get(k))` is true exactly
  when the field is present and non-empty, so the text `"false"` sets the flag
  (`Handlers.FormFlag`, `Properties.FalseTextSetsFlag`).
- **The update-price 404 key is a constant.** Its key is the text of werkzeug's
  `NotFound`, and the model uses only its head, `"404 Not Found"`.

## Model

| member | source | states |
|---|---|---|
| Cafes.ColumnNamedInverse | day-66-starting-files-cafe-api/main.py:41-51 | looking a column up by its schema name finds exactly the column with that name |
| Cafes.ColumnNameInjective | day-66-starting-files-cafe-api/main.py:41-51 | no two columns share a name, so no `to_dict` entry overwrites another |
| Cafes.ColumnsComplete | day-66-starting-files-cafe-api/main.py:70 | `__table__.columns` visits every column of the table |
| Cafes.DictOver | day-66-starting-files-cafe-api/main.py:68-74 | after the loop has visited some columns, the dictionary has exactly their names as keys, each holding that column's value |
| Cafes.ToDict | day-66-starting-files-cafe-api/main.py:52-75 | every column name is a key of `to_dict`, holding that column's value (a NULL price as `null`) |
| Cafes.ToDictPrice | day-66-starting-files-cafe-api/main.py:51 | the nullable price is served under "coffee_price", as `null` when NULL |
| Cafes.ToDictKeys | day-66-starting-files-cafe-api/main.py:68-75 | `to_dict` has no key other than a column name |
| Cafes.FromDictReadsColumns | day-66-starting-files-cafe-api/main.py:52-75 | any dictionary holding each column's value of a row reads back as that row |
| Cafes.ToDictRoundTrip | day-66-starting-files-cafe-api/main.py:52-75 | a serialised row reads back as the same row |
| Cafes.ToDictInjective | day-66-starting-files-cafe-api/main.py:52-75 | two rows with the same serialisation are the same row |
| Text.SkipFirst | day-66-starting-files-cafe-api/main.py:120 | dropping a first character that starts no occurrence loses no occurrence |
| Text.Contains | day-66-starting-files-cafe-api/main.py:120 | substring search answers true exactly when the pattern occurs at some position |
| Text.ContainsIgnoringCase | day-66-starting-files-cafe-api/main.py:118-120 | `ILIKE '%p%'` holds exactly when the lower-cased pattern occurs in the lower-cased text |
| Text.LessIrreflexive | day-66-starting-files-cafe-api/main.py:98 | no name sorts before itself |
| Text.LessTransitive | day-66-starting-files-cafe-api/main.py:98 | the name order is transitive |
| Text.LessTotal | day-66-starting-files-cafe-api/main.py:98 | of two different names one sorts before the other |
| Text.DigitChar | day-66-starting-files-cafe-api/main.py:189 | a digit renders as a decimal digit character |
| Text.Decimal | day-66-starting-files-cafe-api/main.py:189 | `str(cafe_id)` is a non-empty string of digits with no leading zero |
| Text.ParseDecimalOfDecimal | day-66-starting-files-cafe-api/main.py:189 | the id rendered in the update message reads back as the same id |
| Queries.HasLeast | day-66-starting-files-cafe-api/main.py:90-91 | a non-empty set of rowids has a smallest one, where the scan starts |
| Queries.Least | day-66-starting-files-cafe-api/main.py:90-91 | the chosen key is in the set and no key is smaller |
| Queries.Ascending | day-66-starting-files-cafe-api/main.py:90-91 | the keys listed once each, in strictly increasing order |
| Queries.ListsInOrderCons | day-66-starting-files-cafe-api/main.py:90-91 | the least key followed by the ordered rest lists all keys in order |
| Queries.Scan | day-66-starting-files-cafe-api/main.py:90-91 | a full scan yields as many rows as the table holds, and exactly the table's rows |
| Queries.ScanByIdAscending | day-66-starting-files-cafe-api/main.py:90-91 | a full scan yields rows by increasing id |
| Queries.PrependSorted | day-66-starting-files-cafe-api/main.py:98 | a row no later name sorts below may go in front of sorted rows |
| Queries.BelowFirst | day-66-starting-files-cafe-api/main.py:98 | a name below the first of sorted rows is below all of them |
| Queries.NotBelowHead | day-66-starting-files-cafe-api/main.py:98 | the rows after the first of a sorted list, plus a row not below the first, all sort at or above it |
| Queries.InsertByName | day-66-starting-files-cafe-api/main.py:98 | inserting a row into rows sorted by name keeps them sorted and adds exactly that row |
| Queries.SortByName | day-66-starting-files-cafe-api/main.py:98 | sorting by name yields a permutation of the rows that is sorted by name |
| Queries.SortedDistinctIsStrict | day-66-starting-files-cafe-api/main.py:42 | sorted rows with distinct names have strictly increasing names |
| Queries.SingleOccurrence | day-66-starting-files-cafe-api/main.py:42 | among rows with distinct names each row occurs once |
| Queries.DistinctNamesPermuted | day-66-starting-files-cafe-api/main.py:42 | permuting rows keeps their names distinct |
| Queries.OrderByName | day-66-starting-files-cafe-api/main.py:98-99 | `ORDER BY name` yields every row of the table once, sorted by name |
| Queries.OrderByNameStrict | day-66-starting-files-cafe-api/main.py:42 | under the UNIQUE constraint, `ORDER BY name` yields strictly increasing names |
| Queries.ScanDistinctNames | day-66-starting-files-cafe-api/main.py:42 | the scanned rows of a valid table have distinct names |
| Queries.WhereLocation | day-66-starting-files-cafe-api/main.py:120-121 | the filter keeps exactly the rows whose location matches, preserving id order |
| Queries.FirstNull | day-66-starting-files-cafe-api/main.py:42-46 | a NOT NULL column is reported missing exactly when some required value is absent |
| Queries.NextId | day-66-starting-files-cafe-api/main.py:41 | a new rowid is one more than the largest id in use (so unused and above every id), 1 in an empty table, positive when the others are, and within 2^63 - 1 when the ids in use are below it |
| Queries.Insert | day-66-starting-files-cafe-api/main.py:41-51 | the INSERT commits exactly when the required values are present and the name is unused; otherwise it reports the first NULL column, else the UNIQUE name; on commit exactly one row is added under a fresh id |
| Queries.InsertKeepsValid | day-66-starting-files-cafe-api/main.py:165-167 | a committed INSERT keeps rows keyed by id, ids positive and names unique |
| Responses.Items | day-66-starting-files-cafe-api/main.py:105 | the list comprehension serialises one item per row |
| Responses.ReadItems | day-66-starting-files-cafe-api/main.py:105 | a list reads back exactly when every item is a serialised row |
| Responses.ReadItemsOfItems | day-66-starting-files-cafe-api/main.py:105 | the serialised rows read back as the same rows in the same order |
| Responses.ReadRowsBody | day-66-starting-files-cafe-api/main.py:105-106 | a list reply reads back as the rows it was built from |
| Responses.RowsBodyInjective | day-66-starting-files-cafe-api/main.py:128-129 | two list replies under one key are equal only for the same rows |
| Handlers.GetRandomCafe | day-66-starting-files-cafe-api/main.py:88-93 | the table is unchanged; an empty table gives a server error; otherwise 200 with the serialisation of one of the table's rows |
| Handlers.GetAllCafes | day-66-starting-files-cafe-api/main.py:96-106 | the table is unchanged; 404 "No cafes found" exactly when it is empty; otherwise 200 listing every row once, sorted by name, under "cafe" |
| Handlers.MatchesListed | day-66-starting-files-cafe-api/main.py:120-125 | the query lists exactly the table's rows whose location matches, by increasing id, and nothing exactly when no location matches |
| Handlers.SearchMessagesDiffer | day-66-starting-files-cafe-api/main.py:114-125 | the missing-parameter 404 and the no-match 404 carry different bodies |
| Handlers.SearchLocation | day-66-starting-files-cafe-api/main.py:109-129 | the table is unchanged; a missing or empty `loc` gives 404; otherwise 404 naming `loc` exactly when no location matches, else 200 listing exactly the matching rows by id under "cafes" |
| Handlers.FormValue | day-66-starting-files-cafe-api/main.py:139-143 | a form field reads as present exactly when it was submitted, with its submitted text |
| Handlers.FormFlag | day-66-starting-files-cafe-api/main.py:144-147 | a flag is set exactly when its field is present and non-empty |
| Handlers.FirstNullMissing | day-66-starting-files-cafe-api/main.py:139-143 | a form lacking a required field fails on a column whose field is indeed absent |
| Handlers.DraftComplete | day-66-starting-files-cafe-api/main.py:139-162 | the new object has every NOT NULL value exactly when the form has every required field |
| Handlers.StoreRowFromForm | day-66-starting-files-cafe-api/main.py:151-167 | storing the form's row under a fresh id adds exactly that row |
| Handlers.RowOfForm | day-66-starting-files-cafe-api/main.py:139-162 | the row built from a complete form holds the submitted texts and the coerced flags |
| Handlers.InsertFromForm | day-66-starting-files-cafe-api/main.py:151-169 | a committed add stores exactly the row the form describes under a new id, other rows untouched |
| Handlers.InsertFromFormRefused | day-66-starting-files-cafe-api/main.py:165-172 | a refused add names a missing field's column, or else the UNIQUE name |
| Handlers.AddCafe | day-66-starting-files-cafe-api/main.py:135-173 | the add redirects to /all exactly when all required fields are present and the name is new, adding the form's row; otherwise the table is unchanged and the form is shown again flashing the constraint that failed |
| Handlers.UpdatePrice | day-66-starting-files-cafe-api/main.py:179-192 | an unknown id gives 404 and no change; otherwise 200 naming the id, and only that row's price changes, to the given value or NULL |
| Handlers.DeleteCafe | day-66-starting-files-cafe-api/main.py:196-211 | a wrong key gives 403; then an id above 2^63 - 1 gives a server error (the driver's `OverflowError`); then an unknown id gives 404; each with no change; otherwise 200 and exactly that row is removed |
| Api.AddCafeKeepsValid | day-66-starting-files-cafe-api/main.py:165-171 | an add, committed or not, keeps the table valid |
| Api.UpdatePriceKeepsValid | day-66-starting-files-cafe-api/main.py:183-187 | a price update keeps the table valid |
| Api.HandleKeepsValid | day-66-starting-files-cafe-api/main.py:88-211 | every request keeps the table valid, and read-only requests leave it as it was |
| Api.RunKeepsValid | day-66-starting-files-cafe-api/main.py:88-211 | the table stays valid across any run of requests |
| Api.ReadsChangeNothing | day-66-starting-files-cafe-api/main.py:88-129 | a run of read-only requests leaves the table as it was |
| Properties.DeleteTwice | day-66-starting-files-cafe-api/main.py:202-209 | after a successful delete, deleting the same id gives 404 and changes nothing |
| Properties.WrongKeyDeletesNothing | day-66-starting-files-cafe-api/main.py:202-211 | any run of delete requests with a wrong key leaves the table as it was |
| Properties.AddThenDelete | day-66-starting-files-cafe-api/main.py:165-207 | deleting the cafe just added restores the table it was added to, when the ids in use leave room for the new rowid |
| Properties.DeleteUndoesAdd | day-66-starting-files-cafe-api/main.py:203-207 | deleting the row an add created, under an id that fits a 64-bit INTEGER, gives back the table before the add |
| Properties.UpdatePriceIdempotent | day-66-starting-files-cafe-api/main.py:183-187 | updating to the same price twice is the same as once |
| Properties.UpdatePriceUndo | day-66-starting-files-cafe-api/main.py:183-187 | putting the old price back restores the table |
| Properties.UpdatedPriceIsServed | day-66-starting-files-cafe-api/main.py:51 | after an update the row serialises with the new price, or `null` |
| Properties.UpdateMessageNamesId | day-66-starting-files-cafe-api/main.py:189 | the update message ends in digits that read back as the id |
| Properties.GetAllStrictlyByName | day-66-starting-files-cafe-api/main.py:98-106 | on a valid table `/all` lists the `ORDER BY name` rows, names strictly increasing |
| Properties.AddToEmptyThenList | day-66-starting-files-cafe-api/main.py:96-106 | after the first add to an empty table, `/all` lists exactly that row, with id 1 |
| Properties.RandomReachesEveryCafe | day-66-starting-files-cafe-api/main.py:90-93 | every row of the table is a possible answer of `/random` |
| Properties.FalseTextSetsFlag | day-66-starting-files-cafe-api/main.py:144-147 | a flag submitted as the text "false" is stored as true in the added row |
| Properties.DuplicateNameRefused | day-66-starting-files-cafe-api/main.py:42 | adding a name already taken leaves the table unchanged and flashes the UNIQUE constraint |
| Properties.SearchIgnoresCase | day-66-starting-files-cafe-api/main.py:118-120 | "new" matches "New York", "NEW" matches "new jersey", and "new" does not match "Boston" |

## Left out

- Flask plumbing is not modelled: routing, `render_template`, `redirect`/`url_for`, the `home` page and the GET branch of `/add`. The POST branch of `/add` is modelled; its flashed message and redirect target are kept as data.
- Startup code is not modelled: `secrets.token_hex`, the printed secret, `app.config`, `db.create_all()` and the `__main__` entry point.
- The `print` calls in `delete_cafe` are output only.
- Randomness is a parameter. `random.choice` is modelled by the draw `pick`; its uniform distribution is not.
- ILIKE is modelled as a literal substring. `%` and `_` inside `loc` are not treated as wildcards, and case folding is ASCII only, as in SQLite without ICU.
- JSON encoding is not modelled: the key order and bytes that `jsonify` writes.
- Handlers.UpdatePrice: the 404 error key is `"404 Not Found"`, without the description werkzeug appends to the exception's text.
- Handlers.AddCafe: the flashed error is `"Error adding cafe: "` followed by SQLite's constraint message. The exception class name, SQL statement and parameters that SQLAlchemy adds to the text are not modelled.
- `String(n)` lengths are not modelled: SQLite does not enforce them.
- Rowid overflow on INSERT is not modelled. When the largest rowid in use is 2^63 - 1, SQLite picks a random unused rowid; the model's `NextId` goes past the maximum instead, so `Cafes.Valid` does not bound ids.
- Handlers.UpdatePrice: an id above 2^63 - 1 answers 404 in the source, because binding it fails and the view catches every exception. The model looks the id up instead; the two agree on every table whose ids SQLite can store.
- Session mechanics and failures are not modelled: the identity map, autoflush, and commit failures other than the two constraints (disk errors, locks).
- The route converter `<int:cafe_id>` only matches non-negative integers. It is modelled by giving the id the type `nat`; other paths are not routed to the views.
