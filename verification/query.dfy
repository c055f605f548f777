/** The SQL the handlers issue against the `cafe` table, stated over the
    abstract table: a full scan, `ORDER BY name`, `WHERE location ILIKE`,
    and an INSERT that enforces the NOT NULL and UNIQUE constraints. */
module Queries {
  import opened Wrappers
  import opened Text
  import opened Cafes

  /* ---------------- Full scan ---------------- */

  lemma {:induction false} HasLeast(keys: set<int>)
    requires keys != {}
    ensures exists k :: k in keys && forall j :: j in keys ==> k <= j
    decreases |keys|
  {
    if forall y :: y !in keys {
      assert false;
    }
    var x :| x in keys;
    var rest := keys - {x};
    if rest == {} {
      forall j | j in keys ensures x <= j {
        assert j !in rest;
      }
    } else {
      HasLeast(rest);
      var m :| m in rest && forall j :: j in rest ==> m <= j;
      var least := if x < m then x else m;
      forall j | j in keys ensures least <= j {
        if j != x {
          assert j in rest;
        }
      }
      assert least in keys;
    }
  }

  /** The smallest key. */
  function Least(keys: set<int>): (k: int)
    requires keys != {}
    ensures k in keys && forall j :: j in keys ==> k <= j
  {
    HasLeast(keys);
    var k :| k in keys && forall j :: j in keys ==> k <= j;
    k
  }

  /** The keys in ascending order. */
  function Ascending(keys: set<int>): (ks: seq<int>)
    ensures ListsInOrder(ks, keys)
    decreases keys
  {
    if keys == {} then []
    else
      var k := Least(keys);
      var tail := Ascending(keys - {k});
      ListsInOrderCons(k, keys, tail);
      [k] + tail
  }

  /** `ks` lists each element of `keys` exactly once, in increasing order. */
  ghost predicate ListsInOrder(ks: seq<int>, keys: set<int>) {
    && |ks| == |keys|
    && (forall i :: 0 <= i < |ks| ==> ks[i] in keys)
    && (forall k :: k in keys ==> k in ks)
    && (forall i, j :: 0 <= i < j < |ks| ==> ks[i] < ks[j])
  }

  /** Putting the least key in front of an ordered listing of the others
      lists all of them in order. */
  lemma ListsInOrderCons(k: int, keys: set<int>, tail: seq<int>)
    requires k in keys && forall j :: j in keys ==> k <= j
    requires ListsInOrder(tail, keys - {k})
    ensures ListsInOrder([k] + tail, keys)
  {
    var rest := keys - {k};
    var ks := [k] + tail;
    assert |rest| == |keys| - 1;
    forall i | 0 < i < |ks| ensures ks[i] == tail[i - 1] && ks[i] in rest && k < ks[i] {
      assert tail[i - 1] in rest;
    }
    forall j | j in keys ensures j in ks {
      if j != k {
        assert j in rest;
        var i :| 0 <= i < |tail| && tail[i] == j;
        assert ks[i + 1] == j;
      }
    }
  }

  /** Rows are ordered by increasing id. */
  ghost predicate ByIdAscending(rows: seq<Cafe>) {
    forall i, j :: 0 <= i < j < |rows| ==> rows[i].id < rows[j].id
  }

  /** `SELECT * FROM cafe` with no ORDER BY: every row once, in primary-key
      order, which is the order in which SQLite walks a rowid table. */
  function Scan<V(==,!new)>(table: map<int, V>): (rows: seq<V>)
    ensures |rows| == |table|
    ensures forall v :: v in rows <==> v in table.Values
  {
    var ks := Ascending(table.Keys);
    var rows := seq(|ks|, i requires 0 <= i < |ks| => table[ks[i]]);
    forall v | v in rows ensures v in table.Values {
      var i :| 0 <= i < |rows| && rows[i] == v;
      assert table[ks[i]] == v;
    }
    forall v | v in table.Values ensures v in rows {
      var k :| k in table && table[k] == v;
      var i :| 0 <= i < |ks| && ks[i] == k;
      assert rows[i] == v;
    }
    rows
  }

  /** When every row sits under its own id, the scan yields ids in increasing order. */
  lemma ScanByIdAscending(store: Store)
    requires KeyedById(store)
    ensures ByIdAscending(Scan(store))
  {
    var ks := Ascending(store.Keys);
    var rows := Scan(store);
    forall i | 0 <= i < |rows| ensures rows[i].id == ks[i] {
      assert rows[i] == store[ks[i]];
    }
  }

  /* ---------------- ORDER BY name ---------------- */

  /** No row's name sorts strictly before an earlier row's name. */
  ghost predicate SortedByName(rows: seq<Cafe>) {
    forall i, j :: 0 <= i < j < |rows| ==> !Less(rows[j].name, rows[i].name)
  }

  /** Names increase strictly along the rows. */
  ghost predicate StrictlyByName(rows: seq<Cafe>) {
    forall i, j :: 0 <= i < j < |rows| ==> Less(rows[i].name, rows[j].name)
  }

  ghost predicate DistinctNames(rows: seq<Cafe>) {
    forall i, j :: 0 <= i < j < |rows| ==> rows[i].name != rows[j].name
  }

  /** Inserts `c` after every row whose name does not sort after its own. */
  function InsertByName(c: Cafe, sorted: seq<Cafe>): (r: seq<Cafe>)
    requires SortedByName(sorted)
    ensures SortedByName(r)
    ensures multiset(r) == multiset(sorted) + multiset{c}
  {
    if |sorted| == 0 then [c]
    else if Less(c.name, sorted[0].name) then
      BelowFirst(c, sorted);
      PrependSorted(c, sorted);
      [c] + sorted
    else
      var rest := InsertByName(c, sorted[1..]);
      NotBelowHead(sorted, c, rest);
      PrependSorted(sorted[0], rest);
      assert sorted == [sorted[0]] + sorted[1..];
      [sorted[0]] + rest
  }

  /** A row whose name no later name sorts below may go in front. */
  lemma PrependSorted(x: Cafe, s: seq<Cafe>)
    requires SortedByName(s)
    requires forall j :: 0 <= j < |s| ==> !Less(s[j].name, x.name)
    ensures SortedByName([x] + s)
  {
    var r := [x] + s;
    forall i, j | 0 <= i < j < |r| ensures !Less(r[j].name, r[i].name) {
      assert r[j] == s[j - 1];
      if i > 0 {
        assert r[i] == s[i - 1];
      }
    }
  }

  /** A name below the first of sorted rows is below all of them. */
  lemma BelowFirst(c: Cafe, sorted: seq<Cafe>)
    requires SortedByName(sorted) && |sorted| > 0 && Less(c.name, sorted[0].name)
    ensures forall j :: 0 <= j < |sorted| ==> !Less(sorted[j].name, c.name)
  {
    forall j | 0 <= j < |sorted| ensures !Less(sorted[j].name, c.name) {
      LessIrreflexive(sorted[0].name);
      if Less(sorted[j].name, c.name) {
        LessTransitive(sorted[j].name, c.name, sorted[0].name);
      }
    }
  }

  /** The rows after the first, with `c` added, all sort at or above the first. */
  lemma NotBelowHead(sorted: seq<Cafe>, c: Cafe, rest: seq<Cafe>)
    requires SortedByName(sorted) && |sorted| > 0 && !Less(c.name, sorted[0].name)
    requires multiset(rest) == multiset(sorted[1..]) + multiset{c}
    ensures forall j :: 0 <= j < |rest| ==> !Less(rest[j].name, sorted[0].name)
  {
    forall j | 0 <= j < |rest| ensures !Less(rest[j].name, sorted[0].name) {
      assert rest[j] in multiset(rest);
      if rest[j] != c {
        assert rest[j] in multiset(sorted[1..]);
        var k :| 0 <= k < |sorted| - 1 && sorted[1..][k] == rest[j];
        assert sorted[k + 1] == rest[j];
      }
    }
  }

  /** Insertion sort by name; rows with equal names keep their order. */
  function SortByName(rows: seq<Cafe>): (r: seq<Cafe>)
    ensures SortedByName(r)
    ensures multiset(r) == multiset(rows)
  {
    if |rows| == 0 then []
    else
      assert rows == [rows[0]] + rows[1..];
      InsertByName(rows[0], SortByName(rows[1..]))
  }

  /** Sorted rows whose names are distinct are strictly increasing by name. */
  lemma SortedDistinctIsStrict(rows: seq<Cafe>)
    requires SortedByName(rows) && DistinctNames(rows)
    ensures StrictlyByName(rows)
  {
    forall i, j | 0 <= i < j < |rows| ensures Less(rows[i].name, rows[j].name) {
      LessTotal(rows[i].name, rows[j].name);
    }
  }

  /** In rows with distinct names, each row occurs once. */
  lemma SingleOccurrence(a: seq<Cafe>, p: int)
    requires DistinctNames(a) && 0 <= p < |a|
    ensures multiset(a)[a[p]] == 1
  {
    var before, after := a[..p], a[p + 1..];
    assert a == before + [a[p]] + after;
    forall i | 0 <= i < |before| ensures before[i] != a[p] {
      assert before[i] == a[i];
    }
    forall i | 0 <= i < |after| ensures after[i] != a[p] {
      assert after[i] == a[p + 1 + i];
    }
    assert a[p] !in before && a[p] !in after;
  }

  /** A row that occurs at two positions occurs at least twice. */
  lemma TwoOccurrences(b: seq<Cafe>, i: int, j: int)
    requires 0 <= i < j < |b| && b[i] == b[j]
    ensures multiset(b)[b[i]] >= 2
  {
    assert b == b[..i] + [b[i]] + b[i + 1..j] + [b[j]] + b[j + 1..];
  }

  /** Permuting rows with distinct names keeps the names distinct. */
  lemma DistinctNamesPermuted(a: seq<Cafe>, b: seq<Cafe>)
    requires multiset(a) == multiset(b) && DistinctNames(a)
    ensures DistinctNames(b)
  {
    forall i, j | 0 <= i < j < |b| ensures b[i].name != b[j].name {
      assert b[i] in multiset(a) && b[j] in multiset(a);
      var p :| 0 <= p < |a| && a[p] == b[i];
      var q :| 0 <= q < |a| && a[q] == b[j];
      SingleOccurrence(a, p);
      if p == q {
        assert b[i] == b[j];
        TwoOccurrences(b, i, j);
        assert false;
      }
    }
  }

  /** `SELECT * FROM cafe ORDER BY name`: every row once, sorted by name. */
  function OrderByName(store: Store): (rows: seq<Cafe>)
    ensures |rows| == |store|
    ensures forall c :: c in rows <==> c in store.Values
    ensures SortedByName(rows)
  {
    var scanned := Scan(store);
    var rows := SortByName(scanned);
    assert |rows| == |multiset(rows)| == |multiset(scanned)| == |scanned|;
    assert forall c :: c in rows <==> c in multiset(scanned);
    rows
  }

  /** Because the UNIQUE constraint keeps names distinct, `ORDER BY name`
      yields names in strictly increasing order. */
  lemma OrderByNameStrict(store: Store)
    requires Valid(store)
    ensures StrictlyByName(OrderByName(store))
  {
    var scanned := Scan(store);
    var rows := OrderByName(store);
    assert rows == SortByName(scanned);
    ScanDistinctNames(store);
    DistinctNamesPermuted(scanned, rows);
    SortedDistinctIsStrict(rows);
  }

  /** The UNIQUE constraint on name carries over to the scanned rows. */
  lemma ScanDistinctNames(store: Store)
    requires Valid(store)
    ensures DistinctNames(Scan(store))
  {
    var rows := Scan(store);
    ScanByIdAscending(store);
    forall i, j | 0 <= i < j < |rows| ensures rows[i].name != rows[j].name {
      assert rows[i] in store.Values && rows[j] in store.Values;
      var a :| a in store && store[a] == rows[i];
      var b :| b in store && store[b] == rows[j];
      assert a == rows[i].id && b == rows[j].id;
    }
  }

  /* ---------------- WHERE location ILIKE ---------------- */

  /** `cafe.location ILIKE '%' || loc || '%'`. */
  predicate LocationMatches(c: Cafe, loc: string) {
    ContainsIgnoringCase(c.location, loc)
  }

  /** Keeps the rows whose location matches, in their order. */
  function WhereLocation(rows: seq<Cafe>, loc: string): (r: seq<Cafe>)
    ensures forall c :: c in r <==> c in rows && LocationMatches(c, loc)
    ensures ByIdAscending(rows) ==> ByIdAscending(r)
  {
    if |rows| == 0 then []
    else
      var rest := WhereLocation(rows[1..], loc);
      assert rows == [rows[0]] + rows[1..];
      assert ByIdAscending(rows) ==> forall k :: 0 <= k < |rest| ==> rows[0].id < rest[k].id by {
        if ByIdAscending(rows) {
          forall k | 0 <= k < |rest| ensures rows[0].id < rest[k].id {
            assert rest[k] in rows[1..];
            var j :| 0 <= j < |rows| - 1 && rows[1..][j] == rest[k];
            assert rows[j + 1] == rest[k];
          }
        }
      }
      if LocationMatches(rows[0], loc) then [rows[0]] + rest else rest
  }

  /* ---------------- INSERT ---------------- */

  /** The new `Cafe` object before it is flushed: every column as the form
      supplied it, so a required column may still be `None`. */
  datatype Draft = Draft(
    name: Option<string>,
    mapUrl: Option<string>,
    imgUrl: Option<string>,
    location: Option<string>,
    seats: Option<string>,
    hasToilet: bool,
    hasWifi: bool,
    hasSockets: bool,
    canTakeCalls: bool,
    coffeePrice: Option<string>
  )

  /** The constraint a rejected INSERT violated. */
  datatype IntegrityError =
    | NotNullFailed(column: Column)
    | UniqueFailed(column: Column)

  /** SQLite's wording of the violated constraint. */
  function ErrorText(e: IntegrityError): string {
    match e
    case NotNullFailed(col) => "NOT NULL constraint failed: cafe." + ColumnName(col)
    case UniqueFailed(col) => "UNIQUE constraint failed: cafe." + ColumnName(col)
  }

  /** Every NOT NULL text column has a value. */
  predicate Complete(d: Draft) {
    d.name.Some? && d.mapUrl.Some? && d.imgUrl.Some? && d.location.Some? && d.seats.Some?
  }

  /** The first NOT NULL column, in table order, that the draft leaves NULL. */
  function FirstNull(d: Draft): (col: Option<Column>)
    ensures col.None? <==> Complete(d)
  {
    if d.name.None? then Some(Name)
    else if d.mapUrl.None? then Some(MapUrl)
    else if d.imgUrl.None? then Some(ImgUrl)
    else if d.location.None? then Some(Location)
    else if d.seats.None? then Some(Seats)
    else None
  }

  /** The row a complete draft becomes once it is given `id`. */
  function RowOf(id: int, d: Draft): Cafe
    requires Complete(d)
  {
    Cafe(id, d.name.value, d.mapUrl.value, d.imgUrl.value, d.location.value, d.seats.value,
         d.hasToilet, d.hasWifi, d.hasSockets, d.canTakeCalls, d.coffeePrice)
  }

  /** The largest rowid SQLite can store or bind: a signed 64-bit INTEGER. */
  const MaxRowid: int := 0x7fff_ffff_ffff_ffff

  /** Every id in use is below `MaxRowid`, so the next rowid still fits. */
  predicate RowidsBelowMax(store: Store) {
    forall k :: k in store ==> k < MaxRowid
  }

  /** The rowid SQLite gives a new row: one more than the largest in use, or 1. */
  function NextId(store: Store): (id: int)
    ensures id !in store
    ensures forall k :: k in store ==> k < id
    ensures |store| == 0 ==> id == 1
    ensures |store| > 0 ==> id - 1 in store
    ensures PositiveIds(store) ==> id > 0
    ensures RowidsBelowMax(store) ==> id <= MaxRowid
  {
    var ks := Ascending(store.Keys);
    if |ks| == 0 then 1 else ks[|ks| - 1] + 1
  }

  /** The id and table after a committed INSERT. */
  datatype Inserted = Inserted(id: int, store: Store)

  /** `INSERT INTO cafe …` followed by COMMIT. SQLite checks NOT NULL columns
      in table order before the UNIQUE index on name; a violation aborts the
      statement and leaves the table as it was. */
  function Insert(store: Store, d: Draft): (r: Result<Inserted, IntegrityError>)
    ensures r.Ok? <==> Complete(d) && !NameTaken(store, d.name.value)
    ensures !Complete(d) ==> r == Err(NotNullFailed(FirstNull(d).value))
    ensures Complete(d) && NameTaken(store, d.name.value) ==> r == Err(UniqueFailed(Name))
    ensures r.Ok? ==>
      && r.value.id !in store
      && (forall k :: k in store ==> k < r.value.id)
      && (PositiveIds(store) ==> r.value.id > 0)
      && (RowidsBelowMax(store) ==> r.value.id <= MaxRowid)
      && r.value.store == store[r.value.id := RowOf(r.value.id, d)]
  {
    match FirstNull(d)
    case Some(col) => Err(NotNullFailed(col))
    case None =>
      if NameTaken(store, d.name.value) then Err(UniqueFailed(Name))
      else
        var id := NextId(store);
        Ok(Inserted(id, store[id := RowOf(id, d)]))
  }

  /** A committed INSERT keeps ids as keys and names unique. */
  lemma InsertKeepsValid(store: Store, d: Draft)
    requires Valid(store)
    requires Insert(store, d).Ok?
    ensures Valid(Insert(store, d).value.store)
  {
    var r := Insert(store, d).value;
    var row := RowOf(r.id, d);
    assert r.store == store[r.id := row];
    forall a, b | a in r.store && b in r.store && r.store[a].name == r.store[b].name
      ensures a == b
    {
      if a != r.id && b != r.id {
        assert store[a].name == store[b].name;
      }
    }
  }
}
