/** The `cafe` table: its row type, its serialisation (`Cafe.to_dict`), and
    the table as a whole with the invariants the schema enforces. */
module Cafes {
  import opened Wrappers
  import opened Json

  /** One row of the table. Every column but `coffee_price` is NOT NULL, so a
      stored row holds a plain value for each of them. */
  datatype Cafe = Cafe(
    id: int,
    name: string,
    mapUrl: string,
    imgUrl: string,
    location: string,
    seats: string,
    hasToilet: bool,
    hasWifi: bool,
    hasSockets: bool,
    canTakeCalls: bool,
    coffeePrice: Option<string>
  )

  /** The table's columns. */
  datatype Column =
    | Id | Name | MapUrl | ImgUrl | Location | Seats
    | HasToilet | HasWifi | HasSockets | CanTakeCalls | CoffeePrice

  /** The column's name in the schema, which is also its key in `to_dict`. */
  function ColumnName(col: Column): string {
    match col
    case Id => "id"
    case Name => "name"
    case MapUrl => "map_url"
    case ImgUrl => "img_url"
    case Location => "location"
    case Seats => "seats"
    case HasToilet => "has_toilet"
    case HasWifi => "has_wifi"
    case HasSockets => "has_sockets"
    case CanTakeCalls => "can_take_calls"
    case CoffeePrice => "coffee_price"
  }

  /** The columns in declaration order: what `__table__.columns` yields. */
  const Columns: seq<Column> := [
    Id, Name, MapUrl, ImgUrl, Location, Seats,
    HasToilet, HasWifi, HasSockets, CanTakeCalls, CoffeePrice
  ]

  /** The column a name denotes, if any. */
  function ColumnNamed(name: string): Option<Column> {
    if name == "id" then Some(Id)
    else if name == "name" then Some(Name)
    else if name == "map_url" then Some(MapUrl)
    else if name == "img_url" then Some(ImgUrl)
    else if name == "location" then Some(Location)
    else if name == "seats" then Some(Seats)
    else if name == "has_toilet" then Some(HasToilet)
    else if name == "has_wifi" then Some(HasWifi)
    else if name == "has_sockets" then Some(HasSockets)
    else if name == "can_take_calls" then Some(CanTakeCalls)
    else if name == "coffee_price" then Some(CoffeePrice)
    else None
  }

  /** Naming a column and looking the name up are inverse to each other. */
  lemma ColumnNamedInverse(col: Column, name: string)
    ensures ColumnNamed(name) == Some(col) <==> ColumnName(col) == name
  {
  }

  /** Column names are distinct, so no `to_dict` entry overwrites another. */
  lemma ColumnNameInjective(a: Column, b: Column)
    requires ColumnName(a) == ColumnName(b)
    ensures a == b
  {
    ColumnNamedInverse(a, ColumnName(a));
    ColumnNamedInverse(b, ColumnName(b));
  }

  /** `Columns` lists every column of the table. */
  lemma ColumnsComplete(col: Column)
    ensures col in Columns
  {
    match col
    case Id => assert Columns[0] == col;
    case Name => assert Columns[1] == col;
    case MapUrl => assert Columns[2] == col;
    case ImgUrl => assert Columns[3] == col;
    case Location => assert Columns[4] == col;
    case Seats => assert Columns[5] == col;
    case HasToilet => assert Columns[6] == col;
    case HasWifi => assert Columns[7] == col;
    case HasSockets => assert Columns[8] == col;
    case CanTakeCalls => assert Columns[9] == col;
    case CoffeePrice => assert Columns[10] == col;
  }

  /** `getattr(cafe, column)` as a JSON value. */
  function Attr(c: Cafe, col: Column): Value {
    match col
    case Id => Number(c.id)
    case Name => String(c.name)
    case MapUrl => String(c.mapUrl)
    case ImgUrl => String(c.imgUrl)
    case Location => String(c.location)
    case Seats => String(c.seats)
    case HasToilet => Bool(c.hasToilet)
    case HasWifi => Bool(c.hasWifi)
    case HasSockets => Bool(c.hasSockets)
    case CanTakeCalls => Bool(c.canTakeCalls)
    case CoffeePrice => PriceValue(c.coffeePrice)
  }

  /** A NULL price serialises as `null`. */
  function PriceValue(price: Option<string>): Value {
    match price
    case None => Null
    case Some(p) => String(p)
  }

  /** The dictionary the loop of `to_dict` has built after visiting `columns`:
      one entry per visited column, holding that column's value. */
  function DictOver(c: Cafe, columns: seq<Column>): (d: map<string, Value>)
    ensures d.Keys == set col | col in columns :: ColumnName(col)
    ensures forall col :: col in columns ==> d[ColumnName(col)] == Attr(c, col)
  {
    if |columns| == 0 then map[]
    else
      var last := columns[|columns| - 1];
      var front := columns[..|columns| - 1];
      assert forall col :: col in columns ==> col == last || col in front;
      forall col | col in front && ColumnName(col) == ColumnName(last) {
        ColumnNameInjective(col, last);
      }
      DictOver(c, front)[ColumnName(last) := Attr(c, last)]
  }

  /** `Cafe.to_dict`: each column's name is a key holding that column's value. */
  function ToDict(c: Cafe): (d: map<string, Value>)
    ensures forall col: Column :: ColumnName(col) in d && d[ColumnName(col)] == Attr(c, col)
  {
    forall col: Column ensures col in Columns {
      ColumnsComplete(col);
    }
    DictOver(c, Columns)
  }

  /** The price entry of `to_dict`: the price, or `null` for a NULL price. */
  lemma ToDictPrice(c: Cafe)
    ensures "coffee_price" in ToDict(c)
    ensures ToDict(c)["coffee_price"] == PriceValue(c.coffeePrice)
  {
    assert ColumnName(CoffeePrice) == "coffee_price";
  }

  /** `to_dict` has no key besides the column names. */
  lemma ToDictKeys(c: Cafe)
    ensures forall key :: key in ToDict(c) <==> ColumnNamed(key).Some?
  {
    var d := ToDict(c);
    forall key ensures key in d <==> ColumnNamed(key).Some? {
      if key in d {
        assert d == DictOver(c, Columns);
        var col :| col in Columns && ColumnName(col) == key;
        ColumnNamedInverse(col, key);
      }
      if ColumnNamed(key).Some? {
        ColumnNamedInverse(ColumnNamed(key).value, key);
      }
    }
  }

  /** The value a serialised row holds for `col`; a missing key reads as `null`. */
  function At(d: map<string, Value>, col: Column): Value {
    if ColumnName(col) in d then d[ColumnName(col)] else Null
  }

  /** Reads a serialised row back: the inverse of `ToDict`. */
  function FromDict(d: map<string, Value>): Option<Cafe> {
    if && At(d, Id).Number?
       && At(d, Name).String? && At(d, MapUrl).String? && At(d, ImgUrl).String?
       && At(d, Location).String? && At(d, Seats).String?
       && At(d, HasToilet).Bool? && At(d, HasWifi).Bool?
       && At(d, HasSockets).Bool? && At(d, CanTakeCalls).Bool?
       && (At(d, CoffeePrice).Null? || At(d, CoffeePrice).String?)
    then
      Some(Cafe(
        At(d, Id).n, At(d, Name).str, At(d, MapUrl).str, At(d, ImgUrl).str,
        At(d, Location).str, At(d, Seats).str,
        At(d, HasToilet).b, At(d, HasWifi).b, At(d, HasSockets).b, At(d, CanTakeCalls).b,
        if At(d, CoffeePrice).Null? then None else Some(At(d, CoffeePrice).str)))
    else None
  }

  /** Any dictionary that holds each column's value of `c` reads back as `c`. */
  lemma FromDictReadsColumns(d: map<string, Value>, c: Cafe)
    requires forall col :: At(d, col) == Attr(c, col)
    ensures FromDict(d) == Some(c)
  {
    assert At(d, Id) == Attr(c, Id) && At(d, Name) == Attr(c, Name);
    assert At(d, MapUrl) == Attr(c, MapUrl) && At(d, ImgUrl) == Attr(c, ImgUrl);
    assert At(d, Location) == Attr(c, Location) && At(d, Seats) == Attr(c, Seats);
    assert At(d, HasToilet) == Attr(c, HasToilet) && At(d, HasWifi) == Attr(c, HasWifi);
    assert At(d, HasSockets) == Attr(c, HasSockets) && At(d, CanTakeCalls) == Attr(c, CanTakeCalls);
    assert At(d, CoffeePrice) == Attr(c, CoffeePrice);
  }

  /** Serialising a row loses nothing: it can be read back exactly. */
  lemma ToDictRoundTrip(c: Cafe)
    ensures FromDict(ToDict(c)) == Some(c)
  {
    var d := ToDict(c);
    forall col ensures At(d, col) == Attr(c, col) {
    }
    FromDictReadsColumns(d, c);
  }

  /** Two rows with the same serialisation are the same row. */
  lemma ToDictInjective(a: Cafe, b: Cafe)
    requires ToDict(a) == ToDict(b)
    ensures a == b
  {
    ToDictRoundTrip(a);
    ToDictRoundTrip(b);
  }

  /* ---------------- The table ---------------- */

  /** The table, keyed by primary key. */
  type Store = map<int, Cafe>

  /** What the schema guarantees of every reachable table: each row sits under
      its own id, ids are positive, and no two rows share a name (`unique=True`). */
  ghost predicate Valid(store: Store) {
    KeyedById(store) && PositiveIds(store) && UniqueNames(store)
  }

  /** SQLite hands out rowids from 1 upwards. */
  ghost predicate PositiveIds(store: Store) {
    forall id :: id in store ==> id > 0
  }

  /** Each row is stored under its own primary key. */
  ghost predicate KeyedById(store: Store) {
    forall id :: id in store ==> store[id].id == id
  }

  /** The UNIQUE constraint on `name`. */
  ghost predicate UniqueNames(store: Store) {
    forall a, b :: a in store && b in store && store[a].name == store[b].name ==> a == b
  }

  /** Some row already carries `name`. */
  predicate NameTaken(store: Store, name: string) {
    exists id :: id in store && store[id].name == name
  }
}
