/** What a handler answers: a JSON reply with a status code, or one of the
    HTML-side answers of `/add` (a redirect or a re-rendered form), each with
    the flashed messages it queues. */
module Responses {
  import opened Wrappers
  import opened Json
  import opened Cafes

  /** A message queued by `flash(message, category)`. */
  datatype Flash = Flash(category: string, message: string)

  datatype Response =
    | Reply(status: int, body: Value)
    | Redirect(location: string, flashes: seq<Flash>)
    | Render(template: string, flashes: seq<Flash>)
      /** An exception escaped the view: Flask answers 500. */
    | InternalServerError

  /** `{"error": message}` */
  function ErrorBody(message: string): Value {
    Object(map["error" := String(message)])
  }

  /** `{"message": message}` */
  function MessageBody(message: string): Value {
    Object(map["message" := String(message)])
  }

  /** `[cafe.to_dict() for cafe in rows]` */
  function Items(rows: seq<Cafe>): (items: seq<Value>)
    ensures |items| == |rows|
  {
    seq(|rows|, i requires 0 <= i < |rows| => Object(ToDict(rows[i])))
  }

  /** `jsonify(key=[cafe.to_dict() for cafe in rows])` */
  function RowsBody(key: string, rows: seq<Cafe>): Value {
    Object(map[key := Array(Items(rows))])
  }

  /** Every item is an object that reads back as a row. */
  predicate AllRows(items: seq<Value>) {
    forall i :: 0 <= i < |items| ==> items[i].Object? && FromDict(items[i].fields).Some?
  }

  /** Reads a list of serialised rows back, failing on anything that is not one. */
  function ReadItems(items: seq<Value>): (rows: Option<seq<Cafe>>)
    ensures rows.Some? <==> AllRows(items)
    ensures rows.Some? ==> |rows.value| == |items|
  {
    if AllRows(items)
    then Some(seq(|items|, i requires 0 <= i < |items| && AllRows(items) => FromDict(items[i].fields).value))
    else None
  }

  /** What a client reads from a body holding a list of rows under `key`. */
  function ReadRows(body: Value, key: string): Option<seq<Cafe>> {
    if body.Object? && key in body.fields && body.fields[key].Array?
    then ReadItems(body.fields[key].items)
    else None
  }

  /** Serialised rows read back as exactly the rows, in the same order. */
  lemma ReadItemsOfItems(rows: seq<Cafe>)
    ensures ReadItems(Items(rows)) == Some(rows)
  {
    var items := Items(rows);
    forall i | 0 <= i < |rows| ensures FromDict(items[i].fields) == Some(rows[i]) {
      ToDictRoundTrip(rows[i]);
    }
    assert AllRows(items);
    assert ReadItems(items).value == rows;
  }

  /** A list reply carries its rows losslessly. */
  lemma ReadRowsBody(key: string, rows: seq<Cafe>)
    ensures ReadRows(RowsBody(key, rows), key) == Some(rows)
  {
    ReadItemsOfItems(rows);
  }

  /** Two list replies under the same key are equal only for the same rows. */
  lemma RowsBodyInjective(key: string, a: seq<Cafe>, b: seq<Cafe>)
    requires RowsBody(key, a) == RowsBody(key, b)
    ensures a == b
  {
    ReadRowsBody(key, a);
    ReadRowsBody(key, b);
  }
}
