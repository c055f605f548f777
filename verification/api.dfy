/** The application as a whole: a request names one route and its
    parameters, and a run of requests threads the table from one to the next. */
module Api {
  import opened Wrappers
  import opened Cafes
  import opened Queries
  import opened Responses
  import opened Handlers

  /** One HTTP request the application routes to a view. */
  datatype Request =
    | GetRandom(pick: nat)
    | GetAll
    | Search(loc: Option<string>)
    | Add(form: map<string, string>)
    | UpdatePriceOf(id: nat, newPrice: Option<string>)
    | ReportClosed(id: nat, apiKey: Option<string>)

  /** Dispatches a request to its view. */
  function Handle(store: Store, req: Request): Outcome {
    match req
    case GetRandom(pick) => GetRandomCafe(store, pick)
    case GetAll => GetAllCafes(store)
    case Search(loc) => SearchLocation(store, loc)
    case Add(form) => AddCafe(store, form)
    case UpdatePriceOf(id, price) => UpdatePrice(store, id, price)
    case ReportClosed(id, key) => DeleteCafe(store, id, key)
  }

  /** Only the writing routes can change the table. */
  predicate Writes(req: Request) {
    req.Add? || req.UpdatePriceOf? || req.ReportClosed?
  }

  /** The table after serving `reqs` in order, starting from `store`. */
  function Run(store: Store, reqs: seq<Request>): Store
    decreases |reqs|
  {
    if |reqs| == 0 then store else Run(Handle(store, reqs[0]).store, reqs[1..])
  }

  /** A committed INSERT from a form keeps the schema's invariants. */
  lemma AddCafeKeepsValid(store: Store, form: map<string, string>)
    requires Valid(store)
    ensures Valid(AddCafe(store, form).store)
  {
    if Insert(store, DraftOf(form)).Ok? {
      InsertKeepsValid(store, DraftOf(form));
    }
  }

  /** Changing a price touches neither ids nor names. */
  lemma UpdatePriceKeepsValid(store: Store, id: nat, newPrice: Option<string>)
    requires Valid(store)
    ensures Valid(UpdatePrice(store, id, newPrice).store)
  {
    var after := UpdatePrice(store, id, newPrice).store;
    forall a, b | a in after && b in after && after[a].name == after[b].name
      ensures a == b
    {
      assert store[a].name == after[a].name && store[b].name == after[b].name;
    }
  }

  /** Every request keeps each row under its own id and names unique. */
  lemma HandleKeepsValid(store: Store, req: Request)
    requires Valid(store)
    ensures Valid(Handle(store, req).store)
    ensures !Writes(req) ==> Handle(store, req).store == store
  {
    match req
    case Add(form) => AddCafeKeepsValid(store, form);
    case UpdatePriceOf(id, price) => UpdatePriceKeepsValid(store, id, price);
    case _ =>
  }

  /** The schema's invariants hold after any run of requests. */
  lemma {:induction false} RunKeepsValid(store: Store, reqs: seq<Request>)
    requires Valid(store)
    ensures Valid(Run(store, reqs))
    decreases |reqs|
  {
    if |reqs| > 0 {
      HandleKeepsValid(store, reqs[0]);
      RunKeepsValid(Handle(store, reqs[0]).store, reqs[1..]);
    }
  }

  /** A run of read-only requests leaves the table as it was. */
  lemma {:induction false} ReadsChangeNothing(store: Store, reqs: seq<Request>)
    requires forall i :: 0 <= i < |reqs| ==> !Writes(reqs[i])
    ensures Run(store, reqs) == store
    decreases |reqs|
  {
    if |reqs| > 0 {
      assert !Writes(reqs[0]);
      ReadsChangeNothing(store, reqs[1..]);
    }
  }
}
