/** The four routes of the task resource as transitions of the task store:
    each takes the store and the request and gives the new store and the
    HTTP response. */
module Handlers {
  import opened TaskModel
  import opened Validation

  /** Identifiers are handed out by the store from a counter, so a new one
      is never in use and never reused. */
  type Id = nat

  /** A task together with the identifier it is stored under. */
  datatype Record = Record(id: Id, task: Task)

  /** Where, if anywhere, the store fails while a request is handled: on the
      read (find or findById) or on the write (save or deleteOne). */
  datatype Fault = NoFault | ReadFails | WriteFails

  datatype Payload =
    | Records(records: seq<Record>)
    | One(record: Record)
    | Errors(errors: seq<FieldError>)
    | Notice(message: string)
    | NoBody

  datatype Response = Response(code: nat, payload: Payload)

  const NotFound: Response := Response(404, Notice("Task not found"))
  const ServerError: Response := Response(500, Notice("Server error"))

  /** The task collection and the next identifier the store will hand out. */
  datatype Store = Store(tasks: map<Id, Task>, nextId: Id)
  {
    /** Every stored task has an identifier already handed out and would
        itself pass the validation rules. */
    ghost predicate Valid()
    {
      forall id :: id in tasks ==> id < nextId && Validate(BodyOf(tasks[id])) == []
    }
  }

  datatype Outcome = Outcome(store: Store, response: Response)

  /** The records of `m` whose identifiers lie in [lo, hi), by ascending
      identifier (for identifiers from a counter, the order of insertion). */
  function Listing(m: map<Id, Task>, lo: nat, hi: nat): (rs: seq<Record>)
    ensures forall i :: 0 <= i < |rs| ==> lo <= rs[i].id < hi && rs[i].id in m && rs[i].task == m[rs[i].id]
    ensures forall i, j :: 0 <= i < j < |rs| ==> rs[i].id < rs[j].id
    decreases hi - lo
  {
    if lo >= hi then []
    else (if lo in m then [Record(lo, m[lo])] else []) + Listing(m, lo + 1, hi)
  }

  /** Every record of `m` in range is listed. */
  lemma {:induction false} ListingComplete(m: map<Id, Task>, lo: nat, hi: nat, id: Id)
    requires lo <= id < hi && id in m
    ensures Record(id, m[id]) in Listing(m, lo, hi)
    decreases hi - lo
  {
    if id > lo {
      ListingComplete(m, lo + 1, hi, id);
    }
  }

  /** Every stored task below `hi` is listed. */
  lemma ListingCovers(m: map<Id, Task>, hi: nat)
    ensures forall id :: id in m && id < hi ==> Record(id, m[id]) in Listing(m, 0, hi)
  {
    forall id | id in m && id < hi
      ensures Record(id, m[id]) in Listing(m, 0, hi)
    {
      ListingComplete(m, 0, hi, id);
    }
  }

  /** A record is listed exactly when it is stored. */
  lemma ListingExact(s: Store, r: Record)
    requires s.Valid()
    ensures r in Listing(s.tasks, 0, s.nextId) <==> r.id in s.tasks && s.tasks[r.id] == r.task
  {
    if r.id in s.tasks && s.tasks[r.id] == r.task {
      ListingComplete(s.tasks, 0, s.nextId, r.id);
    }
  }

  /** GET /: every stored task, each once; a failing read gives 500. */
  function List(s: Store, fault: Fault): (r: Response)
    ensures fault == ReadFails ==> r == ServerError
    ensures fault != ReadFails ==> r.code == 200 && r.payload.Records?
    ensures fault != ReadFails ==> forall i, j :: 0 <= i < j < |r.payload.records| ==> r.payload.records[i].id != r.payload.records[j].id
    ensures fault != ReadFails ==> forall x :: x in r.payload.records ==> x.id in s.tasks && s.tasks[x.id] == x.task
    ensures fault != ReadFails && s.Valid() ==> forall id :: id in s.tasks ==> Record(id, s.tasks[id]) in r.payload.records
  {
    if fault == ReadFails then ServerError
    else
      ListingCovers(s.tasks, s.nextId);
      Response(200, Records(Listing(s.tasks, 0, s.nextId)))
  }

  /** POST /: validate, then store the task under a fresh identifier. The
      identifier is drawn when the document is built, before it is saved. */
  function Post(s: Store, b: Body, fault: Fault): (o: Outcome)
    requires s.Valid()
    ensures Validate(b) != [] ==> o == Outcome(s, Response(400, Errors(Validate(b))))
    ensures Validate(b) == [] && fault == WriteFails ==> o.response == ServerError && o.store.tasks == s.tasks
    ensures Validate(b) == [] ==> o.store.nextId == s.nextId + 1
    ensures o.response.code == 200 <==> Validate(b) == [] && fault != WriteFails
    ensures o.response.code == 200 ==>
      && s.nextId !in s.tasks
      && o.store.tasks.Keys == s.tasks.Keys + {s.nextId}
      && (forall id :: id in s.tasks ==> o.store.tasks[id] == s.tasks[id])
      && o.response.payload == One(Record(s.nextId, o.store.tasks[s.nextId]))
      && Accepted(b)
      && BodyOf(o.store.tasks[s.nextId]) == Body(b.title, b.description, Str(Text(b.status)))
  {
    if Validate(b) != [] then Outcome(s, Response(400, Errors(Validate(b))))
    else
      var id := s.nextId;
      var t := ToTask(b);
      if fault == WriteFails then Outcome(s.(nextId := id + 1), ServerError)
      else
        ValidateAcceptsExactly(b);
        Outcome(Store(s.tasks[id := t], id + 1), Response(200, One(Record(id, t))))
  }

  /** PUT /:id: validate first, then look the task up, overwrite all three
      fields and save. */
  function Put(s: Store, id: Id, b: Body, fault: Fault): (o: Outcome)
    ensures o.response.code != 200 ==> o.store == s
    ensures Validate(b) != [] ==> o.response == Response(400, Errors(Validate(b)))
    ensures Validate(b) == [] && fault != ReadFails && id !in s.tasks ==> o.response == NotFound
    ensures Validate(b) == [] && fault == ReadFails ==> o.response == ServerError
    ensures Validate(b) == [] && fault == WriteFails && id in s.tasks ==> o.response == ServerError
    ensures o.response.code == 200 <==> Validate(b) == [] && fault == NoFault && id in s.tasks
    ensures o.response.code == 200 ==>
      && o.store.nextId == s.nextId
      && o.store.tasks.Keys == s.tasks.Keys
      && (forall k :: k in s.tasks && k != id ==> o.store.tasks[k] == s.tasks[k])
      && o.store.tasks[id] == ToTask(b)
      && o.response.payload == One(Record(id, ToTask(b)))
  {
    if Validate(b) != [] then Outcome(s, Response(400, Errors(Validate(b))))
    else if fault == ReadFails then Outcome(s, ServerError)
    else if id !in s.tasks then Outcome(s, NotFound)
    else if fault == WriteFails then Outcome(s, ServerError)
    else
      assert fault.NoFault?;
      var t := ToTask(b);
      Outcome(s.(tasks := s.tasks[id := t]), Response(200, One(Record(id, t))))
  }

  /** DELETE /:id: no body to validate; look the task up, then remove it. */
  function Delete(s: Store, id: Id, fault: Fault): (o: Outcome)
    ensures o.response.code != 204 ==> o.store == s
    ensures fault != ReadFails && id !in s.tasks ==> o.response == NotFound
    ensures fault == ReadFails ==> o.response == ServerError
    ensures fault == WriteFails && id in s.tasks ==> o.response == ServerError
    ensures o.response.code == 204 <==> fault == NoFault && id in s.tasks
    ensures o.response.code == 204 ==>
      && o.response.payload == NoBody
      && o.store == Store(s.tasks - {id}, s.nextId)
  {
    if fault == ReadFails then Outcome(s, ServerError)
    else if id !in s.tasks then Outcome(s, NotFound)
    else if fault == WriteFails then Outcome(s, ServerError)
    else
      assert fault.NoFault?;
      Outcome(Store(s.tasks - {id}, s.nextId), Response(204, NoBody))
  }

  /** Every route keeps the store valid: only validated tasks are stored and
      identifiers stay below the counter. */
  lemma PostKeepsValid(s: Store, b: Body, fault: Fault)
    requires s.Valid()
    ensures Post(s, b, fault).store.Valid()
  {
    if Validate(b) == [] && fault != WriteFails {
      var t := ToTask(b);
      ValidateAcceptsExactly(b);
      BodyRoundTrip(t);
    }
  }

  lemma PutKeepsValid(s: Store, id: Id, b: Body, fault: Fault)
    requires s.Valid()
    ensures Put(s, id, b, fault).store.Valid()
  {
    if Validate(b) == [] {
      ValidateAcceptsExactly(b);
      BodyRoundTrip(ToTask(b));
    }
  }

  lemma DeleteKeepsValid(s: Store, id: Id, fault: Fault)
    requires s.Valid()
    ensures Delete(s, id, fault).store.Valid()
  {
  }

  /** One request to the task resource. */
  datatype Request = GetAll | Create(body: Body) | Replace(id: Id, body: Body) | Remove(id: Id)

  /** Dispatches a request to its route. No route lowers the identifier
      counter, and every route keeps the store valid. */
  function Handle(s: Store, q: Request, fault: Fault): (o: Outcome)
    requires s.Valid()
    ensures o.store.Valid()
    ensures o.store.nextId >= s.nextId
  {
    match q
    case GetAll => Outcome(s, List(s, fault))
    case Create(b) => PostKeepsValid(s, b, fault); Post(s, b, fault)
    case Replace(id, b) => PutKeepsValid(s, id, b, fault); Put(s, id, b, fault)
    case Remove(id) => DeleteKeepsValid(s, id, fault); Delete(s, id, fault)
  }

  /** The store after a sequence of requests, each with its own fault, handled
      one after another. */
  function Run(s: Store, reqs: seq<(Request, Fault)>): (t: Store)
    requires s.Valid()
    ensures t.Valid()
    ensures t.nextId >= s.nextId
    decreases |reqs|
  {
    if reqs == [] then s
    else Run(Handle(s, reqs[0].0, reqs[0].1).store, reqs[1..])
  }

  /** An identifier handed out by a successful POST is never handed out
      again, whatever requests come between. */
  lemma IdNeverReused(s: Store, b: Body, reqs: seq<(Request, Fault)>, b': Body, fault: Fault)
    requires s.Valid() && Validate(b) == []
    ensures
      var first := Handle(s, Create(b), NoFault);
      var second := Handle(Run(first.store, reqs), Create(b'), fault);
      second.response.code == 200 ==> second.response.payload.record.id != first.response.payload.record.id
  {
  }

  /** A task created by POST is listed by a following GET. */
  lemma PostThenList(s: Store, b: Body)
    requires s.Valid() && Validate(b) == []
    ensures Post(s, b, NoFault).response.payload.record in List(Post(s, b, NoFault).store, NoFault).payload.records
  {
    var o := Post(s, b, NoFault);
    PostKeepsValid(s, b, NoFault);
    ListingExact(o.store, o.response.payload.record);
  }

  /** After a successful PUT a GET lists the task with exactly the new fields. */
  lemma PutThenList(s: Store, id: Id, b: Body)
    requires s.Valid() && Validate(b) == [] && id in s.tasks
    ensures Record(id, ToTask(b)) in List(Put(s, id, b, NoFault).store, NoFault).payload.records
    ensures forall t :: Record(id, t) in List(Put(s, id, b, NoFault).store, NoFault).payload.records ==> t == ToTask(b)
  {
    var o := Put(s, id, b, NoFault);
    PutKeepsValid(s, id, b, NoFault);
    ListingExact(o.store, Record(id, ToTask(b)));
  }

  /** After a successful DELETE the task is gone from a GET, and a second
      DELETE of the same identifier finds nothing. */
  lemma DeleteThenListAndDelete(s: Store, id: Id, fault: Fault)
    requires id in s.tasks
    ensures var s' := Delete(s, id, NoFault).store;
      && (forall x :: x in List(s', NoFault).payload.records ==> x.id != id)
      && (fault != ReadFails ==> Delete(s', id, fault) == Outcome(s', NotFound))
  {
  }

  /** The validation rules run before the lookup: an invalid body is refused
      with 400 whether or not the task exists, and nothing is stored. */
  lemma PutValidatesBeforeLookup(s: Store, id: Id, b: Body, fault: Fault)
    requires Validate(b) != []
    ensures Put(s, id, b, fault) == Outcome(s, Response(400, Errors(Validate(b))))
    ensures Put(s, id, b, fault) == Put(s.(tasks := s.tasks - {id}), id, b, fault).(store := s)
  {
  }

  /** The create, replace, delete, list sequence of a single task. */
  lemma BuyMilkScenario(s: Store)
    requires s.Valid()
    ensures
      var b := Body(Str("Buy milk"), Str("2%"), Str("To-Do"));
      var o1 := Post(s, b, NoFault);
      var id := s.nextId;
      && o1.response == Response(200, One(Record(id, Task("Buy milk", "2%", ToDo))))
      && var o2 := Put(o1.store, id, Body(Str("Buy milk"), Str("2%"), Str("Done")), NoFault);
      && o2.response == Response(200, One(Record(id, Task("Buy milk", "2%", Done))))
      && var o3 := Delete(o2.store, id, NoFault);
      && o3.response == Response(204, NoBody)
      && forall x :: x in List(o3.store, NoFault).payload.records ==> x.id != id
  {
    var b := Body(Str("Buy milk"), Str("2%"), Str("To-Do"));
    ValidateAcceptsExactly(b);
    ValidateAcceptsExactly(Body(Str("Buy milk"), Str("2%"), Str("Done")));
  }

  /** An empty title is refused with an error naming the title field. */
  lemma EmptyTitleRefused(s: Store)
    requires s.Valid()
    ensures
      var o := Post(s, Body(Str(""), Str("x"), Str("To-Do")), NoFault);
      && o.store == s
      && o.response.code == 400
      && FieldError(Title, Message(Title)) in o.response.payload.errors
  {
  }
}
