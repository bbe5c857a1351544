/** The task router over a live collection: one method per route, each
    changing the collection in place as the route handler does. */
module Router {
  import opened TaskModel
  import opened Validation
  import opened Handlers

  class TaskRouter {
    /** The task collection, by identifier. */
    var tasks: map<Id, Task>
    /** The identifier the store hands out next. */
    var nextId: Id

    /** The collection as a value. */
    function State(): Store
      reads this
    {
      Store(tasks, nextId)
    }

    ghost predicate Valid()
      reads this
    {
      State().Valid()
    }

    /** An empty collection. */
    constructor ()
      ensures Valid() && tasks == map[] && nextId == 0
    {
      tasks := map[];
      nextId := 0;
    }

    /** GET /: reads the whole collection and changes nothing. */
    method Get(fault: Fault) returns (r: Response)
      ensures r == List(State(), fault)
    {
      if fault == ReadFails {
        return ServerError;
      }
      var all := Listing(tasks, 0, nextId);
      r := Response(200, Records(all));
    }

    /** POST /: rejects an invalid body before touching the store, otherwise
        builds a document with a fresh identifier and saves it. */
    method Post(body: Body, fault: Fault) returns (r: Response)
      requires Valid()
      modifies this
      ensures Valid()
      ensures State() == Handlers.Post(old(State()), body, fault).store
      ensures r == Handlers.Post(old(State()), body, fault).response
    {
      var errors := Validate(body);
      if errors != [] {
        return Response(400, Errors(errors));
      }
      var id := nextId;
      nextId := nextId + 1;
      var task := ToTask(body);
      if fault == WriteFails {
        return ServerError;
      }
      tasks := tasks[id := task];
      r := Response(200, One(Record(id, task)));
      PostKeepsValid(old(State()), body, fault);
    }

    /** PUT /:id: rejects an invalid body before the lookup, then assigns the
        three fields of the stored task one by one and saves it. */
    method Put(id: Id, body: Body, fault: Fault) returns (r: Response)
      requires Valid()
      modifies this
      ensures Valid()
      ensures State() == Handlers.Put(old(State()), id, body, fault).store
      ensures r == Handlers.Put(old(State()), id, body, fault).response
    {
      var errors := Validate(body);
      if errors != [] {
        return Response(400, Errors(errors));
      }
      if fault == ReadFails {
        return ServerError;
      }
      if id !in tasks {
        return NotFound;
      }
      ValidateAcceptsExactly(body);
      var task := tasks[id];
      task := task.(title := body.title.s);
      task := task.(description := body.description.s);
      task := task.(status := ParseStatus(Text(body.status)).value);
      if fault == WriteFails {
        return ServerError;
      }
      tasks := tasks[id := task];
      r := Response(200, One(Record(id, task)));
      PutKeepsValid(old(State()), id, body, fault);
    }

    /** DELETE /:id: looks the task up, then removes it. */
    method Delete(id: Id, fault: Fault) returns (r: Response)
      requires Valid()
      modifies this
      ensures Valid()
      ensures State() == Handlers.Delete(old(State()), id, fault).store
      ensures r == Handlers.Delete(old(State()), id, fault).response
    {
      if fault == ReadFails {
        return ServerError;
      }
      if id !in tasks {
        return NotFound;
      }
      if fault == WriteFails {
        return ServerError;
      }
      tasks := tasks - {id};
      r := Response(204, NoBody);
    }
  }

  /** A client of the router, relying on the method contracts alone: a
      created task is listed, deleting it answers 204 and deleting it again
      answers 404. */
  method DeleteTwiceFindsNothing(router: TaskRouter, b: Body)
      returns (created: Response, listed: Response, first: Response, second: Response)
    requires router.Valid() && Validate(b) == []
    modifies router
    ensures created.code == 200 && created.payload.One?
    ensures listed.payload.Records? && created.payload.record in listed.payload.records
    ensures first == Response(204, NoBody)
    ensures second == NotFound
    ensures created.payload.record.id !in router.tasks
  {
    created := router.Post(b, NoFault);
    var id := created.payload.record.id;
    listed := router.Get(NoFault);
    ListingExact(router.State(), created.payload.record);
    first := router.Delete(id, NoFault);
    second := router.Delete(id, NoFault);
  }
}
