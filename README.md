# Task resource of a task-management backend, in Dafny

This project models how the REST backend handles requests for its single resource, the task. A task has a title, a description and a status. The status is one of `"To-Do"`, `"In Progress"` or `"Done"`. The model covers two parts of `src/routes/tasks.ts`:

- **The validation rules** (`taskValidationRules`). Create and replace requests must pass them. Each field has its own validator chain. Every validator of every chain runs, and every failure is collected.
- **The four route handlers.** These are GET `/`, POST `/`, PUT `/:id` and DELETE `/:id`. Each one maps an outcome to a status code: 200, 204, 400, 404 or 500.

The model has four modules:

- `TaskModel` (`task_model.dfy`): the record shape and the closed status set from `src/models/Tasks.ts`.
- `Validation` (`validation.dfy`): request bodies as untyped JSON values, the three validator chains and the error list they produce. It also states, without the chains, what the rules accept, and proves the two views agree.
- `Handlers` (`handlers.dfy`): each route as a pure transition of the store. The store is a map from identifier to task plus the identifier counter. Each transition takes the store and the request and gives the new store and the response. The lemmas here cover multi-request behaviour: create then list, replace then list, delete twice, and invariant preservation.
- `Router` (`router.dfy`): the class `TaskRouter`. It holds the collection as a `map<Id, Task>` field. Its four methods change that field in place as the handlers do. For example, PUT assigns the three fields of the fetched task one by one and then saves it. Each method is proved to produce exactly the transition that `Handlers` specifies, and to keep the store invariant.

How the store is modelled:

- Identifiers come from a counter `nextId`. This stands in for the store's generated object ids: a new id is never in use and never reused. The id is drawn when the document is built (line 32), so a POST whose save fails still uses one up.
- Storage failures are a parameter `fault`. It says whether the handler's read (`find`, `findById`) fails, whether its write (`save`, `deleteOne`) fails, or whether nothing fails. A failing write changes nothing, because every write touches a single document.
- The store invariant `Store.Valid`: every stored task has an identifier below the counter, and would itself pass the validation rules.

The code decides two points that a reading of the rules alone could get wrong:

- The custom message of a text field labels only its last validator, the emptiness check (`src/routes/tasks.ts:8-9`). So a title that is a non-empty non-string value, such as a number, is reported only with the validator library's default message, `"Invalid value"`. A missing title is reported twice: once with the default message and once with the custom one.
- `isIn` compares the value's string rendering (`src/routes/tasks.ts:11`). The model keeps that rendering in `NonString(text)` and stores the status that the rendering names.

## Model

| member | source | states |
|---|---|---|
| `TaskModel.ParseStatus` | src/models/Tasks.ts:12 | a text reads as a status only if it is exactly that status's literal, and a text that is no status's literal reads as none |
| `TaskModel.StatusRoundTrip` | src/models/Tasks.ts:6 | writing a status as its literal and reading it back gives the same status |
| `TaskModel.StatusLiteralsComplete` | src/routes/tasks.ts:11 | the three literals the validator lists are exactly the texts that read as a status |
| `TaskModel.StatusMatchIsExact` | src/routes/tasks.ts:11 | status matching is case- and space-sensitive: "done", "to-do", "In progress" and "Done " are rejected |
| `Validation.FieldErrorsIndependent` | src/routes/tasks.ts:7-13 | the errors reported for each field are exactly what that field's own chain reports on that field's value, whatever the other fields hold |
| `Validation.FieldReported` | src/routes/tasks.ts:7-13 | a field has at least one error exactly when it breaks its rule, so every bad field is reported, not just the first |
| `Validation.ValidateAcceptsExactly` | src/routes/tasks.ts:7-13 | the error list is empty exactly when the title and description are non-empty strings and the status is one of the three literals |
| `Validation.TextFieldMessages` | src/routes/tasks.ts:8-9 | for title and description, the default message appears exactly when the value is not a string, the custom message exactly when it renders as empty, and a bad field gets one or two errors |
| `Validation.StatusFieldMessage` | src/routes/tasks.ts:10-12 | a bad status gets exactly one error, its custom message, and a good status gets none |
| `Validation.MissingTitleReportedTwice` | src/routes/tasks.ts:8 | a missing title yields the default error followed by the custom one |
| `Validation.ToTask` | src/routes/tasks.ts:31-32 | the task built from an accepted body carries its title and description, and a status whose literal is the body's status |
| `Validation.BodyRoundTrip` | src/routes/tasks.ts:8-12 | a task passes the rules exactly when its title and description are non-empty, and then reading its body back gives the task itself |
| `Handlers.Listing` | src/routes/tasks.ts:17 | every listed record is stored under its id, and the ids come in strictly ascending order, so none is listed twice |
| `Handlers.ListingComplete` | src/routes/tasks.ts:17 | every stored task whose id is in range is listed |
| `Handlers.ListingCovers` | src/routes/tasks.ts:17 | every stored task whose id is below the bound is listed |
| `Handlers.ListingExact` | src/routes/tasks.ts:17-18 | in a valid store, a record is listed exactly when it is stored |
| `Handlers.List` | src/routes/tasks.ts:15-21 | GET answers 200 listing every task of a valid store, each id once and nothing that is not stored, or 500 when the read fails |
| `Handlers.Post` | src/routes/tasks.ts:24-37 | an invalid body gives 400 with the full error list and an unchanged store; a failed save gives 500 and no new task; otherwise exactly one task is added under an id not in use, the others are unchanged, and the response is the stored task built from the body; a body that passes always advances the id counter by one, even when the save then fails |
| `Handlers.Put` | src/routes/tasks.ts:40-63 | validation comes before the lookup (400); an absent id gives 404; a failed read, or a failed save of a found task, gives 500; every non-200 leaves the store unchanged; a 200 replaces all three fields of that task only, keeps its id and returns it |
| `Handlers.Delete` | src/routes/tasks.ts:66-78 | no validation; an absent id gives 404; a failed read, or a failed delete of a found task, gives 500; every non-204 leaves the store unchanged; a 204 removes exactly that entry and has no body |
| `Handlers.PostKeepsValid` | src/routes/tasks.ts:24-34 | POST keeps the store invariant: only tasks that passed the rules are stored, and ids stay below the counter |
| `Handlers.PutKeepsValid` | src/routes/tasks.ts:40-60 | PUT keeps the store invariant |
| `Handlers.DeleteKeepsValid` | src/routes/tasks.ts:66-75 | DELETE keeps the store invariant |
| `Handlers.Handle` | src/routes/tasks.ts:15-79 | dispatching any request to its route keeps the store invariant and never lowers the id counter |
| `Handlers.Run` | src/routes/tasks.ts:15-79 | after any sequence of requests, each with its own store failure or none, the store invariant still holds and the id counter has not gone down |
| `Handlers.IdNeverReused` | src/routes/tasks.ts:32-34 | an id returned by a successful POST is never returned by a later successful POST, whatever requests come between |
| `Handlers.PostThenList` | src/routes/tasks.ts:30-34 | the task a successful POST returns is listed by a following GET |
| `Handlers.PutThenList` | src/routes/tasks.ts:55-60 | after a successful PUT, GET lists the task with exactly the new fields and no other version of it |
| `Handlers.DeleteThenListAndDelete` | src/routes/tasks.ts:69-75 | after a successful DELETE, GET no longer lists the id, and a second DELETE of it gives 404 with the store unchanged |
| `Handlers.PutValidatesBeforeLookup` | src/routes/tasks.ts:40-44 | an invalid body gives 400 with the store unchanged, whether or not the id exists |
| `Handlers.BuyMilkScenario` | src/routes/tasks.ts:24-75 | create "Buy milk" (200 with the new id), replace its status with "Done" (200), delete it (204): GET then no longer lists it |
| `Handlers.EmptyTitleRefused` | src/routes/tasks.ts:24-28 | POST with an empty title gives 400 with the title's message, and nothing is stored |
| `Router.TaskRouter.Get` | src/routes/tasks.ts:15-21 | reads the collection without changing it and answers as `Handlers.List` |
| `Router.TaskRouter.Post` | src/routes/tasks.ts:24-37 | validates, then saves a new document; the new collection and the response are those of `Handlers.Post`, and the store invariant is kept |
| `Router.TaskRouter.Put` | src/routes/tasks.ts:40-63 | validates, looks up, assigns the three fields in place and saves; the result is that of `Handlers.Put`, and the store invariant is kept |
| `Router.TaskRouter.Delete` | src/routes/tasks.ts:66-78 | looks up, then removes; the result is that of `Handlers.Delete`, and the store invariant is kept |
| `Router.DeleteTwiceFindsNothing` | src/routes/tasks.ts:24-75 | on a router, from the method contracts alone: a created task is listed by GET, deleting it answers 204, deleting it again answers 404, and the id is gone from the collection |

## Left out

- Process bootstrap (`src/index.ts`) is not modelled: the database connection, CORS, JSON body parsing, mounting and listening on port 5000 are I/O and framework wiring.
- The store's own schema validation on save is not modelled. The route rules already enforce everything it checks on a stored task, which `Store.Valid` records.
- The format of generated object ids is not modelled; a counter stands in for them.
- Malformed ids are not modelled. Identifiers are abstract, well-formed values. A malformed id may make `findById` throw and end in the 500 branch; the `fault` parameter covers that outcome, but the model does not tie it to the id's shape.
- Validation error objects carry only the field and the message. Their other parts (location, value) are left out.
- The validator's rules for rendering non-string values as strings are not modelled. `NonString(text)` takes the rendering as given. Array values, which the validator checks element by element, are not modelled, and neither is how the store casts a non-string status on save.
- Async execution and concurrent requests are not modelled: handlers run one after another. In particular, the gap between `findById` and `deleteOne` in DELETE, during which another request could remove the task, is not modelled.
- The causes of storage failures are not modelled; only where a failure happens (the read or the write) is a parameter.
- JSON serialisation of responses is not modelled: a response is a status code and a structured payload.
- `Handlers.List`: the order of records is unspecified, because the source takes whatever order the store returns. The model lists by ascending id, which for a counter is insertion order, but the handler's contract promises only which records appear and that no id repeats, not their order.
