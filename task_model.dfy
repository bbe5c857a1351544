/** The task record of the document store: three mutable fields and a closed
    status enumeration, as declared by the Mongoose schema. */
module TaskModel {

  datatype Option<+T> = None | Some(value: T)

  /** The three statuses a task may have. */
  datatype Status = ToDo | InProgress | Done

  /** A stored task without its identifier. */
  datatype Task = Task(title: string, description: string, status: Status)

  /** The literal a status is written as in request and response bodies. */
  function StatusText(s: Status): string
  {
    match s
    case ToDo => "To-Do"
    case InProgress => "In Progress"
    case Done => "Done"
  }

  /** The status literals in the order the schema and the validator list them. */
  const StatusLiterals: seq<string> := ["To-Do", "In Progress", "Done"]

  /** Reads a status literal; matching is exact, so case and spacing matter. */
  function ParseStatus(t: string): (r: Option<Status>)
    ensures r.Some? ==> StatusText(r.value) == t
    ensures r.None? ==> forall s: Status :: StatusText(s) != t
  {
    if t == "To-Do" then Some(ToDo)
    else if t == "In Progress" then Some(InProgress)
    else if t == "Done" then Some(Done)
    else None
  }

  /** Writing a status and reading it back gives the same status. */
  lemma StatusRoundTrip(s: Status)
    ensures ParseStatus(StatusText(s)) == Some(s)
  {
  }

  /** A text is a status literal exactly when it is one of the three listed literals. */
  lemma StatusLiteralsComplete(t: string)
    ensures t in StatusLiterals <==> ParseStatus(t).Some?
  {
    if ParseStatus(t).Some? {
      assert t == StatusText(ParseStatus(t).value);
    }
  }

  /** Matching is case-sensitive and exact. */
  lemma StatusMatchIsExact()
    ensures ParseStatus("done") == None
    ensures ParseStatus("to-do") == None
    ensures ParseStatus("In progress") == None
    ensures ParseStatus("Done ") == None
  {
  }
}
