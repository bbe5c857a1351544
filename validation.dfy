/** The rule set applied to the body of a create or replace request.
    Each field has its own validator chain; every validator of every chain
    runs, and each one that fails adds one error. A custom message labels
    only the last validator of its chain; the others report the validator
    library's default message. */
module Validation {
  import opened TaskModel

  /** A field of an untyped JSON body. `NonString` is any other JSON value
      (number, boolean, object, null is `Missing`); `text` is the string the
      validator renders it as before comparing it. */
  datatype Value = Missing | Str(s: string) | NonString(text: string)

  /** The three fields of a request body that the rules look at. */
  datatype Body = Body(title: Value, description: Value, status: Value)

  datatype Field = Title | Description | StatusField

  /** One entry of the error list returned with a 400 response. */
  datatype FieldError = FieldError(field: Field, msg: string)

  /** The message of a failing validator that has no custom message. */
  const DefaultMessage: string := "Invalid value"

  /** The custom message that labels the last validator of each chain. */
  function Message(f: Field): string
  {
    match f
    case Title => "Title is required and must be a string."
    case Description => "Description is required and must be a string."
    case StatusField => "Status must be one of the following: \"To-Do\", \"In Progress\", \"Done\"."
  }

  function FieldValue(b: Body, f: Field): Value
  {
    match f
    case Title => b.title
    case Description => b.description
    case StatusField => b.status
  }

  /** The string a validator compares: an absent value renders as "". */
  function Text(v: Value): string
  {
    match v
    case Missing => ""
    case Str(s) => s
    case NonString(t) => t
  }

  /** `isString().notEmpty().withMessage(m)`: the type check reports the
      default message, the emptiness check reports the custom one. */
  function TextChain(f: Field, v: Value): seq<FieldError>
  {
    (if v.Str? then [] else [FieldError(f, DefaultMessage)])
    + (if Text(v) != "" then [] else [FieldError(f, Message(f))])
  }

  /** `isIn([...]).withMessage(m)`. */
  function StatusChain(v: Value): seq<FieldError>
  {
    if Text(v) in StatusLiterals then [] else [FieldError(StatusField, Message(StatusField))]
  }

  function Chain(f: Field, v: Value): seq<FieldError>
  {
    if f == StatusField then StatusChain(v) else TextChain(f, v)
  }

  /** Runs the three chains in declaration order and collects every error. */
  function Validate(b: Body): seq<FieldError>
  {
    Chain(Title, b.title) + Chain(Description, b.description) + Chain(StatusField, b.status)
  }

  /** The errors of one field, in the order they were reported. */
  function ErrorsOf(errs: seq<FieldError>, f: Field): (r: seq<FieldError>)
    ensures forall e :: e in r <==> e in errs && e.field == f
    ensures |r| <= |errs|
  {
    if errs == [] then []
    else (if errs[0].field == f then [errs[0]] else []) + ErrorsOf(errs[1..], f)
  }

  /** What the rules demand of a field, stated without the chains. */
  predicate FieldOk(b: Body, f: Field)
  {
    match f
    case Title => b.title.Str? && b.title.s != ""
    case Description => b.description.Str? && b.description.s != ""
    case StatusField => ParseStatus(Text(b.status)).Some?
  }

  /** A body the route accepts: non-empty string title and description, and
      a status that is exactly one of the three literals. */
  predicate Accepted(b: Body)
  {
    FieldOk(b, Title) && FieldOk(b, Description) && FieldOk(b, StatusField)
  }

  lemma {:induction false} ErrorsOfAppend(a: seq<FieldError>, c: seq<FieldError>, f: Field)
    ensures ErrorsOf(a + c, f) == ErrorsOf(a, f) + ErrorsOf(c, f)
  {
    if a != [] {
      assert (a + c)[0] == a[0];
      assert (a + c)[1..] == a[1..] + c;
      ErrorsOfAppend(a[1..], c, f);
      var head := if a[0].field == f then [a[0]] else [];
      calc {
        ErrorsOf(a + c, f);
        head + ErrorsOf(a[1..] + c, f);
        head + (ErrorsOf(a[1..], f) + ErrorsOf(c, f));
        (head + ErrorsOf(a[1..], f)) + ErrorsOf(c, f);
        ErrorsOf(a, f) + ErrorsOf(c, f);
      }
    } else {
      assert a + c == c;
    }
  }

  /** Filtering a list whose errors all carry field g keeps all of it for g
      and none of it for any other field. */
  lemma {:induction false} ErrorsOfUniform(errs: seq<FieldError>, g: Field, f: Field)
    requires forall i :: 0 <= i < |errs| ==> errs[i].field == g
    ensures ErrorsOf(errs, f) == if g == f then errs else []
  {
    if errs != [] {
      ErrorsOfUniform(errs[1..], g, f);
      assert errs == [errs[0]] + errs[1..];
    }
  }

  /** Errors of a chain carry that chain's field and no other. */
  lemma ErrorsOfChain(g: Field, v: Value, f: Field)
    ensures ErrorsOf(Chain(g, v), f) == if g == f then Chain(g, v) else []
  {
    ErrorsOfUniform(Chain(g, v), g, f);
  }

  /** The errors reported for a field depend on that field's value alone:
      the three rules run independently of each other. */
  lemma FieldErrorsIndependent(b: Body, f: Field)
    ensures ErrorsOf(Validate(b), f) == Chain(f, FieldValue(b, f))
  {
    ErrorsOfAppend(Chain(Title, b.title) + Chain(Description, b.description), Chain(StatusField, b.status), f);
    ErrorsOfAppend(Chain(Title, b.title), Chain(Description, b.description), f);
    ErrorsOfChain(Title, b.title, f);
    ErrorsOfChain(Description, b.description, f);
    ErrorsOfChain(StatusField, b.status, f);
  }

  /** A field is reported exactly when it breaks its rule, whatever the
      other fields hold. */
  lemma FieldReported(b: Body, f: Field)
    ensures ErrorsOf(Validate(b), f) != [] <==> !FieldOk(b, f)
  {
    FieldErrorsIndependent(b, f);
    StatusLiteralsComplete(Text(b.status));
  }

  /** A body passes validation exactly when it is accepted. */
  lemma ValidateAcceptsExactly(b: Body)
    ensures Validate(b) == [] <==> Accepted(b)
  {
    FieldReported(b, Title);
    FieldReported(b, Description);
    FieldReported(b, StatusField);
    if Validate(b) != [] {
      var e := Validate(b)[0];
      assert e in ErrorsOf(Validate(b), e.field);
    }
  }

  /** A bad text field yields one or two errors: the default message when the
      value is not a string, the custom message when it renders as empty. */
  lemma TextFieldMessages(b: Body, f: Field)
    requires f != StatusField
    ensures FieldError(f, DefaultMessage) in Validate(b) <==> !FieldValue(b, f).Str?
    ensures FieldError(f, Message(f)) in Validate(b) <==> Text(FieldValue(b, f)) == ""
    ensures !FieldOk(b, f) ==> 1 <= |ErrorsOf(Validate(b), f)| <= 2
  {
    FieldErrorsIndependent(b, f);
    assert FieldError(f, DefaultMessage) in Validate(b) <==> FieldError(f, DefaultMessage) in ErrorsOf(Validate(b), f);
    assert FieldError(f, Message(f)) in Validate(b) <==> FieldError(f, Message(f)) in ErrorsOf(Validate(b), f);
    assert DefaultMessage != Message(f);
  }

  /** A bad status yields exactly its custom message. */
  lemma StatusFieldMessage(b: Body)
    ensures !FieldOk(b, StatusField) <==> ErrorsOf(Validate(b), StatusField) == [FieldError(StatusField, Message(StatusField))]
    ensures FieldOk(b, StatusField) <==> ErrorsOf(Validate(b), StatusField) == []
  {
    FieldErrorsIndependent(b, StatusField);
    StatusLiteralsComplete(Text(b.status));
  }

  /** A missing title is reported twice: once as not a string, once as empty. */
  lemma MissingTitleReportedTwice(b: Body)
    requires b.title == Missing
    ensures ErrorsOf(Validate(b), Title) == [FieldError(Title, DefaultMessage), FieldError(Title, Message(Title))]
  {
    FieldErrorsIndependent(b, Title);
  }

  /** The task an accepted body describes. */
  function ToTask(b: Body): (t: Task)
    requires Validate(b) == []
    ensures t.title == b.title.s && t.description == b.description.s
    ensures StatusText(t.status) == Text(b.status)
  {
    ValidateAcceptsExactly(b);
    Task(b.title.s, b.description.s, ParseStatus(Text(b.status)).value)
  }

  /** The body a task is written as. */
  function BodyOf(t: Task): Body
  {
    Body(Str(t.title), Str(t.description), Str(StatusText(t.status)))
  }

  /** A task would pass the rules exactly when its title and description are
      non-empty, and then reading its body back gives the task itself. */
  lemma BodyRoundTrip(t: Task)
    ensures Validate(BodyOf(t)) == [] <==> t.title != "" && t.description != ""
    ensures Validate(BodyOf(t)) == [] ==> ToTask(BodyOf(t)) == t
  {
    ValidateAcceptsExactly(BodyOf(t));
    StatusRoundTrip(t.status);
  }
}
