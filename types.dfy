/** Records of the trivia API and the outcome of a request handler. */
module Types {

  datatype Option<+T> = None | Some(value: T)

  /** A row of the question table. The create handler does not validate its
      input, so any of the four fields it copies from the request may be null. */
  datatype Question = Question(
    id: int,
    question: Option<string>,
    answer: Option<string>,
    category: Option<int>,
    difficulty: Option<int>)

  /** A row of the category table; `kind` is the `type` column. */
  datatype Category = Category(id: int, kind: string)

  /** The four error codes the application has handlers for. */
  datatype Code = NotFound | Unprocessable | MethodNotAllowed | ServerError

  /** A handler either returns its payload or aborts with an error code. */
  datatype Response<+T> = Success(body: T) | Failure(code: Code)

  /** The HTTP status number of an error code. */
  function Status(c: Code): (n: int)
    ensures 400 <= n < 600
  {
    match c
    case NotFound => 404
    case Unprocessable => 422
    case MethodNotAllowed => 405
    case ServerError => 500
  }

  /** The JSON body `{success, error, message}` an error handler sends. */
  datatype ErrorJson = ErrorJson(success: bool, error: int, message: string)

  /** The body each error handler sends: never a success, `error` is the
      status number, and the message is the handler's fixed text. */
  function ErrorBody(c: Code): (b: ErrorJson)
    ensures !b.success && b.error == Status(c) && b.message != []
  {
    var message :=
      match c
      case NotFound => "Resource Not Found"
      case Unprocessable => "Not Processable"
      case MethodNotAllowed => "Method not allowed"
      case ServerError => "Server error";
    ErrorJson(false, Status(c), message)
  }

  /** A client can tell the error from the status number alone: distinct
      codes never share a number, so they never share a body. */
  lemma ErrorBodyDeterminesCode(c1: Code, c2: Code)
    ensures ErrorBody(c1).error == ErrorBody(c2).error ==> c1 == c2
  {
  }

  /** The set of question ids in a table. */
  function Ids(qs: seq<Question>): set<int>
  {
    set q | q in qs :: q.id
  }

  /** The storage layer's primary key: no two rows share an id. */
  predicate UniqueIds(qs: seq<Question>)
  {
    forall i, j :: 0 <= i < j < |qs| ==> qs[i].id != qs[j].id
  }

  /** Category ids are a primary key too. */
  predicate UniqueCategoryIds(cats: seq<Category>)
  {
    forall i, j :: 0 <= i < j < |cats| ==> cats[i].id != cats[j].id
  }
}
