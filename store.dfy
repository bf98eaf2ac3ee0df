/** The question table, which `DELETE /questions/{id}` and the create
    branch of `POST /questions` change in place. The storage layer's own
    behaviour (id assignment, whether a write succeeds) comes in as
    parameters. */
module Store {
  import opened Types
  import opened Pagination
  import opened Query
  import opened Handlers

  /** The JSON body of `POST /questions`; every field may be missing. */
  datatype PostBody = PostBody(
    searchTerm: Option<string>,
    question: Option<string>,
    answer: Option<string>,
    category: Option<int>,
    difficulty: Option<int>)

  /** The two success replies of `POST /questions`. */
  datatype PostReply =
    | Found(listing: Listing)
    | Created(created: int, questions: seq<Question>, totalQuestions: nat)

  /** The search branch's response as a response of the combined route. */
  function FoundReply(res: Response<Listing>): (reply: Response<PostReply>)
    ensures reply.Failure? <==> res.Failure?
    ensures res.Failure? ==> reply.code == res.code
    ensures res.Success? ==> reply.body == Found(res.body)
  {
    match res
    case Success(listing) => Success(Found(listing))
    case Failure(code) => Failure(code)
  }

  /** The row the create branch inserts, with the id storage gave it. */
  function NewQuestion(id: int, body: PostBody): (q: Question)
    ensures q.id == id
    ensures q.question == body.question && q.answer == body.answer
    ensures q.category == body.category && q.difficulty == body.difficulty
  {
    Question(id, body.question, body.answer, body.category, body.difficulty)
  }

  /** The table after `question.delete()` on the row with this id. */
  function Without(qs: seq<Question>, id: int): (r: seq<Question>)
    ensures forall q :: q in r <==> q in qs && q.id != id
  {
    Filter(qs, (q: Question) => q.id != id)
  }

  /** Deleting a present id removes exactly that one row: the table
      shrinks by one, the id is gone, every other row stays, and ids stay
      unique. A second delete of the same id therefore finds nothing. */
  lemma DeleteRemovesExactlyOne(qs: seq<Question>, id: int)
    requires UniqueIds(qs) && id in Ids(qs)
    ensures |Without(qs, id)| == |qs| - 1
    ensures id !in Ids(Without(qs, id))
    ensures forall q :: q in qs && q.id != id ==> q in Without(qs, id)
    ensures UniqueIds(Without(qs, id))
  {
    FilterOutOneId(qs, id);
    FilterKeepsUniqueIds(qs, (q: Question) => q.id != id);
  }

  /** When storage hands out an id larger than every id in use, the new
      question comes last in id order, so it is the last item of the last
      page of the question list. */
  lemma CreatedComesLast(qs: seq<Question>, q: Question)
    requires forall x :: x in qs ==> x.id < q.id
    ensures SortById(qs + [q]) == SortById(qs) + [q]
    ensures var p := |qs| / QuestionsPerPage + 1;
      |qs| % QuestionsPerPage < |Page(p, SortById(qs + [q]))| &&
      Page(p, SortById(qs + [q]))[|qs| % QuestionsPerPage] == q
  {
    SortAppendLargest(qs, q);
    var all := SortById(qs + [q]);
    PageOfIndex(all, |qs|);
  }

  class QuestionTable {
    var rows: seq<Question>

    /** The primary key: ids are unique. */
    ghost predicate Valid()
      reads this
    {
      UniqueIds(rows)
    }

    constructor (initial: seq<Question>)
      requires UniqueIds(initial)
      ensures Valid() && rows == initial
    {
      rows := initial;
    }

    /** `DELETE /questions/{id}`. The 404 raised for a missing id is inside
        the `try`, so the bare `except` turns it, like a storage failure,
        into 422; only a present id that storage deletes succeeds. */
    method DeleteQuestion(questionId: int, deleteSucceeds: bool) returns (res: Response<int>)
      requires Valid()
      modifies this
      ensures Valid()
      ensures res.Success? <==> questionId in Ids(old(rows)) && deleteSucceeds
      ensures res.Success? ==> res.body == questionId && rows == Without(old(rows), questionId)
      ensures res.Failure? ==> res.code == Unprocessable && rows == old(rows)
    {
      var raised := false;  // an exception left the `try` block
      if questionId !in Ids(rows) {
        raised := true;     // abort(404)
      } else if !deleteSucceeds {
        raised := true;     // the storage layer's delete raised
      } else {
        DeleteRemovesExactlyOne(rows, questionId);
        rows := Without(rows, questionId);
      }
      if raised {
        res := Failure(Unprocessable);  // abort(422) in the bare `except`
      } else {
        res := Success(questionId);
      }
    }

    /** `POST /questions`. A truthy `searchTerm` takes the search branch,
        which changes nothing. Otherwise a question with the body's fields
        is inserted under the fresh id storage assigns; if the insert
        fails the reply is 422 and the table is unchanged, and if it
        succeeds the reply holds the new id, the requested page of the
        id-ordered table and the new total. */
    method AddQuestions(body: PostBody, cats: seq<Category>, r: int, newId: int, insertSucceeds: bool, page: int)
      returns (res: Response<PostReply>)
      requires Valid() && RandintChoice(cats, r)
      requires newId !in Ids(rows)
      modifies this
      ensures Valid()
      ensures Truthy(body.searchTerm) ==>
        rows == old(rows) && res == FoundReply(SearchQuestions(old(rows), cats, body.searchTerm.value, r))
      ensures !Truthy(body.searchTerm) && !insertSucceeds ==>
        rows == old(rows) && res == Failure(Unprocessable)
      ensures !Truthy(body.searchTerm) && insertSucceeds ==>
        && rows == old(rows) + [NewQuestion(newId, body)]
        && |rows| == |old(rows)| + 1
        && res == Success(Created(newId, Page(page, SortById(rows)), |rows|))
    {
      if Truthy(body.searchTerm) {
        res := FoundReply(SearchQuestions(rows, cats, body.searchTerm.value, r));
      } else if !insertSucceeds {
        res := Failure(Unprocessable);  // the insert raised: abort(422)
      } else {
        var q := NewQuestion(newId, body);
        assert UniqueIds(rows + [q]) by {
          forall i | 0 <= i < |rows| ensures rows[i].id != newId {
            assert rows[i] in rows;
          }
        }
        rows := rows + [q];
        res := Success(Created(newId, Page(page, SortById(rows)), |rows|));
      }
    }
  }

  /** Deleting the same question twice: the first delete succeeds (when
      storage does not fail), the second is answered with 422. */
  method DeleteTwice(table: QuestionTable, questionId: int) returns (first: Response<int>, second: Response<int>)
    requires table.Valid() && questionId in Ids(table.rows)
    modifies table
    ensures first == Success(questionId)
    ensures second == Failure(Unprocessable)
  {
    first := table.DeleteQuestion(questionId, true);
    DeleteRemovesExactlyOne(old(table.rows), questionId);
    second := table.DeleteQuestion(questionId, true);
  }
}
