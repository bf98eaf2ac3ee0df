/** The read-only request handlers: list categories, list questions, search,
    questions by category, and the next quiz question. Each one queries the
    tables, aborts with 404 on an empty result and otherwise builds its
    payload. The random choices the handlers make are parameters. */
module Handlers {
  import opened Types
  import opened Pagination
  import opened Query
  import opened Like

  // ---------------------------------------------------------------------
  // Categories

  /** Is category i the last one in the list with its id? */
  predicate LastWithId(cats: seq<Category>, i: int)
    requires 0 <= i < |cats|
  {
    forall j :: i < j < |cats| ==> cats[j].id != cats[i].id
  }

  /** `dict((c.id, c.type) for c in categories)`, the body of
      `GET /categories` and the `categories` field of `GET /questions`:
      every category id is a key, and it maps to the type of the last
      category with that id, as a Python dict built in order does. */
  function CategoryMap(cats: seq<Category>): (m: map<int, string>)
    ensures m.Keys == set c | c in cats :: c.id
    ensures forall i :: 0 <= i < |cats| && LastWithId(cats, i) ==> m[cats[i].id] == cats[i].kind
  {
    if cats == [] then map[]
    else
      var init, last := cats[..|cats| - 1], cats[|cats| - 1];
      assert cats == init + [last];
      var m := CategoryMap(init);
      assert forall i :: 0 <= i < |init| && LastWithId(cats, i) ==> LastWithId(init, i);
      m[last.id := last.kind]
  }

  /** With unique category ids (a primary key) every category's id maps
      to its own type. */
  lemma CategoryMapOfUniqueIds(cats: seq<Category>, c: Category)
    requires UniqueCategoryIds(cats) && c in cats
    ensures c.id in CategoryMap(cats) && CategoryMap(cats)[c.id] == c.kind
  {
    var i :| 0 <= i < |cats| && cats[i] == c;
    assert LastWithId(cats, i);
  }

  /** Is category i the first one in the list with its id? */
  predicate FirstWithId(cats: seq<Category>, i: int)
    requires 0 <= i < |cats|
  {
    forall j :: 0 <= j < i ==> cats[j].id != cats[i].id
  }

  // ---------------------------------------------------------------------
  // The "current category"

  /** What `random.randint(1, len(categories))` can return. With no
      categories it raises, so any value stands for that case. */
  predicate RandintChoice(cats: seq<Category>, r: int)
  {
    |cats| == 0 || 1 <= r <= |cats|
  }

  /** `[c.type for c in categories if c.id == r][0]` after `r` was drawn
      by randint: the type of the first category whose id is r, or a
      server error when randint raises or no category has that id. */
  function CurrentCategory(cats: seq<Category>, r: int): (res: Response<string>)
    requires RandintChoice(cats, r)
    ensures res.Success? <==> exists c :: c in cats && c.id == r
    ensures res.Success? ==> exists c :: c in cats && c.id == r && c.kind == res.body
    ensures res.Success? ==>
      exists i :: 0 <= i < |cats| && cats[i].id == r && FirstWithId(cats, i) && cats[i].kind == res.body
    ensures res.Failure? ==> res.code == ServerError
  {
    if |cats| == 0 then Failure(ServerError)
    else
      var keep := (c: Category) => c.id == r;
      var withId := Filter(cats, keep);
      if withId == [] then Failure(ServerError)
      else
        assert withId[0] in withId;
        FilterHeadIsFirst(cats, keep);
        Success(withId[0].kind)
  }

  /** With unique category ids the current category is the entry for r
      in the category map. */
  lemma CurrentCategoryAgreesWithMap(cats: seq<Category>, r: int)
    requires UniqueCategoryIds(cats) && RandintChoice(cats, r)
    requires CurrentCategory(cats, r).Success?
    ensures r in CategoryMap(cats) && CategoryMap(cats)[r] == CurrentCategory(cats, r).body
  {
    var c :| c in cats && c.id == r && c.kind == CurrentCategory(cats, r).body;
    CategoryMapOfUniqueIds(cats, c);
  }

  // ---------------------------------------------------------------------
  // GET /questions

  datatype QuestionList = QuestionList(
    questions: seq<Question>,
    totalQuestions: nat,
    categories: map<int, string>,
    currentCategory: string)

  /** Whether a page is empty depends only on the length of the list. */
  lemma PageEmptyByLength<T, U>(page: int, s: seq<T>, t: seq<U>)
    requires |s| == |t|
    ensures Page(page, s) == [] <==> Page(page, t) == []
  {
  }

  /** A slice of an id-ordered list is id-ordered and holds only rows of the list. */
  lemma SliceOfSorted(s: seq<Question>, a: int, b: int)
    requires SortedById(s) && 0 <= a <= b <= |s|
    ensures SortedById(s[a..b]) && forall q :: q in s[a..b] ==> q in s
  {
    forall i, j | 0 <= i < j < b - a ensures s[a..b][i].id <= s[a..b][j].id {
      assert s[a..b][i] == s[a + i] && s[a..b][j] == s[a + j];
    }
  }

  /** Any page of an id-ordered list is id-ordered and holds only rows of the list. */
  lemma PageOfSorted(page: int, s: seq<Question>)
    requires SortedById(s)
    ensures SortedById(Page(page, s)) && forall q :: q in Page(page, s) ==> q in s
  {
    if page >= 1 {
      SliceOfSorted(s, Min((page - 1) * QuestionsPerPage, |s|), Min(page * QuestionsPerPage, |s|));
    } else {
      PageNonPositive(page, s);
      if page < 0 {
        SliceOfSorted(s, Max(0, |s| + (page - 1) * QuestionsPerPage), Max(0, |s| + page * QuestionsPerPage));
      }
    }
  }

  /** `GET /questions?page=N`: 404 exactly when the page is empty, then
      500 when the current category cannot be looked up; otherwise the
      page of the id-ordered table, the full count, the category map and
      the current category. */
  function ListQuestions(qs: seq<Question>, cats: seq<Category>, page: int, r: int): (res: Response<QuestionList>)
    requires RandintChoice(cats, r)
    ensures res == Failure(NotFound) <==> Page(page, qs) == []
    ensures page >= 1 ==> (res == Failure(NotFound) <==> |qs| <= (page - 1) * QuestionsPerPage)
    ensures res == Failure(ServerError) <==> Page(page, qs) != [] && CurrentCategory(cats, r).Failure?
    ensures res.Failure? ==> res.code == NotFound || res.code == ServerError
    ensures res.Success? ==>
      && res.body.totalQuestions == |qs|
      && SortedById(res.body.questions)
      && (forall q :: q in res.body.questions ==> q in qs)
      && res.body.questions == Page(page, SortById(qs))
      && res.body.categories == CategoryMap(cats)
      && CurrentCategory(cats, r) == Success(res.body.currentCategory)
  {
    var ordered := SortById(qs);
    var current := Page(page, ordered);
    PageEmptyByLength(page, ordered, qs);
    if current == [] then Failure(NotFound)
    else
      match CurrentCategory(cats, r)
      case Failure(code) => Failure(code)
      case Success(kind) =>
        PageOfSorted(page, ordered);
        assert forall q :: q in current ==> q in qs by {
          forall q | q in current ensures q in qs {
            assert q in multiset(ordered);
          }
        }
        Success(QuestionList(current, |qs|, CategoryMap(cats), kind))
  }

  // ---------------------------------------------------------------------
  // POST /questions, search branch

  /** The reply of the search and by-category handlers. */
  datatype Listing = Listing(questions: seq<Question>, totalQuestions: nat, currentCategory: string)

  /** Python truthiness of `body.get('searchTerm')`: present and non-empty. */
  predicate Truthy(term: Option<string>)
  {
    term.Some? && term.value != []
  }

  /** `Question.question.ilike(f"%{term}%")`: a null question text never matches. */
  predicate MatchesTerm(q: Question, term: string)
  {
    q.question.Some? && Matches("%" + term + "%", q.question.value)
  }

  /** The search branch: 404 exactly when no question matches, then 500
      when the current category cannot be looked up; otherwise every
      matching question exactly as often as in the table (in table
      order), their count, and the current category. */
  function SearchQuestions(qs: seq<Question>, cats: seq<Category>, term: string, r: int): (res: Response<Listing>)
    requires RandintChoice(cats, r)
    ensures res == Failure(NotFound) <==> forall q :: q in qs ==> !MatchesTerm(q, term)
    ensures res == Failure(ServerError) <==>
      (exists q :: q in qs && MatchesTerm(q, term)) && CurrentCategory(cats, r).Failure?
    ensures res.Failure? ==> res.code == NotFound || res.code == ServerError
    ensures res.Success? ==>
      && (forall q :: multiset(res.body.questions)[q] == if MatchesTerm(q, term) then multiset(qs)[q] else 0)
      && res.body.totalQuestions == |res.body.questions|
      && CurrentCategory(cats, r) == Success(res.body.currentCategory)
  {
    var found := Filter(qs, (q: Question) => MatchesTerm(q, term));
    if found == [] then Failure(NotFound)
    else
      assert found[0] in found;
      match CurrentCategory(cats, r)
      case Failure(code) => Failure(code)
      case Success(kind) => Success(Listing(found, |found|, kind))
  }

  /** For a term without SQL wildcards the search returns exactly the
      questions whose text contains the term, ignoring case. */
  lemma SearchFindsSubstrings(qs: seq<Question>, cats: seq<Category>, term: string, r: int, q: Question)
    requires RandintChoice(cats, r) && Literal(term)
    requires SearchQuestions(qs, cats, term, r).Success?
    ensures q in SearchQuestions(qs, cats, term, r).body.questions <==>
      q in qs && q.question.Some? && ContainsIgnoringCase(q.question.value, term)
  {
    var found := SearchQuestions(qs, cats, term, r).body.questions;
    assert q in found <==> multiset(found)[q] > 0;
    assert q in qs <==> multiset(qs)[q] > 0;
    if q.question.Some? {
      SearchIsSubstring(term, q.question.value);
    }
  }

  // ---------------------------------------------------------------------
  // GET /categories/{id}/questions

  /** The rows `filter(Question.category == id)` selects. */
  function InCategory(qs: seq<Question>, id: int): (r: seq<Question>)
    ensures forall q :: q in r <==> q in qs && q.category == Some(id)
    ensures forall q :: multiset(r)[q] == if q.category == Some(id) then multiset(qs)[q] else 0
  {
    Filter(qs, (q: Question) => q.category == Some(id))
  }

  /** The id-ordered matches of a category are empty exactly when no
      question has it, and any page of them holds only such questions, in order. */
  lemma CategoryPageFacts(qs: seq<Question>, id: int, page: int)
    ensures var matching := SortById(InCategory(qs, id));
      && (matching == [] <==> forall q :: q in qs ==> q.category != Some(id))
      && (matching != [] ==> matching[0] in qs && matching[0].category == Some(id))
      && |matching| == |InCategory(qs, id)|
      && SortedById(Page(page, matching))
      && forall q :: q in Page(page, matching) ==> q in qs && q.category == Some(id)
  {
    var matching := SortById(InCategory(qs, id));
    assert forall q :: q in InCategory(qs, id) ==> q in multiset(matching);
    if matching != [] {
      assert matching[0] in multiset(InCategory(qs, id));
    }
    PageOfSorted(page, matching);
    forall q | q in Page(page, matching) ensures q in qs && q.category == Some(id) {
      assert q in multiset(matching);
    }
  }

  /** Questions by category: 404 exactly when no question has the
      category, whatever the page; then 500 when the current category
      cannot be looked up; otherwise the page of the id-ordered matches,
      the number of all matches, and the current category. */
  function CategoryQuestions(qs: seq<Question>, cats: seq<Category>, id: int, page: int, r: int): (res: Response<Listing>)
    requires RandintChoice(cats, r)
    ensures res == Failure(NotFound) <==> forall q :: q in qs ==> q.category != Some(id)
    ensures res == Failure(ServerError) <==>
      (exists q :: q in qs && q.category == Some(id)) && CurrentCategory(cats, r).Failure?
    ensures res.Failure? ==> res.code == NotFound || res.code == ServerError
    ensures res.Success? ==>
      var matching := SortById(InCategory(qs, id));
      && res.body.totalQuestions == |InCategory(qs, id)|
      && SortedById(res.body.questions)
      && (forall q :: q in res.body.questions ==> q in qs && q.category == Some(id))
      && res.body.questions == Page(page, matching)
      && CurrentCategory(cats, r) == Success(res.body.currentCategory)
  {
    var matching := SortById(InCategory(qs, id));
    CategoryPageFacts(qs, id, page);
    if matching == [] then Failure(NotFound)
    else
      assert exists q :: q in qs && q.category == Some(id);
      match CurrentCategory(cats, r)
      case Failure(code) => Failure(code)
      case Success(kind) => Success(Listing(Page(page, matching), |matching|, kind))
  }

  /** A category with a question and a successful lookup gives a success, whatever the page. */
  lemma CategoryQuestionsSucceed(qs: seq<Question>, cats: seq<Category>, id: int, page: int, r: int, q: Question)
    requires RandintChoice(cats, r) && CurrentCategory(cats, r).Success?
    requires q in qs && q.category == Some(id)
    ensures CategoryQuestions(qs, cats, id, page, r).Success?
    ensures CategoryQuestions(qs, cats, id, page, r).body.questions == Page(page, SortById(InCategory(qs, id)))
  {
    var res := CategoryQuestions(qs, cats, id, page, r);
    assert res != Failure(NotFound);
  }

  /** Ordering does not change how many items a page holds. */
  lemma PageLengthOfSorted(page: int, s: seq<Question>)
    requires page >= 1
    ensures |Page(page, SortById(s))| == Min(QuestionsPerPage, Max(0, |s| - (page - 1) * QuestionsPerPage))
  {
    var sorted := SortById(s);
    assert |sorted| == |s|;
  }

  /** For page >= 1 the questions by category number
      min(10, max(0, m - (page-1)*10)), m being the number of matches. */
  lemma CategoryPageLength(qs: seq<Question>, cats: seq<Category>, id: int, page: int, r: int, q: Question)
    requires RandintChoice(cats, r) && CurrentCategory(cats, r).Success? && page >= 1
    requires q in qs && q.category == Some(id)
    ensures CategoryQuestions(qs, cats, id, page, r).Success?
    ensures |CategoryQuestions(qs, cats, id, page, r).body.questions| ==
      Min(QuestionsPerPage, Max(0, |InCategory(qs, id)| - (page - 1) * QuestionsPerPage))
  {
    CategoryQuestionsSucceed(qs, cats, id, page, r, q);
    var matches := InCategory(qs, id);
    PageLengthOfSorted(page, matches);
  }

  /** The emptiness check comes before pagination: a page past the last
      one, on a category that has questions, is a success with no questions. */
  lemma CategoryPageBeyondEnd(qs: seq<Question>, cats: seq<Category>, id: int, page: int, r: int, q: Question)
    requires RandintChoice(cats, r) && CurrentCategory(cats, r).Success?
    requires q in qs && q.category == Some(id)
    requires page >= 1 && |InCategory(qs, id)| <= (page - 1) * QuestionsPerPage
    ensures CategoryQuestions(qs, cats, id, page, r).Success?
    ensures CategoryQuestions(qs, cats, id, page, r).body.questions == []
  {
    CategoryPageLength(qs, cats, id, page, r, q);
  }

  // ---------------------------------------------------------------------
  // POST /quizzes

  /** `quiz_category`: the `type` and `id` keys may be missing. */
  datatype QuizCategory = QuizCategory(kind: Option<string>, id: Option<int>)

  /** The JSON body of `POST /quizzes`; either field may be missing. */
  datatype QuizBody = QuizBody(previousQuestions: Option<seq<int>>, quizCategory: Option<QuizCategory>)

  /** A body the handler can use without raising: a quiz category with a
      type, a list of previous questions, and an id unless the type is "click". */
  predicate UsableQuizBody(body: QuizBody)
  {
    && body.quizCategory.Some?
    && body.quizCategory.value.kind.Some?
    && body.previousQuestions.Some?
    && (body.quizCategory.value.kind.value != "click" ==> body.quizCategory.value.id.Some?)
  }

  /** A question the quiz may ask next: not asked before and, unless the
      type is "click" (all categories), in the quiz category. */
  predicate Eligible(q: Question, body: QuizBody)
    requires UsableQuizBody(body)
  {
    var cat := body.quizCategory.value;
    && q.id !in body.previousQuestions.value
    && (cat.kind.value != "click" ==> q.category == cat.id)
  }

  /** The candidate rows, in table order; a missing quiz category, type,
      previous-questions list or (outside "click") category id raises,
      which the framework reports as a server error. */
  function QuizCandidates(qs: seq<Question>, body: QuizBody): (res: Response<seq<Question>>)
    ensures res.Failure? <==> !UsableQuizBody(body)
    ensures res.Failure? ==> res.code == ServerError
    ensures res.Success? ==> forall q :: q in res.body <==> q in qs && Eligible(q, body)
  {
    match body.quizCategory
    case None => Failure(ServerError)
    case Some(cat) =>
      if cat.kind.None? || body.previousQuestions.None? then Failure(ServerError)
      else
        var previous := body.previousQuestions.value;
        if cat.kind.value == "click" then
          Success(Filter(qs, (q: Question) => q.id !in previous))
        else if cat.id.None? then Failure(ServerError)
        else
          Success(Filter(qs, (q: Question) => q.id !in previous && q.category == cat.id))
  }

  /** What `random.choice` over the candidates can return, as an index;
      any index stands for the cases where it is not reached. */
  predicate PickInRange(qs: seq<Question>, body: QuizBody, pick: nat)
  {
    var c := QuizCandidates(qs, body);
    c.Success? && c.body != [] ==> pick < |c.body|
  }

  /** `POST /quizzes`: a question of the table that is eligible, 404
      exactly when there is none, 500 exactly when the body cannot be used. */
  function NextQuizQuestion(qs: seq<Question>, body: QuizBody, pick: nat): (res: Response<Question>)
    requires PickInRange(qs, body, pick)
    ensures res == Failure(ServerError) <==> !UsableQuizBody(body)
    ensures res == Failure(NotFound) <==> UsableQuizBody(body) && forall q :: q in qs ==> !Eligible(q, body)
    ensures res.Failure? ==> res.code == NotFound || res.code == ServerError
    ensures res.Success? ==> UsableQuizBody(body) && res.body in qs && Eligible(res.body, body)
  {
    match QuizCandidates(qs, body)
    case Failure(code) => Failure(code)
    case Success(candidates) =>
      if candidates == [] then Failure(NotFound)
      else
        assert candidates[pick] in candidates;
        Success(candidates[pick])
  }

  /** Every eligible question is a possible answer: some outcome of the
      random choice returns it. */
  lemma QuizCanReturnAnyEligible(qs: seq<Question>, body: QuizBody, q: Question)
    requires UsableQuizBody(body) && q in qs && Eligible(q, body)
    ensures exists pick: nat :: PickInRange(qs, body, pick) && NextQuizQuestion(qs, body, pick) == Success(q)
  {
    var candidates := QuizCandidates(qs, body).body;
    var i :| 0 <= i < |candidates| && candidates[i] == q;
    assert PickInRange(qs, body, i) && NextQuizQuestion(qs, body, i) == Success(q);
  }

  /** A question that has been returned, once added to the previous
      questions, is never returned again. */
  lemma QuizDoesNotRepeat(qs: seq<Question>, body: QuizBody, first: Question, pick: nat)
    requires UsableQuizBody(body) && first.id in body.previousQuestions.value
    requires PickInRange(qs, body, pick) && NextQuizQuestion(qs, body, pick).Success?
    ensures NextQuizQuestion(qs, body, pick).body.id != first.id
  {
  }
}
