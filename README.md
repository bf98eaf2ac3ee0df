# Trivia API: a Dafny model of the request handlers

The trivia application is a small Flask service over two tables: questions
(id, question text, answer, category, difficulty) and categories (id,
type). This project models the decision logic of its request handlers,
with the database replaced by sequences of records:

- `types.dfy` (module `Types`): the records, the error codes 404, 422, 405
  and 500, the response of a handler (a payload or an error code), and the
  fixed JSON body of each error handler.
- `pagination.dfy` (module `Pagination`): `paginate_questions`, a Python
  slice `[(page-1)*10 : (page-1)*10+10]` written out with Python's
  negative-index and clamping rules, since the page number is only parsed
  as an integer.
- `query.dfy` (module `Query`): the ORM's `filter` and `order_by(Question.id)`.
- `like.dfy` (module `Like`): the search condition `ILIKE '%term%'`, with
  `%` and `_` as wildcards and ASCII case folding, and its meaning as a
  substring test for terms without wildcards.
- `handlers.dfy` (module `Handlers`): the read-only handlers, each a
  function: list categories, list questions, search, questions by
  category, next quiz question, and the random "current category".
- `store.dfy` (module `Store`): class `QuestionTable`, holding the question
  table as a sequence that `DeleteQuestion` and `AddQuestions` (the
  combined create/search route) reassign.

Random choices are parameters constrained as the code constrains them:
`random.randint(1, len(categories))` is a value `r` with
`1 <= r <= |categories|` (any value when there are no categories, where
randint raises), and `random.choice` is an index into the non-empty
candidate list. The storage layer's id assignment and the success of an
insert or a delete are parameters too: the new id is only assumed unused.

Behaviour of the code that the model keeps on purpose:

- Deleting a missing id answers 422, not 404: `abort(404)` raises inside
  the `try` and the bare `except` turns it into `abort(422)`.
- A search term is an SQL LIKE pattern, so `%` and `_` in the term are
  wildcards (a term `_` finds every question with non-empty text); only a
  term without them is a plain case-insensitive substring search.
- The "current category" is the type of the category whose id equals the
  random `r`, unrelated to the returned questions; when no category has
  that id the `[0]` lookup raises and the reply is 500.
- Page 0 is always empty and a negative page counts back from the end of
  the list (page -1 of 25 questions is items 5 to 14).
- Questions by category checks for no match before paginating, so a page
  past the end of a non-empty category is a success with no questions.

## Model

| member | source | states |
|---|---|---|
| Types.Status | backend/flaskr/__init__.py:265-295 | each error code has its HTTP status number, in the 4xx/5xx range |
| Types.ErrorBody | backend/flaskr/__init__.py:265-295 | an error body has success false, error equal to the status number and a non-empty fixed message |
| Types.ErrorBodyDeterminesCode | backend/flaskr/__init__.py:265-295 | two error bodies with the same error number come from the same code |
| Pagination.Slice | backend/flaskr/__init__.py:20 | a Python slice `s[i:j]` with i <= j has at most j - i items, and for 0 <= i <= j it is `s[min(i,n)..min(j,n)]` |
| Pagination.Page | backend/flaskr/__init__.py:14-22 | at most 10 items; for page >= 1 exactly the items at indices [(page-1)*10, min(n, page*10)), so min(10, max(0, n-(page-1)*10)) of them |
| Pagination.PageEmptyIff | backend/flaskr/__init__.py:14-22 | for page >= 1 the page is empty iff n <= (page-1)*10 |
| Pagination.PageNonPositive | backend/flaskr/__init__.py:15-20 | page 0 is empty; a negative page is the slice counted back from the end, clamped at 0 |
| Pagination.MinusOnePageOfTwentyFive | backend/flaskr/__init__.py:15-20 | page -1 of 25 items is the items at indices 5 to 14 |
| Pagination.FirstPagesArePrefix | backend/flaskr/__init__.py:14-22 | pages 1..k put together are the first min(10k, n) items, so pages neither skip nor repeat items |
| Pagination.PageOfIndex | backend/flaskr/__init__.py:14-22 | item i is item i % 10 of page i / 10 + 1 |
| Query.Filter | backend/flaskr/__init__.py:140 | a filter keeps every row satisfying the condition exactly as often as in the table, and no other row |
| Query.FilterOutOneId | backend/flaskr/__init__.py:105-111 | with unique ids, removing a present id leaves one row fewer |
| Query.FilterKeepsUniqueIds | backend/flaskr/__init__.py:111 | filtering a table with unique ids gives a table with unique ids |
| Query.FilterHeadIsFirst | backend/flaskr/__init__.py:83 | the first row a filter keeps is the first row of the table that satisfies the condition |
| Query.SortById | backend/flaskr/__init__.py:76 | `order_by(Question.id)` gives the same rows (as a multiset) with non-decreasing ids |
| Query.SortAppendLargest | backend/flaskr/__init__.py:167-169 | a row whose id exceeds every other id comes last in id order, after the old rows in their order |
| Like.Lower | backend/flaskr/__init__.py:140 | an ASCII upper-case letter folds to the lower-case letter at the same alphabet position, every other character is unchanged |
| Like.Matches | backend/flaskr/__init__.py:140 | the LIKE meaning of a pattern compared ignoring case: `%` any run of characters, `_` any one character, other characters one each; a pattern of n `_` matches exactly the texts of length n |
| Like.SearchIsSubstring | backend/flaskr/__init__.py:140 | for a term without `%` or `_`, `%term%` matches a text iff the text contains the term ignoring case |
| Like.UnderscoreMatchesAnyText | backend/flaskr/__init__.py:140 | the term `_` is a wildcard: `%_%` matches exactly the non-empty texts |
| Like.SeededCassiusSearch | backend/flaskr/__init__.py:140 | the term "cassius" finds "What boxer's original name is Cassius Clay?" |
| Handlers.CategoryMap | backend/flaskr/__init__.py:48-57 | the keys are exactly the category ids, and each maps to the type of the last category with that id |
| Handlers.CategoryMapOfUniqueIds | backend/flaskr/__init__.py:55 | with unique category ids every category's id maps to its own type |
| Handlers.RandintChoice | backend/flaskr/__init__.py:82 | `randint(1, len(categories))` yields 1..n; with no categories it raises, so any value stands for that case (the same draw is made at lines 147 and 213) |
| Handlers.CurrentCategory | backend/flaskr/__init__.py:82-83 | succeeds iff some category has id r, with the type of the first category with id r (the `[0]` of the comprehension); otherwise 500 |
| Handlers.CurrentCategoryAgreesWithMap | backend/flaskr/__init__.py:82-89 | with unique category ids the current category is the category map's entry for r |
| Handlers.ListQuestions | backend/flaskr/__init__.py:72-92 | 404 iff the page is empty (for page >= 1 iff n <= (page-1)*10), then 500 iff the current-category lookup fails; on success the page (Pagination.Page, so pages 0 and below too) of the id-ordered table, total = all questions, the full category map and the current category |
| Handlers.Truthy | backend/flaskr/__init__.py:137 | Python truthiness of the search term: present and non-empty; an empty or missing term takes the create branch |
| Handlers.MatchesTerm | backend/flaskr/__init__.py:140 | `ilike(f"%{term}%")` on the question text; a null text never matches |
| Handlers.SearchQuestions | backend/flaskr/__init__.py:137-156 | 404 iff no question text matches, then 500 iff the current-category lookup fails; on success exactly the matching questions with their multiplicity, total = their number |
| Handlers.SearchFindsSubstrings | backend/flaskr/__init__.py:137-153 | for a wildcard-free term a question is returned iff it is in the table and its text contains the term ignoring case |
| Handlers.InCategory | backend/flaskr/__init__.py:207 | the selected rows are exactly those whose category equals the id, each as often as in the table |
| Handlers.CategoryPageFacts | backend/flaskr/__init__.py:207-218 | the id-ordered matches are empty iff no question has the category, and every page of them is id-ordered and holds only such questions |
| Handlers.CategoryQuestions | backend/flaskr/__init__.py:204-222 | 404 iff no question has the category, whatever the page, then 500 iff the lookup fails; on success the page (Pagination.Page) of the id-ordered matches, total = all matches |
| Handlers.CategoryPageLength | backend/flaskr/__init__.py:207-218 | with m matches and a successful lookup, page >= 1 is a success holding min(10, max(0, m-(page-1)*10)) questions |
| Handlers.CategoryPageBeyondEnd | backend/flaskr/__init__.py:207-219 | a page past the end of a non-empty category is a success with no questions |
| Handlers.UsableQuizBody | backend/flaskr/__init__.py:238-249 | the body does not raise: `quiz_category` present with a `type`, `previous_questions` present, and an `id` unless the type is "click" |
| Handlers.Eligible | backend/flaskr/__init__.py:244-249 | id not among the previous ids and, unless the type is "click", category equal to the quiz category id (a null category never matches) |
| Handlers.QuizCandidates | backend/flaskr/__init__.py:238-249 | 500 iff the body lacks the quiz category, its type, the previous list, or (outside "click") the id; otherwise exactly the table rows not previously asked and, unless "click", in the category |
| Handlers.PickInRange | backend/flaskr/__init__.py:254 | `random.choice` over a non-empty candidate list yields an index into it; any index stands for the cases where it is not reached |
| Handlers.NextQuizQuestion | backend/flaskr/__init__.py:235-258 | the question returned is in the table, not among the previous ids and, unless the type is "click", in the quiz category; 404 iff no question is eligible; 500 iff the body is unusable; no other failure, so a usable body with an eligible question always yields a question |
| Handlers.QuizCanReturnAnyEligible | backend/flaskr/__init__.py:254 | every eligible question is returned for some outcome of the random choice |
| Handlers.QuizDoesNotRepeat | backend/flaskr/__init__.py:244-249 | a question whose id is in the previous list is never returned |
| Store.NewQuestion | backend/flaskr/__init__.py:160-166 | the new row has the assigned id and the body's question, answer, category and difficulty |
| Store.Without | backend/flaskr/__init__.py:111 | the rows left after the delete are exactly the rows with a different id |
| Store.DeleteRemovesExactlyOne | backend/flaskr/__init__.py:105-111 | deleting a present id shrinks the table by one, removes the id, keeps every other row and keeps ids unique |
| Store.CreatedComesLast | backend/flaskr/__init__.py:128-130 | when the new id exceeds every id in use, the new question is last in id order and the last item of the last page |
| Store.QuestionTable.DeleteQuestion | backend/flaskr/__init__.py:101-120 | succeeds iff the id is present and storage deletes it, returning the id and removing exactly that row; otherwise 422 (a missing id too) and the table is unchanged |
| Store.QuestionTable.AddQuestions | backend/flaskr/__init__.py:133-182 | a truthy search term runs the search and changes nothing; otherwise a failed insert is 422 with no change, and a successful one appends the new row and returns its id, the requested page of the id-ordered table and the new total |
| Store.DeleteTwice | backend/flaskr/__init__.py:101-120 | deleting the same question twice succeeds once and then answers 422 |

## Left out

- Flask routing, query-string and JSON parsing, `jsonify` and the HTTP layer: the handlers take the parsed page number, path id and body fields as arguments.
- A request to `POST /questions` or `POST /quizzes` without a JSON body (where `body.get` raises) is not modelled; the body is always an object.
- JSON values of unexpected types (a non-string search term, a string category id) are not modelled; fields are either missing or of the expected type.
- CORS setup and the `after_request` header additions: they only touch response headers.
- The storage layer (`models.py`, `setup_db`, `insert`, `delete`, id assignment): the new id is a parameter assumed unused, and whether an insert or a delete succeeds is a boolean parameter. `Store.CreatedComesLast` needs the new id to exceed every id in use, which holds only if storage assigns increasing ids.
- `Question.format()`: payloads hold the question records themselves, as if `format` were the identity.
- The exact ILIKE semantics of the database: only ASCII letters are case-folded, and LIKE's escape character (backend-dependent) is not modelled.
- The search query and the quiz query have no `ORDER BY`; the model returns their rows in table order, which the database does not promise.
- The unused `Question.query.order_by(Question.id).all()` in the search branch has no effect and is not modelled.
- True randomness: randint and random.choice are parameters, as described above; no distribution is stated.
- The 405 error handler is modelled only as an error body; no route logic here produces it.
- Concurrency between requests and transactions: each handler runs alone on one table state.
