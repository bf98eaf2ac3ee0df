/** The pagination helper: a Python slice `[(page-1)*10 : (page-1)*10+10]`
    of the ordered, formatted list. The page number is only parsed as an
    integer, so zero and negative pages reach Python's negative indexing. */
module Pagination {

  const QuestionsPerPage := 10

  function Min(a: int, b: int): int { if a <= b then a else b }
  function Max(a: int, b: int): int { if a <= b then b else a }

  /** How Python normalises one bound of `s[i:j]` against the length `n`:
      a negative bound counts from the end, and the result is clamped to [0, n]. */
  function SliceBound(i: int, n: nat): (k: nat)
    ensures k <= n
  {
    if i < 0 then (if i + n < 0 then 0 else i + n)
    else if i > n then n
    else i
  }

  /** Python's `s[i:j]` with step 1. */
  function Slice<T>(s: seq<T>, i: int, j: int): (r: seq<T>)
    ensures i <= j ==> |r| <= j - i
    ensures 0 <= i <= j ==> r == s[Min(i, |s|)..Min(j, |s|)]
  {
    var a, b := SliceBound(i, |s|), SliceBound(j, |s|);
    if a < b then s[a..b] else []
  }

  /** `paginate_questions`: the given page of an ordered list. A page of 1
      or more holds the items at indices [(page-1)*10, min(n, page*10)). */
  function Page<T>(page: int, s: seq<T>): (r: seq<T>)
    ensures |r| <= QuestionsPerPage
    ensures page >= 1 ==>
      r == s[Min((page - 1) * QuestionsPerPage, |s|)..Min(page * QuestionsPerPage, |s|)]
    ensures page >= 1 ==>
      |r| == Min(QuestionsPerPage, Max(0, |s| - (page - 1) * QuestionsPerPage))
  {
    var start := (page - 1) * QuestionsPerPage;
    Slice(s, start, start + QuestionsPerPage)
  }

  /** For page >= 1 the page is empty exactly when it starts at or past the end. */
  lemma PageEmptyIff<T>(page: int, s: seq<T>)
    requires page >= 1
    ensures Page(page, s) == [] <==> |s| <= (page - 1) * QuestionsPerPage
  {
    var r := Page(page, s);
    assert |r| == Min(QuestionsPerPage, Max(0, |s| - (page - 1) * QuestionsPerPage));
  }

  /** Page 0 is always empty; a negative page counts back from the end of
      the list, as Python's negative slice bounds do. */
  lemma PageNonPositive<T>(page: int, s: seq<T>)
    requires page <= 0
    ensures Page(page, s) ==
      if page == 0 then []
      else s[Max(0, |s| + (page - 1) * QuestionsPerPage)..Max(0, |s| + page * QuestionsPerPage)]
  {
  }

  /** Page -1 of 25 questions holds the items at indices 5 to 14. */
  lemma MinusOnePageOfTwentyFive<T>(s: seq<T>)
    requires |s| == 25
    ensures Page(-1, s) == s[5..15]
  {
    PageNonPositive(-1, s);
  }

  /** Pages 1 to k one after another. */
  function FirstPages<T>(s: seq<T>, k: nat): seq<T>
  {
    if k == 0 then [] else FirstPages(s, k - 1) + Page(k, s)
  }

  /** Pages 1, 2, ... lose nothing and repeat nothing: the first k of them
      put together are the first min(10k, n) items, in order. */
  lemma {:induction false} FirstPagesArePrefix<T>(s: seq<T>, k: nat)
    ensures FirstPages(s, k) == s[..Min(k * QuestionsPerPage, |s|)]
  {
    if k > 0 {
      FirstPagesArePrefix(s, k - 1);
      var a := Min((k - 1) * QuestionsPerPage, |s|);
      var b := Min(k * QuestionsPerPage, |s|);
      assert Page(k, s) == s[a..b];
      assert s[..a] + s[a..b] == s[..b];
    }
  }

  /** Item i of the list is item i % 10 of page i / 10 + 1. */
  lemma PageOfIndex<T>(s: seq<T>, i: int)
    requires 0 <= i < |s|
    ensures i % QuestionsPerPage < |Page(i / QuestionsPerPage + 1, s)|
    ensures Page(i / QuestionsPerPage + 1, s)[i % QuestionsPerPage] == s[i]
  {
    var p := i / QuestionsPerPage + 1;
    assert (p - 1) * QuestionsPerPage + i % QuestionsPerPage == i;
  }
}
