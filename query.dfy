/** The two pieces of the ORM the handlers use: `filter(...)`, which keeps
    the rows satisfying a condition, and `order_by(Question.id)`. */
module Query {
  import opened Types

  /** `filter`: the rows for which `keep` holds, each as often as in `s`,
      and no others. */
  function Filter<T(!new)>(s: seq<T>, keep: T -> bool): (r: seq<T>)
    ensures forall x :: multiset(r)[x] == if keep(x) then multiset(s)[x] else 0
    ensures forall x :: x in r <==> x in s && keep(x)
    ensures |r| <= |s|
  {
    if s == [] then []
    else
      assert s == [s[0]] + s[1..];
      (if keep(s[0]) then [s[0]] else []) + Filter(s[1..], keep)
  }

  /** When every row satisfies the condition, the filter keeps the table as it is. */
  lemma {:induction false} FilterKeepsAll<T(!new)>(s: seq<T>, keep: T -> bool)
    requires forall i :: 0 <= i < |s| ==> keep(s[i])
    ensures Filter(s, keep) == s
  {
    if s != [] {
      FilterKeepsAll(s[1..], keep);
      assert s == [s[0]] + s[1..];
    }
  }

  /** Row i of the table satisfies the condition and no row before it does. */
  predicate FirstKept<T>(s: seq<T>, keep: T -> bool, i: int)
    requires 0 <= i < |s|
  {
    keep(s[i]) && forall j :: 0 <= j < i ==> !keep(s[j])
  }

  /** The first row a filter keeps is the first row of the table that
      satisfies the condition. */
  lemma {:induction false} FilterHeadIsFirst<T(!new)>(s: seq<T>, keep: T -> bool)
    requires Filter(s, keep) != []
    ensures exists i :: 0 <= i < |s| && FirstKept(s, keep, i) && s[i] == Filter(s, keep)[0]
  {
    if keep(s[0]) {
      assert FirstKept(s, keep, 0);
    } else {
      var tail := s[1..];
      assert Filter(s, keep) == Filter(tail, keep);
      FilterHeadIsFirst(tail, keep);
      var i :| 0 <= i < |tail| && FirstKept(tail, keep, i) && tail[i] == Filter(tail, keep)[0];
      forall j | 0 <= j < i + 1 ensures !keep(s[j]) {
        if j > 0 {
          assert s[j] == tail[j - 1];
        }
      }
      assert FirstKept(s, keep, i + 1);
    }
  }

  /** Filtering drops exactly as many rows as fail the condition: with
      unique ids, removing one present id shortens the table by one. */
  lemma {:induction false} FilterOutOneId(s: seq<Question>, id: int)
    requires UniqueIds(s) && id in Ids(s)
    ensures |Filter(s, (q: Question) => q.id != id)| == |s| - 1
  {
    var keep := (q: Question) => q.id != id;
    if s[0].id == id {
      forall i | 0 <= i < |s[1..]| ensures keep(s[1..][i]) {
        assert s[1..][i] == s[i + 1];
      }
      FilterKeepsAll(s[1..], keep);
    } else {
      var q :| q in s && q.id == id;
      assert q in s[1..] by { assert s == [s[0]] + s[1..]; }
      assert id in Ids(s[1..]);
      assert UniqueIds(s[1..]) by {
        forall i, j | 0 <= i < j < |s[1..]| ensures s[1..][i].id != s[1..][j].id {
          assert s[1..][i] == s[i + 1] && s[1..][j] == s[j + 1];
        }
      }
      FilterOutOneId(s[1..], id);
    }
  }

  /** Ids stay unique when a row with an unused id goes in front. */
  lemma ConsUniqueIds(x: Question, s: seq<Question>)
    requires UniqueIds(s) && x.id !in Ids(s)
    ensures UniqueIds([x] + s)
  {
    var r := [x] + s;
    forall i, j | 0 <= i < j < |r| ensures r[i].id != r[j].id {
      assert r[j] == s[j - 1] && r[j] in s;
      if i > 0 {
        assert r[i] == s[i - 1];
      }
    }
  }

  /** The tail of a table with unique ids has unique ids and lacks the head's id. */
  lemma TailUniqueIds(s: seq<Question>)
    requires UniqueIds(s) && s != []
    ensures UniqueIds(s[1..]) && s[0].id !in Ids(s[1..])
  {
    var tail := s[1..];
    forall i, j | 0 <= i < j < |tail| ensures tail[i].id != tail[j].id {
      assert tail[i] == s[i + 1] && tail[j] == s[j + 1];
    }
    forall k | 0 <= k < |tail| ensures tail[k].id != s[0].id {
      assert tail[k] == s[k + 1];
    }
  }

  /** Filtering keeps the rows it keeps distinct by id. */
  lemma {:induction false} FilterKeepsUniqueIds(s: seq<Question>, keep: Question -> bool)
    requires UniqueIds(s)
    ensures UniqueIds(Filter(s, keep))
  {
    if s != [] {
      TailUniqueIds(s);
      FilterKeepsUniqueIds(s[1..], keep);
      var rest := Filter(s[1..], keep);
      assert Ids(rest) <= Ids(s[1..]);
      if keep(s[0]) {
        ConsUniqueIds(s[0], rest);
      }
    }
  }

  /** The result of `order_by(Question.id)`: ids never decrease. */
  predicate SortedById(s: seq<Question>)
  {
    forall i, j :: 0 <= i < j < |s| ==> s[i].id <= s[j].id
  }

  /** A row no larger than every row of an id-ordered list can go in front. */
  lemma ConsSorted(x: Question, s: seq<Question>)
    requires SortedById(s) && forall j :: 0 <= j < |s| ==> x.id <= s[j].id
    ensures SortedById([x] + s)
  {
    var r := [x] + s;
    forall i, j | 0 <= i < j < |r| ensures r[i].id <= r[j].id {
      assert r[j] == s[j - 1];
      if i > 0 {
        assert r[i] == s[i - 1];
      }
    }
  }

  /** Puts q into an id-ordered list, after every row whose id is not larger. */
  function InsertById(q: Question, s: seq<Question>): (r: seq<Question>)
    requires SortedById(s)
    ensures SortedById(r)
    ensures multiset(r) == multiset(s) + multiset{q}
  {
    if s == [] || q.id < s[0].id then
      ConsSorted(q, s);
      [q] + s
    else
      var tail := s[1..];
      assert s == [s[0]] + tail;
      var rest := InsertById(q, tail);
      assert forall j :: 0 <= j < |rest| ==> s[0].id <= rest[j].id by {
        forall j | 0 <= j < |rest| ensures s[0].id <= rest[j].id {
          assert rest[j] in multiset(rest);
          if rest[j] != q {
            assert rest[j] in tail;
            var k :| 0 <= k < |tail| && tail[k] == rest[j];
            assert tail[k] == s[k + 1];
          }
        }
      }
      ConsSorted(s[0], rest);
      [s[0]] + rest
  }

  /** `order_by(Question.id)`: the same rows, ordered by id. */
  function SortById(s: seq<Question>): (r: seq<Question>)
    ensures SortedById(r)
    ensures multiset(r) == multiset(s)
    ensures |r| == |s|
  {
    if s == [] then []
    else
      assert s == s[..|s| - 1] + [s[|s| - 1]];
      assert |multiset(s)| == |s|;
      InsertById(s[|s| - 1], SortById(s[..|s| - 1]))
  }

  /** A row whose id is larger than every id in the list goes at its end. */
  lemma {:induction false} InsertLargest(q: Question, s: seq<Question>)
    requires SortedById(s)
    requires forall i :: 0 <= i < |s| ==> s[i].id < q.id
    ensures InsertById(q, s) == s + [q]
  {
    if s != [] {
      InsertLargest(q, s[1..]);
      assert s == [s[0]] + s[1..];
    }
  }

  /** Appending a row whose id is larger than every other id and then
      ordering by id gives the old order with the new row last. */
  lemma SortAppendLargest(s: seq<Question>, q: Question)
    requires forall x :: x in s ==> x.id < q.id
    ensures SortById(s + [q]) == SortById(s) + [q]
  {
    var t := s + [q];
    assert t[..|t| - 1] == s;
    var sorted := SortById(s);
    forall i | 0 <= i < |sorted| ensures sorted[i].id < q.id {
      assert sorted[i] in multiset(s);
    }
    InsertLargest(q, sorted);
  }
}
