/** The search condition `question ILIKE '%<term>%'`: an SQL LIKE pattern
    in which `%` stands for any run of characters and `_` for any single
    one, compared without regard to ASCII letter case. */
module Like {

  /** ASCII lower-casing, the case folding the model assumes. */
  function Lower(c: char): (d: char)
    ensures 'A' <= c <= 'Z' ==> 'a' <= d <= 'z' && d as int - 'a' as int == c as int - 'A' as int
    ensures !('A' <= c <= 'Z') ==> d == c
  {
    if 'A' <= c <= 'Z' then (c as int + 32) as char else c
  }

  predicate SameIgnoringCase(a: char, b: char)
  {
    Lower(a) == Lower(b)
  }

  /** Does the text `s` match the LIKE pattern `p`, ignoring case? A
      pattern of n `_` matches exactly the texts of length n. */
  predicate Matches(p: string, s: string)
    ensures (forall i :: 0 <= i < |p| ==> p[i] == '_') ==> (Matches(p, s) <==> |s| == |p|)
    decreases |p| + |s|
  {
    if p == [] then s == []
    else if p[0] == '%' then Matches(p[1..], s) || (s != [] && Matches(p, s[1..]))
    else s != [] && (p[0] == '_' || SameIgnoringCase(p[0], s[0])) && Matches(p[1..], s[1..])
  }

  /** A term holding neither wildcard character. */
  predicate Literal(t: string)
  {
    forall i :: 0 <= i < |t| ==> t[i] != '%' && t[i] != '_'
  }

  /** The reference meaning of a search: `t` starts `s`, ignoring case ... */
  predicate PrefixIgnoringCase(t: string, s: string)
  {
    |t| <= |s| && forall i :: 0 <= i < |t| ==> SameIgnoringCase(t[i], s[i])
  }

  /** ... and `t` occurs somewhere in `s`, ignoring case. */
  predicate ContainsIgnoringCase(s: string, t: string)
  {
    exists k :: 0 <= k <= |s| && PrefixIgnoringCase(t, s[k..])
  }

  /** A lone `%` matches every text. */
  lemma {:induction false} PercentMatchesAll(s: string)
    ensures Matches("%", s)
  {
    assert "%"[1..] == [];
    if s != [] {
      PercentMatchesAll(s[1..]);
    }
  }

  /** A pattern `t%` with literal `t` matches exactly the texts that start with `t`. */
  lemma {:induction false} LiteralPrefixPattern(t: string, s: string)
    requires Literal(t)
    ensures Matches(t + "%", s) <==> PrefixIgnoringCase(t, s)
  {
    if t == [] {
      assert t + "%" == "%";
      PercentMatchesAll(s);
    } else {
      assert (t + "%")[1..] == t[1..] + "%";
      assert Literal(t[1..]) by {
        forall i | 0 <= i < |t[1..]| ensures t[1..][i] != '%' && t[1..][i] != '_' {
          assert t[1..][i] == t[i + 1];
        }
      }
      if s == [] {
      } else {
        LiteralPrefixPattern(t[1..], s[1..]);
        if PrefixIgnoringCase(t, s) {
          forall i | 0 <= i < |t[1..]| ensures SameIgnoringCase(t[1..][i], s[1..][i]) {
            assert t[1..][i] == t[i + 1] && s[1..][i] == s[i + 1];
          }
        }
        if SameIgnoringCase(t[0], s[0]) && PrefixIgnoringCase(t[1..], s[1..]) {
          forall i | 0 <= i < |t| ensures SameIgnoringCase(t[i], s[i]) {
            if i > 0 {
              assert t[1..][i - 1] == t[i] && s[1..][i - 1] == s[i];
            }
          }
        }
      }
    }
  }

  /** A leading `%` lets the rest of the pattern match any suffix of the text. */
  lemma {:induction false} LeadingPercent(q: string, s: string)
    ensures Matches("%" + q, s) <==> exists k :: 0 <= k <= |s| && Matches(q, s[k..])
  {
    var p := "%" + q;
    assert p[0] == '%' && p[1..] == q;
    if s == [] {
      assert s[0..] == s;
    } else {
      LeadingPercent(q, s[1..]);
      if Matches(p, s) {
        if Matches(q, s) {
          assert s[0..] == s;
        } else {
          var k :| 0 <= k <= |s[1..]| && Matches(q, s[1..][k..]);
          assert s[1..][k..] == s[k + 1..];
        }
      }
      if exists k :: 0 <= k <= |s| && Matches(q, s[k..]) {
        var k :| 0 <= k <= |s| && Matches(q, s[k..]);
        if k == 0 {
          assert s[0..] == s;
        } else {
          assert s[1..][k - 1..] == s[k..];
        }
      }
    }
  }

  /** For a term free of wildcards, the search pattern `%term%` matches
      exactly the texts containing the term, ignoring case. */
  lemma SearchIsSubstring(t: string, s: string)
    requires Literal(t)
    ensures Matches("%" + t + "%", s) <==> ContainsIgnoringCase(s, t)
  {
    assert "%" + t + "%" == "%" + (t + "%");
    LeadingPercent(t + "%", s);
    forall k | 0 <= k <= |s|
      ensures Matches(t + "%", s[k..]) <==> PrefixIgnoringCase(t, s[k..])
    {
      LiteralPrefixPattern(t, s[k..]);
    }
  }

  /** A term that is a single `_` is a wildcard, not a substring: it
      matches every non-empty text. */
  lemma UnderscoreMatchesAnyText(s: string)
    ensures Matches("%_%", s) <==> s != []
  {
    assert "%_%" == "%" + "_%";
    LeadingPercent("_%", s);
    var p := "_%";
    assert p[0] == '_' && p[1..] == "%";
    if s != [] {
      PercentMatchesAll(s[1..]);
      assert s[0..] == s;
    }
  }

  /** The seeded question "What boxer's original name is Cassius Clay?"
      contains the term "cassius", ignoring case, so a search for it finds
      that question. */
  lemma SeededCassiusSearch(s: string, t: string)
    requires s == "What boxer's original name is Cassius Clay?" && t == "cassius"
    ensures Matches("%" + t + "%", s)
  {
    assert Literal(t);
    assert PrefixIgnoringCase(t, s[30..]);
    SearchIsSubstring(t, s);
  }
}
