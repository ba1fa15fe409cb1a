/** SQLite's LIKE operator, which the name search compiles to: `name ILIKE
    '%query%'` becomes `lower(name) LIKE lower('%query%')`, and both `lower()` and
    LIKE fold case for ASCII letters only. No ESCAPE clause is given, so `%` and
    `_` in the query act as wildcards. */
module SqlLike {

  /** ASCII-only lower-casing; every other character is left as it is. */
  function Fold(c: char): char {
    if 'A' <= c <= 'Z' then (c as int + 32) as char else c
  }

  predicate IsWildcard(c: char) {
    c == '%' || c == '_'
  }

  predicate NoWildcards(s: string) {
    forall k :: 0 <= k < |s| ==> !IsWildcard(s[k])
  }

  /** `%` matches any run of characters, `_` any one character, and every other
      character itself up to ASCII case. */
  function Like(pattern: string, text: string): bool
    decreases |pattern| + |text|
  {
    if pattern == [] then text == []
    else if pattern[0] == '%' then Like(pattern[1..], text) || (text != [] && Like(pattern, text[1..]))
    else text != [] && (pattern[0] == '_' || Fold(pattern[0]) == Fold(text[0])) && Like(pattern[1..], text[1..])
  }

  /** `a` and `b` are equal up to ASCII case. */
  ghost predicate EqualFolded(a: string, b: string) {
    |a| == |b| && forall k :: 0 <= k < |a| ==> Fold(a[k]) == Fold(b[k])
  }

  /** `query` occurs in `text` at position `i` up to ASCII case. */
  ghost predicate OccursAt(text: string, query: string, i: int) {
    0 <= i && i + |query| <= |text| && EqualFolded(text[i..i + |query|], query)
  }

  /** `query` occurs in `text` up to ASCII case. */
  ghost predicate ContainsFolded(text: string, query: string) {
    exists i :: OccursAt(text, query, i)
  }

  /** A lone `%` matches every text. */
  lemma {:induction false} PercentMatchesAll(text: string)
    ensures Like("%", text)
    decreases |text|
  {
    if text != [] {
      PercentMatchesAll(text[1..]);
    }
  }

  /** A leading `%` lets the rest of the pattern match any suffix. */
  lemma {:induction false} LeadingPercent(rest: string, text: string)
    ensures Like("%" + rest, text) <==> exists i :: 0 <= i <= |text| && Like(rest, text[i..])
    decreases |text|
  {
    var p := "%" + rest;
    assert p[0] == '%' && p[1..] == rest;
    assert text[0..] == text;
    if text != [] {
      LeadingPercent(rest, text[1..]);
      forall i | 0 <= i <= |text| - 1 ensures text[1..][i..] == text[i + 1..] { }
      if exists i :: 0 <= i <= |text| && Like(rest, text[i..]) {
        var i :| 0 <= i <= |text| && Like(rest, text[i..]);
        if i > 0 {
          assert Like(rest, text[1..][i - 1..]);
        }
      }
    }
  }

  /** A wildcard-free pattern followed by `%` matches exactly the texts that start
      with it up to ASCII case. */
  lemma {:induction false} LiteralThenPercent(q: string, u: string)
    requires NoWildcards(q)
    ensures Like(q + "%", u) <==> |q| <= |u| && EqualFolded(u[..|q|], q)
    decreases |q|
  {
    if q == [] {
      assert q + "%" == "%";
      PercentMatchesAll(u);
    } else {
      var p := q + "%";
      assert p[0] == q[0] && p[1..] == q[1..] + "%";
      assert !IsWildcard(q[0]);
      LiteralThenPercent(q[1..], if u == [] then u else u[1..]);
      if u != [] && |q| <= |u| {
        assert EqualFolded(u[..|q|], q) <==>
          Fold(u[0]) == Fold(q[0]) && EqualFolded(u[1..][..|q| - 1], q[1..])
        by {
          forall k | 0 <= k < |q| - 1 ensures u[1..][..|q| - 1][k] == u[..|q|][k + 1] && q[1..][k] == q[k + 1] { }
        }
      }
    }
  }

  /** The search pattern `%query%` with a wildcard-free query matches exactly the
      texts that contain the query up to ASCII case. */
  lemma SurroundedQuery(query: string, text: string)
    requires NoWildcards(query)
    ensures Like("%" + query + "%", text) <==> ContainsFolded(text, query)
  {
    assert "%" + query + "%" == "%" + (query + "%");
    LeadingPercent(query + "%", text);
    forall i | 0 <= i <= |text|
      ensures Like(query + "%", text[i..]) <==> OccursAt(text, query, i)
    {
      LiteralThenPercent(query, text[i..]);
      if i + |query| <= |text| {
        assert text[i..][..|query|] == text[i..i + |query|];
      }
    }
    if ContainsFolded(text, query) {
      var i :| OccursAt(text, query, i);
      assert Like(query + "%", text[i..]);
    }
  }
}
