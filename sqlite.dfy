/**
 * The parts of SQLite's behaviour the store's statements depend on: the BINARY collation used
 * by ORDER BY on text, the LIKE operator (ASCII case folding, `%` and `_` wildcards, no
 * escape character), and how an INTEGER PRIMARY KEY column picks the rowid of a new row.
 */
module Sqlite {

  // ----- BINARY collation -------------------------------------------------------------

  /** Text order under the BINARY collation: lexicographic by code point. */
  predicate Less(a: string, b: string) {
    if a == [] then b != []
    else if b == [] then false
    else a[0] < b[0] || (a[0] == b[0] && Less(a[1..], b[1..]))
  }

  lemma {:induction false} LessIrreflexive(a: string)
    ensures !Less(a, a)
  {
    if a != [] { LessIrreflexive(a[1..]); }
  }

  lemma {:induction false} LessTransitive(a: string, b: string, c: string)
    requires Less(a, b) && Less(b, c)
    ensures Less(a, c)
  {
    if a != [] && b != [] && c != [] && a[0] == b[0] == c[0] {
      LessTransitive(a[1..], b[1..], c[1..]);
    }
  }

  /** Two different texts are always ordered one way or the other. */
  lemma {:induction false} LessTotal(a: string, b: string)
    requires a != b
    ensures Less(a, b) || Less(b, a)
  {
    if a != [] && b != [] && a[0] == b[0] {
      assert a == [a[0]] + a[1..] && b == [b[0]] + b[1..];
      LessTotal(a[1..], b[1..]);
    }
  }

  lemma {:induction false} LessAsymmetric(a: string, b: string)
    requires Less(a, b)
    ensures !Less(b, a)
  {
    if Less(b, a) {
      LessTransitive(a, b, a);
      LessIrreflexive(a);
    }
  }

  // ----- LIKE --------------------------------------------------------------------------

  /** SQLite folds case for ASCII letters only. */
  function Lower(c: char): char {
    if 'A' <= c <= 'Z' then (c as int + 32) as char else c
  }

  predicate SameLetter(a: char, b: char) {
    Lower(a) == Lower(b)
  }

  /** `text LIKE pattern` for a non-NULL text and the default (absent) ESCAPE. */
  predicate Like(text: string, pattern: string)
    decreases |text| + |pattern|
  {
    if pattern == [] then text == []
    else if pattern[0] == '%' then Like(text, pattern[1..]) || (text != [] && Like(text[1..], pattern))
    else text != [] && (pattern[0] == '_' || SameLetter(pattern[0], text[0])) && Like(text[1..], pattern[1..])
  }

  predicate NoWildcards(term: string) {
    '%' !in term && '_' !in term
  }

  /** Equal up to ASCII case. */
  predicate SameLetters(a: string, b: string) {
    |a| == |b| && forall k :: 0 <= k < |a| ==> SameLetter(a[k], b[k])
  }

  /** `term` occurs in `text` at position `i`, up to ASCII case. */
  predicate OccursAt(text: string, term: string, i: int) {
    0 <= i <= |text| - |term| && SameLetters(text[i..i + |term|], term)
  }

  /** `term` occurs in `text` up to ASCII case. */
  predicate ContainsIgnoringCase(text: string, term: string) {
    exists i :: 0 <= i <= |text| - |term| && OccursAt(text, term, i)
  }

  /** The pattern `%term%` that the store builds from a search term. */
  function Infix(term: string): string {
    "%" + term + "%"
  }

  lemma {:induction false} LikeAnything(text: string)
    ensures Like(text, "%")
  {
    if text != [] {
      LikeAnything(text[1..]);
    }
  }

  /** A leading `%` lets the rest of the pattern match any suffix. */
  lemma {:induction false} LikeAfterPercent(text: string, p: string)
    ensures Like(text, "%" + p) <==> exists i :: 0 <= i <= |text| && Like(text[i..], p)
  {
    var pat := "%" + p;
    assert pat[1..] == p;
    if text == [] {
      assert text[0..] == text;
    } else {
      LikeAfterPercent(text[1..], p);
      if Like(text, pat) {
        if Like(text, p) {
          assert text[0..] == text;
        } else {
          var i :| 0 <= i <= |text[1..]| && Like(text[1..][i..], p);
          assert text[1..][i..] == text[i + 1..];
        }
      }
      if exists i :: 0 <= i <= |text| && Like(text[i..], p) {
        var i :| 0 <= i <= |text| && Like(text[i..], p);
        if i == 0 {
          assert text[0..] == text;
        } else {
          assert text[1..][i - 1..] == text[i..];
        }
      }
    }
  }

  /** A wildcard-free prefix followed by `%` matches exactly the texts it starts. */
  lemma {:induction false} LikePrefix(text: string, w: string)
    requires NoWildcards(w)
    ensures Like(text, w + "%") <==> |w| <= |text| && SameLetters(text[..|w|], w)
  {
    if w == [] {
      assert w + "%" == "%";
      LikeAnything(text);
    } else {
      var pat := w + "%";
      assert pat[0] == w[0] && pat[1..] == w[1..] + "%";
      assert NoWildcards(w[1..]) by {
        assert forall c :: c in w[1..] ==> c in w;
      }
      if text != [] {
        LikePrefix(text[1..], w[1..]);
        if |w| <= |text| {
          assert text[1..][..|w| - 1] == text[..|w|][1..];
        }
      }
    }
  }

  /**
   * For a search term without wildcards, `text LIKE '%term%'` is a case-insensitive substring
   * test; in particular the empty term matches every text.
   */
  lemma LikeInfix(text: string, term: string)
    requires NoWildcards(term)
    ensures Like(text, Infix(term)) <==> ContainsIgnoringCase(text, term)
  {
    assert Infix(term) == "%" + (term + "%");
    LikeAfterPercent(text, term + "%");
    if Like(text, Infix(term)) {
      var i :| 0 <= i <= |text| && Like(text[i..], term + "%");
      LikePrefix(text[i..], term);
      assert text[i..][..|term|] == text[i..i + |term|];
      assert OccursAt(text, term, i);
    }
    if ContainsIgnoringCase(text, term) {
      var i :| 0 <= i <= |text| - |term| && OccursAt(text, term, i);
      LikePrefix(text[i..], term);
      assert text[i..][..|term|] == text[i..i + |term|];
    }
  }

  lemma EmptyTermMatchesAll(text: string)
    ensures Like(text, Infix(""))
  {
    assert Infix("") == "%" + "%";
    LikeAfterPercent(text, "%");
    LikeAnything(text);
    assert text[0..] == text;
  }

  // ----- rowids -------------------------------------------------------------------------

  predicate StrictlyIncreasing(s: seq<int>) {
    forall i, j :: 0 <= i < j < |s| ==> s[i] < s[j]
  }

  /** A set is empty or has a member. */
  lemma EmptyOrInhabited(s: set<int>)
    ensures s == {} || exists y :: y in s
  {
    if forall y :: y !in s {
      assert s == {};
    }
  }

  lemma HasLeast(s: set<int>)
    requires s != {}
    ensures exists m :: m in s && forall y :: y in s ==> m <= y
  {
    EmptyOrInhabited(s);
    var x :| x in s;
    var rest := s - {x};
    if rest == {} {
      OnlyMember(s, x);
      assert x in s && forall y :: y in s ==> x <= y;
    } else {
      HasLeast(rest);
      var m :| m in rest && forall y :: y in rest ==> m <= y;
      LeastWithout(s, x, m);
      var l := if x < m then x else m;
      assert l in s && forall y :: y in s ==> l <= y;
    }
  }

  lemma OnlyMember(s: set<int>, x: int)
    requires x in s && s - {x} == {}
    ensures forall y :: y in s ==> y == x
  {
    forall y | y in s ensures y == x {
      assert y !in s - {x};
    }
  }

  /** The smaller of `x` and the least member of `s - {x}` is the least member of `s`. */
  lemma LeastWithout(s: set<int>, x: int, m: int)
    requires x in s && m in s - {x} && forall y :: y in s - {x} ==> m <= y
    ensures var l := if x < m then x else m; l in s && forall y :: y in s ==> l <= y
  {
    forall y | y in s && y != x ensures m <= y {
      assert y in s - {x};
    }
  }

  /** The smallest member of a non-empty set. */
  function Least(s: set<int>): (m: int)
    requires s != {}
    ensures m in s && forall y :: y in s ==> m <= y
  {
    HasLeast(s);
    var m :| m in s && forall y :: y in s ==> m <= y;
    m
  }

  lemma AscendingCons(s: set<int>, m: int, rest: seq<int>)
    requires m in s && forall y :: y in s ==> m <= y
    requires StrictlyIncreasing(rest) && |rest| == |s - {m}|
    requires forall x :: x in rest <==> x in s - {m}
    ensures StrictlyIncreasing([m] + rest) && |[m] + rest| == |s|
    ensures forall x :: x in [m] + rest <==> x in s
  {
    var r := [m] + rest;
    forall i, j | 0 <= i < j < |r| ensures r[i] < r[j] {
      assert r[j] == rest[j - 1] && r[j] in rest;
      if i > 0 {
        assert r[i] == rest[i - 1];
      }
    }
  }

  /** The keys of a table in rowid order: the order of a full scan of a rowid table. */
  function Ascending(s: set<int>): (r: seq<int>)
    ensures StrictlyIncreasing(r)
    ensures |r| == |s|
    ensures forall x :: x in r <==> x in s
    decreases |s|
  {
    if s == {} then []
    else
      var m := Least(s);
      var rest := Ascending(s - {m});
      AscendingCons(s, m, rest);
      [m] + rest
  }

  lemma AscendingIn(s: set<int>)
    ensures forall i :: 0 <= i < |Ascending(s)| ==> Ascending(s)[i] in s
  {
    var r := Ascending(s);
    assert forall i :: 0 <= i < |r| ==> r[i] in r;
  }

  /** A strictly increasing sequence is determined by its elements. */
  lemma {:induction false} IncreasingUnique(a: seq<int>, b: seq<int>)
    requires StrictlyIncreasing(a) && StrictlyIncreasing(b)
    requires forall x :: x in a <==> x in b
    ensures a == b
  {
    BothEmpty(a, b);
    if a != [] {
      HeadIsLeast(a);
      HeadIsLeast(b);
      var x, y := a[0], b[0];
      assert x in a && y in b;
      assert x in b && y in a;
      TailElements(a);
      TailElements(b);
      IncreasingUnique(a[1..], b[1..]);
      SplitHead(a);
      SplitHead(b);
    }
  }

  lemma BothEmpty(a: seq<int>, b: seq<int>)
    requires forall x :: x in a <==> x in b
    ensures a == [] <==> b == []
  {
    if a != [] {
      var x := a[0];
      assert x in a;
      assert x in b;
    }
    if b != [] {
      var x := b[0];
      assert x in b;
      assert x in a;
    }
  }

  lemma HeadIsLeast(a: seq<int>)
    requires StrictlyIncreasing(a) && a != []
    ensures forall x :: x in a ==> a[0] <= x
  {
    forall x | x in a ensures a[0] <= x {
      var j :| 0 <= j < |a| && a[j] == x;
    }
  }

  /** The tail of a strictly increasing sequence holds its members other than the head. */
  lemma TailElements(a: seq<int>)
    requires StrictlyIncreasing(a) && a != []
    ensures StrictlyIncreasing(a[1..])
    ensures forall x :: x in a[1..] <==> x in a && x != a[0]
  {
    forall x | x in a && x != a[0] ensures x in a[1..] {
      var j :| 0 <= j < |a| && a[j] == x;
      assert a[1..][j - 1] == x;
    }
    forall x | x in a[1..] ensures x in a && x != a[0] {
      var j :| 0 <= j < |a[1..]| && a[1..][j] == x;
      assert a[j + 1] == x;
    }
  }

  lemma SplitHead(a: seq<int>)
    requires a != []
    ensures a == [a[0]] + a[1..]
  {
  }

  /** Adding a key above all others appends it to the rowid order. */
  lemma AscendingAddLargest(s: set<int>, k: int)
    requires forall x :: x in s ==> x < k
    ensures Ascending(s + {k}) == Ascending(s) + [k]
  {
    var a := Ascending(s);
    var b := a + [k];
    assert forall i :: 0 <= i < |a| ==> b[i] == a[i] && a[i] in s;
    assert StrictlyIncreasing(b);
    assert forall x :: x in b <==> x in a || x == k;
    IncreasingUnique(Ascending(s + {k}), b);
  }

  /**
   * The rowid SQLite gives a new row of a table without AUTOINCREMENT: one more than the
   * largest rowid in use, or 1 for an empty table.
   */
  function NextRowid(keys: set<int>): (r: int)
    ensures r !in keys
    ensures forall k :: k in keys ==> k < r
    ensures keys == {} ==> r == 1
  {
    if keys == {} then 1
    else
      var s := Ascending(keys);
      assert s[|s| - 1] in keys;
      s[|s| - 1] + 1
  }
}
