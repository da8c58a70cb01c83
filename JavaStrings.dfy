/**
 * The handful of java.lang.String operations the ledger relies on, over
 * strings of Unicode scalar values (`seq<char>`; Java's strings are UTF-16
 * code units, which agree with these inside the Basic Multilingual Plane):
 * `split` on a one-character
 * delimiter, `String.join`, `compareTo`, `trim`, ASCII `toLowerCase` /
 * `toUpperCase` and `contains`.
 */
module JavaStrings {

  type String = seq<char>

  // ---------------------------------------------------------------------
  // String.join and String.split
  // ---------------------------------------------------------------------

  /** String.join(sep, fields): the fields with `sep` between neighbours. */
  function Join(sep: String, fields: seq<String>): String
  {
    if |fields| == 0 then []
    else if |fields| == 1 then fields[0]
    else fields[0] + sep + Join(sep, fields[1..])
  }

  /**
   * The maximal runs of `s` that do not contain `sep`, in order, empty runs
   * included: one more piece than there are separators in `s`.
   */
  function Pieces(sep: char, s: String): (r: seq<String>)
    ensures |r| >= 1
  {
    if s == [] then [[]]
    else
      var rest := Pieces(sep, s[1..]);
      if s[0] == sep then [[]] + rest
      else [[s[0]] + rest[0]] + rest[1..]
  }

  /** There is one more piece than there are separators, and no piece holds one. */
  lemma {:induction false} PiecesCount(sep: char, s: String)
    ensures |Pieces(sep, s)| == multiset(s)[sep] + 1
    ensures forall i :: 0 <= i < |Pieces(sep, s)| ==> sep !in Pieces(sep, s)[i]
  {
    if s != [] {
      PiecesCount(sep, s[1..]);
      assert s == [s[0]] + s[1..];
      assert multiset(s) == multiset{s[0]} + multiset(s[1..]);
    }
  }

  /** `ps` with every trailing empty string removed. */
  function DropTrailingEmpty(ps: seq<String>): (r: seq<String>)
    ensures |r| <= |ps| && r == ps[..|r|]
    ensures r == [] || r[|r| - 1] != []
    ensures forall i :: |r| <= i < |ps| ==> ps[i] == []
  {
    if ps != [] && ps[|ps| - 1] == [] then DropTrailingEmpty(ps[..|ps| - 1]) else ps
  }

  /**
   * s.split(regex) with limit 0, for a regex that matches exactly the one
   * character `sep`: when `sep` does not occur the result is `[s]`,
   * otherwise the pieces between separators without the trailing empty ones.
   */
  function Split(sep: char, s: String): seq<String>
  {
    if sep !in s then [s] else DropTrailingEmpty(Pieces(sep, s))
  }

  lemma {:induction false} PiecesOfFree(sep: char, s: String)
    requires sep !in s
    ensures Pieces(sep, s) == [s]
  {
    if s != [] {
      PiecesOfFree(sep, s[1..]);
      assert s == [s[0]] + s[1..];
    }
  }

  /** The pieces of a text with one more character in front. */
  lemma PiecesCons(sep: char, c: char, t: String)
    ensures Pieces(sep, [c] + t) == if c == sep then [[]] + Pieces(sep, t)
                                   else [[c] + Pieces(sep, t)[0]] + Pieces(sep, t)[1..]
  {
    assert ([c] + t)[0] == c && ([c] + t)[1..] == t;
  }

  lemma PiecesOfRegrouped(sep: char, c: char, a: String, b: String)
    ensures Pieces(sep, [c] + a + [sep] + b) == Pieces(sep, [c] + (a + [sep] + b))
  {
    assert [c] + a + [sep] + b == [c] + (a + [sep] + b);
  }

  lemma ExtendFirst(c: char, front: seq<String>, back: seq<String>)
    requires |front| >= 1
    ensures [[c] + (front + back)[0]] + (front + back)[1..] == [[c] + front[0]] + front[1..] + back
  {
    assert (front + back)[0] == front[0] && (front + back)[1..] == front[1..] + back;
  }

  lemma PrependEmpty(front: seq<String>, back: seq<String>)
    ensures [[]] + (front + back) == [[]] + front + back
  {
  }

  /** One more character in front of the text keeps the split at a separator. */
  lemma PiecesAtCons(sep: char, c: char, a: String, b: String)
    requires Pieces(sep, a + [sep] + b) == Pieces(sep, a) + Pieces(sep, b)
    ensures Pieces(sep, [c] + a + [sep] + b) == Pieces(sep, [c] + a) + Pieces(sep, b)
  {
    PiecesOfRegrouped(sep, c, a, b);
    PiecesCons(sep, c, a + [sep] + b);
    PiecesCons(sep, c, a);
    if c == sep {
      PrependEmpty(Pieces(sep, a), Pieces(sep, b));
    } else {
      ExtendFirst(c, Pieces(sep, a), Pieces(sep, b));
    }
  }

  /** Splitting at one separator splits the pieces there. */
  lemma {:induction false} PiecesAt(sep: char, a: String, b: String)
    ensures Pieces(sep, a + [sep] + b) == Pieces(sep, a) + Pieces(sep, b)
  {
    if a == [] {
      assert a + [sep] + b == [sep] + b;
      PiecesCons(sep, sep, b);
    } else {
      PiecesAt(sep, a[1..], b);
      PiecesAtCons(sep, a[0], a[1..], b);
      assert [a[0]] + a[1..] == a;
    }
  }

  /** Pieces inverts Join for separator-free fields. */
  lemma {:induction false} PiecesOfJoin(sep: char, fields: seq<String>)
    requires |fields| >= 1
    requires forall i :: 0 <= i < |fields| ==> sep !in fields[i]
    ensures Pieces(sep, Join([sep], fields)) == fields
  {
    if |fields| == 1 {
      PiecesOfFree(sep, fields[0]);
    } else {
      PiecesOfJoin(sep, fields[1..]);
      PiecesAt(sep, fields[0], Join([sep], fields[1..]));
      PiecesOfFree(sep, fields[0]);
      assert fields == [fields[0]] + fields[1..];
    }
  }

  /** Join inverts Pieces: no character is lost or added. */
  lemma {:induction false} JoinOfPieces(sep: char, s: String)
    ensures Join([sep], Pieces(sep, s)) == s
  {
    if s != [] {
      var tail := s[1..];
      JoinOfPieces(sep, tail);
      var rest := Pieces(sep, tail);
      assert s == [s[0]] + tail;
      var r := Pieces(sep, s);
      if s[0] == sep {
        assert r == [[]] + rest;
        assert r[1..] == rest;
        assert Join([sep], r) == [] + [sep] + Join([sep], rest);
      } else {
        assert r == [[s[0]] + rest[0]] + rest[1..];
        if |rest| == 1 {
          assert Join([sep], r) == [s[0]] + rest[0];
        } else {
          assert r[1..] == rest[1..];
          assert Join([sep], rest) == rest[0] + [sep] + Join([sep], rest[1..]);
          assert Join([sep], r) == [s[0]] + rest[0] + [sep] + Join([sep], rest[1..]);
        }
      }
    }
  }

  /**
   * The round trip behind the storage format: splitting the join of
   * separator-free fields whose last field is not empty gives the fields back.
   */
  lemma SplitOfJoin(sep: char, fields: seq<String>)
    requires |fields| >= 1 && fields[|fields| - 1] != []
    requires forall i :: 0 <= i < |fields| ==> sep !in fields[i]
    ensures Split(sep, Join([sep], fields)) == fields
  {
    PiecesOfJoin(sep, fields);
    var s := Join([sep], fields);
    if sep !in s {
      PiecesOfFree(sep, s);
    }
  }

  // ---------------------------------------------------------------------
  // String.compareTo
  // ---------------------------------------------------------------------

  /**
   * s.compareTo(t): the difference of the first differing code units, or of
   * the lengths when one string is a prefix of the other.
   */
  function CompareTo(s: String, t: String): int
  {
    if s == [] || t == [] then |s| - |t|
    else if s[0] != t[0] then s[0] as int - t[0] as int
    else CompareTo(s[1..], t[1..])
  }

  lemma {:induction false} CompareToAntisymmetric(s: String, t: String)
    ensures CompareTo(s, t) == -CompareTo(t, s)
  {
    if s != [] && t != [] && s[0] == t[0] {
      CompareToAntisymmetric(s[1..], t[1..]);
    }
  }

  lemma {:induction false} CompareToZero(s: String, t: String)
    ensures CompareTo(s, t) == 0 <==> s == t
  {
    if s != [] && t != [] && s[0] == t[0] {
      CompareToZero(s[1..], t[1..]);
      assert s == [s[0]] + s[1..] && t == [t[0]] + t[1..];
    }
  }

  lemma {:induction false} CompareToTransitive(s: String, t: String, u: String)
    requires CompareTo(s, t) <= 0 && CompareTo(t, u) <= 0
    ensures CompareTo(s, u) <= 0
  {
    if s != [] && t != [] && u != [] && s[0] == t[0] == u[0] {
      CompareToTransitive(s[1..], t[1..], u[1..]);
    }
  }

  /**
   * Comparing two strings that start with blocks of the same width: the
   * blocks decide unless they are equal, and then the rests decide.
   */
  lemma {:induction false} CompareToBlocks(a: String, r: String, b: String, q: String)
    requires |a| == |b|
    ensures CompareTo(a + r, b + q) == if a == b then CompareTo(r, q) else CompareTo(a, b)
  {
    if a != [] {
      assert (a + r)[0] == a[0] && (b + q)[0] == b[0];
      if a[0] == b[0] {
        assert (a + r)[1..] == a[1..] + r && (b + q)[1..] == b[1..] + q;
        CompareToBlocks(a[1..], r, b[1..], q);
        assert a == [a[0]] + a[1..] && b == [b[0]] + b[1..];
        assert (a == b) == (a[1..] == b[1..]);
        if a[1..] == [] {
          assert a == b;
        } else {
          assert CompareTo(a, b) == CompareTo(a[1..], b[1..]);
        }
      }
    } else {
      assert a + r == r && b + q == q;
    }
  }

  // ---------------------------------------------------------------------
  // String.trim
  // ---------------------------------------------------------------------

  /** String.trim removes every leading and trailing code unit <= U+0020. */
  predicate IsTrimmable(c: char)
  {
    c <= ' '
  }

  function TrimStart(s: String): (r: String)
    ensures |r| <= |s| && r == s[|s| - |r|..]
    ensures r == [] || !IsTrimmable(r[0])
    ensures forall i :: 0 <= i < |s| - |r| ==> IsTrimmable(s[i])
  {
    if s != [] && IsTrimmable(s[0]) then TrimStart(s[1..]) else s
  }

  function TrimEnd(s: String): (r: String)
    ensures |r| <= |s| && r == s[..|r|]
    ensures r == [] || !IsTrimmable(r[|r| - 1])
    ensures forall i :: |r| <= i < |s| ==> IsTrimmable(s[i])
  {
    if s != [] && IsTrimmable(s[|s| - 1]) then TrimEnd(s[..|s| - 1]) else s
  }

  /** `s` is `r` at position `k` with only trimmable code units around it. */
  predicate TrimmedAt(s: String, r: String, k: int)
  {
    0 <= k && k + |r| <= |s| && s[k..k + |r|] == r &&
    (forall i :: 0 <= i < k ==> IsTrimmable(s[i])) &&
    (forall i :: k + |r| <= i < |s| ==> IsTrimmable(s[i]))
  }

  /**
   * s.trim(): `s` is the result with only trimmable code units around it,
   * and the result neither starts nor ends with one.
   */
  function Trim(s: String): (r: String)
    ensures r == [] || (!IsTrimmable(r[0]) && !IsTrimmable(r[|r| - 1]))
    ensures exists k :: TrimmedAt(s, r, k)
  {
    TrimmedAtEnds(s, TrimStart(s), TrimEnd(TrimStart(s)));
    TrimEnd(TrimStart(s))
  }

  /** Trimming only cuts code units away, so it brings in none that were absent. */
  lemma TrimAddsNothing(s: String, c: char)
    requires c !in s
    ensures c !in Trim(s)
  {
    var r := Trim(s);
    var k :| TrimmedAt(s, r, k);
    forall i | 0 <= i < |r|
      ensures r[i] != c
    {
      assert r[i] == s[k + i];
    }
  }

  /** Cutting trimmable units from the front and then from the back of what is left. */
  lemma TrimmedAtEnds(s: String, front: String, r: String)
    requires |front| <= |s| && front == s[|s| - |front|..]
    requires forall i :: 0 <= i < |s| - |front| ==> IsTrimmable(s[i])
    requires |r| <= |front| && r == front[..|r|]
    requires forall i :: |r| <= i < |front| ==> IsTrimmable(front[i])
    ensures TrimmedAt(s, r, |s| - |front|)
  {
    var k := |s| - |front|;
    assert s[k..k + |r|] == r;
    forall i | k + |r| <= i < |s|
      ensures IsTrimmable(s[i])
    {
      assert s[i] == front[i - k];
    }
  }

  /** A string without trimmable ends is its own trim. */
  lemma TrimOfTrimmed(s: String)
    requires s == [] || (!IsTrimmable(s[0]) && !IsTrimmable(s[|s| - 1]))
    ensures Trim(s) == s
  {
  }

  /** Every code unit of `s` is one that trim removes. */
  predicate Blank(s: String)
  {
    forall i :: 0 <= i < |s| ==> IsTrimmable(s[i])
  }

  /** Trimming the front of a concatenation. */
  lemma {:induction false} TrimStartOfConcat(s: String, t: String)
    ensures TrimStart(s + t) == if TrimStart(s) == [] then TrimStart(t) else TrimStart(s) + t
  {
    if s == [] {
      assert s + t == t;
    } else {
      assert (s + t)[0] == s[0] && (s + t)[1..] == s[1..] + t;
      TrimStartOfConcat(s[1..], t);
    }
  }

  lemma {:induction false} TrimStartOfBlankPrefix(pre: String, s: String)
    requires Blank(pre)
    ensures TrimStart(pre + s) == TrimStart(s)
  {
    if pre == [] {
      assert pre + s == s;
    } else {
      assert (pre + s)[0] == pre[0] && (pre + s)[1..] == pre[1..] + s;
      TrimStartOfBlankPrefix(pre[1..], s);
    }
  }

  lemma {:induction false} TrimEndOfBlankSuffix(s: String, post: String)
    requires Blank(post)
    ensures TrimEnd(s + post) == TrimEnd(s)
  {
    if post == [] {
      assert s + post == s;
    } else {
      var n := |post| - 1;
      var t := s + post;
      assert t[|t| - 1] == post[n] && t[..|t| - 1] == s + post[..n];
      TrimEndOfBlankSuffix(s, post[..n]);
    }
  }

  lemma TrimStartOfBlank(s: String)
    requires Blank(s)
    ensures TrimStart(s) == []
  {
  }

  lemma TrimIsBothEnds(s: String)
    ensures Trim(s) == TrimEnd(TrimStart(s))
  {
  }

  /** Any run of trimmable code units before and after a text is trimmed away again. */
  lemma TrimOfSurrounded(pre: String, s: String, post: String)
    requires Blank(pre) && Blank(post)
    ensures Trim(pre + s + post) == Trim(s)
  {
    assert pre + s + post == pre + (s + post);
    TrimStartOfBlankPrefix(pre, s + post);
    TrimStartOfConcat(s, post);
    TrimStartOfBlank(post);
    TrimEndOfBlankSuffix(TrimStart(s), post);
    TrimIsBothEnds(pre + s + post);
    TrimIsBothEnds(s);
  }

  // ---------------------------------------------------------------------
  // Case mapping (ASCII only) and contains
  // ---------------------------------------------------------------------

  function LowerChar(c: char): char
  {
    if 'A' <= c <= 'Z' then (c as int + 32) as char else c
  }

  function UpperChar(c: char): char
  {
    if 'a' <= c <= 'z' then (c as int - 32) as char else c
  }

  function ToLower(s: String): String
  {
    seq(|s|, i requires 0 <= i < |s| => LowerChar(s[i]))
  }

  function ToUpper(s: String): String
  {
    seq(|s|, i requires 0 <= i < |s| => UpperChar(s[i]))
  }

  /** Lower-casing forgets exactly the case of ASCII letters. */
  lemma LowerIgnoresCase(s: String)
    ensures ToLower(ToUpper(s)) == ToLower(s)
    ensures ToLower(ToLower(s)) == ToLower(s)
  {
  }

  /** And so does upper-casing. */
  lemma UpperIgnoresCase(s: String)
    ensures ToUpper(ToLower(s)) == ToUpper(s)
    ensures ToUpper(ToUpper(s)) == ToUpper(s)
  {
  }

  /** Case mapping leaves the trimmable code units alone, so it commutes with trim. */
  lemma {:induction false} TrimStartOfUpper(s: String)
    ensures TrimStart(ToUpper(s)) == ToUpper(TrimStart(s))
  {
    if s != [] {
      var u := ToUpper(s);
      assert u[0] == UpperChar(s[0]);
      assert u[1..] == ToUpper(s[1..]);
      TrimStartOfUpper(s[1..]);
    }
  }

  lemma {:induction false} TrimStartOfLower(s: String)
    ensures TrimStart(ToLower(s)) == ToLower(TrimStart(s))
  {
    if s != [] {
      var u := ToLower(s);
      assert u[0] == LowerChar(s[0]);
      assert u[1..] == ToLower(s[1..]);
      TrimStartOfLower(s[1..]);
    }
  }

  lemma {:induction false} TrimEndOfUpper(s: String)
    ensures TrimEnd(ToUpper(s)) == ToUpper(TrimEnd(s))
  {
    if s != [] {
      var u := ToUpper(s);
      assert u[|s| - 1] == UpperChar(s[|s| - 1]);
      assert u[..|s| - 1] == ToUpper(s[..|s| - 1]);
      TrimEndOfUpper(s[..|s| - 1]);
    }
  }

  lemma {:induction false} TrimEndOfLower(s: String)
    ensures TrimEnd(ToLower(s)) == ToLower(TrimEnd(s))
  {
    if s != [] {
      var u := ToLower(s);
      assert u[|s| - 1] == LowerChar(s[|s| - 1]);
      assert u[..|s| - 1] == ToLower(s[..|s| - 1]);
      TrimEndOfLower(s[..|s| - 1]);
    }
  }

  lemma TrimOfCase(s: String)
    ensures Trim(ToUpper(s)) == ToUpper(Trim(s))
    ensures Trim(ToLower(s)) == ToLower(Trim(s))
  {
    TrimStartOfUpper(s);
    TrimEndOfUpper(TrimStart(s));
    TrimStartOfLower(s);
    TrimEndOfLower(TrimStart(s));
  }

  predicate StartsWith(s: String, prefix: String)
  {
    |prefix| <= |s| && s[..|prefix|] == prefix
  }

  /** s.contains(k) by scanning the start positions of `s` in turn. */
  function Contains(s: String, k: String): bool
  {
    StartsWith(s, k) || (s != [] && Contains(s[1..], k))
  }

  /** `k` occurs in `s` at position `i`. */
  predicate OccursAt(s: String, k: String, i: int)
  {
    0 <= i && i + |k| <= |s| && s[i..i + |k|] == k
  }

  /** Contains holds exactly when `k` occurs at some position of `s`. */
  lemma {:induction false} ContainsIff(s: String, k: String)
    ensures Contains(s, k) <==> exists i :: OccursAt(s, k, i)
  {
    if s != [] {
      ContainsIff(s[1..], k);
      if StartsWith(s, k) {
        assert OccursAt(s, k, 0);
      } else if Contains(s[1..], k) {
        var i :| OccursAt(s[1..], k, i);
        assert s[i + 1..i + 1 + |k|] == s[1..][i..i + |k|];
        assert OccursAt(s, k, i + 1);
      }
      if exists i :: OccursAt(s, k, i) {
        var i :| OccursAt(s, k, i);
        if i > 0 {
          assert s[1..][i - 1..i - 1 + |k|] == s[i..i + |k|];
          assert OccursAt(s[1..], k, i - 1);
        }
      }
    } else {
      if k == [] {
        assert OccursAt(s, k, 0);
      }
      if exists i :: OccursAt(s, k, i) {
        var i :| OccursAt(s, k, i);
        assert k == [];
      }
    }
  }
}
