/**
 * Models of the Rust standard-library string operations that the subtitle
 * fixer is built from. Text is a sequence of Unicode scalar values; the UTF-8
 * byte layout of a Rust `String` plays no part in any of these operations.
 */
module Text {

  /** `char::is_whitespace`: the Unicode White_Space property. The regex
      class `\s` in Unicode mode denotes the same set. */
  predicate IsWhitespace(c: char)
  {
    ('\U{0009}' <= c <= '\U{000D}') || c == ' ' || c == '\U{0085}' || c == '\U{00A0}' ||
    c == '\U{1680}' || ('\U{2000}' <= c <= '\U{200A}') || c == '\U{2028}' || c == '\U{2029}' ||
    c == '\U{202F}' || c == '\U{205F}' || c == '\U{3000}'
  }

  /** The pattern `p` occurs somewhere in `s`. */
  predicate Contains(s: seq<char>, p: seq<char>)
    decreases |s|
  {
    p <= s || (|s| > 0 && Contains(s[1..], p))
  }

  /** `String::remove_matches`: scanning left to right, every occurrence of
      `p` that does not overlap an earlier removed one is deleted. An empty
      pattern removes nothing. */
  function RemoveMatches(s: seq<char>, p: seq<char>): (r: seq<char>)
    ensures |r| <= |s|
    decreases |s|
  {
    if |p| == 0 || |s| == 0 then s
    else if p <= s then RemoveMatches(s[|p|..], p)
    else [s[0]] + RemoveMatches(s[1..], p)
  }

  /** `str::split` with a non-empty pattern: the text between the matches
      that `RemoveMatches` deletes. There is always at least one piece, and
      the first piece is a prefix of `s`. */
  function Pieces(s: seq<char>, p: seq<char>): (r: seq<seq<char>>)
    requires |p| > 0
    ensures |r| >= 1 && r[0] <= s
    decreases |s|
  {
    if |s| == 0 then [[]]
    else if p <= s then [[]] + Pieces(s[|p|..], p)
    else
      var rest := Pieces(s[1..], p);
      [[s[0]] + rest[0]] + rest[1..]
  }

  /** The pieces laid end to end. */
  function Concat(ls: seq<seq<char>>): seq<char>
  {
    if |ls| == 0 then [] else ls[0] + Concat(ls[1..])
  }

  /** `intersperse(sep).collect::<String>()`: the pieces with `sep` between
      neighbours, so `n` pieces give `n - 1` separators. */
  function Join(ls: seq<seq<char>>, sep: seq<char>): seq<char>
  {
    if |ls| == 0 then []
    else if |ls| == 1 then ls[0]
    else ls[0] + sep + Join(ls[1..], sep)
  }

  /** `str::replace` of one character by a one-character string. */
  function ReplaceChar(s: seq<char>, target: char, replacement: char): (r: seq<char>)
    ensures |r| == |s|
    ensures forall i :: 0 <= i < |s| ==> r[i] == (if s[i] == target then replacement else s[i])
  {
    if |s| == 0 then []
    else [if s[0] == target then replacement else s[0]] + ReplaceChar(s[1..], target, replacement)
  }

  /** Replacing a character that was absent before is undone by replacing
      back, and after the replacement no target is left. */
  lemma ReplaceCharInverse(s: seq<char>, target: char, replacement: char)
    requires replacement !in s
    ensures ReplaceChar(ReplaceChar(s, target, replacement), replacement, target) == s
    ensures target != replacement ==> target !in ReplaceChar(s, target, replacement)
  {
  }

  /** Drops the `'\r'` of a `"\r\n"` line ending. */
  function StripCr(piece: seq<char>): (r: seq<char>)
    ensures r <= piece
  {
    if |piece| > 0 && piece[|piece| - 1] == '\r' then piece[..|piece| - 1] else piece
  }

  /** `str::lines`: the text is cut after every `'\n'`; a piece that ended in
      `'\n'` loses it and then one `'\r'` before it; the empty remainder after
      a final `'\n'` is no line, and the empty text has no lines at all. */
  function Lines(s: seq<char>): seq<seq<char>>
  {
    var ps := Pieces(s, "\n");
    var last := ps[|ps| - 1];
    seq(|ps| - 1, k requires 0 <= k < |ps| - 1 => StripCr(ps[k])) + (if last == [] then [] else [last])
  }

  /** `str::trim_start` with `char::is_whitespace`. */
  function TrimStart(s: seq<char>): seq<char>
  {
    if |s| > 0 && IsWhitespace(s[0]) then TrimStart(s[1..]) else s
  }

  /** `str::trim_end` with `char::is_whitespace`. */
  function TrimEnd(s: seq<char>): seq<char>
  {
    if |s| > 0 && IsWhitespace(s[|s| - 1]) then TrimEnd(s[..|s| - 1]) else s
  }

  /** `str::trim`. */
  function Trim(s: seq<char>): seq<char>
  {
    TrimEnd(TrimStart(s))
  }

  // ---------------------------------------------------------------------
  // remove_matches and split
  // ---------------------------------------------------------------------

  /** Cutting `s` at the matches and putting `p` back between the pieces
      gives `s` again. */
  lemma {:induction false} JoinPieces(s: seq<char>, p: seq<char>)
    requires |p| > 0
    ensures Join(Pieces(s, p), p) == s
    decreases |s|
  {
    if |s| == 0 {
    } else if p <= s {
      JoinPieces(s[|p|..], p);
      JoinEmptyFirst(Pieces(s[|p|..], p), p);
      assert s == p + s[|p|..];
    } else {
      JoinPieces(s[1..], p);
      JoinExtendFirst([s[0]], Pieces(s[1..], p), p);
      assert s == [s[0]] + s[1..];
    }
  }

  /** An empty first line adds just a separator in front. */
  lemma JoinEmptyFirst(ls: seq<seq<char>>, sep: seq<char>)
    requires |ls| >= 1
    ensures Join([[]] + ls, sep) == sep + Join(ls, sep)
  {
    assert ([[]] + ls)[1..] == ls;
  }

  /** Text put in front of the first line ends up in front of the join. */
  lemma JoinExtendFirst(x: seq<char>, ls: seq<seq<char>>, sep: seq<char>)
    requires |ls| >= 1
    ensures Join([x + ls[0]] + ls[1..], sep) == x + Join(ls, sep)
  {
    var r := [x + ls[0]] + ls[1..];
    assert r[1..] == ls[1..];
  }

  /** `RemoveMatches` keeps exactly the pieces between the matches. */
  lemma {:induction false} ConcatPieces(s: seq<char>, p: seq<char>)
    requires |p| > 0
    ensures Concat(Pieces(s, p)) == RemoveMatches(s, p)
    decreases |s|
  {
    if |s| == 0 {
    } else if p <= s {
      ConcatPieces(s[|p|..], p);
      assert ([[]] + Pieces(s[|p|..], p))[1..] == Pieces(s[|p|..], p);
    } else {
      ConcatPieces(s[1..], p);
      var rest := Pieces(s[1..], p);
      var r := [[s[0]] + rest[0]] + rest[1..];
      assert r[1..] == rest[1..];
    }
  }

  /** No piece contains the pattern: the scan misses no occurrence. */
  lemma {:induction false} PiecesAvoidPattern(s: seq<char>, p: seq<char>)
    requires |p| > 0
    ensures forall k :: 0 <= k < |Pieces(s, p)| ==> !Contains(Pieces(s, p)[k], p)
    decreases |s|
  {
    if |s| == 0 {
    } else if p <= s {
      PiecesAvoidPattern(s[|p|..], p);
      var rest := Pieces(s[|p|..], p);
      assert forall k :: 1 <= k < |[[]] + rest| ==> ([[]] + rest)[k] == rest[k - 1];
    } else {
      PiecesAvoidPattern(s[1..], p);
      var rest := Pieces(s[1..], p);
      var x := [s[0]] + rest[0];
      assert x[1..] == rest[0];
      assert !(p <= x);
      var r := [x] + rest[1..];
      assert forall k :: 1 <= k < |r| ==> r[k] == rest[k];
    }
  }

  /** What `remove_matches` does: `s` is its pieces separated by occurrences
      of `p`, no piece contains `p`, and the result is the pieces with the
      occurrences left out, in their original order. */
  lemma RemoveMatchesDeletesOccurrences(s: seq<char>, p: seq<char>)
    requires |p| > 0
    ensures var ps := Pieces(s, p);
      && Join(ps, p) == s
      && RemoveMatches(s, p) == Concat(ps)
      && forall k :: 0 <= k < |ps| ==> !Contains(ps[k], p)
  {
    JoinPieces(s, p);
    ConcatPieces(s, p);
    PiecesAvoidPattern(s, p);
  }

  /** Text without an occurrence of `p` is left alone, and text with one is
      changed. */
  lemma {:induction false} RemoveMatchesUnchangedIff(s: seq<char>, p: seq<char>)
    requires |p| > 0
    ensures RemoveMatches(s, p) == s <==> !Contains(s, p)
    decreases |s|
  {
    if |s| == 0 {
    } else if p <= s {
      assert |RemoveMatches(s, p)| < |s|;
    } else {
      RemoveMatchesUnchangedIff(s[1..], p);
      var r := RemoveMatches(s[1..], p);
      assert ([s[0]] + r)[1..] == r;
      assert s == [s[0]] + s[1..];
    }
  }

  /** Text that is changed by `RemoveMatches` gets shorter. */
  lemma RemoveMatchesShorter(s: seq<char>, p: seq<char>)
    requires |p| > 0 && RemoveMatches(s, p) != s
    ensures |RemoveMatches(s, p)| < |s|
  {
    RemoveMatchesUnchangedIff(s, p);
    ContainsShrinks(s, p);
  }

  /** Removing a pattern that occurs shortens the text. */
  lemma {:induction false} ContainsShrinks(s: seq<char>, p: seq<char>)
    requires |p| > 0 && Contains(s, p)
    ensures |RemoveMatches(s, p)| < |s|
    decreases |s|
  {
    if !(p <= s) {
      ContainsShrinks(s[1..], p);
    }
  }

  /** A pattern occurs only where its first character does. */
  lemma {:induction false} ContainsNeedsFirst(s: seq<char>, p: seq<char>)
    requires |p| > 0 && Contains(s, p)
    ensures p[0] in s
    decreases |s|
  {
    if !(p <= s) {
      ContainsNeedsFirst(s[1..], p);
    }
  }

  /** A prefix that does not hold the pattern's first character is passed
      over unchanged: removal starts only where the pattern can begin. */
  lemma {:induction false} RemoveMatchesSkipsPrefix(a: seq<char>, b: seq<char>, p: seq<char>)
    requires |p| > 0 && p[0] !in a
    ensures RemoveMatches(a + b, p) == a + RemoveMatches(b, p)
    decreases |a|
  {
    if |a| == 0 {
      assert a + b == b;
    } else {
      var s := a + b;
      assert s[0] == a[0] != p[0];
      assert !(p <= s);
      assert s[1..] == a[1..] + b;
      RemoveMatchesSkipsPrefix(a[1..], b, p);
      calc {
        RemoveMatches(s, p);
        [a[0]] + RemoveMatches(a[1..] + b, p);
        [a[0]] + (a[1..] + RemoveMatches(b, p));
        { assert [a[0]] + a[1..] == a; }
        a + RemoveMatches(b, p);
      }
    }
  }

  /** A text that starts with the pattern loses that occurrence. */
  lemma RemoveMatchesLeadingMatch(p: seq<char>, b: seq<char>)
    requires |p| > 0
    ensures RemoveMatches(p + b, p) == RemoveMatches(b, p)
  {
    assert p <= p + b;
    assert (p + b)[|p|..] == b;
  }

  /** `ReplaceChar` works character by character, so it can be applied to
      the parts of a text separately. */
  lemma ReplaceCharConcat(a: seq<char>, b: seq<char>, target: char, replacement: char)
    ensures ReplaceChar(a + b, target, replacement)
         == ReplaceChar(a, target, replacement) + ReplaceChar(b, target, replacement)
  {
  }

  /** Removing a one-character pattern deletes every copy of that character
      and keeps every other character as often as before. */
  lemma {:induction false} RemoveCharDeletesAll(s: seq<char>, c: char)
    ensures c !in RemoveMatches(s, [c])
    ensures forall x :: x != c ==> multiset(RemoveMatches(s, [c]))[x] == multiset(s)[x]
    decreases |s|
  {
    if |s| == 0 {
    } else {
      RemoveCharDeletesAll(s[1..], c);
      assert s == [s[0]] + s[1..];
      assert [c] <= s <==> s[0] == c;
    }
  }

  /** `RemoveMatches` only deletes: every character of the result is one of
      the text, at most as often. */
  lemma {:induction false} RemoveMatchesKeepsChars(s: seq<char>, p: seq<char>)
    ensures multiset(RemoveMatches(s, p)) <= multiset(s)
    decreases |s|
  {
    if |p| > 0 && |s| > 0 {
      if p <= s {
        RemoveMatchesKeepsChars(s[|p|..], p);
        assert s == s[..|p|] + s[|p|..];
      } else {
        RemoveMatchesKeepsChars(s[1..], p);
        assert s == [s[0]] + s[1..];
      }
    }
  }

  /** A one-character pattern occurs exactly when the character does. */
  lemma {:induction false} ContainsChar(s: seq<char>, c: char)
    ensures Contains(s, [c]) <==> c in s
    decreases |s|
  {
    if |s| > 0 {
      ContainsChar(s[1..], c);
      assert s == [s[0]] + s[1..];
    }
  }

  // ---------------------------------------------------------------------
  // join, split on one character, lines
  // ---------------------------------------------------------------------

  /** Every character of a piece appears in the joined text. */
  lemma {:induction false} JoinKeepsChars(ls: seq<seq<char>>, sep: seq<char>, k: nat, c: char)
    requires k < |ls| && c in ls[k]
    ensures c in Join(ls, sep)
    decreases |ls|
  {
    if |ls| > 1 && k > 0 {
      JoinKeepsChars(ls[1..], sep, k - 1, c);
    }
  }

  /** A character of the joined text comes from the separator or a piece. */
  lemma {:induction false} JoinChars(ls: seq<seq<char>>, sep: seq<char>, c: char)
    requires c in Join(ls, sep)
    ensures c in sep || exists k :: 0 <= k < |ls| && c in ls[k]
    decreases |ls|
  {
    if |ls| > 1 && c !in ls[0] && c !in sep {
      JoinChars(ls[1..], sep, c);
      var k :| 0 <= k < |ls[1..]| && c in ls[1..][k];
      assert c in ls[k + 1];
    }
  }

  /** Splitting `x + [c] + y` at `c`, when `x` holds no `c`, gives `x` and
      then the pieces of `y`. */
  lemma {:induction false} PiecesAfterFirst(x: seq<char>, c: char, y: seq<char>)
    requires c !in x
    ensures Pieces(x + [c] + y, [c]) == [x] + Pieces(y, [c])
    decreases |x|
  {
    var s := x + [c] + y;
    if |x| == 0 {
      assert s == [c] + y;
      assert [c] <= s;
      assert s[1..] == y;
    } else {
      assert s[0] == x[0] && s[0] != c;
      assert s[1..] == x[1..] + [c] + y;
      PiecesAfterFirst(x[1..], c, y);
      assert [x[0]] + x[1..] == x;
    }
  }

  /** Text without `c` is a single piece. */
  lemma {:induction false} PiecesOfFree(x: seq<char>, c: char)
    requires c !in x
    ensures Pieces(x, [c]) == [x]
    decreases |x|
  {
    if |x| > 0 {
      PiecesOfFree(x[1..], c);
      assert [x[0]] + x[1..] == x;
    }
  }

  /** Joining at least one `c`-free piece with `c` and splitting the result
      at `c` gives the pieces back. */
  lemma {:induction false} PiecesOfJoin(ls: seq<seq<char>>, c: char)
    requires |ls| >= 1
    requires forall k :: 0 <= k < |ls| ==> c !in ls[k]
    ensures Pieces(Join(ls, [c]), [c]) == ls
    decreases |ls|
  {
    if |ls| == 1 {
      PiecesOfFree(ls[0], c);
    } else {
      PiecesOfJoin(ls[1..], c);
      PiecesAfterFirst(ls[0], c, Join(ls[1..], [c]));
      assert [ls[0]] + ls[1..] == ls;
    }
  }

  /** Every piece of `s` holds only characters of `s`. */
  lemma PiecesChars(s: seq<char>, p: seq<char>, k: nat, c: char)
    requires |p| > 0 && k < |Pieces(s, p)| && c in Pieces(s, p)[k]
    ensures c in s
  {
    JoinPieces(s, p);
    JoinKeepsChars(Pieces(s, p), p, k, c);
  }

  /** A line never holds a `'\n'`, and every character of a line is a
      character of the text. */
  lemma LinesChars(s: seq<char>)
    ensures forall k :: 0 <= k < |Lines(s)| ==> '\n' !in Lines(s)[k]
    ensures forall k, c :: 0 <= k < |Lines(s)| && c in Lines(s)[k] ==> c in s
  {
    var ps := Pieces(s, "\n");
    var ls := Lines(s);
    PiecesAvoidPattern(s, "\n");
    forall k | 0 <= k < |ps|
      ensures '\n' !in ps[k]
    {
      ContainsChar(ps[k], '\n');
    }
    forall k, c | 0 <= k < |ls| && c in ls[k]
      ensures c in s
    {
      if k < |ps| - 1 {
        assert ls[k] == StripCr(ps[k]) && ls[k] <= ps[k];
        PiecesChars(s, "\n", k, c);
      } else {
        assert ls[k] == ps[|ps| - 1];
        PiecesChars(s, "\n", |ps| - 1, c);
      }
    }
    forall k | 0 <= k < |ls|
      ensures '\n' !in ls[k]
    {
      if k < |ps| - 1 {
        assert ls[k] <= ps[k];
      } else {
        assert ls[k] == ps[|ps| - 1];
      }
    }
  }

  /** Only the empty text has no lines. */
  lemma LinesEmptyIff(s: seq<char>)
    ensures Lines(s) == [] <==> s == []
  {
    var ps := Pieces(s, "\n");
    if s != [] {
      JoinPieces(s, "\n");
      assert |ps| >= 2 || ps[0] != [];
    }
  }

  /** Splitting into lines and joining them with `"\n"` gives the text back
      when it holds no `'\r'` and does not end in `'\n'`. */
  lemma LinesJoin(s: seq<char>)
    requires '\r' !in s
    requires s == [] || s[|s| - 1] != '\n'
    ensures Join(Lines(s), "\n") == s
  {
    if s != [] {
      var ps := Pieces(s, "\n");
      JoinPieces(s, "\n");
      LinesArePieces(s, ps);
      if ps[|ps| - 1] == [] {
        JoinEndsWithLast(ps, "\n");
        assert false;
      }
    }
  }

  /** Without `'\r'`, the lines are the pieces between the `'\n'`s, less an
      empty last one. */
  lemma LinesArePieces(s: seq<char>, ps: seq<seq<char>>)
    requires '\r' !in s && ps == Pieces(s, "\n")
    ensures Lines(s) == if ps[|ps| - 1] == [] then ps[..|ps| - 1] else ps
  {
    forall k | 0 <= k < |ps| - 1
      ensures StripCr(ps[k]) == ps[k]
    {
      if |ps[k]| > 0 {
        PiecesChars(s, "\n", k, ps[k][|ps[k]| - 1]);
      }
    }
    assert seq(|ps| - 1, k requires 0 <= k < |ps| - 1 => StripCr(ps[k])) == ps[..|ps| - 1];
  }

  /** With two or more pieces, the joined text ends in the separator
      followed by the last piece. */
  lemma {:induction false} JoinEndsWithLast(ls: seq<seq<char>>, sep: seq<char>)
    requires |ls| >= 2
    ensures Join(ls, sep) == Join(ls[..|ls| - 1], sep) + sep + ls[|ls| - 1]
    decreases |ls|
  {
    if |ls| > 2 {
      JoinEndsWithLast(ls[1..], sep);
      assert ls[1..][..|ls| - 2] == ls[..|ls| - 1][1..];
    }
  }

  // ---------------------------------------------------------------------
  // trim
  // ---------------------------------------------------------------------

  lemma {:induction false} TrimStartEmptyIff(s: seq<char>)
    ensures TrimStart(s) == [] <==> forall i :: 0 <= i < |s| ==> IsWhitespace(s[i])
    ensures TrimStart(s) != [] ==> !IsWhitespace(TrimStart(s)[0])
    decreases |s|
  {
    if |s| > 0 && IsWhitespace(s[0]) {
      TrimStartEmptyIff(s[1..]);
      assert forall i :: 1 <= i < |s| ==> s[i] == s[1..][i - 1];
    }
  }

  lemma {:induction false} TrimEndEmptyIff(s: seq<char>)
    ensures TrimEnd(s) == [] <==> forall i :: 0 <= i < |s| ==> IsWhitespace(s[i])
    decreases |s|
  {
    if |s| > 0 && IsWhitespace(s[|s| - 1]) {
      TrimEndEmptyIff(s[..|s| - 1]);
    }
  }

  /** `trim()` leaves nothing exactly when every character is whitespace. */
  lemma TrimEmptyIff(s: seq<char>)
    ensures Trim(s) == [] <==> forall i :: 0 <= i < |s| ==> IsWhitespace(s[i])
  {
    TrimStartEmptyIff(s);
    var t := TrimStart(s);
    TrimEndEmptyIff(t);
    if t != [] {
      assert !IsWhitespace(t[0]);
    }
  }
}
