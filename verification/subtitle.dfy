/**
 * The subtitle fixer. `Subtitle.Fix` runs five stages over the whole text of
 * an SRT file, in a fixed order:
 *   1. strip the italic tags `<i>` and `</i>`;
 *   2. turn Arabic yeh and kaf into their Persian forms;
 *   3. turn the ASCII question mark into the Arabic question mark;
 *   4. drop the right-to-left embedding control character;
 *   5. split into lines, classify each line as timestamp, blank, line number
 *      or dialogue, write Persian digits into dialogue lines only, and join
 *      the lines again with `"\n"`.
 * Each stage is specified by a function on the text; the class updates its
 * `contents` field stage by stage, as the source does through `&mut self`.
 */
module Subtitles {
  import opened Text
  import opened Patterns

  const ArabicYeh: char := '\U{064A}'
  const PersianYeh: char := '\U{06CC}'
  const ArabicKaf: char := '\U{0643}'
  const PersianKaf: char := '\U{06A9}'
  const PersianQuestionMark: char := '\U{061F}'
  const RightToLeftEmbedding: char := '\U{202B}'

  // ---------------------------------------------------------------------
  // Stages 1 to 4: document-wide removals and substitutions
  // ---------------------------------------------------------------------

  /** Stage 1: every `<i>` is removed, then every `</i>` of what is left. */
  function WithoutItalics(s: seq<char>): seq<char>
  {
    RemoveMatches(RemoveMatches(s, "<i>"), "</i>")
  }

  /** The Persian form of a character, if stage 2 changes it. */
  function PersianLetter(c: char): char
  {
    if c == ArabicYeh then PersianYeh else if c == ArabicKaf then PersianKaf else c
  }

  /** Stage 2: yeh is replaced throughout, then kaf. As no replacement is a
      letter replaced by the other pass, the two passes amount to one
      character-by-character substitution. */
  function WithPersianLetters(s: seq<char>): (r: seq<char>)
    ensures |r| == |s|
    ensures forall i :: 0 <= i < |s| ==> r[i] == PersianLetter(s[i])
  {
    ReplaceChar(ReplaceChar(s, ArabicYeh, PersianYeh), ArabicKaf, PersianKaf)
  }

  /** Stage 3: every ASCII `?` becomes the Arabic question mark. */
  function WithPersianQuestionMarks(s: seq<char>): seq<char>
  {
    ReplaceChar(s, '?', PersianQuestionMark)
  }

  /** Stage 4: every right-to-left embedding character is removed. */
  function WithoutRtlEmbedding(s: seq<char>): seq<char>
  {
    RemoveMatches(s, [RightToLeftEmbedding])
  }

  // ---------------------------------------------------------------------
  // Stage 5: line classification and digit localisation
  // ---------------------------------------------------------------------

  /** The four shapes a line can have. */
  datatype LineKind = Timestamp | Blank | LineNumber | Dialogue

  /** A line is blank when `trim()` leaves nothing of it. */
  predicate IsBlank(l: seq<char>)
  {
    Trim(l) == []
  }

  /** The guards of the `fix_line` match, tried in order; the first that
      holds decides. */
  function Classify(l: seq<char>): LineKind
  {
    if IsTimestamp(l) then Timestamp
    else if IsBlank(l) then Blank
    else if IsLineNumber(l) then LineNumber
    else Dialogue
  }

  /** The rows `0 .. n - 1` of `PersianNumbers`. */
  function RowsBelow(n: nat): (rows: set<nat>)
    ensures forall d: nat :: d in rows <==> d < n
  {
    if n == 0 then {} else RowsBelow(n - 1) + {n - 1}
  }

  /** `c` after the replacements of the rows in `done`. */
  function LocalizeChar(c: char, done: set<nat>): char
  {
    if IsAsciiDigit(c) && DigitValue(c) in done then PersianNumbers[DigitValue(c)].1 else c
  }

  /** `l` after the replacements of the rows in `done`, in any order. */
  function Localize(l: seq<char>, done: set<nat>): (r: seq<char>)
    ensures |r| == |l|
  {
    seq(|l|, i requires 0 <= i < |l| => LocalizeChar(l[i], done))
  }

  /** A dialogue line after all ten replacements: each ASCII digit becomes the
      Persian digit of its row in `PersianNumbers`, every other character
      stays where it is, and no ASCII digit is left. */
  function PersianDigits(l: seq<char>): (r: seq<char>)
    ensures |r| == |l|
    ensures forall i :: 0 <= i < |l| && IsAsciiDigit(l[i]) ==> r[i] == PersianNumbers[DigitValue(l[i])].1
    ensures forall i :: 0 <= i < |l| && !IsAsciiDigit(l[i]) ==> r[i] == l[i]
    ensures NoAsciiDigit(r)
  {
    var r := Localize(l, RowsBelow(|PersianNumbers|));
    assert forall i :: 0 <= i < |l| && IsAsciiDigit(l[i]) ==> !IsAsciiDigit(r[i]) by {
      forall i | 0 <= i < |l| && IsAsciiDigit(l[i])
        ensures !IsAsciiDigit(r[i])
      {
        PersianNumbersShape(DigitValue(l[i]));
      }
    }
    r
  }

  /** The `fix_line` closure: only a dialogue line is changed. */
  function FixedLine(l: seq<char>): seq<char>
  {
    if Classify(l) == Dialogue then PersianDigits(l) else l
  }

  /** `fix_line` mapped over the lines, in order. */
  function FixedLines(ls: seq<seq<char>>): (r: seq<seq<char>>)
    ensures |r| == |ls|
  {
    seq(|ls|, k requires 0 <= k < |ls| => FixedLine(ls[k]))
  }

  /** Fixing one more line appends its fixed form. */
  lemma FixedLinesSnoc(ls: seq<seq<char>>, i: nat)
    requires i < |ls|
    ensures FixedLines(ls[..i + 1]) == FixedLines(ls[..i]) + [FixedLine(ls[i])]
  {
    assert ls[..i + 1] == ls[..i] + [ls[i]];
  }

  /** Stage 5: the fixed lines joined by `"\n"`. */
  function FixedText(s: seq<char>): seq<char>
  {
    Join(FixedLines(Lines(s)), "\n")
  }

  /** Stages 1 to 4, which work on the text as a whole. */
  function Cleaned(s: seq<char>): seq<char>
  {
    WithoutRtlEmbedding(WithPersianQuestionMarks(WithPersianLetters(WithoutItalics(s))))
  }

  /** The whole pipeline of `Subtitle::fix`. */
  function Fixed(s: seq<char>): seq<char>
  {
    FixedText(Cleaned(s))
  }

  // ---------------------------------------------------------------------
  // The imperative parts of the source
  // ---------------------------------------------------------------------

  /** The dialogue branch of `fix_line`: the ten `replace` calls of the
      table, one row after the other. */
  method LocalizeDigits(line: seq<char>) returns (l: seq<char>)
    ensures l == PersianDigits(line)
  {
    l := line;
    assert Localize(line, RowsBelow(0)) == line;
    for i := 0 to |PersianNumbers|
      invariant l == Localize(line, RowsBelow(i))
    {
      var n, p := PersianNumbers[i].0, PersianNumbers[i].1;
      LocalizeRow(line, RowsBelow(i), i);
      assert RowsBelow(i) + {i} == RowsBelow(i + 1);
      l := ReplaceChar(l, n, p);
    }
  }

  /** The `fix_line` closure: timestamp, blank and line-number lines are
      returned as they are, a dialogue line gets Persian digits. */
  method FixLine(line: seq<char>) returns (r: seq<char>)
    ensures r == FixedLine(line)
  {
    match Classify(line)
    case Timestamp => r := line;
    case Blank => r := line;
    case LineNumber => r := line;
    case Dialogue => r := LocalizeDigits(line);
  }

  /** A subtitle file's text, fixed in place stage by stage. */
  class Subtitle {
    var contents: seq<char>

    /** `Subtitle::new`. */
    constructor (contents: seq<char>)
      ensures this.contents == contents
    {
      this.contents := contents;
    }

    /** `Subtitle::fix`: the five stages in order; the result is the final
        contents. */
    method Fix() returns (fixed: seq<char>)
      modifies this
      ensures contents == fixed == Fixed(old(contents))
    {
      RemoveItalics();
      ReplaceArabicChars();
      ReplaceQuestionMark();
      RemoveRtlChar();
      FixOthers();
      fixed := contents;
    }

    method RemoveItalics()
      modifies this
      ensures contents == WithoutItalics(old(contents))
    {
      contents := RemoveMatches(contents, "<i>");
      contents := RemoveMatches(contents, "</i>");
    }

    method ReplaceArabicChars()
      modifies this
      ensures contents == WithPersianLetters(old(contents))
    {
      contents := ReplaceChar(contents, ArabicYeh, PersianYeh);
      contents := ReplaceChar(contents, ArabicKaf, PersianKaf);
    }

    method ReplaceQuestionMark()
      modifies this
      ensures contents == WithPersianQuestionMarks(old(contents))
    {
      contents := ReplaceChar(contents, '?', PersianQuestionMark);
    }

    method RemoveRtlChar()
      modifies this
      ensures contents == WithoutRtlEmbedding(old(contents))
    {
      contents := RemoveMatches(contents, [RightToLeftEmbedding]);
    }

    /** `fix_others`: `fix_line` over the lines, then the lines rejoined. */
    method FixOthers()
      modifies this
      ensures contents == FixedText(old(contents))
    {
      var lines := Lines(contents);
      var fixed: seq<seq<char>> := [];
      for i := 0 to |lines|
        invariant fixed == FixedLines(lines[..i])
      {
        var line := FixLine(lines[i]);
        FixedLinesSnoc(lines, i);
        fixed := fixed + [line];
      }
      assert lines[..|lines|] == lines;
      contents := Join(fixed, "\n");
    }
  }

  // ---------------------------------------------------------------------
  // Stages 1 to 4
  // ---------------------------------------------------------------------

  /** Stage 1 deletes occurrences of the two tags and nothing else: text
      holding neither tag is left alone, text holding one is changed. */
  lemma WithoutItalicsUnchangedIff(s: seq<char>)
    ensures WithoutItalics(s) == s <==> !Contains(s, "<i>") && !Contains(s, "</i>")
  {
    var t := RemoveMatches(s, "<i>");
    RemoveMatchesUnchangedIff(s, "<i>");
    RemoveMatchesUnchangedIff(t, "</i>");
    if t != s {
      assert |t| < |s| by { RemoveMatchesShorter(s, "<i>"); }
    }
  }

  /** Stage 2 leaves no Arabic yeh or kaf, changes nothing else, keeps the
      length, and running it again changes nothing. */
  lemma PersianLettersReplaceAll(s: seq<char>)
    ensures ArabicYeh !in WithPersianLetters(s) && ArabicKaf !in WithPersianLetters(s)
    ensures forall i :: 0 <= i < |s| && s[i] != ArabicYeh && s[i] != ArabicKaf ==> WithPersianLetters(s)[i] == s[i]
    ensures WithPersianLetters(WithPersianLetters(s)) == WithPersianLetters(s)
  {
  }

  /** Stage 2 is undone by mapping the Persian letters back, provided the
      text held none of them before. */
  lemma PersianLettersRoundTrip(s: seq<char>)
    requires PersianYeh !in s && PersianKaf !in s
    ensures ReplaceChar(ReplaceChar(WithPersianLetters(s), PersianKaf, ArabicKaf), PersianYeh, ArabicYeh) == s
  {
  }

  /** Stage 3 leaves no ASCII `?`, keeps an Arabic question mark that was
      already there and every other character, keeps the length, and running
      it again changes nothing. */
  lemma QuestionMarksReplaceAll(s: seq<char>)
    ensures var r := WithPersianQuestionMarks(s);
      && |r| == |s|
      && '?' !in r
      && (forall i :: 0 <= i < |s| && s[i] != '?' ==> r[i] == s[i])
      && (forall i :: 0 <= i < |s| && s[i] == '?' ==> r[i] == PersianQuestionMark)
      && WithPersianQuestionMarks(r) == r
  {
  }

  /** Stage 4 leaves no right-to-left embedding character, keeps every other
      character as often as before and in its order (the pieces between the
      removed characters, laid end to end), and running it again changes
      nothing. */
  lemma RtlEmbeddingRemovedAll(s: seq<char>)
    ensures var r := WithoutRtlEmbedding(s);
      && RightToLeftEmbedding !in r
      && (forall c :: c != RightToLeftEmbedding ==> multiset(r)[c] == multiset(s)[c])
      && r == Concat(Pieces(s, [RightToLeftEmbedding]))
      && WithoutRtlEmbedding(r) == r
  {
    var r := WithoutRtlEmbedding(s);
    RemoveCharDeletesAll(s, RightToLeftEmbedding);
    ConcatPieces(s, [RightToLeftEmbedding]);
    RemoveMatchesUnchangedIff(r, [RightToLeftEmbedding]);
    ContainsChar(r, RightToLeftEmbedding);
  }

  // ---------------------------------------------------------------------
  // Stage 5
  // ---------------------------------------------------------------------

  /** The three shapes exclude each other, so the order of the guards does
      not matter: each kind is returned exactly when its shape holds. */
  lemma ClassifyByShape(l: seq<char>)
    ensures Classify(l) == Timestamp <==> IsTimestamp(l)
    ensures Classify(l) == Blank <==> IsBlank(l)
    ensures Classify(l) == LineNumber <==> IsLineNumber(l)
    ensures Classify(l) == Dialogue <==> !IsTimestamp(l) && !IsBlank(l) && !IsLineNumber(l)
  {
    TrimEmptyIff(l);
    if IsTimestamp(l) {
      assert l[..12][0..2][0] == l[0];
      assert !IsWhitespace(l[0]);
      assert !IsDecimalDigit(l[2]);
      assert !IsLineNumber(l);
    } else if IsLineNumber(l) {
      assert !IsWhitespace(l[0]);
    }
  }

  /** Replacing row `d` in text whose rows `done` are already replaced gives
      the text with rows `done + {d}` replaced: no replacement is an ASCII
      digit, so an earlier replacement is never touched again. */
  lemma LocalizeRow(l: seq<char>, done: set<nat>, d: nat)
    requires d < |PersianNumbers|
    ensures ReplaceChar(Localize(l, done), PersianNumbers[d].0, PersianNumbers[d].1) == Localize(l, done + {d})
  {
    PersianNumbersShape(d);
    var a := Localize(l, done);
    var b := ReplaceChar(a, PersianNumbers[d].0, PersianNumbers[d].1);
    forall i | 0 <= i < |l|
      ensures b[i] == LocalizeChar(l[i], done + {d})
    {
      if IsAsciiDigit(l[i]) {
        PersianNumbersShape(DigitValue(l[i]));
      }
    }
  }

  /** The ten `replace` calls of the table, in the order given by `order`. */
  function ApplyRows(l: seq<char>, order: seq<nat>): seq<char>
    requires forall k :: 0 <= k < |order| ==> order[k] < |PersianNumbers|
    decreases |order|
  {
    if |order| == 0 then l
    else ApplyRows(ReplaceChar(l, PersianNumbers[order[0]].0, PersianNumbers[order[0]].1), order[1..])
  }

  lemma {:induction false} ApplyRowsFrom(l: seq<char>, done: set<nat>, order: seq<nat>)
    requires forall k :: 0 <= k < |order| ==> order[k] < |PersianNumbers|
    ensures ApplyRows(Localize(l, done), order) == Localize(l, done + (set k | k in order))
    decreases |order|
  {
    if |order| == 0 {
      assert done + (set k | k in order) == done;
    } else {
      LocalizeRow(l, done, order[0]);
      ApplyRowsFrom(l, done + {order[0]}, order[1..]);
      assert done + {order[0]} + (set k | k in order[1..]) == done + (set k | k in order);
    }
  }

  /** The order of the ten `replace` calls is irrelevant: applying the rows
      in any order that uses every row gives the same dialogue line. */
  lemma ReplacementOrderIrrelevant(l: seq<char>, order: seq<nat>)
    requires forall k :: 0 <= k < |order| ==> order[k] < |PersianNumbers|
    requires forall d :: 0 <= d < |PersianNumbers| ==> d in order
    ensures ApplyRows(l, order) == PersianDigits(l)
  {
    assert Localize(l, {}) == l;
    ApplyRowsFrom(l, {}, order);
    assert {} + (set k | k in order) == RowsBelow(|PersianNumbers|);
  }

  /** A line comes out of `fix_line` unchanged exactly when it is not
      dialogue or holds no ASCII digit. */
  lemma FixedLineUnchangedIff(l: seq<char>)
    ensures FixedLine(l) == l <==> Classify(l) != Dialogue || NoAsciiDigit(l)
  {
    if Classify(l) == Dialogue {
      if NoAsciiDigit(l) {
        DigitFreeKept(l);
      } else {
        var i :| 0 <= i < |l| && IsAsciiDigit(l[i]);
        assert !IsAsciiDigit(FixedLine(l)[i]);
      }
    }
  }

  /** A line without ASCII digits is its own `PersianDigits`. */
  lemma DigitFreeKept(l: seq<char>)
    requires NoAsciiDigit(l)
    ensures PersianDigits(l) == l
  {
    assert forall i :: 0 <= i < |l| ==> PersianDigits(l)[i] == l[i];
  }

  /** `r` is `l` with some decimal digits exchanged for other decimal
      digits: what digit localisation does to a line. */
  predicate DigitsExchanged(l: seq<char>, r: seq<char>)
  {
    |r| == |l| && forall i :: 0 <= i < |l| ==> r[i] == l[i] || (IsDecimalDigit(l[i]) && IsDecimalDigit(r[i]))
  }

  lemma PersianDigitsExchanged(l: seq<char>)
    ensures DigitsExchanged(l, PersianDigits(l))
  {
    forall i | 0 <= i < |l| && IsAsciiDigit(l[i])
      ensures IsDecimalDigit(PersianDigits(l)[i])
    {
      PersianNumbersShape(DigitValue(l[i]));
    }
  }

  lemma ExchangedSlice(l: seq<char>, r: seq<char>, a: nat, b: nat)
    requires DigitsExchanged(l, r) && a <= b <= |l|
    ensures DigitsExchanged(l[a..b], r[a..b])
  {
  }

  lemma ExchangedAllDigits(l: seq<char>, r: seq<char>)
    requires DigitsExchanged(l, r)
    ensures AllDecimalDigits(l) <==> AllDecimalDigits(r)
  {
  }

  lemma ExchangedClock(l: seq<char>, r: seq<char>)
    requires DigitsExchanged(l, r)
    ensures IsClock(l) <==> IsClock(r)
  {
    if |l| == 12 {
      ExchangedSlice(l, r, 0, 2);
      ExchangedSlice(l, r, 3, 5);
      ExchangedSlice(l, r, 6, 8);
      ExchangedSlice(l, r, 9, 12);
      ExchangedAllDigits(l[0..2], r[0..2]);
      ExchangedAllDigits(l[3..5], r[3..5]);
      ExchangedAllDigits(l[6..8], r[6..8]);
      ExchangedAllDigits(l[9..12], r[9..12]);
    }
  }

  lemma ExchangedTimestamp(l: seq<char>, r: seq<char>)
    requires DigitsExchanged(l, r)
    ensures IsTimestamp(l) <==> IsTimestamp(r)
  {
    if |l| == 29 {
      ExchangedSlice(l, r, 0, 12);
      ExchangedSlice(l, r, 17, 29);
      assert l[..12] == l[0..12] && r[..12] == r[0..12];
      assert l[17..] == l[17..29] && r[17..] == r[17..29];
      ExchangedClock(l[..12], r[..12]);
      ExchangedClock(l[17..], r[17..]);
      ExchangedArrow(l, r);
      ExchangedWhitespace(l, r, 12);
      ExchangedWhitespace(l, r, 16);
    }
  }

  lemma ExchangedArrow(l: seq<char>, r: seq<char>)
    requires DigitsExchanged(l, r) && |l| >= 16
    ensures l[13..16] == "-->" <==> r[13..16] == "-->"
  {
    ArrowAt(l);
    ArrowAt(r);
    ExchangedAt(l, r, 13, '-');
    ExchangedAt(l, r, 14, '-');
    ExchangedAt(l, r, 15, '>');
  }

  lemma ArrowAt(x: seq<char>)
    requires |x| >= 16
    ensures x[13..16] == "-->" <==> x[13] == '-' && x[14] == '-' && x[15] == '>'
  {
    assert x[13..16] == [x[13], x[14], x[15]];
  }

  /** A character that is not a digit stays where it is. */
  lemma ExchangedAt(l: seq<char>, r: seq<char>, i: nat, c: char)
    requires DigitsExchanged(l, r) && i < |l| && !IsDecimalDigit(c)
    ensures l[i] == c <==> r[i] == c
  {
  }

  lemma ExchangedWhitespace(l: seq<char>, r: seq<char>, i: nat)
    requires DigitsExchanged(l, r) && i < |l|
    ensures IsWhitespace(l[i]) <==> IsWhitespace(r[i])
  {
  }

  lemma ExchangedBlank(l: seq<char>, r: seq<char>)
    requires DigitsExchanged(l, r)
    ensures IsBlank(l) <==> IsBlank(r)
  {
    TrimEmptyIff(l);
    TrimEmptyIff(r);
    forall i | 0 <= i < |l|
      ensures IsWhitespace(l[i]) <==> IsWhitespace(r[i])
    {
      ExchangedWhitespace(l, r, i);
    }
  }

  /** Exchanging decimal digits never changes the kind of a line: no digit
      is whitespace, `:`, `,`, `-` or `>`. */
  lemma ExchangedClassify(l: seq<char>, r: seq<char>)
    requires DigitsExchanged(l, r)
    ensures Classify(r) == Classify(l)
  {
    ExchangedTimestamp(l, r);
    ExchangedBlank(l, r);
    ExchangedAllDigits(l, r);
  }

  /** `fix_line` keeps the kind of every line: a localised dialogue line
      does not turn into a timestamp, a blank or a line number. */
  lemma FixedLineKeepsKind(l: seq<char>)
    ensures Classify(FixedLine(l)) == Classify(l)
  {
    if Classify(l) == Dialogue {
      PersianDigitsExchanged(l);
      ExchangedClassify(l, PersianDigits(l));
    }
  }

  /** Digit localisation of already localised text changes nothing:
      `fix_line` run twice gives what it gives once. */
  lemma FixedLineIdempotent(l: seq<char>)
    ensures FixedLine(FixedLine(l)) == FixedLine(l)
  {
    FixedLineKeepsKind(l);
    if Classify(l) == Dialogue {
      DigitFreeKept(PersianDigits(l));
    }
  }

  /** Every character `fix_line` writes is one it was given or a Persian
      digit. */
  lemma FixedLineChars(l: seq<char>, c: char)
    requires c in FixedLine(l)
    ensures c in l || 0x06F0 <= c as int <= 0x06F9
  {
    if Classify(l) == Dialogue {
      var i :| 0 <= i < |l| && FixedLine(l)[i] == c;
      if IsAsciiDigit(l[i]) {
        PersianNumbersShape(DigitValue(l[i]));
      }
    }
  }

  /** Stage 5 only adds `'\n'` separators and Persian digits to the
      characters of the text. */
  lemma FixedTextChars(s: seq<char>, c: char)
    requires c in FixedText(s)
    ensures c in s || c == '\n' || 0x06F0 <= c as int <= 0x06F9
  {
    var ls := Lines(s);
    JoinChars(FixedLines(ls), "\n", c);
    if c != '\n' {
      var k :| 0 <= k < |ls| && c in FixedLines(ls)[k];
      FixedLineChars(ls[k], c);
      LinesChars(s);
    }
  }

  /** Stage 5 rewrites line by line: the empty text stays empty, and
      otherwise cutting the result at `'\n'` gives, for each line of the
      input in order, what `fix_line` makes of it. */
  lemma FixedTextLineByLine(s: seq<char>)
    ensures s == [] ==> FixedText(s) == []
    ensures s != [] ==> Pieces(FixedText(s), "\n") == FixedLines(Lines(s))
  {
    var ls := Lines(s);
    LinesEmptyIff(s);
    LinesChars(s);
    if s != [] {
      var fs := FixedLines(ls);
      forall k | 0 <= k < |fs|
        ensures '\n' !in fs[k]
      {
        if '\n' in fs[k] {
          FixedLineChars(ls[k], '\n');
        }
      }
      PiecesOfJoin(fs, '\n');
    }
  }

  /** Stage 5 on lines joined by `"\n"` (none holding `'\n'` or `'\r'`, the
      last one not empty) fixes each of them in place. */
  lemma FixedTextOfLines(ls: seq<seq<char>>)
    requires |ls| >= 1 && ls[|ls| - 1] != []
    requires forall k :: 0 <= k < |ls| ==> '\n' !in ls[k] && '\r' !in ls[k]
    ensures FixedText(Join(ls, "\n")) == Join(FixedLines(ls), "\n")
  {
    var s := Join(ls, "\n");
    PiecesOfJoin(ls, '\n');
    if '\r' in s {
      JoinChars(ls, "\n", '\r');
    }
    LinesArePieces(s, ls);
  }

  /** Stage 5 on text without `'\r'` and without a final `'\n'` can be run
      again without changing anything: its lines come back as they were
      fixed, and each is already fixed. */
  lemma FixedTextIdempotent(s: seq<char>)
    requires '\r' !in s && (s == [] || s[|s| - 1] != '\n')
    ensures FixedText(FixedText(s)) == FixedText(s)
  {
    if s != [] {
      var ls := Lines(s);
      var fs := FixedLines(ls);
      LinesEmptyIff(s);
      LinesChars(s);
      LastLineNotEmpty(s);
      forall k | 0 <= k < |fs|
        ensures '\n' !in fs[k] && '\r' !in fs[k]
      {
        if '\n' in fs[k] {
          FixedLineChars(ls[k], '\n');
        }
        if '\r' in fs[k] {
          FixedLineChars(ls[k], '\r');
        }
      }
      FixedTextOfLines(fs);
      forall k | 0 <= k < |fs|
        ensures FixedLine(fs[k]) == fs[k]
      {
        FixedLineIdempotent(ls[k]);
      }
      assert FixedLines(fs) == fs;
    }
  }

  /** Non-empty text that does not end in `'\n'` has a non-empty last
      line. */
  lemma LastLineNotEmpty(s: seq<char>)
    requires '\r' !in s && s != [] && s[|s| - 1] != '\n'
    ensures |Lines(s)| > 0 && Lines(s)[|Lines(s)| - 1] != []
  {
    var ps := Pieces(s, "\n");
    JoinPieces(s, "\n");
    LinesArePieces(s, ps);
    if |ps| >= 2 {
      JoinEndsWithLast(ps, "\n");
    }
  }

  /** Text made only of timestamp, blank and line-number lines, without
      `'\r'` and without a final `'\n'`, passes stage 5 unchanged. */
  lemma FixedTextKeepsNonDialogue(s: seq<char>)
    requires '\r' !in s && (s == [] || s[|s| - 1] != '\n')
    requires forall k :: 0 <= k < |Lines(s)| ==> Classify(Lines(s)[k]) != Dialogue
    ensures FixedText(s) == s
  {
    assert FixedLines(Lines(s)) == Lines(s);
    LinesJoin(s);
  }

  // ---------------------------------------------------------------------
  // The whole pipeline
  // ---------------------------------------------------------------------

  /** Stage 1 passes over a prefix without `<`, and stage 4 over one
      without U+202B; stages 2 and 3 work character by character. So such a
      prefix goes through stages 1 to 4 on its own. */
  lemma CleanedConcat(a: seq<char>, b: seq<char>)
    requires '<' !in a && RightToLeftEmbedding !in a
    ensures Cleaned(a + b) == Cleaned(a) + Cleaned(b)
  {
    WithoutItalicsSkipsPrefix(a, b);
    WithoutItalicsSkipsPrefix(a, []);
    assert a + [] == a;
    var b1 := WithoutItalics(b);
    assert WithPersianLetters(a + b1) == WithPersianLetters(a) + WithPersianLetters(b1);
    var a2, b2 := WithPersianLetters(a), WithPersianLetters(b1);
    ReplaceCharConcat(a2, b2, '?', PersianQuestionMark);
    var a3, b3 := WithPersianQuestionMarks(a2), WithPersianQuestionMarks(b2);
    assert RightToLeftEmbedding !in a3;
    RemoveMatchesSkipsPrefix(a3, b3, [RightToLeftEmbedding]);
    RemoveMatchesSkipsPrefix(a3, [], [RightToLeftEmbedding]);
    assert a3 + [] == a3;
  }

  /** Stage 1 passes over a prefix without `<`. */
  lemma WithoutItalicsSkipsPrefix(a: seq<char>, b: seq<char>)
    requires '<' !in a
    ensures WithoutItalics(a + b) == a + WithoutItalics(b)
  {
    RemoveMatchesSkipsPrefix(a, b, "<i>");
    RemoveMatchesSkipsPrefix(a, RemoveMatches(b, "<i>"), "</i>");
  }

  /** Stages 1 to 4 on one character other than `<` and U+202B: `?`
      becomes U+061F, Arabic yeh and kaf their Persian forms, and every
      other character stays. */
  lemma CleanedChar(c: char)
    requires c != '<' && c != RightToLeftEmbedding
    ensures Cleaned([c]) == [if c == '?' then PersianQuestionMark else PersianLetter(c)]
  {
    WithoutItalicsSkipsPrefix([c], []);
    assert [c] + [] == [c];
    var c3 := if c == '?' then PersianQuestionMark else PersianLetter(c);
    RemoveMatchesSkipsPrefix([c3], [], [RightToLeftEmbedding]);
    assert [c3] + [] == [c3];
  }

  /** Text that stages 1 to 4 turn into one non-empty line goes through
      `fix` as that line through `fix_line`. */
  lemma FixedOneLine(s: seq<char>)
    requires Cleaned(s) != [] && '\n' !in Cleaned(s) && '\r' !in Cleaned(s)
    ensures Fixed(s) == FixedLine(Cleaned(s))
  {
    var l := Cleaned(s);
    FixedTextOfLines([l]);
    assert FixedLines([l]) == [FixedLine(l)];
  }

  /** The fixed text holds no ASCII `?`, no Arabic yeh or kaf and no
      right-to-left embedding character: stage 5 adds only `'\n'` and
      Persian digits, and stages 1 and 4 only delete. */
  lemma FixedHasNoForbiddenChars(s: seq<char>)
    ensures var r := Fixed(s);
      '?' !in r && ArabicYeh !in r && ArabicKaf !in r && RightToLeftEmbedding !in r
  {
    var s1 := WithoutItalics(s);
    var s2 := WithPersianLetters(s1);
    var s3 := WithPersianQuestionMarks(s2);
    var s4 := WithoutRtlEmbedding(s3);
    PersianLettersReplaceAll(s1);
    QuestionMarksReplaceAll(s2);
    RtlEmbeddingRemovedAll(s3);
    RemoveMatchesKeepsChars(s3, [RightToLeftEmbedding]);
    assert ArabicYeh !in s3 && ArabicKaf !in s3;
    assert multiset(s4) <= multiset(s3);
    var r := Fixed(s);
    forall c | c in r
      ensures c != '?' && c != ArabicYeh && c != ArabicKaf && c != RightToLeftEmbedding
    {
      FixedTextChars(s4, c);
      if c in s4 {
        assert c in multiset(s3);
      }
    }
  }
}
