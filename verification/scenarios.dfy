/**
 * Concrete runs of the fixer: the lines of the unit tests one at a time,
 * the last block of the digit test as a whole, the effect of running the
 * stages in a fixed order, and two inputs showing that a second run of `fix`
 * can change the text again and that the number of lines is not always
 * kept.
 */
module Scenarios {
  import opened Text
  import opened Patterns
  import opened Subtitles

  /** Stages 2 to 4 leave alone a text holding none of the characters they
      replace or remove. */
  lemma MiddleStagesIdle(s: seq<char>)
    requires ArabicYeh !in s && ArabicKaf !in s && '?' !in s && RightToLeftEmbedding !in s
    ensures WithoutRtlEmbedding(WithPersianQuestionMarks(WithPersianLetters(s))) == s
  {
    assert WithPersianLetters(s) == s;
    assert WithPersianQuestionMarks(s) == s;
    ContainsChar(s, RightToLeftEmbedding);
    RemoveMatchesUnchangedIff(s, [RightToLeftEmbedding]);
  }

  /** `l` holds none of the characters stages 1 to 4 look for: `<`, Arabic
      yeh and kaf, `?` and the right-to-left embedding character. */
  predicate Untouched(l: seq<char>)
  {
    '<' !in l && ArabicYeh !in l && ArabicKaf !in l && '?' !in l && RightToLeftEmbedding !in l
  }

  /** A text holding neither `<` nor any character of stages 2 to 4 goes
      straight to stage 5. */
  lemma OnlyLastStageActs(s: seq<char>)
    requires Untouched(s)
    ensures Cleaned(s) == s
    ensures Fixed(s) == FixedText(s)
  {
    if Contains(s, "<i>") {
      ContainsNeedsFirst(s, "<i>");
    }
    if Contains(s, "</i>") {
      ContainsNeedsFirst(s, "</i>");
    }
    WithoutItalicsUnchangedIff(s);
    MiddleStagesIdle(s);
  }

  lemma JoinOne(a: seq<char>, sep: seq<char>)
    ensures Join([a], sep) == a
  {
  }

  lemma JoinTwo(a: seq<char>, b: seq<char>, sep: seq<char>)
    ensures Join([a, b], sep) == a + sep + b
  {
    assert [a, b][1..] == [b];
  }

  /** A line that starts with a visible character that is not a digit is
      dialogue. */
  lemma DialogueByFirst(l: seq<char>)
    requires |l| > 0 && !IsWhitespace(l[0]) && !IsDecimalDigit(l[0])
    ensures Classify(l) == Dialogue
  {
    TrimEmptyIff(l);
    TimestampStartsWithDigit(l);
  }

  lemma TimestampStartsWithDigit(l: seq<char>)
    ensures IsTimestamp(l) ==> IsDecimalDigit(l[0])
  {
    if IsTimestamp(l) {
      assert l[..12][0..2][0] == l[0];
    }
  }

  /** A line number passes `fix_line` unchanged. */
  lemma LineNumberLine(l: seq<char>)
    requires IsLineNumber(l)
    ensures Classify(l) == LineNumber && FixedLine(l) == l
  {
    ClassifyByShape(l);
  }

  lemma NoOpenTagInCloseTag()
    ensures RemoveMatches("</i>", "<i>") == "</i>"
  {
    assert RemoveMatches("", "<i>") == "";
    assert RemoveMatches(">", "<i>") == ">";
    assert RemoveMatches("i>", "<i>") == "i>";
    assert RemoveMatches("/i>", "<i>") == "/i>";
    assert !("<i>" <= "</i>") by {
      assert "</i>"[1] != "<i>"[1];
    }
  }

  /** Stage 1 strips one pair of tags around text without `<`. */
  lemma ItalicsAround(x: seq<char>)
    requires '<' !in x
    ensures WithoutItalics("<i>" + x + "</i>") == x
  {
    assert "<i>" + x + "</i>" == "<i>" + (x + "</i>");
    RemoveMatchesLeadingMatch("<i>", x + "</i>");
    RemoveMatchesSkipsPrefix(x, "</i>", "<i>");
    NoOpenTagInCloseTag();
    RemoveMatchesSkipsPrefix(x, "</i>", "</i>");
    RemoveMatchesLeadingMatch("</i>", []);
    assert "</i>" + [] == "</i>";
    assert x + [] == x;
  }

  lemma ItalicsAroundNumber()
    ensures WithoutItalics("<i>12</i>") == "12"
  {
    ItalicsAround("12");
    assert "<i>" + "12" + "</i>" == "<i>12</i>";
  }

  /** Italic tags are gone before the lines are classified: `<i>12</i>`
      becomes the line number `12` and keeps its ASCII digits. */
  lemma ItalicNumberIsLineNumber()
    ensures Fixed("<i>12</i>") == "12"
  {
    ItalicsAroundNumber();
    MiddleStagesIdle("12");
    NumberLineKept();
  }

  lemma NumberLineKept()
    ensures FixedText("12") == "12"
  {
    JoinOne("12", "\n");
    FixedTextOfLines(["12"]);
    LineNumberLine("12");
    assert FixedLines(["12"]) == ["12"];
  }

  lemma ItalicsNested()
    ensures WithoutItalics("<<i>i>") == "<i>"
    ensures WithoutItalics("<i>") == []
  {
    var s := "<<i>i>";
    assert RemoveMatches(s, "<i>") == "<i>" by {
      assert !("<i>" <= s) by {
        assert s[1] != "<i>"[1];
      }
      assert s[1..] == "<i>i>";
      assert "<i>" <= s[1..] && s[1..][3..] == "i>";
      assert RemoveMatches("", "<i>") == "";
      assert RemoveMatches(">", "<i>") == ">";
      assert RemoveMatches("i>", "<i>") == "i>";
    }
    assert RemoveMatches("<i>", "</i>") == "<i>" by {
      assert RemoveMatches("", "</i>") == "";
      assert RemoveMatches(">", "</i>") == ">";
      assert RemoveMatches("i>", "</i>") == "i>";
    }
    assert "<i>" <= "<i>" && "<i>"[3..] == [];
  }

  lemma TagLineIsDialogue()
    ensures Classify("<i>") == Dialogue
    ensures FixedLine("<i>") == "<i>"
  {
    DialogueByFirst("<i>");
    assert PersianDigits("<i>") == "<i>";
  }

  lemma TagLineKept()
    ensures FixedText("<i>") == "<i>"
  {
    JoinOne("<i>", "\n");
    FixedTextOfLines(["<i>"]);
    TagLineIsDialogue();
    assert FixedLines(["<i>"]) == ["<i>"];
  }

  /** `fix` is not idempotent: the tag inside `<<i>i>` is removed, which
      leaves a new `<i>` that only a second run removes. */
  lemma FixNotIdempotent()
    ensures Fixed("<<i>i>") == "<i>"
    ensures Fixed(Fixed("<<i>i>")) == []
  {
    ItalicsNested();
    MiddleStagesIdle("<i>");
    TagLineKept();
    MiddleStagesIdle([]);
    LinesEmptyIff([]);
  }

  lemma LinesWithTrailingBlank()
    ensures Lines("a\n\n") == ["a", ""]
    ensures Lines("a\n") == ["a"]
  {
    LinesOfTwoBreaks();
    LinesOfOneBreak();
  }

  lemma LinesOfTwoBreaks()
    ensures Lines("a\n\n") == ["a", ""]
  {
    JoinThree("a", "", "");
    PiecesOfJoin(["a", "", ""], '\n');
  }

  lemma LinesOfOneBreak()
    ensures Lines("a\n") == ["a"]
  {
    JoinTwo("a", "", "\n");
    PiecesOfJoin(["a", ""], '\n');
  }

  lemma LetterAndBlankKept()
    ensures FixedLine("a") == "a" && FixedLine("") == ""
  {
    DialogueByFirst("a");
    assert PersianDigits("a") == "a";
  }

  /** The number of lines is not always kept: the blank line at the end of
      `a\n\n` is joined without a newline after it, so the fixed text `a\n`
      has one line where the input had two. */
  lemma LineCountNotPreserved()
    ensures |Lines("a\n\n")| == 2
    ensures Fixed("a\n\n") == "a\n"
    ensures |Lines(Fixed("a\n\n"))| == 1
  {
    LinesWithTrailingBlank();
    TrailingBlankDropped();
  }

  lemma TrailingBlankDropped()
    ensures Fixed("a\n\n") == "a\n"
  {
    assert Untouched("a\n\n");
    OnlyLastStageActs("a\n\n");
    TrailingBlankJoined();
  }

  lemma TrailingBlankJoined()
    ensures FixedText("a\n\n") == "a\n"
  {
    LinesOfTwoBreaks();
    LetterAndBlankKept();
    assert FixedLines(["a", ""]) == ["a", ""];
    JoinTwo("a", "", "\n");
  }

  /** Twelve characters with digits and separators where `IsClock` wants
      them form a clock reading. */
  lemma ClockByDigits(c: seq<char>)
    requires |c| == 12 && c[2] == ':' && c[5] == ':' && c[8] == ','
    requires IsAsciiDigit(c[0]) && IsAsciiDigit(c[1]) && IsAsciiDigit(c[3]) && IsAsciiDigit(c[4])
    requires IsAsciiDigit(c[6]) && IsAsciiDigit(c[7]) && IsAsciiDigit(c[9]) && IsAsciiDigit(c[10])
    requires IsAsciiDigit(c[11])
    ensures IsClock(c)
  {
  }

  /** Two clock readings joined by ` --> ` form a timestamp line. */
  lemma TimestampOfClocks(a: seq<char>, b: seq<char>)
    requires IsClock(a) && IsClock(b)
    ensures IsTimestamp(a + " --> " + b)
  {
    var l := a + " --> " + b;
    assert l[..12] == a;
    assert l[17..] == b;
    assert l[13..16] == "-->";
  }

  /** The last block of the digit test: a sequence number, a timestamp and
      a dialogue line, and the dialogue line the test expects back. */
  const TestNumber: seq<char> := "2"
  const TestTimestamp: seq<char> := "00:08:22,037" + " --> " + "00:08:24,008"
  const TestDialogue: seq<char> := "!همه " + "34" + "عجله کنین"
  const TestDialogueFixed: seq<char> := "!همه " + "۳۴" + "عجله کنین"

  /** The timestamp line of the tests is classified as a timestamp and
      passed through with its ASCII digits. */
  lemma TimestampLineKept()
    ensures Classify(TestTimestamp) == Timestamp
    ensures FixedLine(TestTimestamp) == TestTimestamp
  {
    var a, b := "00:08:22,037", "00:08:24,008";
    ClockByDigits(a);
    ClockByDigits(b);
    TimestampOfClocks(a, b);
  }

  /** The sequence-number line of the tests is a line number and passed
      through with its ASCII digit. */
  lemma LineNumberKept()
    ensures Classify(TestNumber) == LineNumber
    ensures FixedLine(TestNumber) == TestNumber
  {
    LineNumberLine(TestNumber);
  }

  /** A dialogue line of the tests: `34` becomes the Persian `۳۴`, nothing
      else changes. */
  lemma DialogueDigitsLocalized()
    ensures FixedLine(TestDialogue) == TestDialogueFixed
  {
    var p, d, q := "!همه ", "34", "عجله کنین";
    DialogueByFirst(p + d + q);
    PersianDigitsConcat(p + d, q);
    PersianDigitsConcat(p, d);
    DialogueWordsKept();
    TestDigitsLocalized();
  }

  /** The words around the number hold no ASCII digit. */
  lemma DialogueWordsKept()
    ensures PersianDigits("!همه ") == "!همه "
    ensures PersianDigits("عجله کنین") == "عجله کنین"
  {
    assert NoAsciiDigit("!همه ");
    assert NoAsciiDigit("عجله کنین");
    DigitFreeKept("!همه ");
    DigitFreeKept("عجله کنین");
  }

  lemma TestDigitsLocalized()
    ensures PersianDigits("34") == "۳۴"
  {
    PersianNumbersShape(3);
    PersianNumbersShape(4);
  }

  /** `PersianDigits` works character by character, so it can be applied
      to the parts of a line separately. */
  lemma PersianDigitsConcat(a: seq<char>, b: seq<char>)
    ensures PersianDigits(a + b) == PersianDigits(a) + PersianDigits(b)
  {
  }

  /** Three lines joined by `"\n"`. */
  lemma JoinThree(a: seq<char>, b: seq<char>, c: seq<char>)
    ensures Join([a, b, c], "\n") == a + "\n" + b + "\n" + c
  {
    assert [a, b, c][1..] == [b, c];
    assert [b, c][1..] == [c];
    assert Join([b, c], "\n") == b + "\n" + c;
  }

  /** A line of the tests that stages 1 to 4 leave alone and that holds no
      line break. */
  predicate CleanLine(l: seq<char>)
  {
    Untouched(l) && '\n' !in l && '\r' !in l
  }

  lemma NumberLineClean()
    ensures CleanLine(TestNumber)
  {
  }

  lemma TimestampLineClean()
    ensures CleanLine(TestTimestamp)
  {
    ClocksClean();
    assert CleanLine(" --> ");
  }

  lemma ClocksClean()
    ensures CleanLine("00:08:22,037")
    ensures CleanLine("00:08:24,008")
  {
  }

  lemma DialogueLineClean()
    ensures CleanLine(TestDialogue)
  {
    DialogueWordsClean();
    assert CleanLine("34");
  }

  lemma DialogueWordsClean()
    ensures CleanLine("!همه ")
    ensures CleanLine("عجله کنین")
  {
    KehehWordsPlain();
    PlainKept("!همه ");
    PlainKept("عجله کنین");
  }

  /** Stage 5 on the block: each line is fixed on its own. */
  lemma TestBlockLines(a: seq<char>, b: seq<char>, c: seq<char>)
    requires CleanLine(a) && CleanLine(b) && CleanLine(c) && c != []
    ensures FixedText(a + "\n" + b + "\n" + c) == FixedLine(a) + "\n" + FixedLine(b) + "\n" + FixedLine(c)
  {
    var ls := [a, b, c];
    JoinThree(a, b, c);
    JoinThree(FixedLine(a), FixedLine(b), FixedLine(c));
    FixedTextOfLines(ls);
    assert FixedLines(ls) == [FixedLine(a), FixedLine(b), FixedLine(c)];
  }

  /** The last block of the digit test, fixed as a whole: the line number
      and the timestamp keep their ASCII digits, the dialogue line gets
      Persian ones. */
  lemma TestBlockFixed()
    ensures Fixed(TestNumber + "\n" + TestTimestamp + "\n" + TestDialogue)
         == TestNumber + "\n" + TestTimestamp + "\n" + TestDialogueFixed
  {
    var a, b, c := TestNumber, TestTimestamp, TestDialogue;
    NumberLineClean();
    TimestampLineClean();
    DialogueLineClean();
    assert Untouched(a + "\n" + b + "\n" + c);
    OnlyLastStageActs(a + "\n" + b + "\n" + c);
    TestBlockLines(a, b, c);
    LineNumberKept();
    TimestampLineKept();
    DialogueDigitsLocalized();
  }

  // ---------------------------------------------------------------------
  // The dialogue lines the unit tests change, one line at a time
  // ---------------------------------------------------------------------

  /** A part of a test line that no stage changes: none of the characters
      of stages 1 to 4, no line break and no ASCII digit. */
  predicate PlainText(w: seq<char>)
  {
    forall i :: 0 <= i < |w| ==> PlainChar(w[i])
  }

  predicate PlainChar(c: char)
  {
    c != '<' && c != ArabicYeh && c != ArabicKaf && c != '?' && c != RightToLeftEmbedding &&
    c != '\n' && c != '\r' && !IsAsciiDigit(c)
  }

  lemma PlainKept(w: seq<char>)
    requires PlainText(w)
    ensures CleanLine(w) && NoAsciiDigit(w)
    ensures Cleaned(w) == w && PersianDigits(w) == w
  {
    assert CleanLine(w) by {
      forall c | c in w
        ensures PlainChar(c)
      {
        var i :| 0 <= i < |w| && w[i] == c;
      }
    }
    OnlyLastStageActs(w);
    DigitFreeKept(w);
  }

  /** Text that stages 1 to 4 turn into one line starting with a visible
      character other than a digit is fixed as a dialogue line. */
  lemma FixedDialogueLine(s: seq<char>)
    requires var l := Cleaned(s);
      |l| > 0 && !IsWhitespace(l[0]) && !IsDecimalDigit(l[0]) && '\n' !in l && '\r' !in l
    ensures Fixed(s) == PersianDigits(Cleaned(s))
  {
    FixedOneLine(s);
    DialogueByFirst(Cleaned(s));
  }

  /** `l` opens with a character that is neither whitespace nor a digit,
      so it is dialogue. */
  predicate OpensDialogue(l: seq<char>)
  {
    |l| > 0 && !IsWhitespace(l[0]) && !IsDecimalDigit(l[0])
  }

  /** One character that stages 1 to 4 may change and that stays a single
      character of a dialogue line. */
  predicate Replaceable(c: char)
  {
    c != '<' && c != RightToLeftEmbedding && c != '\n' && c != '\r' && !IsAsciiDigit(c)
  }

  lemma ReplaceableCleaned(c: char)
    requires Replaceable(c)
    ensures var r := Cleaned([c]);
      |r| == 1 && r[0] != '<' && r[0] != RightToLeftEmbedding && CleanLine(r) && NoAsciiDigit(r)
  {
    CleanedChar(c);
  }

  /** Tags around a plain dialogue line: only the tags go. */
  lemma ItalicDialogue(a: seq<char>)
    requires PlainText(a) && OpensDialogue(a)
    ensures Fixed("<i>" + a + "</i>") == a
  {
    PlainKept(a);
    ItalicsAround(a);
    MiddleStagesIdle(a);
    FixedDialogueLine("<i>" + a + "</i>");
    DigitFreeKept(a);
  }

  /** A plain dialogue line with one character changed by stages 1 to 4. */
  lemma OneCharChanged(a: seq<char>, c: char, b: seq<char>)
    requires PlainText(a) && OpensDialogue(a) && Replaceable(c) && PlainText(b)
    ensures Fixed(a + [c] + b) == a + Cleaned([c]) + b
  {
    var c' := Cleaned([c]);
    ReplaceableCleaned(c);
    CleanedConcat(a, [c]);
    CleanedConcat(a + [c], b);
    PlainKept(a);
    PlainKept(b);
    FixedDialogueLine(a + [c] + b);
    PersianDigitsConcat(a + c', b);
    PersianDigitsConcat(a, c');
    DigitFreeKept(c');
  }

  /** A dialogue line opened by a character that stages 1 to 4 change,
      with one more changed character further on. */
  lemma TwoCharsChanged(c: char, a: seq<char>, c2: char, b: seq<char>)
    requires Replaceable(c) && OpensDialogue(Cleaned([c]))
    requires PlainText(a) && Replaceable(c2) && PlainText(b)
    ensures Fixed([c] + a + [c2] + b) == Cleaned([c]) + a + Cleaned([c2]) + b
  {
    var x, y := Cleaned([c]), Cleaned([c2]);
    ReplaceableCleaned(c);
    ReplaceableCleaned(c2);
    CleanedConcat([c], a);
    CleanedConcat([c] + a, [c2]);
    CleanedConcat([c] + a + [c2], b);
    PlainKept(a);
    PlainKept(b);
    FixedDialogueLine([c] + a + [c2] + b);
    PersianDigitsConcat(x + a + y, b);
    PersianDigitsConcat(x + a, y);
    PersianDigitsConcat(x, a);
    DigitFreeKept(x);
    DigitFreeKept(y);
  }

  /** A plain dialogue line with one changed character and a number at the
      end. */
  lemma CharAndNumber(a: seq<char>, c: char, b: seq<char>, d: seq<char>)
    requires PlainText(a) && OpensDialogue(a) && Replaceable(c) && PlainText(b) && CleanLine(d)
    ensures Fixed(a + [c] + b + d) == a + Cleaned([c]) + b + PersianDigits(d)
  {
    var c' := Cleaned([c]);
    ReplaceableCleaned(c);
    CleanedConcat(a, [c]);
    CleanedConcat(a + [c], b);
    CleanedConcat(a + [c] + b, d);
    PlainKept(a);
    PlainKept(b);
    OnlyLastStageActs(d);
    FixedDialogueLine(a + [c] + b + d);
    PersianDigitsConcat(a + c' + b, d);
    PersianDigitsConcat(a + c', b);
    PersianDigitsConcat(a, c');
    DigitFreeKept(c');
  }

  /** A plain dialogue line with two numbers and one changed character
      between them. */
  lemma NumbersAndChar(a: seq<char>, d1: seq<char>, b: seq<char>, c: char,
                       e: seq<char>, d2: seq<char>, f: seq<char>)
    requires PlainText(a) && OpensDialogue(a) && CleanLine(d1) && PlainText(b) && Replaceable(c)
    requires PlainText(e) && CleanLine(d2) && PlainText(f)
    ensures Fixed(a + d1 + b + [c] + e + d2 + f)
         == a + PersianDigits(d1) + b + Cleaned([c]) + e + PersianDigits(d2) + f
  {
    var c' := Cleaned([c]);
    ReplaceableCleaned(c);
    PlainKept(a);
    PlainKept(b);
    PlainKept(e);
    PlainKept(f);
    OnlyLastStageActs(d1);
    OnlyLastStageActs(d2);
    CleanedConcat(a, d1);
    CleanedConcat(a + d1, b);
    CleanedConcat(a + d1 + b, [c]);
    CleanedConcat(a + d1 + b + [c], e);
    CleanedConcat(a + d1 + b + [c] + e, d2);
    CleanedConcat(a + d1 + b + [c] + e + d2, f);
    var l := a + d1 + b + c' + e + d2 + f;
    assert Cleaned(a + d1 + b + [c] + e + d2 + f) == l;
    FixedDialogueLine(a + d1 + b + [c] + e + d2 + f);
    PersianDigitsConcat(a + d1 + b + c' + e + d2, f);
    PersianDigitsConcat(a + d1 + b + c' + e, d2);
    PersianDigitsConcat(a + d1 + b + c', e);
    PersianDigitsConcat(a + d1 + b, c');
    PersianDigitsConcat(a + d1, b);
    PersianDigitsConcat(a, d1);
    DigitFreeKept(c');
  }

  /** A plain dialogue line, given as two parts, goes through `fix`
      unchanged. */
  lemma PlainDialogueKept(a: seq<char>, b: seq<char>)
    requires PlainText(a) && OpensDialogue(a) && PlainText(b)
    ensures Fixed(a + b) == a + b
  {
    assert PlainText(a + b);
    PlainKept(a + b);
    FixedDialogueLine(a + b);
  }

  // Facts about the fragments of the test lines. Each lemma checks one or
  // a few string literals character by character; they are kept apart
  // because checking several literals in one proof context, or inside the
  // lemma that uses them, costs the solver far more than checking each on
  // its own.

  lemma OpeningLinePlain()
    ensures PlainText("!زود باشین برین")
  {
  }

  lemma OpeningWordsPlain()
    ensures PlainText("!زود باشین بر")
  {
  }

  lemma EndingPlain()
    ensures PlainText("ن") && PlainText("ن ")
  {
  }

  lemma RefusalPlain()
    ensures PlainText("!نمی‌ذارم هیچ ")
  {
  }

  lemma RefusalEndPlain()
    ensures PlainText("دومتون اینجا بمیرین")
  {
  }

  lemma QuestionOpeningPlain()
    ensures PlainText("؟زود باشین بر")
  {
  }

  lemma RefusalWordsPlain()
    ensures PlainText("نمی‌ذارم هیچ ")
  {
  }

  lemma RefusalPartsPlain()
    ensures PlainText("؟نمی‌ذارم ") && PlainText(" هیچ ")
    ensures PlainText("دومتون ") && PlainText(" اینجا بمیرین")
  {
  }

  lemma NumbersClean()
    ensures CleanLine("12") && CleanLine("2") && CleanLine("0912")
    ensures PersianDigits("12") == "۱۲" && PersianDigits("2") == "۲"
    ensures PersianDigits("0912") == "۰۹۱۲"
  {
    PersianNumbersShape(0);
    PersianNumbersShape(1);
    PersianNumbersShape(2);
    PersianNumbersShape(9);
  }

  lemma KehehWordsPlain()
    ensures PlainText("کدومتون اینجا بمیرین")
    ensures PlainText("!همه ") && PlainText("عجله کنین")
  {
  }

  /** The italics test: the tags around the dialogue line are removed and
      the line is otherwise kept. */
  lemma ItalicLineFixed()
    ensures Fixed("<i>" + "!زود باشین برین" + "</i>") == "!زود باشین برین"
  {
    OpeningLinePlain();
    ItalicDialogue("!زود باشین برین");
  }

  /** The Arabic-letters test: the Arabic yeh of the first dialogue line
      becomes Persian yeh. */
  lemma YehLineFixed()
    ensures Fixed("!زود باشین بر" + [ArabicYeh] + "ن") == "!زود باشین بر" + [PersianYeh] + "ن"
  {
    OpeningWordsPlain();
    EndingPlain();
    OneCharChanged("!زود باشین بر", ArabicYeh, "ن");
    CleanedChar(ArabicYeh);
  }

  /** The Arabic-letters test: the Arabic kaf of the second dialogue line
      becomes keheh. */
  lemma KafLineFixed()
    ensures Fixed("!نمی‌ذارم هیچ " + [ArabicKaf] + "دومتون اینجا بمیرین")
         == "!نمی‌ذارم هیچ " + [PersianKaf] + "دومتون اینجا بمیرین"
  {
    RefusalPlain();
    RefusalEndPlain();
    OneCharChanged("!نمی‌ذارم هیچ ", ArabicKaf, "دومتون اینجا بمیرین");
    CleanedChar(ArabicKaf);
  }

  /** The question-mark test: the opening U+061F is kept and the Arabic yeh
      becomes Persian yeh. */
  lemma QuestionYehLineFixed()
    ensures Fixed("؟زود باشین بر" + [ArabicYeh] + "ن") == "؟زود باشین بر" + [PersianYeh] + "ن"
  {
    QuestionOpeningPlain();
    EndingPlain();
    OneCharChanged("؟زود باشین بر", ArabicYeh, "ن");
    CleanedChar(ArabicYeh);
  }

  /** The question-mark test: the opening ASCII `?` becomes U+061F and the
      Arabic kaf becomes keheh. */
  lemma QuestionKafLineFixed()
    ensures Fixed("?" + "نمی‌ذارم هیچ " + [ArabicKaf] + "دومتون اینجا بمیرین")
         == [PersianQuestionMark] + "نمی‌ذارم هیچ " + [PersianKaf] + "دومتون اینجا بمیرین"
  {
    RefusalWordsPlain();
    RefusalEndPlain();
    CleanedChar('?');
    CleanedChar(ArabicKaf);
    TwoCharsChanged('?', "نمی‌ذارم هیچ ", ArabicKaf, "دومتون اینجا بمیرین");
  }

  /** The digit test: Arabic yeh becomes Persian yeh and `12` becomes
      `۱۲`. */
  lemma NumberAtEndFixed()
    ensures Fixed("؟زود باشین بر" + [ArabicYeh] + "ن " + "12")
         == "؟زود باشین بر" + [PersianYeh] + "ن " + "۱۲"
  {
    QuestionOpeningPlain();
    EndingPlain();
    NumbersClean();
    CharAndNumber("؟زود باشین بر", ArabicYeh, "ن ", "12");
    CleanedChar(ArabicYeh);
  }

  /** The digit test: `2` and `0912` become Persian digits and the Arabic
      kaf between them becomes keheh. */
  lemma NumbersInsideFixed()
    ensures Fixed("؟نمی‌ذارم " + "2" + " هیچ " + [ArabicKaf] + "دومتون " + "0912" + " اینجا بمیرین")
         == "؟نمی‌ذارم " + "۲" + " هیچ " + [PersianKaf] + "دومتون " + "۰۹۱۲" + " اینجا بمیرین"
  {
    RefusalPartsPlain();
    NumbersClean();
    NumbersAndChar("؟نمی‌ذارم ", "2", " هیچ ", ArabicKaf, "دومتون ", "0912", " اینجا بمیرین");
    CleanedChar(ArabicKaf);
  }

  /** The dialogue lines the tests leave as they are: no stage changes
      them. */
  lemma UnchangedDialogueKept()
    ensures Fixed("!نمی‌ذارم هیچ " + "کدومتون اینجا بمیرین") == "!نمی‌ذارم هیچ " + "کدومتون اینجا بمیرین"
    ensures Fixed("!همه " + "عجله کنین") == "!همه " + "عجله کنین"
  {
    RefusalPlain();
    KehehWordsPlain();
    PlainDialogueKept("!نمی‌ذارم هیچ ", "کدومتون اینجا بمیرین");
    PlainDialogueKept("!همه ", "عجله کنین");
  }

  /** The header of the first block of every test: the sequence number `1`
      and its timestamp pass `fix_line` unchanged. */
  lemma FirstHeaderKept()
    ensures Classify("1") == LineNumber && FixedLine("1") == "1"
    ensures Classify("00:08:26,025" + " --> " + "00:08:30,091") == Timestamp
    ensures FixedLine("00:08:26,025" + " --> " + "00:08:30,091") == "00:08:26,025" + " --> " + "00:08:30,091"
  {
    LineNumberLine("1");
    var a, b := "00:08:26,025", "00:08:30,091";
    ClockByDigits(a);
    ClockByDigits(b);
    TimestampOfClocks(a, b);
  }
}
