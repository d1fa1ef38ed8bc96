/**
 * What the three signals accept and refuse, stated on whole families of
 * lines: the final line in the format the prompts ask for is recognised
 * wherever it stands and whatever its case, and an answer letter outside
 * a–e is not.
 */
module PatternFacts {
  import opened Wrappers
  import opened JsString
  import opened Patterns

  /** Two case-insensitively equal texts agree at each position once folded. */
  lemma {:induction false} SameAt(t: string, w: string, k: nat)
    requires SameIgnoringCase(t, w) && k < |w|
    ensures FoldCase(t[k]) == FoldCase(w[k])
    decreases k
  {
    if k > 0 {
      SameAt(t[1..], w[1..], k - 1);
    }
  }

  /** One position that folds differently is enough for two texts to differ ignoring case. */
  lemma {:induction false} NotSameAt(t: string, w: string, k: nat)
    requires k < |w| == |t| && FoldCase(t[k]) != FoldCase(w[k])
    ensures !SameIgnoringCase(t, w)
    decreases k
  {
    if k > 0 {
      NotSameAt(t[1..], w[1..], k - 1);
    }
  }

  // ---- one token at a time

  /** A single space before a non-whitespace code point is a whole `\s*` run. */
  lemma SpaceThen(s: string)
    requires s != [] && !IsWhitespace(s[0])
    ensures TokenLength(Spaces, " " + s) == Some(1) && (" " + s)[1..] == s
  {
    var t := " " + s;
    assert t[..1] == " " && t[1] == s[0];
    WhitespaceRunIs(t, 1);
  }

  /** A number before a non-digit is a whole `\d+` run. */
  lemma DigitsThen(n: string, s: string)
    requires n != [] && AllDigits(n)
    requires s != [] && !IsDigit(s[0])
    ensures TokenLength(Digits, n + s) == Some(|n|) && (n + s)[|n|..] == s
  {
    var t := n + s;
    assert t[..|n|] == n && t[|n|] == s[0];
    DigitRunIs(t, |n|);
  }

  /** A word, in any case, is taken whole by its token. */
  lemma WordThen(w: string, r: string, s: string)
    requires SameIgnoringCase(r, w)
    ensures TokenLength(Word(w), r + s) == Some(|r|) && (r + s)[|r|..] == s
  {
    assert (r + s)[..|w|] == r;
  }

  /** `r` moved on by `k` code points: what the matcher yields when the first token takes `k`. */
  function Shift(k: nat, r: Option<nat>): Option<nat>
  {
    match r
    case None => None
    case Some(m) => Some(k + m)
  }

  /** One step of the greedy matcher, whether the rest succeeds or not. */
  lemma GreedyThen(ts: seq<Token>, s: string, k: nat, rest: Option<nat>)
    requires ts != [] && TokenLength(ts[0], s) == Some(k)
    requires GreedyLength(ts[1..], s[k..]) == rest
    ensures GreedyLength(ts, s) == Shift(k, rest)
  {
    match rest
    case None => GreedyStepFails(ts, s, k);
    case Some(m) => GreedyStep(ts, s, k, m);
  }

  // ---- the format "Question <number> réponse <letter>"

  /** What the answer pattern yields on a tail `t` of the format ending in `c`: all of `t`, or nothing. */
  function Expected(c: char, t: string): Option<nat>
  {
    if IsChoice(c) then Some(|t|) else None
  }

  /** Taking `x` in front of a tail moves the outcome on by `|x|`. */
  lemma ShiftExpected(c: char, x: string, t: string)
    ensures Shift(|x|, Expected(c, t)) == Expected(c, x + t)
  {
  }

  /** A space before a non-whitespace code point, for a `\s*` token, then the rest. */
  lemma StepSpace(ts: seq<Token>, s: string, rest: Option<nat>)
    requires ts != [] && ts[0] == Spaces
    requires s != [] && !IsWhitespace(s[0])
    requires GreedyLength(ts[1..], s) == rest
    ensures GreedyLength(ts, " " + s) == Shift(1, rest)
  {
    SpaceThen(s);
    GreedyThen(ts, " " + s, 1, rest);
  }

  /** A number before a non-digit, for a `\d+` token, then the rest. */
  lemma StepDigits(ts: seq<Token>, n: string, s: string, rest: Option<nat>)
    requires ts != [] && ts[0] == Digits
    requires n != [] && AllDigits(n) && s != [] && !IsDigit(s[0])
    requires GreedyLength(ts[1..], s) == rest
    ensures GreedyLength(ts, n + s) == Shift(|n|, rest)
  {
    DigitsThen(n, s);
    GreedyThen(ts, n + s, |n|, rest);
  }

  /** A word in any case, for its token, then the rest. */
  lemma StepWord(ts: seq<Token>, w: string, r: string, s: string, rest: Option<nat>)
    requires ts != [] && ts[0] == Word(w) && SameIgnoringCase(r, w)
    requires GreedyLength(ts[1..], s) == rest
    ensures GreedyLength(ts, r + s) == Shift(|r|, rest)
  {
    WordThen(w, r, s);
    GreedyThen(ts, r + s, |r|, rest);
  }

  /** `\s*[a-e]` over a space and the letter. */
  lemma ChoiceTail(ts: seq<Token>, c: char)
    requires |ts| == 2 && ts[0] == Spaces && ts[1] == Choice
    requires !IsWhitespace(c)
    ensures GreedyLength(ts, " " + [c]) == Expected(c, " " + [c])
  {
    StepSpace(ts, [c], Expected(c, [c]));
    ShiftExpected(c, " ", [c]);
  }

  /** `\s*réponse\s*[a-e]` over a space, the word in any case, a space and the letter. */
  lemma ReponseTail(ts: seq<Token>, r: string, c: char)
    requires |ts| == 4 && ts[0] == Spaces && ts[1] == Word(ReponseWord) && ts[2] == Spaces && ts[3] == Choice
    requires SameIgnoringCase(r, ReponseWord) && !IsWhitespace(c)
    ensures GreedyLength(ts, " " + (r + (" " + [c]))) == Expected(c, " " + (r + (" " + [c])))
  {
    var t := " " + [c];
    ChoiceTail(ts[2..], c);
    assert ts[1..][1..] == ts[2..];
    StepWord(ts[1..], ReponseWord, r, t, Expected(c, t));
    ShiftExpected(c, r, t);
    SameAt(r, ReponseWord, 0);
    FoldsLikeLetter(r[0], 'r');
    StepSpace(ts, r + t, Expected(c, r + t));
    ShiftExpected(c, " ", r + t);
  }

  /** `\s*\d+\s*réponse\s*[a-e]` over a space, the number and the rest. */
  lemma NumberTail(ts: seq<Token>, n: string, r: string, c: char)
    requires |ts| == 6 && ts[0] == Spaces && ts[1] == Digits && ts[2] == Spaces
    requires ts[3] == Word(ReponseWord) && ts[4] == Spaces && ts[5] == Choice
    requires n != [] && AllDigits(n)
    requires SameIgnoringCase(r, ReponseWord) && !IsWhitespace(c)
    ensures GreedyLength(ts, " " + (n + (" " + (r + (" " + [c]))))) == Expected(c, " " + (n + (" " + (r + (" " + [c])))))
  {
    var t := " " + (r + (" " + [c]));
    ReponseTail(ts[2..], r, c);
    assert ts[1..][1..] == ts[2..];
    assert t[0] == ' ';
    StepDigits(ts[1..], n, t, Expected(c, t));
    ShiftExpected(c, n, t);
    assert (n + t)[0] == n[0] && IsDigit(n[0]);
    StepSpace(ts, n + t, Expected(c, n + t));
    ShiftExpected(c, " ", n + t);
  }

  /** The final line in the requested format, in any case, with any number and any letter. */
  function FormatLine(q: string, n: string, r: string, c: char): string
  {
    q + (" " + (n + (" " + (r + (" " + [c])))))
  }

  /**
   * At the start of a line in the requested format the answer pattern
   * takes the whole line when the letter is one of a–e, and fails otherwise.
   */
  lemma FormatLineAtStart(q: string, n: string, r: string, c: char)
    requires SameIgnoringCase(q, QuestionWord)
    requires n != [] && AllDigits(n)
    requires SameIgnoringCase(r, ReponseWord) && !IsWhitespace(c)
    ensures MatchLength(AnswerLine, FormatLine(q, n, r, c)) == Expected(c, FormatLine(q, n, r, c))
  {
    var rest := " " + (n + (" " + (r + (" " + [c]))));
    var ts := Tokens(AnswerLine);
    NumberTail(ts[1..], n, r, c);
    StepWord(ts, QuestionWord, q, rest, Expected(c, rest));
    ShiftExpected(c, q, rest);
  }

  /** A line that holds the requested format with a letter a–e anywhere, with any text around it, matches. */
  lemma FormatLineMatchesAnywhere(before: string, q: string, n: string, r: string, c: char, after: string)
    requires SameIgnoringCase(q, QuestionWord)
    requires n != [] && AllDigits(n)
    requires SameIgnoringCase(r, ReponseWord) && IsChoice(c)
    ensures Matches(before + FormatLine(q, n, r, c) + after)
  {
    var f := FormatLine(q, n, r, c);
    var line := before + f + after;
    FormatLineAtStart(q, n, r, c);
    assert line[|before|..][..|f|] == f[..|f|];
    MatchIsLocal(AnswerLine, f, line[|before|..], |f|);
    OccursAt(AnswerLine, line, |before|);
  }

  // ---- any spacing between the words

  /** Prepending a piece its token denotes to a text the rest denotes gives a text the whole sequence denotes. */
  lemma CoverStep(ts: seq<Token>, x: string, y: string)
    requires ts != [] && TokenCovers(ts[0], x) && TokensCover(ts[1..], y)
    ensures TokensCover(ts, x + y)
  {
    assert (x + y)[..|x|] == x && (x + y)[|x|..] == y;
  }

  /**
   * The requested format with any whitespace between its words, none
   * included: `\s*` takes zero code points as readily as one.
   */
  function SpacedFormat(q: string, s1: string, n: string, s2: string, r: string, s3: string, c: char): string
  {
    q + (s1 + (n + (s2 + (r + (s3 + [c])))))
  }

  /** The answer expression denotes the format whatever whitespace, if any, separates its words. */
  lemma SpacedFormatCovered(q: string, s1: string, n: string, s2: string, r: string, s3: string, c: char)
    requires SameIgnoringCase(q, QuestionWord) && SameIgnoringCase(r, ReponseWord)
    requires n != [] && AllDigits(n) && IsChoice(c)
    requires AllWhitespace(s1) && AllWhitespace(s2) && AllWhitespace(s3)
    ensures TokensCover(Tokens(AnswerLine), SpacedFormat(q, s1, n, s2, r, s3, c))
  {
    var ts := Tokens(AnswerLine);
    assert ts[6..][1..] == [];
    assert TokensCover(ts[6..][1..], []);
    CoverStep(ts[6..], [c], []);
    assert [c] + [] == [c];
    assert ts[5..][1..] == ts[6..];
    CoverStep(ts[5..], s3, [c]);
    assert ts[4..][1..] == ts[5..];
    CoverStep(ts[4..], r, s3 + [c]);
    assert ts[3..][1..] == ts[4..];
    CoverStep(ts[3..], s2, r + (s3 + [c]));
    assert ts[2..][1..] == ts[3..];
    CoverStep(ts[2..], n, s2 + (r + (s3 + [c])));
    assert ts[1..][1..] == ts[2..];
    CoverStep(ts[1..], s1, n + (s2 + (r + (s3 + [c]))));
    CoverStep(ts, q, s1 + (n + (s2 + (r + (s3 + [c])))));
  }

  /** At the start of the format with any spacing, the answer expression takes the whole of it. */
  lemma SpacedFormatAtStart(q: string, s1: string, n: string, s2: string, r: string, s3: string, c: char)
    requires SameIgnoringCase(q, QuestionWord) && SameIgnoringCase(r, ReponseWord)
    requires n != [] && AllDigits(n) && IsChoice(c)
    requires AllWhitespace(s1) && AllWhitespace(s2) && AllWhitespace(s3)
    ensures var f := SpacedFormat(q, s1, n, s2, r, s3, c); MatchLength(AnswerLine, f) == Some(|f|)
  {
    var f := SpacedFormat(q, s1, n, s2, r, s3, c);
    SpacedFormatCovered(q, s1, n, s2, r, s3, c);
    assert f[..|f|] == f;
    MatcherExact(AnswerLine, f, |f|);
  }

  /** A text an expression matches in full is an occurrence wherever it stands in a line. */
  lemma WholeMatchAnywhere(p: Pattern, before: string, f: string, after: string)
    requires MatchLength(p, f) == Some(|f|)
    ensures Occurs(p, before + f + after)
  {
    var line := before + f + after;
    assert line[|before|..][..|f|] == f[..|f|];
    MatchIsLocal(p, f, line[|before|..], |f|);
    OccursAt(p, line, |before|);
  }

  /** A line holding the format with a letter a–e and any spacing, surrounded by any text, matches. */
  lemma SpacedFormatMatchesAnywhere(before: string, q: string, s1: string, n: string, s2: string, r: string, s3: string, c: char, after: string)
    requires SameIgnoringCase(q, QuestionWord) && SameIgnoringCase(r, ReponseWord)
    requires n != [] && AllDigits(n) && IsChoice(c)
    requires AllWhitespace(s1) && AllWhitespace(s2) && AllWhitespace(s3)
    ensures Matches(before + SpacedFormat(q, s1, n, s2, r, s3, c) + after)
  {
    SpacedFormatAtStart(q, s1, n, s2, r, s3, c);
    WholeMatchAnywhere(AnswerLine, before, SpacedFormat(q, s1, n, s2, r, s3, c), after);
  }

  /** Every text equals itself ignoring case. */
  lemma {:induction false} SameAsItself(w: string)
    ensures SameIgnoringCase(w, w)
    decreases |w|
  {
    if w != [] {
      SameAsItself(w[1..]);
    }
  }

  /** The words of the unspaced example are the expression's words, in lower case. */
  lemma UnspacedWords()
    ensures SameIgnoringCase("question", QuestionWord) && SameIgnoringCase("r\U{00E9}ponse", ReponseWord)
    ensures AllDigits("12") && AllWhitespace("")
  {
    SameAsItself(QuestionWord);
    SameAsItself(ReponseWord);
  }

  /** The unspaced example is the format with empty separators. */
  lemma UnspacedSpelling()
    ensures "" + SpacedFormat("question", "", "12", "", "r\U{00E9}ponse", "", 'a') + "" == "question12r\U{00E9}ponsea"
  {
  }

  /** With no whitespace at all, `question12réponsea` still matches. */
  lemma UnspacedExampleMatches()
    ensures Matches("question12r\U{00E9}ponsea")
  {
    UnspacedWords();
    UnspacedSpelling();
    SpacedFormatMatchesAnywhere("", "question", "", "12", "", "r\U{00E9}ponse", "", 'a', "");
  }

  /** A greedy match of a sequence holding `\d+` takes at least one digit: one lies inside the match. */
  lemma {:induction false} DigitTaken(ts: seq<Token>, s: string) returns (k: nat)
    requires Digits in ts && GreedyLength(ts, s).Some?
    ensures k < GreedyLength(ts, s).value && IsDigit(s[k])
    decreases |ts|
  {
    var j := TokenLength(ts[0], s).value;
    GreedyStep(ts, s, j, GreedyLength(ts[1..], s[j..]).value);
    if ts[0] == Digits {
      k := 0;
    } else {
      assert Digits in ts[1..];
      var i := DigitTaken(ts[1..], s[j..]);
      assert s[j..][i] == s[j + i];
      k := j + i;
    }
  }

  /** The answer expression needs at least one digit: a line it occurs in holds one. */
  lemma AnswerNeedsDigit(line: string)
    requires Occurs(AnswerLine, line)
    ensures exists k :: 0 <= k < |line| && IsDigit(line[k])
  {
    var i, n := OccurrenceWitness(AnswerLine, line);
    assert Tokens(AnswerLine)[2] == Digits;
    var j := DigitTaken(Tokens(AnswerLine), line[i..]);
    assert line[i..][j] == line[i + j];
  }

  // ---- the other two signals

  /** `pas sûr`, in any case, followed by anything, is a match at the start. */
  lemma NotSureAtStart(w: string, after: string)
    requires SameIgnoringCase(w, NotSureText)
    ensures MatchLength(NotConfident, w + after) == Some(|w|)
  {
    var ts := Tokens(NotConfident);
    assert GreedyLength(ts[1..], after) == Some(0);
    StepWord(ts, NotSureText, w, after, Some(0));
  }

  /** A line holding `pas sûr` anywhere, in any case, matches. */
  lemma NotSureAnywhere(before: string, w: string, after: string)
    requires SameIgnoringCase(w, NotSureText)
    ensures Matches(before + w + after)
  {
    var line := before + w + after;
    NotSureAtStart(w, after);
    assert line[|before|..] == w + after;
    OccursAt(NotConfident, line, |before|);
  }

  /** `recommence`, in any case, followed by anything, is a match at the start. */
  lemma RestartAtStart(w: string, after: string)
    requires SameIgnoringCase(w, RestartText)
    ensures MatchLength(Illegible, w + after) == Some(|w|)
  {
    var ts := Tokens(Illegible);
    assert GreedyLength(ts[1..], after) == Some(0);
    StepWord(ts, RestartText, w, after, Some(0));
  }

  /** A line holding `recommence` anywhere, in any case, matches. */
  lemma RestartAnywhere(before: string, w: string, after: string)
    requires SameIgnoringCase(w, RestartText)
    ensures Matches(before + w + after)
  {
    var line := before + w + after;
    RestartAtStart(w, after);
    assert line[|before|..] == w + after;
    OccursAt(Illegible, line, |before|);
  }

  // ---- a letter outside a–e

  const WrongLetterTail: string := "uestion 3 r\U{00E9}ponse F"

  /** The example line `Question 3 réponse F`, whose letter is outside a–e. */
  const WrongLetterLine: string := "Q" + WrongLetterTail

  /** The example line is in the requested format. */
  lemma WrongLetterFormat()
    ensures WrongLetterLine == FormatLine("Question", "3", "r\U{00E9}ponse", 'F')
  {
    assert "Q" + WrongLetterTail == "Question" + (" " + ("3" + (" " + ("r\U{00E9}ponse" + (" " + ['F'])))));
  }

  /** Only the first code point of the example folds to `Q`. */
  lemma OnlyFirstIsQ(i: nat)
    requires 0 < i < |WrongLetterLine|
    ensures FoldCase(WrongLetterLine[i]) != 'Q'
  {
    assert 'q' !in WrongLetterTail && 'Q' !in WrongLetterTail;
    assert WrongLetterLine[i] == WrongLetterTail[i - 1];
    assert WrongLetterTail[i - 1] in WrongLetterTail;
  }

  /** No code point of the example folds to `Û`. */
  lemma NoUCircumflex(i: nat)
    requires i < |WrongLetterLine|
    ensures FoldCase(WrongLetterLine[i]) != '\U{00DB}'
  {
    assert '\U{00FB}' !in WrongLetterLine && '\U{00DB}' !in WrongLetterLine;
    assert WrongLetterLine[i] in WrongLetterLine;
  }

  /** No code point of the example folds to `M`. */
  lemma NoM(i: nat)
    requires i < |WrongLetterLine|
    ensures FoldCase(WrongLetterLine[i]) != 'M'
  {
    assert 'm' !in WrongLetterLine && 'M' !in WrongLetterLine;
    assert WrongLetterLine[i] in WrongLetterLine;
  }

  /** A word token is refused where the text folds differently at position `k` of the word. */
  lemma WordRefused(w: string, s: string, k: nat)
    requires k < |w| && (|w| <= |s| ==> FoldCase(s[k]) != FoldCase(w[k]))
    ensures TokenLength(Word(w), s) == None
  {
    if |w| <= |s| {
      assert s[..|w|][k] == s[k];
      NotSameAt(s[..|w|], w, k);
    }
  }

  /** The words of the example are the pattern's words, capitalised or as they are. */
  lemma WrongLetterWords()
    ensures SameIgnoringCase("Question", QuestionWord)
    ensures SameIgnoringCase("r\U{00E9}ponse", ReponseWord)
    ensures AllDigits("3")
  {
  }

  /** At the start of the example the answer pattern reaches the letter and fails on it. */
  lemma WrongLetterAtStart()
    ensures !MatchesAt(AnswerLine, WrongLetterLine, 0)
  {
    WrongLetterWords();
    WrongLetterFormat();
    FormatLineAtStart("Question", "3", "r\U{00E9}ponse", 'F');
    assert WrongLetterLine[0..] == WrongLetterLine;
  }

  /** Anywhere after its start the example has no `q` for the pattern to begin with. */
  lemma WrongLetterLater(i: nat)
    requires 0 < i <= |WrongLetterLine|
    ensures !MatchesAt(AnswerLine, WrongLetterLine, i)
  {
    if i < |WrongLetterLine| { OnlyFirstIsQ(i); }
    WordRefused(QuestionWord, WrongLetterLine[i..], 0);
  }

  /** The answer pattern occurs nowhere in the example: only at its start could it begin, and there the letter stops it. */
  lemma WrongLetterNoAnswer()
    ensures !Occurs(AnswerLine, WrongLetterLine)
  {
    forall i | 0 <= i <= |WrongLetterLine| ensures !MatchesAt(AnswerLine, WrongLetterLine, i) {
      if i == 0 {
        WrongLetterAtStart();
      } else {
        WrongLetterLater(i);
      }
    }
  }

  /** `pas sûr` occurs nowhere in the example. */
  lemma WrongLetterNotUnsure()
    ensures !Occurs(NotConfident, WrongLetterLine)
  {
    var line := WrongLetterLine;
    forall i | 0 <= i <= |line| ensures !MatchesAt(NotConfident, line, i) {
      if i + 5 < |line| { NoUCircumflex(i + 5); }
      WordRefused(NotSureText, line[i..], 5);
    }
  }

  /** `recommence` occurs nowhere in the example. */
  lemma WrongLetterNoRestart()
    ensures !Occurs(Illegible, WrongLetterLine)
  {
    var line := WrongLetterLine;
    forall i | 0 <= i <= |line| ensures !MatchesAt(Illegible, line, i) {
      if i + 4 < |line| { NoM(i + 4); }
      WordRefused(RestartText, line[i..], 4);
    }
  }

  /** `Question 3 réponse F` carries none of the three signals. */
  lemma WrongLetterNotMatched()
    ensures !Matches(WrongLetterLine)
  {
    WrongLetterNoAnswer();
    WrongLetterNotUnsure();
    WrongLetterNoRestart();
  }
}
