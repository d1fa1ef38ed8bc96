/**
 * The answer the handler settles on for replies built from the example
 * lines: a final line in the requested format wins, and a reply holding
 * only `Question 3 réponse F` falls back to that line.
 */
module ReplyFacts {
  import opened Wrappers
  import opened JsString
  import opened Patterns
  import opened PatternFacts
  import opened AnswerExtractor

  /**
   * When the last line holds the requested format with a letter a–e, that
   * line, trimmed, is the answer, whatever comes before it.
   */
  lemma FormatLineWins(lines: seq<string>, before: string, q: string, n: string, r: string, c: char, after: string)
    requires lines != [] && lines[|lines| - 1] == before + FormatLine(q, n, r, c) + after
    requires SameIgnoringCase(q, QuestionWord)
    requires n != [] && AllDigits(n)
    requires SameIgnoringCase(r, ReponseWord) && IsChoice(c)
    ensures Answer(lines) == Some(Trim(lines[|lines| - 1]))
  {
    FormatLineMatchesAnywhere(before, q, n, r, c, after);
    AnswerOnLast(lines);
  }

  /** The example line is one line with non-blank ends. */
  lemma WrongLetterShape()
    ensures !IsWhitespace(WrongLetterLine[0]) && !IsWhitespace(WrongLetterLine[|WrongLetterLine| - 1])
    ensures '\n' !in WrongLetterLine
  {
  }

  /** A reply that is one line with non-blank ends keeps exactly that line. */
  lemma SingleLineKept(l: string)
    requires l != [] && !IsWhitespace(l[0]) && !IsWhitespace(l[|l| - 1])
    requires '\n' !in l
    ensures KeptLines(l) == [l]
  {
    TrimFixpoint(l);
    SplitJoin([l], '\n');
    assert Split(l, '\n') == [l];
    assert !AllWhitespace(l);
    assert KeepNonBlank([l]) == [l] by { assert [l][1..] == []; }
  }

  /**
   * A reply that is just `Question 3 réponse F` carries no signal, so the
   * handler falls back to the line itself as the answer.
   */
  lemma WrongLetterReplyAnswer()
    ensures KeptLines(WrongLetterLine) == [WrongLetterLine]
    ensures Answer(KeptLines(WrongLetterLine)) == Some(WrongLetterLine)
  {
    WrongLetterShape();
    SingleLineKept(WrongLetterLine);
    WrongLetterNotMatched();
    AnswerFallback([WrongLetterLine]);
  }
}
