/**
 * Picking the final answer out of the model's reply: the reply is trimmed,
 * cut into lines and stripped of blank lines; the answer is the last line
 * that carries one of the three signals (trimmed), and otherwise the last
 * line as it stands.
 */
module AnswerExtractor {
  import opened Wrappers
  import opened JsString
  import opened Patterns
  import opened JsArray

  /**
   * `pieces.filter(l => l.trim())`: the pieces that are not all whitespace,
   * in order (`l.trim()` is the empty, falsy string exactly for those, by
   * `BlankIffAllWhitespace`).
   */
  function KeepNonBlank(pieces: seq<string>): (kept: seq<string>)
    ensures |kept| <= |pieces|
    ensures forall l :: l in kept <==> l in pieces && !AllWhitespace(l)
  {
    if pieces == [] then []
    else (if AllWhitespace(pieces[0]) then [] else [pieces[0]]) + KeepNonBlank(pieces[1..])
  }

  /** Filtering keeps the order: filtering a concatenation filters each part. */
  lemma {:induction false} KeepNonBlankAppend(a: seq<string>, b: seq<string>)
    ensures KeepNonBlank(a + b) == KeepNonBlank(a) + KeepNonBlank(b)
    decreases |a|
  {
    if a == [] {
      assert a + b == b;
    } else {
      assert (a + b)[1..] == a[1..] + b;
      KeepNonBlankAppend(a[1..], b);
    }
  }

  /** `fullResponse.trim().split('\n').filter(l => l.trim())`. */
  function KeptLines(reply: string): seq<string>
  {
    KeepNonBlank(Split(Trim(reply), '\n'))
  }

  /** Every kept line is one line of the reply: it is not blank and holds no line feed. */
  lemma KeptLinesShape(reply: string)
    ensures forall k :: 0 <= k < |KeptLines(reply)| ==> !IsBlank(KeptLines(reply)[k])
    ensures forall k :: 0 <= k < |KeptLines(reply)| ==> '\n' !in KeptLines(reply)[k]
  {
    var pieces := Split(Trim(reply), '\n');
    var lines := KeepNonBlank(pieces);
    forall k | 0 <= k < |lines| ensures !IsBlank(lines[k]) && '\n' !in lines[k] {
      assert lines[k] in lines;
      BlankIffAllWhitespace(lines[k]);
      var j :| 0 <= j < |pieces| && pieces[j] == lines[k];
    }
  }

  /** The first piece of a split string that does not start with the separator starts with its first character. */
  lemma SplitHead(s: string, sep: char)
    requires s != [] && s[0] != sep
    ensures Split(s, sep)[0] != [] && Split(s, sep)[0][0] == s[0]
  {
  }

  /** A reply that is all whitespace yields no line. */
  lemma BlankReplyNoLines(reply: string)
    requires AllWhitespace(reply)
    ensures KeptLines(reply) == []
  {
    BlankIffAllWhitespace(reply);
    assert Split(Trim(reply), '\n') == [""];
    assert KeepNonBlank([""]) == KeepNonBlank([]);
  }

  /** A reply with some other character yields at least one line. */
  lemma TextReplyHasLines(reply: string)
    requires !AllWhitespace(reply)
    ensures KeptLines(reply) != []
  {
    var t := Trim(reply);
    BlankIffAllWhitespace(reply);
    SplitHead(t, '\n');
    var first := Split(t, '\n')[0];
    assert first in Split(t, '\n');
  }

  /** The reply yields no line at all exactly when it is all whitespace. */
  lemma NoLinesIffBlank(reply: string)
    ensures KeptLines(reply) == [] <==> AllWhitespace(reply)
  {
    if AllWhitespace(reply) {
      BlankReplyNoLines(reply);
    } else {
      TextReplyHasLines(reply);
    }
  }

  /** Index of the last line among the first `n` that matches, looking from the end. */
  function LastMatch(lines: seq<string>, n: nat): (r: Option<nat>)
    requires n <= |lines|
    ensures r.Some? ==> r.value < n && Matches(lines[r.value])
    ensures r.Some? ==> forall j :: r.value < j < n ==> !Matches(lines[j])
    ensures r.None? ==> forall j :: 0 <= j < n ==> !Matches(lines[j])
    decreases n
  {
    if n == 0 then None
    else if Matches(lines[n - 1]) then Some(n - 1)
    else LastMatch(lines, n - 1)
  }

  /**
   * The answer the handler settles on for the kept lines: `undefined` when
   * there are none, the trimmed last matching line when one matches, and
   * the last line untouched otherwise.
   */
  function Answer(lines: seq<string>): Option<string>
  {
    if lines == [] then None
    else match LastMatch(lines, |lines|)
      case Some(k) => Some(Trim(lines[k]))
      case None => Some(lines[|lines| - 1])
  }

  /** With no matching line the answer is the last line, not trimmed. */
  lemma AnswerFallback(lines: seq<string>)
    requires lines != []
    requires forall j :: 0 <= j < |lines| ==> !Matches(lines[j])
    ensures Answer(lines) == Some(lines[|lines| - 1])
  {
  }

  /** When line `k` matches and no later line does, the answer is line `k` trimmed. */
  lemma AnswerOnMatch(lines: seq<string>, k: nat)
    requires k < |lines| && Matches(lines[k])
    requires forall j :: k < j < |lines| ==> !Matches(lines[j])
    ensures Answer(lines) == Some(Trim(lines[k]))
  {
    var r := LastMatch(lines, |lines|);
    assert r.Some? && r.value == k;
  }

  /** The answer is undefined exactly when there is no line. */
  lemma AnswerNoneIff(lines: seq<string>)
    ensures Answer(lines).None? <==> lines == []
  {
  }

  /** Each answer comes about in one of the two ways the handler allows. */
  lemma AnswerCases(lines: seq<string>)
    requires lines != []
    ensures var a := Answer(lines).value;
      || (exists k :: 0 <= k < |lines| && Matches(lines[k]) && a == Trim(lines[k])
           && forall j :: k < j < |lines| ==> !Matches(lines[j]))
      || (a == lines[|lines| - 1] && forall j :: 0 <= j < |lines| ==> !Matches(lines[j]))
  {
  }

  /** A found answer still carries its signal after trimming. */
  lemma FoundAnswerMatches(lines: seq<string>)
    requires LastMatch(lines, |lines|).Some?
    ensures Answer(lines).Some? && Matches(Answer(lines).value)
  {
    MatchesUnderTrim(lines[LastMatch(lines, |lines|).value]);
  }

  /** Length of the longest line. */
  function Longest(lines: seq<string>): (n: nat)
    ensures forall k :: 0 <= k < |lines| ==> |lines[k]| <= n
    ensures lines != [] ==> exists k :: 0 <= k < |lines| && |lines[k]| == n
  {
    if lines == [] then 0
    else
      var m := Longest(lines[1..]);
      if |lines[0]| >= m then |lines[0]|
      else
        assert exists k :: 1 <= k < |lines| && |lines[k]| == m by {
          var k :| 0 <= k < |lines[1..]| && |lines[1..][k]| == m;
          assert lines[k + 1] == lines[1..][k];
        }
        m
  }

  /** The answer is a non-empty text no longer than the longest line. */
  lemma AnswerBounded(lines: seq<string>)
    requires forall k :: 0 <= k < |lines| ==> !AllWhitespace(lines[k])
    requires lines != []
    ensures Answer(lines).Some?
    ensures var a := Answer(lines).value; a != [] && |a| <= Longest(lines)
  {
    match LastMatch(lines, |lines|)
    case Some(k) =>
      BlankIffAllWhitespace(lines[k]);
    case None =>
  }

  /** A reply that is all whitespace gives no answer, and any other reply gives one. */
  lemma BlankReplyNoAnswer(reply: string)
    ensures Answer(KeptLines(reply)).None? <==> AllWhitespace(reply)
  {
    NoLinesIffBlank(reply);
    AnswerNoneIff(KeptLines(reply));
  }

  /** Any reply that is not all whitespace gets a non-empty answer no longer than its longest kept line. */
  lemma ReplyAnswerBounded(reply: string)
    requires !AllWhitespace(reply)
    ensures Answer(KeptLines(reply)).Some?
    ensures var a := Answer(KeptLines(reply)).value; a != [] && |a| <= Longest(KeptLines(reply))
  {
    var lines := KeptLines(reply);
    TextReplyHasLines(reply);
    KeptLinesShape(reply);
    forall k | 0 <= k < |lines| ensures !AllWhitespace(lines[k]) {
      BlankIffAllWhitespace(lines[k]);
    }
    AnswerBounded(lines);
  }

  /** When the last line matches, it is the answer, trimmed. */
  lemma AnswerOnLast(lines: seq<string>)
    requires lines != [] && Matches(lines[|lines| - 1])
    ensures Answer(lines) == Some(Trim(lines[|lines| - 1]))
  {
    AnswerOnMatch(lines, |lines| - 1);
  }

  /** Index of the first line from `i` on that matches, looking from the front. */
  function FirstMatch(lines: seq<string>, i: nat): (r: Option<nat>)
    requires i <= |lines|
    ensures r.Some? ==> i <= r.value < |lines| && Matches(lines[r.value])
    ensures r.Some? ==> forall j :: i <= j < r.value ==> !Matches(lines[j])
    ensures r.None? ==> forall j :: i <= j < |lines| ==> !Matches(lines[j])
    decreases |lines| - i
  {
    if i == |lines| then None
    else if Matches(lines[i]) then Some(i)
    else FirstMatch(lines, i + 1)
  }

  /** Looking from the front of the reversed lines finds the last matching line. */
  lemma ReversedFindsLast(lines: seq<string>, k: nat)
    requires k < |lines| && Matches(lines[k])
    requires forall j :: k < j < |lines| ==> !Matches(lines[j])
    ensures FirstMatch(Reversed(lines), 0) == Some(|lines| - 1 - k)
  {
    var rev := Reversed(lines);
    var n := |lines|;
    forall j | 0 <= j < n - 1 - k ensures !Matches(rev[j]) {
      ReversedAt(lines, j);
    }
    ReversedAt(lines, n - 1 - k);
    FirstMatchIs(rev, n - 1 - k);
  }

  /** When no line matches, neither does any line of the reversed lines. */
  lemma ReversedFindsNone(lines: seq<string>)
    requires forall j :: 0 <= j < |lines| ==> !Matches(lines[j])
    ensures FirstMatch(Reversed(lines), 0).None?
  {
    var rev := Reversed(lines);
    forall j | 0 <= j < |lines| ensures !Matches(rev[j]) {
      ReversedAt(lines, j);
    }
  }

  /** The first match is determined by the lines. */
  lemma FirstMatchIs(lines: seq<string>, i: nat)
    requires i < |lines| && Matches(lines[i])
    requires forall j :: 0 <= j < i ==> !Matches(lines[j])
    ensures FirstMatch(lines, 0) == Some(i)
  {
  }

  /** What the scan settles on: the first matching line, trimmed, or the default when none matches. */
  function ScanResult(lines: seq<string>, default: Option<string>): Option<string>
  {
    match FirstMatch(lines, 0)
    case Some(j) => Some(Trim(lines[j]))
    case None => default
  }

  /** `lines[lines.length - 1]`: the last line, or `undefined` when there is none. */
  function LastLine(lines: seq<string>): Option<string>
  {
    if lines == [] then None else Some(lines[|lines| - 1])
  }

  /** Scanning the reversed lines with the last line as the default gives the answer. */
  lemma ReversedScanIsAnswer(lines: seq<string>)
    ensures ScanResult(Reversed(lines), LastLine(lines)) == Answer(lines)
  {
    match LastMatch(lines, |lines|)
    case Some(k) => ReversedScanFinds(lines, k);
    case None => ReversedScanFallsBack(lines);
  }

  /** The scan of the reversed lines stops at the last matching line. */
  lemma ReversedScanFinds(lines: seq<string>, k: nat)
    requires k < |lines| && Matches(lines[k])
    requires forall j :: k < j < |lines| ==> !Matches(lines[j])
    ensures ScanResult(Reversed(lines), LastLine(lines)) == Some(Trim(lines[k]))
  {
    ReversedFindsLast(lines, k);
    ReversedFromEnd(lines, k);
  }

  /** With no matching line the scan of the reversed lines keeps the last line. */
  lemma ReversedScanFallsBack(lines: seq<string>)
    requires forall j :: 0 <= j < |lines| ==> !Matches(lines[j])
    ensures ScanResult(Reversed(lines), LastLine(lines)) == LastLine(lines)
  {
    ReversedFindsNone(lines);
  }

  /**
   * `for (const line of lines) if (line.match(...)) { finalAnswer = line.trim(); break; }`
   * over the already reversed lines.
   */
  method ScanForAnswer(lines: array<string>, default: Option<string>) returns (finalAnswer: Option<string>)
    ensures finalAnswer == ScanResult(lines[..], default)
  {
    finalAnswer := default;
    for i := 0 to lines.Length
      invariant forall j :: 0 <= j < i ==> !Matches(lines[j])
      invariant finalAnswer == default
    {
      if Matches(lines[i]) {
        finalAnswer := Some(Trim(lines[i]));
        FirstMatchIs(lines[..], i);
        return;
      }
    }
    assert FirstMatch(lines[..], 0).None?;
  }

  /**
   * The extraction over the kept lines as the handler runs it: copy them
   * into an array, take the last one as the default, reverse the array in
   * place, and scan it from the front.
   */
  method PickAnswer(kept: seq<string>) returns (finalAnswer: Option<string>)
    ensures finalAnswer == Answer(kept)
  {
    var lines := new string[|kept|](i requires 0 <= i < |kept| => kept[i]);
    assert lines[..] == kept;
    var default := if lines.Length > 0 then Some(lines[lines.Length - 1]) else None;
    assert default == LastLine(kept);
    Reverse(lines);
    finalAnswer := ScanForAnswer(lines, default);
    ReversedScanIsAnswer(kept);
  }

  /** The extraction applied to the model's whole reply. */
  method ExtractAnswer(fullResponse: string) returns (finalAnswer: Option<string>)
    ensures finalAnswer == Answer(KeptLines(fullResponse))
  {
    finalAnswer := PickAnswer(KeptLines(fullResponse));
  }
}
