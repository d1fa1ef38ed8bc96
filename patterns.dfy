/**
 * The three case-insensitive, unanchored regular expressions the handler
 * tests each reply line against, written out by hand:
 *   /question\s*\d+\s*réponse\s*[a-e]/i   (the answer line)
 *   /pas sûr/i                           (the model is not sure)
 *   /recommence/i                        (the image could not be read)
 * Each is a sequence of tokens. `GreedyLength` matches them the way a
 * backtracking engine settles on these expressions; `TokensCover` is what
 * the expression denotes (some split of the text into one piece per token);
 * `MatcherExact` shows the two agree.
 */
module Patterns {
  import opened Wrappers
  import opened JsString

  /**
   * Case canonicalisation of a regular expression with the `i` flag and
   * without `u`: a code point is replaced by its upper case, except that a
   * non-ASCII code point never becomes an ASCII one. Only the letters that
   * occur in the three patterns matter, so the ASCII letters, é and û are
   * folded and every other code point is left as it is.
   */
  function FoldCase(c: char): char
  {
    if 'a' <= c <= 'z' then (c as int - 32) as char
    else if c == '\U{00E9}' then '\U{00C9}'
    else if c == '\U{00FB}' then '\U{00DB}'
    else c
  }

  /** `t` and `w` are equal once both are case-folded. */
  predicate SameIgnoringCase(t: string, w: string)
  {
    |t| == |w| && (t == [] || (FoldCase(t[0]) == FoldCase(w[0]) && SameIgnoringCase(t[1..], w[1..])))
  }

  /** `\d`: ASCII digits only. */
  predicate IsDigit(c: char)
  {
    '0' <= c <= '9'
  }

  predicate AllDigits(s: string)
  {
    forall k :: 0 <= k < |s| ==> IsDigit(s[k])
  }

  /** `[a-e]` under the `i` flag. */
  predicate IsChoice(c: char)
  {
    'a' <= c <= 'e' || 'A' <= c <= 'E'
  }

  const QuestionWord: string := "question"
  const ReponseWord: string := "r\U{00E9}ponse"
  const NotSureText: string := "pas s\U{00FB}r"
  const RestartText: string := "recommence"

  /** One piece of a pattern. */
  datatype Token =
    | Word(text: string)  // the text itself, ignoring case
    | Spaces              // `\s*`
    | Digits              // `\d+`
    | Choice              // `[a-e]`, ignoring case

  /** The three signals a reply line can carry. */
  datatype Pattern = AnswerLine | NotConfident | Illegible

  function Tokens(p: Pattern): seq<Token>
  {
    match p
    case AnswerLine => [Word(QuestionWord), Spaces, Digits, Spaces, Word(ReponseWord), Spaces, Choice]
    case NotConfident => [Word(NotSureText)]
    case Illegible => [Word(RestartText)]
  }

  /** Length of the leading run of whitespace of `s`. */
  function WhitespaceRun(s: string): (n: nat)
    ensures n <= |s|
  {
    if s != [] && IsWhitespace(s[0]) then 1 + WhitespaceRun(s[1..]) else 0
  }

  /** The run is all whitespace code points, and it stops only at the end or at a code point that is not one. */
  lemma {:induction false} WhitespaceRunStops(s: string)
    ensures AllWhitespace(s[..WhitespaceRun(s)])
    ensures WhitespaceRun(s) < |s| ==> !IsWhitespace(s[WhitespaceRun(s)])
    decreases |s|
  {
    if s != [] && IsWhitespace(s[0]) {
      WhitespaceRunStops(s[1..]);
      var n := WhitespaceRun(s);
      assert s[..n] == [s[0]] + s[1..][..n - 1];
    }
  }

  /** Length of the leading run of digits of `s`. */
  function DigitRun(s: string): (n: nat)
    ensures n <= |s|
  {
    if s != [] && IsDigit(s[0]) then 1 + DigitRun(s[1..]) else 0
  }

  /** The run is all digits, and it stops only at the end or at a code point that is not one. */
  lemma {:induction false} DigitRunStops(s: string)
    ensures AllDigits(s[..DigitRun(s)])
    ensures DigitRun(s) < |s| ==> !IsDigit(s[DigitRun(s)])
    decreases |s|
  {
    if s != [] && IsDigit(s[0]) {
      DigitRunStops(s[1..]);
      var n := DigitRun(s);
      assert s[..n] == [s[0]] + s[1..][..n - 1];
    }
  }

  /** What one token consumes at the start of `s`; runs take all they can. */
  function TokenLength(t: Token, s: string): (r: Option<nat>)
    ensures r.Some? ==> r.value <= |s|
  {
    match t
    case Word(w) => if |w| <= |s| && SameIgnoringCase(s[..|w|], w) then Some(|w|) else None
    case Spaces => Some(WhitespaceRun(s))
    case Digits => if DigitRun(s) > 0 then Some(DigitRun(s)) else None
    case Choice => if s != [] && IsChoice(s[0]) then Some(1) else None
  }

  /** Length of the match of `ts` at the start of `s`, token after token. */
  function GreedyLength(ts: seq<Token>, s: string): (r: Option<nat>)
    ensures r.Some? ==> r.value <= |s|
    decreases |ts|
  {
    if ts == [] then Some(0)
    else
      match TokenLength(ts[0], s)
      case None => None
      case Some(k) =>
        match GreedyLength(ts[1..], s[k..])
        case None => None
        case Some(m) => Some(k + m)
  }

  /** Length of the match of pattern `p` at the start of `s`, if any. */
  function MatchLength(p: Pattern, s: string): Option<nat>
  {
    GreedyLength(Tokens(p), s)
  }

  /** `x`, all of it, is a text that token `t` denotes. */
  predicate TokenCovers(t: Token, x: string)
  {
    match t
    case Word(w) => SameIgnoringCase(x, w)
    case Spaces => AllWhitespace(x)
    case Digits => x != [] && AllDigits(x)
    case Choice => |x| == 1 && IsChoice(x[0])
  }

  /** `x`, all of it, is a text that the token sequence denotes: one piece per token. */
  ghost predicate TokensCover(ts: seq<Token>, x: string)
    decreases |ts|
  {
    if ts == [] then x == []
    else exists k :: 0 <= k <= |x| && TokenCovers(ts[0], x[..k]) && TokensCover(ts[1..], x[k..])
  }

  /** Every text `ts` denotes is non-empty and starts with a letter. */
  predicate StartsWithLetter(ts: seq<Token>)
  {
    && ts != []
    && (ts[0].Choice? || (ts[0].Word? && ts[0].text != [] && 'a' <= ts[0].text[0] <= 'z'))
  }

  /** Every text `ts` denotes is non-empty and ends with a letter. */
  predicate EndsWithLetter(ts: seq<Token>)
  {
    && ts != []
    && var t := ts[|ts| - 1];
       t.Choice? || (t.Word? && t.text != [] && 'a' <= t.text[|t.text| - 1] <= 'z')
  }

  /**
   * Each run token is followed by text that cannot extend the run, so a
   * greedy run never takes what a later token needs.
   */
  predicate Separated(ts: seq<Token>)
    decreases |ts|
  {
    || ts == []
    || (&& (ts[0].Spaces? ==> |ts| > 1 && (ts[1].Digits? || StartsWithLetter(ts[1..])))
        && (ts[0].Digits? ==> StartsWithLetter(ts[1..]) || (|ts| > 2 && ts[1].Spaces? && StartsWithLetter(ts[2..])))
        && Separated(ts[1..]))
  }

  /** `line.match(p)` finds `p` at position `i` of `line`. */
  predicate MatchesAt(p: Pattern, line: string, i: int)
  {
    0 <= i <= |line| && MatchLength(p, line[i..]).Some?
  }

  /** `line.match(p)` is not null: `p` matches somewhere in `line`. */
  predicate Occurs(p: Pattern, line: string)
  {
    exists i | 0 <= i <= |line| :: MatchesAt(p, line, i)
  }

  /** The test the handler applies to each line. */
  predicate Matches(line: string)
  {
    Occurs(AnswerLine, line) || Occurs(NotConfident, line) || Occurs(Illegible, line)
  }

  // ---- letters and runs

  /** A code point that folds like an ASCII letter is neither whitespace nor a digit. */
  lemma FoldsLikeLetter(c: char, x: char)
    requires 'a' <= x <= 'z' && FoldCase(c) == FoldCase(x)
    ensures !IsWhitespace(c) && !IsDigit(c)
  {
  }

  /** Text equal to a word ignoring case starts like the word. */
  lemma FirstLetter(t: string, w: string)
    requires SameIgnoringCase(t, w) && w != []
    ensures t != [] && FoldCase(t[0]) == FoldCase(w[0])
  {
  }

  /** Text equal to a word ignoring case ends like the word. */
  lemma {:induction false} LastLetter(t: string, w: string)
    requires SameIgnoringCase(t, w) && w != []
    ensures |t| == |w| && FoldCase(t[|t| - 1]) == FoldCase(w[|w| - 1])
    decreases |t|
  {
    if |t| > 1 {
      LastLetter(t[1..], w[1..]);
    }
  }

  /** A whitespace run that stops at a non-whitespace code point (or the end) is the run. */
  lemma WhitespaceRunIs(s: string, n: nat)
    requires n <= |s| && AllWhitespace(s[..n])
    requires n < |s| ==> !IsWhitespace(s[n])
    ensures WhitespaceRun(s) == n
  {
    var m := WhitespaceRun(s);
    WhitespaceRunStops(s);
    forall k | 0 <= k < n ensures IsWhitespace(s[k]) { assert s[..n][k] == s[k]; }
    forall k | 0 <= k < m ensures IsWhitespace(s[k]) { assert s[..m][k] == s[k]; }
  }

  /** A digit run that stops at a non-digit (or the end) is the run. */
  lemma DigitRunIs(s: string, n: nat)
    requires n <= |s| && AllDigits(s[..n])
    requires n < |s| ==> !IsDigit(s[n])
    ensures DigitRun(s) == n
  {
    var m := DigitRun(s);
    DigitRunStops(s);
    forall k | 0 <= k < n ensures IsDigit(s[k]) { assert s[..n][k] == s[k]; }
    forall k | 0 <= k < m ensures IsDigit(s[k]) { assert s[..m][k] == s[k]; }
  }

  // ---- what the denoted texts look like at their ends

  /** The piece of a denoted text that the first token covers. */
  lemma FirstPiece(ts: seq<Token>, x: string) returns (k: nat)
    requires ts != [] && TokensCover(ts, x)
    ensures k <= |x| && TokenCovers(ts[0], x[..k]) && TokensCover(ts[1..], x[k..])
  {
    k :| 0 <= k <= |x| && TokenCovers(ts[0], x[..k]) && TokensCover(ts[1..], x[k..]);
  }

  /** Texts of a sequence that starts with a letter start with a letter. */
  lemma LetterFirst(ts: seq<Token>, x: string)
    requires StartsWithLetter(ts) && TokensCover(ts, x)
    ensures x != [] && !IsWhitespace(x[0]) && !IsDigit(x[0])
  {
    var k := FirstPiece(ts, x);
    if ts[0].Word? {
      FirstLetter(x[..k], ts[0].text);
      assert x[..k][0] == x[0];
      FoldsLikeLetter(x[0], ts[0].text[0]);
    } else {
      assert x[..k][0] == x[0];
    }
  }

  /** Texts of a sequence that ends with a letter end with a letter. */
  lemma {:induction false} LetterLast(ts: seq<Token>, x: string)
    requires EndsWithLetter(ts) && TokensCover(ts, x)
    ensures x != [] && !IsWhitespace(x[|x| - 1])
    decreases |ts|
  {
    var k := FirstPiece(ts, x);
    if |ts| == 1 {
      OnlyPiece(ts, x, k);
      OnePieceLast(ts[|ts| - 1], x);
    } else {
      assert ts[1..][|ts[1..]| - 1] == ts[|ts| - 1];
      LetterLast(ts[1..], x[k..]);
      assert x[k..][|x[k..]| - 1] == x[|x| - 1];
    }
  }

  /** With one token, its piece is the whole text. */
  lemma OnlyPiece(ts: seq<Token>, x: string, k: nat)
    requires |ts| == 1 && k <= |x|
    requires TokenCovers(ts[0], x[..k]) && TokensCover(ts[1..], x[k..])
    ensures TokenCovers(ts[|ts| - 1], x)
  {
    assert ts[1..] == [];
    assert x[k..] == [];
    assert x[..k] == x;
  }

  /** The text of a letter-final token ends with a letter. */
  lemma OnePieceLast(t: Token, x: string)
    requires TokenCovers(t, x)
    requires t.Choice? || (t.Word? && t.text != [] && 'a' <= t.text[|t.text| - 1] <= 'z')
    ensures x != [] && !IsWhitespace(x[|x| - 1])
  {
    if t.Word? {
      LastLetter(x, t.text);
      FoldsLikeLetter(x[|x| - 1], t.text[|t.text| - 1]);
    }
  }

  /** What follows a run token in a separated sequence cannot extend the run. */
  lemma AfterRun(ts: seq<Token>, x: string)
    requires |ts| > 1 && Separated(ts) && (ts[0].Spaces? || ts[0].Digits?)
    requires TokensCover(ts[1..], x)
    ensures x != []
    ensures ts[0].Spaces? ==> !IsWhitespace(x[0])
    ensures ts[0].Digits? ==> !IsDigit(x[0])
  {
    var rest := ts[1..];
    if StartsWithLetter(rest) {
      LetterFirst(rest, x);
    } else if ts[0].Spaces? {
      var k := FirstPiece(rest, x);
      assert x[..k][0] == x[0];
    } else {
      var k := FirstPiece(rest, x);
      assert rest[1..] == ts[2..];
      if k == 0 {
        LetterFirst(rest[1..], x[k..]);
      } else {
        assert x[..k][0] == x[0];
      }
    }
  }

  // ---- the greedy matcher decides the expressions exactly

  /** What a token consumes is a text it denotes. */
  lemma TokenSound(t: Token, s: string, k: nat)
    requires TokenLength(t, s) == Some(k)
    ensures TokenCovers(t, s[..k])
  {
    match t
    case Word(_) =>
    case Spaces => WhitespaceRunStops(s);
    case Digits => DigitRunStops(s);
    case Choice =>
  }

  /** What the greedy matcher consumes is a text the sequence denotes. */
  lemma {:induction false} GreedySound(ts: seq<Token>, s: string, n: nat)
    requires GreedyLength(ts, s) == Some(n)
    ensures TokensCover(ts, s[..n])
    decreases |ts|
  {
    if ts != [] {
      var k := TokenLength(ts[0], s).value;
      var m := GreedyLength(ts[1..], s[k..]).value;
      TokenSound(ts[0], s, k);
      GreedySound(ts[1..], s[k..], m);
      assert s[..n][..k] == s[..k];
      assert s[..n][k..] == s[k..][..m];
    }
  }

  /** In a separated sequence, the first token consumes exactly its piece of any denoted prefix. */
  lemma TokenComplete(ts: seq<Token>, s: string, n: nat, k: nat)
    requires ts != [] && Separated(ts) && k <= n <= |s|
    requires TokenCovers(ts[0], s[..n][..k]) && TokensCover(ts[1..], s[..n][k..])
    ensures TokenLength(ts[0], s) == Some(k)
  {
    assert s[..n][..k] == s[..k];
    match ts[0]
    case Word(w) =>
    case Choice =>
    case Spaces =>
      AfterRun(ts, s[..n][k..]);
      assert s[..n][k..][0] == s[k];
      WhitespaceRunIs(s, k);
    case Digits =>
      AfterRun(ts, s[..n][k..]);
      assert s[..n][k..][0] == s[k];
      DigitRunIs(s, k);
  }

  /** In a separated sequence, every denoted prefix is the greedy match. */
  lemma {:induction false} GreedyComplete(ts: seq<Token>, s: string, n: nat)
    requires Separated(ts) && n <= |s| && TokensCover(ts, s[..n])
    ensures GreedyLength(ts, s) == Some(n)
    decreases |ts|
  {
    if ts != [] {
      var k := FirstTokenComplete(ts, s, n);
      GreedyComplete(ts[1..], s[k..], n - k);
      GreedyStep(ts, s, k, n - k);
      assert k + (n - k) == n;
    }
  }

  /** In a separated sequence, the first token takes its piece of a denoted prefix, and the rest denote what is left. */
  lemma FirstTokenComplete(ts: seq<Token>, s: string, n: nat) returns (k: nat)
    requires ts != [] && Separated(ts) && n <= |s| && TokensCover(ts, s[..n])
    ensures k <= n && TokenLength(ts[0], s) == Some(k)
    ensures Separated(ts[1..]) && TokensCover(ts[1..], s[k..][..n - k])
  {
    var x := s[..n];
    k := FirstPiece(ts, x);
    TokenComplete(ts, s, n, k);
    assert x[k..] == s[k..][..n - k];
  }

  /** One step of the greedy matcher: the first token, then the rest. */
  lemma GreedyStep(ts: seq<Token>, s: string, k: nat, m: nat)
    requires ts != [] && TokenLength(ts[0], s) == Some(k)
    requires GreedyLength(ts[1..], s[k..]) == Some(m)
    ensures GreedyLength(ts, s) == Some(k + m)
  {
    assert TokenLength(ts[0], s).value == k;
  }

  /** One step of the greedy matcher: when the rest fails after the first token, the whole fails. */
  lemma GreedyStepFails(ts: seq<Token>, s: string, k: nat)
    requires ts != [] && TokenLength(ts[0], s) == Some(k)
    requires GreedyLength(ts[1..], s[k..]).None?
    ensures GreedyLength(ts, s).None?
  {
  }

  /** The three patterns are separated. */
  lemma PatternSeparated(p: Pattern)
    ensures Separated(Tokens(p))
    ensures StartsWithLetter(Tokens(p)) && EndsWithLetter(Tokens(p))
  {
    var ts := Tokens(p);
    if p.AnswerLine? {
      assert ts[6..] == [Choice];
      assert Separated(ts[6..]) by { assert ts[6..][1..] == []; }
      assert ts[5..][1..] == ts[6..];
      assert Separated(ts[5..]);
      assert ts[4..][1..] == ts[5..];
      assert Separated(ts[4..]);
      assert ts[3..][1..] == ts[4..];
      assert Separated(ts[3..]);
      assert ts[2..][1..] == ts[3..] && ts[2..][2..] == ts[4..];
      assert Separated(ts[2..]);
      assert ts[1..][1..] == ts[2..];
      assert Separated(ts[1..]);
    } else {
      assert ts[1..] == [];
    }
  }

  /**
   * The matcher finds pattern `p` at the start of `s` with length `n`
   * exactly when `s[..n]` is a text the expression denotes.
   */
  lemma MatcherExact(p: Pattern, s: string, n: nat)
    requires n <= |s|
    ensures MatchLength(p, s) == Some(n) <==> TokensCover(Tokens(p), s[..n])
  {
    PatternSeparated(p);
    if MatchLength(p, s) == Some(n) {
      GreedySound(Tokens(p), s, n);
    }
    if TokensCover(Tokens(p), s[..n]) {
      GreedyComplete(Tokens(p), s, n);
    }
  }

  // ---- matches are local and survive trimming

  /** A match starts and ends with a code point that is not whitespace. */
  lemma MatchEnds(p: Pattern, s: string, n: nat)
    requires MatchLength(p, s) == Some(n)
    ensures 1 <= n <= |s| && !IsWhitespace(s[0]) && !IsWhitespace(s[n - 1])
  {
    PatternSeparated(p);
    GreedySound(Tokens(p), s, n);
    LetterFirst(Tokens(p), s[..n]);
    LetterLast(Tokens(p), s[..n]);
    assert s[..n][0] == s[0] && s[..n][n - 1] == s[n - 1];
  }

  /** A match depends only on the text it covers. */
  lemma MatchIsLocal(p: Pattern, s: string, t: string, n: nat)
    requires MatchLength(p, s) == Some(n)
    requires n <= |t| && t[..n] == s[..n]
    ensures MatchLength(p, t) == Some(n)
  {
    PatternSeparated(p);
    GreedySound(Tokens(p), s, n);
    GreedyComplete(Tokens(p), t, n);
  }

  /** The `n` code points at offset `i` of `line[lo..hi]` are those at offset `lo + i` of `line`. */
  lemma SliceOfSlice(line: string, lo: nat, hi: nat, i: nat, n: nat)
    requires lo <= hi <= |line| && i + n <= hi - lo
    ensures line[lo..hi][i..][..n] == line[lo + i..][..n]
  {
    assert line[lo..hi][i..][..n] == line[lo + i..lo + i + n];
    assert line[lo + i..][..n] == line[lo + i..lo + i + n];
  }

  /** A match inside `line[lo..hi]` is a match of that slice. */
  lemma MatchIntoSlice(p: Pattern, line: string, i: nat, n: nat, lo: nat, hi: nat)
    requires i <= |line| && MatchLength(p, line[i..]) == Some(n)
    requires lo <= i && i + n <= hi <= |line|
    ensures MatchLength(p, line[lo..hi][i - lo..]) == Some(n)
  {
    MatchEnds(p, line[i..], n);
    SliceOfSlice(line, lo, hi, i - lo, n);
    MatchIsLocal(p, line[i..], line[lo..hi][i - lo..], n);
  }

  /** A match at offset `i` of `line[lo..hi]` is a match of `line` at `lo + i`. */
  lemma MatchOutOfSlice(p: Pattern, line: string, lo: nat, hi: nat, i: nat, n: nat)
    requires lo <= hi <= |line| && i <= hi - lo
    requires MatchLength(p, line[lo..hi][i..]) == Some(n)
    ensures MatchLength(p, line[lo + i..]) == Some(n)
  {
    MatchEnds(p, line[lo..hi][i..], n);
    SliceOfSlice(line, lo, hi, i, n);
    MatchIsLocal(p, line[lo..hi][i..], line[lo + i..], n);
  }

  /** A match at position `i` of `line` is an occurrence. */
  lemma OccursAt(p: Pattern, line: string, i: nat)
    requires i <= |line| && MatchLength(p, line[i..]).Some?
    ensures Occurs(p, line)
  {
    assert MatchesAt(p, line, i);
  }

  /** Some position of `line` where `p` matches, and the length of that match. */
  lemma OccurrenceWitness(p: Pattern, line: string) returns (i: nat, n: nat)
    requires Occurs(p, line)
    ensures i <= |line| && MatchLength(p, line[i..]) == Some(n)
  {
    var j :| 0 <= j <= |line| && MatchesAt(p, line, j);
    i, n := j, MatchLength(p, line[j..]).value;
  }

  /** A match in `line` lies inside any slice outside which `line` is all whitespace. */
  lemma MatchInsideSlice(p: Pattern, line: string, i: nat, n: nat, lo: nat, hi: nat)
    requires i <= |line| && MatchLength(p, line[i..]) == Some(n)
    requires lo <= hi <= |line|
    requires forall k :: 0 <= k < lo ==> IsWhitespace(line[k])
    requires forall k :: hi <= k < |line| ==> IsWhitespace(line[k])
    ensures lo <= i && i + n <= hi
  {
    MatchEnds(p, line[i..], n);
    assert line[i..][0] == line[i] && line[i..][n - 1] == line[i + n - 1];
  }

  /** Cutting whitespace off both ends of a line keeps every match. */
  lemma SliceKeepsMatch(p: Pattern, line: string, lo: nat, hi: nat)
    requires lo <= hi <= |line| && Occurs(p, line)
    requires forall k :: 0 <= k < lo ==> IsWhitespace(line[k])
    requires forall k :: hi <= k < |line| ==> IsWhitespace(line[k])
    ensures Occurs(p, line[lo..hi])
  {
    var i, n := OccurrenceWitness(p, line);
    MatchInsideSlice(p, line, i, n, lo, hi);
    MatchIntoSlice(p, line, i, n, lo, hi);
    OccursAt(p, line[lo..hi], i - lo);
  }

  /** A match in a slice of a line is a match in the line. */
  lemma SliceAddsNoMatch(p: Pattern, line: string, lo: nat, hi: nat)
    requires lo <= hi <= |line| && Occurs(p, line[lo..hi])
    ensures Occurs(p, line)
  {
    var i, n := OccurrenceWitness(p, line[lo..hi]);
    MatchOutOfSlice(p, line, lo, hi, i, n);
    OccursAt(p, line, lo + i);
  }

  /** The trimmed part of a line and the whitespace around it. */
  lemma TrimIsSlice(line: string) returns (lo: nat, hi: nat)
    ensures lo <= hi <= |line| && Trim(line) == line[lo..hi]
    ensures forall k :: 0 <= k < lo ==> IsWhitespace(line[k])
    ensures forall k :: hi <= k < |line| ==> IsWhitespace(line[k])
  {
    lo, hi := TrimOffset(line), TrimOffset(line) + |Trim(line)|;
    forall k | 0 <= k < lo ensures IsWhitespace(line[k]) { assert line[..lo][k] == line[k]; }
    forall k | hi <= k < |line| ensures IsWhitespace(line[k]) { assert line[hi..][k - hi] == line[k]; }
  }

  /** A line matches exactly when its trimmed form does. */
  lemma MatchesUnderTrim(line: string)
    ensures Matches(Trim(line)) <==> Matches(line)
  {
    var lo, hi := TrimIsSlice(line);
    forall p: Pattern | Occurs(p, line) ensures Occurs(p, line[lo..hi]) {
      SliceKeepsMatch(p, line, lo, hi);
    }
    forall p: Pattern | Occurs(p, line[lo..hi]) ensures Occurs(p, line) {
      SliceAddsNoMatch(p, line, lo, hi);
    }
  }
}
