# Vision assistant: the `/analyze` handler

The server of the vision assistant exposes one interesting endpoint, `POST /analyze`.
The client sends photographed exam questions as base64 images, and optionally a
teacher's spoken words as a transcription. The handler:

- picks the image list and a mode, `simple` or `complex`;
- rejects a request with no image (status 400);
- sends one image block per image and one text prompt to the model;
- picks the final answer out of the model's free-text reply and returns it with
  the whole reply and the mode.

This project models that handler in Dafny and proves what it promises.

- `JsString` has the ECMAScript pieces the handler relies on. `trim` and the
  regular expression class `\s` share one whitespace set; `split` on a
  one-character separator is proved against `join`.
- `JsArray` has `Array.prototype.reverse` as an in-place swap loop over an
  `array`, specified by the pure `Reversed`.
- `Patterns` writes the three case-insensitive, unanchored expressions out by
  hand as token lists. These are `question\s*\d+\s*réponse\s*[a-e]`, `pas sûr`
  and `recommence`. A greedy matcher (`GreedyLength`) is proved to agree exactly
  with what each expression denotes (`TokensCover`). A line matches exactly when
  its trimmed form does.
- `PatternFacts` proves which lines the answer expression accepts. Every line in
  the requested format `Question <number> réponse <letter>`, in any case,
  anywhere in the line and with any whitespace (none included) between its
  words, matches when the letter is a–e; a match needs at least one digit.
  A line holding `pas sûr` or `recommence` anywhere, in any case, matches. The line
  `Question 3 réponse F` matches none of the three expressions.
- `DataUrl` models the removal of a leading header made of `data:image/`, a
  `\w+` subtype and `;base64,`. Other image headers that section 3 of RFC 2397
  allows are left in place: subtypes with `+`, `-` or `.` (`svg+xml`,
  `x-icon`), media-type parameters, and an upper-case scheme.
- `AnswerExtractor` models the extraction in two forms:
  - the specification function `Answer(KeptLines(reply))`;
  - the handler's own imperative steps: copy the lines into an array, take the
    last one as the default, reverse the array in place, then scan it with a
    `for` loop that stops at the first hit (`ExtractAnswer`).

  The two are proved equal.
- `ReplyFacts` applies the extraction to replies built from the example lines:
  a last line in the requested format wins, and a reply that is just
  `Question 3 réponse F` falls back to that line.
- `Analyze` models image-list and mode selection, prompt and content assembly
  (a loop that pushes blocks, and a `+=` on the prompt), and the handler as a
  whole. The model call is a function parameter.

Some details of the extraction are easy to misread; the model follows the code
in each:

- The default answer, when no line matches, is the last kept line *as it stands*.
  It is not trimmed, so it keeps any leading whitespace. It cannot end in
  whitespace, because the whole reply is trimmed before it is split. The scan,
  by contrast, trims the line it picks.
- Lines are split on `'\n'` only, not on every line break.
- An empty or all-whitespace reply gives no answer. In the code this is
  `undefined`, modelled as `None`, so the `text` field is absent from the JSON reply.
- The answer expression allows *zero* or more whitespace between its words,
  not only at least one.

## Model

| member | source | states |
|---|---|---|
| JsString.IsWhitespace | server/server.js:122 | defined as the ECMAScript WhiteSpace and LineTerminator code points, the set both `trim` and `\s` use |
| JsString.IsBlank | server/server.js:122 | defined as: `trim` gives the empty string, which is what makes the filter callback `l => l.trim()` falsy |
| JsString.Trim | server/server.js:122 | `trim` returns the unique slice with only whitespace outside it and no whitespace at either of its ends |
| JsString.BlankIffAllWhitespace | server/server.js:122 | `l.trim()` is falsy exactly for the lines that are all whitespace, so the filter drops exactly those |
| JsString.TrimIdempotent | server/server.js:130 | trimming an already trimmed line changes nothing |
| JsString.Split | server/server.js:122 | `split('\n')` yields at least one piece, no piece holds a line feed, and joining the pieces with `'\n'` gives back the text |
| JsString.SplitJoin | server/server.js:122 | splitting undoes joining, for line-feed-free pieces |
| JsString.SplitUnique | server/server.js:122 | the pieces of a split are the only line-feed-free pieces whose join is the text |
| JsArray.Reverse | server/server.js:126 | `lines.reverse()` leaves the array holding its old contents in the opposite order |
| JsArray.ReversedTwice | server/server.js:126 | reversing twice restores the original order |
| Patterns.Tokens | server/server.js:127-129 | defined as the three expressions written out token by token: `question`, `\s*`, `\d+`, `\s*`, `réponse`, `\s*`, `[a-e]`; the word `pas sûr`; the word `recommence` |
| Patterns.TokenCovers | server/server.js:127-129 | defined as what one token denotes: the word in any case, any whitespace run (empty included), one or more ASCII digits, or one letter a–e in any case |
| Patterns.TokensCover | server/server.js:127-129 | defined as: the text splits into consecutive pieces, one per token, each denoted by its token |
| Patterns.FoldCase | server/server.js:127-129 | defined as the `i`-flag canonicalisation without `u`: upper case, with no non-ASCII code point becoming ASCII, for the letters the expressions use |
| Patterns.Occurs | server/server.js:127-129 | defined as: the expression matches at some position of the line, since none of the three is anchored |
| Patterns.Matches | server/server.js:127-129 | defined as the disjunction of the three `line.match` tests |
| Patterns.WhitespaceRunStops | server/server.js:127 | a `\s*` run takes every leading whitespace code point and stops at the first other one |
| Patterns.DigitRunStops | server/server.js:127 | a `\d+` run takes every leading ASCII digit and stops at the first other code point |
| Patterns.GreedyLength | server/server.js:127-129 | a match found by the matcher never runs past the end of the text |
| Patterns.PatternSeparated | server/server.js:127-129 | in each expression, a whitespace or digit run is always followed by text that cannot extend it, and every match starts and ends with a letter |
| Patterns.GreedySound | server/server.js:127-129 | what the greedy matcher takes is a text the token sequence denotes |
| Patterns.GreedyComplete | server/server.js:127-129 | for a separated sequence, every denoted prefix is exactly what the greedy matcher takes |
| Patterns.MatcherExact | server/server.js:127-129 | the matcher finds an expression with length `n` at the start of a text exactly when the first `n` code points are a text it denotes |
| Patterns.MatchEnds | server/server.js:127-129 | a match is non-empty and neither starts nor ends with whitespace |
| Patterns.MatchIsLocal | server/server.js:127-129 | a match depends only on the code points it covers, not on what follows them |
| Patterns.SliceKeepsMatch | server/server.js:127-130 | cutting whitespace off both ends of a line keeps every occurrence of an expression |
| Patterns.SliceAddsNoMatch | server/server.js:127-130 | an occurrence in a slice of a line is an occurrence in the line |
| Patterns.MatchesUnderTrim | server/server.js:127-130 | a line carries a signal exactly when its trimmed form does, so the trimmed answer still carries it |
| PatternFacts.FormatLineAtStart | server/server.js:127 | at the start of `Question <number> réponse <letter>`, in any case, the answer expression takes the whole line when the letter is a–e and fails otherwise |
| PatternFacts.FormatLineMatchesAnywhere | server/server.js:127 | a line holding the requested format with a letter a–e, surrounded by any text, matches |
| PatternFacts.SpacedFormatCovered | server/server.js:127 | the answer expression denotes `question`, a number, `réponse` and a letter a–e, in any case, with any whitespace between the words, none included |
| PatternFacts.SpacedFormatAtStart | server/server.js:127 | at the start of that format with any spacing, the answer expression takes the whole of it |
| PatternFacts.SpacedFormatMatchesAnywhere | server/server.js:127 | a line holding that format with any spacing, surrounded by any text, matches |
| PatternFacts.UnspacedExampleMatches | server/server.js:127 | `question12réponsea`, with no whitespace at all, matches |
| PatternFacts.DigitTaken | server/server.js:127 | a match of a token sequence holding `\d+` has at least one digit inside the matched text |
| PatternFacts.AnswerNeedsDigit | server/server.js:127 | a line the answer expression occurs in holds at least one digit |
| PatternFacts.NotSureAtStart | server/server.js:128 | `pas sûr` in any case matches at the start of a text, with exactly its own length |
| PatternFacts.NotSureAnywhere | server/server.js:128 | a line holding `pas sûr` anywhere, in any case, matches |
| PatternFacts.RestartAtStart | server/server.js:129 | `recommence` in any case matches at the start of a text, with exactly its own length |
| PatternFacts.RestartAnywhere | server/server.js:129 | a line holding `recommence` anywhere, in any case, matches |
| PatternFacts.WrongLetterAtStart | server/server.js:127 | at the start of `Question 3 réponse F` the answer expression fails on the letter |
| PatternFacts.WrongLetterNoAnswer | server/server.js:127 | the answer expression occurs nowhere in `Question 3 réponse F` |
| PatternFacts.WrongLetterNotUnsure | server/server.js:128 | `pas sûr` occurs nowhere in `Question 3 réponse F` |
| PatternFacts.WrongLetterNoRestart | server/server.js:129 | `recommence` occurs nowhere in `Question 3 réponse F` |
| PatternFacts.WrongLetterNotMatched | server/server.js:127-129 | `Question 3 réponse F` carries none of the three signals |
| DataUrl.IsHeader | server/server.js:92 | defined as what `^data:image\/\w+;base64,` denotes: `data:image/`, one or more ASCII letters, digits or underscores, then `;base64,` |
| DataUrl.HeaderLength | server/server.js:92 | defined as the length of `data:image/`, the longest `\w` run after it and `;base64,`, when the run is not empty and the marker follows it; otherwise none |
| DataUrl.WordRun | server/server.js:92 | the `\w+` run takes every leading ASCII letter, digit or underscore and stops at the first other code point |
| DataUrl.StripDataUrlPrefix | server/server.js:92 | the stripped data is always a suffix of the input |
| DataUrl.StripRemovesOnlyHeader | server/server.js:92 | whatever is removed is one `data:image/<subtype>;base64,` header |
| DataUrl.StripRemovesHeader | server/server.js:92 | a header at the start is removed in full and nothing after it |
| DataUrl.StripUnchangedIff | server/server.js:92 | the input comes back unchanged exactly when it does not start with a header |
| DataUrl.StripOnce | server/server.js:92 | of two headers in a row only the first is removed |
| DataUrl.BareBase64Unchanged | server/server.js:92 | bare base64 text passes through unchanged |
| DataUrl.SvgSubtypeKept | server/server.js:92 | a `data:image/svg+xml;base64,` header is not removed, since `+` is not a `\w` character |
| DataUrl.UpperCaseSchemeKept | server/server.js:92 | the expression is case-sensitive: a `DATA:` scheme is not removed |
| AnswerExtractor.LastLine | server/server.js:123 | defined as `lines[lines.length - 1]`: the last kept line, or none (`undefined`) when there is no line |
| AnswerExtractor.KeptLines | server/server.js:122 | defined as trimming the reply, splitting it on `'\n'` and keeping the pieces that are not blank |
| AnswerExtractor.Answer | server/server.js:122-133 | defined as: none for no line, the last matching line trimmed when one matches, else the last line as it stands |
| AnswerExtractor.KeepNonBlank | server/server.js:122 | the filter keeps exactly the pieces that are not all whitespace, and no more pieces than it was given |
| AnswerExtractor.KeepNonBlankAppend | server/server.js:122 | the filter keeps the order: filtering a concatenation concatenates the filtered parts |
| AnswerExtractor.KeptLinesShape | server/server.js:122 | every kept line is non-blank after trimming and holds no line feed |
| AnswerExtractor.NoLinesIffBlank | server/server.js:122 | no line is kept exactly when the reply is all whitespace |
| AnswerExtractor.LastMatch | server/server.js:126-132 | the index found is of a matching line with no matching line after it; none is found only when no line matches |
| AnswerExtractor.AnswerFallback | server/server.js:123-133 | with no matching line the answer is the last kept line, not trimmed |
| AnswerExtractor.AnswerOnMatch | server/server.js:126-132 | when line `k` matches and no later line does, the answer is line `k` trimmed |
| AnswerExtractor.AnswerNoneIff | server/server.js:122-123 | the answer is undefined exactly when no line is kept |
| AnswerExtractor.AnswerCases | server/server.js:122-133 | every answer is either the trim of the last matching line or, when none matches, the last line |
| AnswerExtractor.FoundAnswerMatches | server/server.js:127-130 | an answer found by the scan still carries its signal after trimming |
| AnswerExtractor.Longest | server/server.js:122-133 | the longest-line length bounds every line and is reached by one |
| AnswerExtractor.AnswerBounded | server/server.js:122-133 | for non-blank lines the answer is a non-empty text no longer than the longest line |
| AnswerExtractor.BlankReplyNoAnswer | server/server.js:122-133 | a reply gives no answer exactly when it is all whitespace |
| AnswerExtractor.ReplyAnswerBounded | server/server.js:122-133 | any other reply gets a non-empty answer no longer than its longest kept line |
| AnswerExtractor.AnswerOnLast | server/server.js:126-132 | when the last line matches, the answer is that line trimmed |
| ReplyFacts.FormatLineWins | server/server.js:126-132 | when the last line holds the requested format with a letter a–e, that line trimmed is the answer, whatever comes before it |
| ReplyFacts.SingleLineKept | server/server.js:122 | a reply that is one line, with no line feed and non-blank ends, keeps exactly that line |
| ReplyFacts.WrongLetterReplyAnswer | server/server.js:122-133 | a reply that is just `Question 3 réponse F` keeps that one line, and with no signal the line itself is the answer |
| AnswerExtractor.FirstMatch | server/server.js:126-132 | the index found from the front is of a matching line with no matching line before it; none is found only when no line matches |
| AnswerExtractor.ReversedFindsLast | server/server.js:126-132 | scanning the reversed lines from the front finds the last matching line |
| AnswerExtractor.ReversedFindsNone | server/server.js:126-133 | when no line matches, the scan of the reversed lines finds nothing |
| AnswerExtractor.ReversedScanIsAnswer | server/server.js:123-133 | scanning the reversed lines from the front, with the last line as the default, gives exactly the answer: the last matching line trimmed, or else the last line |
| AnswerExtractor.ScanForAnswer | server/server.js:126-133 | the `for`/`break` loop returns the first matching line trimmed, or keeps the default when none matches |
| AnswerExtractor.PickAnswer | server/server.js:123-133 | default, in-place reverse and scan together give the specification's answer |
| AnswerExtractor.ExtractAnswer | server/server.js:122-133 | the handler's extraction over the whole reply equals `Answer(KeptLines(reply))` |
| Analyze.Truthy | server/server.js:78-105 | defined as JavaScript truthiness of an optional string, as `transcription` and `image` are tested at :78, :79 and :105: present and not empty |
| Analyze.ImageBlockFor | server/server.js:91-101 | defined as an image block of source type `base64`, media type `image/jpeg` and the image's data with its header stripped |
| Analyze.IsContentFor | server/server.js:88-108 | defined as one `ImageBlockFor` block per image in list order, followed by exactly one text block holding the prompt |
| Analyze.ImageList | server/server.js:79 | defined as `images` when present, even empty, else a one-element list for a non-empty `image`, else the empty list |
| Analyze.ModeOf | server/server.js:78 | defined as complex when `images` has more than one entry or the transcription is non-empty, else simple |
| Analyze.Prompt | server/server.js:104-107 | defined as the mode's prompt, followed by `Le professeur dit : "`, the transcription and a closing quote when the transcription is non-empty |
| Analyze.ImageListEmptyIff | server/server.js:79-83 | the image list is empty exactly when `images` is an empty array, or absent with no non-empty `image` |
| Analyze.ImagesTakePrecedence | server/server.js:79 | a supplied `images` array is the list, even when empty, whatever `image` holds |
| Analyze.ModeIff | server/server.js:78-79 | the mode is complex exactly when more than one image is sent or a non-empty transcription is given |
| Analyze.PromptCarriesTranscription | server/server.js:104-107 | the prompt starts with the mode's prompt; a given transcription is read back from between `Le professeur dit : "` and the closing quote, and without one the prompt is the mode's prompt alone |
| Analyze.ContentUnique | server/server.js:88-108 | the images and the prompt determine the content sent |
| Analyze.ContentShape | server/server.js:88-108 | the only text block is the last one, and each image block carries its image's data with at most a header removed |
| Analyze.BuildContent | server/server.js:88-108 | the content is one base64 JPEG image block per image, in order, then one text block with the prompt |
| Analyze.HandleAnalyze | server/server.js:75-146 | an empty image list gives a 400 with `No image provided` and no model call; otherwise the model gets the content built, and the reply holds the extracted answer, the full reply and the mode |

## Left out

- HandleAnalyze: the `timing` field of the reply and the 500 path are not modelled. They depend on the wall clock and on exceptions from the model call, which is a parameter here.
- Express setup, CORS, the 50 MB body limit, the `/health` route and port binding (server/server.js:1-7, 65-68, 157-165) are HTTP plumbing.
- The model client and the `messages.create` call (server/server.js:3, 10, 111-118) become the `model` parameter, from the content sent to the text of the first reply block. The model name and `max_tokens` are not modelled.
- The wording of the two prompts (server/server.js:13-63) is the `Prompts` parameter; only which prompt is chosen is modelled.
- Console logging and `Date.now()` (server/server.js:72, 85, 119, 135-138) are side effects.
- Request fields of other JSON types are not modelled. `image`, each entry of `images` and `transcription` are strings or absent.
- Strings are sequences of code points, not UTF-16 units; the expressions and `trim` only look at code points of the Basic Multilingual Plane.
- Case folding covers only the letters that occur in the three expressions: ASCII letters, `é` and `û`. Every other code point folds to itself, which is what the `i` flag without `u` does for these expressions.
- The expressions are not modelled by a general regular expression engine. Each is a token list, and the greedy matcher is proved to agree exactly with what the list denotes.
