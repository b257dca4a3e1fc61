# Whisper transcript converter

A Dafny model of the transcript transformer of the transcript agent. It turns
the JSON that whisper.cpp writes into the transcription-object format of the
OpenAI speech API. Each whisper.cpp segment has an `HH:MM:SS,mmm` timestamp pair,
a millisecond offset pair and a text. The converter produces:

- a document header: the task (`translate` or `transcribe`), the detected
  language, the duration, and the full text of all segments with its
  whitespace normalised;
- one output segment per source segment, holding its index, its seek position,
  its start and end in seconds, its trimmed text, and three heuristic
  estimates. The estimates are an average log probability, a compression
  ratio and a no-speech probability, computed from the text alone.

The project has four modules:

- `JsText` (`text.dfy`): the ECMAScript string operations the converter
  relies on. These are `trim`, `replace(/\s+/g, ' ')`, `split(/\s+/)`,
  `join(' ')` and case mapping, over the exact `\s` character set.
- `Timestamp` (`timestamp.dfy`): `split` on one character, decimal numerals,
  and `parseTimestamp`, whose result is a finite number or NaN.
- `Estimators` (`estimators.dfy`): `estimateLogProb`,
  `estimateCompressionRatio`, `estimateNoSpeechProb` and
  `generatePlaceholderTokens`.
- `Transformers` (`transformers.dfy`):
  - the input and output records, shaped after the zod schemas;
  - the per-segment mapping, the header and the full text;
  - `convertWhisperToTranscriptionObject`, `batchConvertWhisperTranscripts`
    and `convertWhisperJsonToTranscriptionObject`.

Every operation is a pure function. The properties are its `ensures` clauses
and the lemmas beside it.

## Model

All source paths are under `transcript_agent/src/transformers/`.

| member | source | states |
|---|---|---|
| Timestamp.SplitOn | transcript_agent/src/transformers/transcription.transformers.ts:81-82 | splitting gives at least one piece and no piece holds the separator |
| Timestamp.JoinSplitOn | transcript_agent/src/transformers/transcription.transformers.ts:81-82 | splitting loses nothing: joining the pieces with the separator gives back the string |
| Timestamp.NumeralValue | transcript_agent/src/transformers/transcription.transformers.ts:82-83 | `Number` of a digit string is 0 exactly when every digit is `0` (PaddedValue shows leading zeros are ignored) |
| Timestamp.WellFormedTimestamp | transcript_agent/src/transformers/transcription.transformers.ts:80-84 | the timestamps the parser reads as a finite number: hours, minutes and seconds before the first comma are digit strings, so are the milliseconds after it, and the text holds a comma |
| Timestamp.ParseTimestamp | transcript_agent/src/transformers/transcription.transformers.ts:80-84 | the result is a finite number exactly when hours, minutes, seconds (before the first comma) and milliseconds (after it) are digit strings, and NaN otherwise; a finite result is never negative |
| Timestamp.ParseFields | transcript_agent/src/transformers/transcription.transformers.ts:80-84 | `h:m:s,ms` from any four digit strings is well formed and parses to h·3600 + m·60 + s + ms/1000 |
| Timestamp.ParseFormat | transcript_agent/src/transformers/transcription.transformers.ts:80-84 | a timestamp printed in the zero-padded `%02d:%02d:%02d,%03d` form parses back to the seconds its fields denote |
| Timestamp.NumeralRoundTrip | transcript_agent/src/transformers/transcription.transformers.ts:82-83 | reading the decimal numeral of n gives back n |
| Timestamp.PaddedValue | transcript_agent/src/transformers/transcription.transformers.ts:82-83 | leading zeros do not change the value a numeral is read as |
| Timestamp.ParseExampleMixed | transcript_agent/src/transformers/transcription.transformers.ts:80-84 | `01:02:03,500` is 3723.5 seconds |
| Timestamp.ParseExampleZero | transcript_agent/src/transformers/transcription.transformers.ts:80-84 | `00:00:00,000` is 0 seconds |
| Timestamp.ParseExampleNinety | transcript_agent/src/transformers/transcription.transformers.ts:80-84 | `00:01:30,000` is 90 seconds |
| Timestamp.ParseWithoutComma | transcript_agent/src/transformers/transcription.transformers.ts:81-83 | without a comma the milliseconds are `undefined` and the result is NaN |
| Timestamp.SecondsOrder | transcript_agent/src/transformers/transcription.transformers.ts:83 | for minutes and seconds below 60 and milliseconds below 1000, one reading gives fewer seconds than another exactly when it comes first by hours, then minutes, seconds and milliseconds |
| JsText.NonWs | transcript_agent/src/transformers/transcription.transformers.ts:91-95 | the non-whitespace characters of a text hold no whitespace and are no longer than the text |
| JsText.NonWsAppend | transcript_agent/src/transformers/transcription.transformers.ts:91-95 | the non-whitespace content of a concatenation is the concatenation of the contents |
| JsText.TrimStart | transcript_agent/src/transformers/transcription.transformers.ts:92 | the result starts with a non-whitespace character and keeps the last character of the text |
| JsText.TrimStartSplit | transcript_agent/src/transformers/transcription.transformers.ts:92 | the text is a whitespace-only prefix followed by its left-trimmed form |
| JsText.TrimParts | transcript_agent/src/transformers/transcription.transformers.ts:92 | the text is whitespace, then its trimmed form, then whitespace |
| JsText.TrimEnd | transcript_agent/src/transformers/transcription.transformers.ts:92 | the result is a prefix of the text that does not end in whitespace, and only whitespace follows it |
| JsText.Trim | transcript_agent/src/transformers/transcription.transformers.ts:92 | `trim` leaves no whitespace at either end and never lengthens the text |
| JsText.TrimIsSlice | transcript_agent/src/transformers/transcription.transformers.ts:92 | the trimmed text is a contiguous slice of the text, with only whitespace before and after it |
| JsText.TrimEmptyIffWs | transcript_agent/src/transformers/transcription.transformers.ts:149-151 | `trim` gives the empty string exactly when the text is whitespace only |
| JsText.TrimIgnoresPadding | transcript_agent/src/transformers/transcription.transformers.ts:92 | whitespace added at either end does not change the trimmed text |
| JsText.TrimOfTrimmed | transcript_agent/src/transformers/transcription.transformers.ts:95 | a text without edge whitespace is its own trim |
| JsText.Collapse | transcript_agent/src/transformers/transcription.transformers.ts:94 | `replace(/\s+/g, ' ')` leaves only single spaces as whitespace, is empty exactly when the text is, and keeps whitespace at each end exactly where the text had it; what it does to a run inside the text is stated by `JsText.CollapseAtRun` |
| JsText.CollapseKeepsContent | transcript_agent/src/transformers/transcription.transformers.ts:94 | collapsing keeps every non-whitespace character, in order |
| JsText.CollapseFixpoint | transcript_agent/src/transformers/transcription.transformers.ts:94 | collapsing leaves a text unchanged exactly when its only whitespace is single spaces |
| JsText.CollapseIdempotent | transcript_agent/src/transformers/transcription.transformers.ts:94 | collapsing twice is collapsing once |
| JsText.CollapseAppend | transcript_agent/src/transformers/transcription.transformers.ts:94 | collapsing a text that ends in a non-whitespace character and then anything is collapsing the two parts separately |
| JsText.CollapseAtRun | transcript_agent/src/transformers/transcription.transformers.ts:94 | any whitespace run between two non-whitespace characters becomes exactly one space, and both sides collapse on their own |
| JsText.SplitWs | transcript_agent/src/transformers/transcription.transformers.ts:154 | `split(/\s+/)` gives whitespace-free pieces, empty at an end exactly when the text starts or ends with whitespace, and non-empty in between; that each inner run is one boundary is stated by `JsText.SplitAtRun` |
| JsText.JoinSplitIsCollapse | transcript_agent/src/transformers/transcription.transformers.ts:93-94 | joining the pieces of `split(/\s+/)` with single spaces is `replace(/\s+/g, ' ')` |
| JsText.SplitTrimmedWords | transcript_agent/src/transformers/transcription.transformers.ts:154 | on a trimmed, non-empty text no piece of the split is empty |
| JsText.SplitJoinWords | transcript_agent/src/transformers/transcription.transformers.ts:183 | words joined by single spaces split back into those words |
| JsText.SplitAppendAtWs | transcript_agent/src/transformers/transcription.transformers.ts:154 | splitting a text that ends in a non-whitespace character, followed by a text that starts with whitespace, gives the pieces of the first and then the pieces of the second after its leading empty piece |
| JsText.SplitAtRun | transcript_agent/src/transformers/transcription.transformers.ts:154 | any whitespace run between two non-whitespace characters is exactly one boundary between pieces: the pieces of the whole are the pieces of each side |
| JsText.WordsOf | transcript_agent/src/transformers/transcription.transformers.ts:154 | the words of a text, `trim()` then `split(/\s+/)`, are non-empty and whitespace-free, and there are none exactly when the text is blank |
| JsText.WordsOfAtRun | transcript_agent/src/transformers/transcription.transformers.ts:91-95 | the words of two texts with whitespace between them are the words of the first followed by the words of the second |
| JsText.TrimCollapseIsWords | transcript_agent/src/transformers/transcription.transformers.ts:94-95 | collapsing and then trimming a text gives its words joined by single spaces |
| JsText.JoinSpace | transcript_agent/src/transformers/transcription.transformers.ts:93 | `join(' ')` of n parts has at least n − 1 characters (JoinSpaceLength gives the exact length) |
| JsText.JoinSpaceLength | transcript_agent/src/transformers/transcription.transformers.ts:93 | `join(' ')` adds exactly one character between neighbouring parts: its length is the total length of the parts plus n − 1 |
| JsText.ToLower | transcript_agent/src/transformers/transcription.transformers.ts:183 | `toLowerCase` leaves no capital A–Z, changes no other character, and upper-cases back to what the original upper-cases to, so each capital becomes its small letter |
| JsText.ToUpper | transcript_agent/src/transformers/transcription.transformers.ts:160 | `toUpperCase` leaves no small a–z and changes no other character |
| JsText.TrimLower | transcript_agent/src/transformers/transcription.transformers.ts:183 | lower-casing commutes with `trim` |
| Transformers.Duration | transcript_agent/src/transformers/transcription.transformers.ts:87-88 | 0 when there are no segments; otherwise finite exactly when the last segment's `to` timestamp is readable, and never negative |
| Transformers.DurationOfLast | transcript_agent/src/transformers/transcription.transformers.ts:87-88 | the duration is the parsed end of the last segment, whatever the earlier segments hold |
| Transformers.FullText | transcript_agent/src/transformers/transcription.transformers.ts:91-95 | the full text has no edge whitespace, its only whitespace is single spaces, and it holds exactly the non-whitespace characters of the segment texts, in order; how the words are separated is stated by `Transformers.FullTextWords` |
| Transformers.JoinKeepsContent | transcript_agent/src/transformers/transcription.transformers.ts:93 | joining with spaces adds whitespace only |
| Transformers.TrimKeepsContent | transcript_agent/src/transformers/transcription.transformers.ts:92 | `trim` removes whitespace only |
| Transformers.TrimKeepsCollapsed | transcript_agent/src/transformers/transcription.transformers.ts:94-95 | trimming a collapsed text leaves it collapsed |
| Transformers.FullTextContent | transcript_agent/src/transformers/transcription.transformers.ts:91-95 | trim, join, collapse and trim again lose no non-whitespace character and reorder none |
| Transformers.FullTextIdempotent | transcript_agent/src/transformers/transcription.transformers.ts:94-95 | collapsing and trimming the full text again changes nothing |
| Transformers.FullTextEmpty | transcript_agent/src/transformers/transcription.transformers.ts:91-95 | the full text is empty exactly when no segment has a non-whitespace character |
| Transformers.FullTextTwoWords | transcript_agent/src/transformers/transcription.transformers.ts:91-95 | two words with any whitespace around them give the two words separated by one space |
| Transformers.FullTextExample | transcript_agent/src/transformers/transcription.transformers.ts:91-95 | `["  hello ", "world  "]` gives `"hello world"` |
| Transformers.AllWords | transcript_agent/src/transformers/transcription.transformers.ts:91-95 | the words of all segment texts, one segment after the other, each non-empty and whitespace-free |
| Transformers.JoinedWords | transcript_agent/src/transformers/transcription.transformers.ts:92-93 | the trimmed segment texts joined by spaces hold the words of all segments, in segment order |
| Transformers.FullTextWords | transcript_agent/src/transformers/transcription.transformers.ts:91-95 | the full text is the words of all segment texts joined by single spaces, so splitting it on whitespace gives back exactly those words |
| Transformers.NormalizeSegmentFields | transcript_agent/src/transformers/transcription.transformers.ts:98-117 | an output segment has its index as id, the start offset as seek, the parsed timestamps as start and end, and the trimmed text with all its non-whitespace characters; tokens are empty and temperature 0; each estimate is in its range, and all three are at their empty-text values exactly when the text is empty |
| Transformers.NormalizeSegment | transcript_agent/src/transformers/transcription.transformers.ts:98-117 | an output segment keeps its index as id and the start offset as seek; its start and end are finite exactly when their timestamps are well formed; its text has no edge whitespace and the same non-whitespace characters as the source text; its tokens are empty and its compression ratio is in [1.0, 4.0] |
| Transformers.SegmentEstimatesOfOutputText | transcript_agent/src/transformers/transcription.transformers.ts:111-116 | the estimators get the untrimmed text, yet each estimate equals the estimate of the segment's trimmed output text |
| Transformers.SegmentIgnoresPadding | transcript_agent/src/transformers/transcription.transformers.ts:98-117 | whitespace around a segment's text changes nothing in its output segment |
| Transformers.Segments | transcript_agent/src/transformers/transcription.transformers.ts:98 | one output segment per source segment, and output i comes from source segment i at index i |
| Transformers.Task | transcript_agent/src/transformers/transcription.transformers.ts:121 | the task is `translate` exactly when translation was requested, and `transcribe` exactly when it was not |
| Transformers.Convert | transcript_agent/src/transformers/transcription.transformers.ts:120-126 | the task is `translate` exactly when translation was requested and `transcribe` otherwise; the language is the detected one; the text is trimmed and collapsed; there are as many segments as in the input |
| Transformers.ConvertTextContent | transcript_agent/src/transformers/transcription.transformers.ts:91-95 | the document text holds every non-whitespace character of every segment, in segment order, and nothing else; it is the words of the segment texts joined by single spaces |
| Transformers.ConvertTimesFinite | transcript_agent/src/transformers/transcription.transformers.ts:87-100 | when every timestamp is well formed, the duration and every start and end are finite |
| Transformers.ConvertSegments | transcript_agent/src/transformers/transcription.transformers.ts:98-107 | the segments are numbered 0, 1, 2, … in input order |
| Transformers.ConvertDurationIsLastEnd | transcript_agent/src/transformers/transcription.transformers.ts:87-100 | for a non-empty transcript the duration is the end of the last output segment |
| Transformers.ConvertReadsOnly | transcript_agent/src/transformers/transcription.transformers.ts:120-126 | only the translate flag, the detected language and the segments affect the result; system info, model and requested language do not |
| Transformers.SegmentsAppend | transcript_agent/src/transformers/transcription.transformers.ts:98-118 | appending a source segment appends its output segment and leaves earlier ones unchanged |
| Transformers.ConvertAppend | transcript_agent/src/transformers/transcription.transformers.ts:87-118 | appending a segment appends its output segment, and the new segment's end becomes the duration |
| Transformers.Batch | transcript_agent/src/transformers/transcription.transformers.ts:241-243 | one transcription object per transcript, each the conversion of the transcript at the same position |
| Transformers.BatchAppend | transcript_agent/src/transformers/transcription.transformers.ts:241-243 | converting a concatenation of batches is concatenating their conversions |
| Transformers.Message | transcript_agent/src/transformers/transcription.transformers.ts:229-232 | a parse error's message starts with `Failed to parse JSON: `, a format error's with `Invalid Whisper transcript format: `, and both end with the underlying detail |
| Transformers.ConvertJson | transcript_agent/src/transformers/transcription.transformers.ts:223-234 | success exactly when the input parsed and passed validation, and then the value is its conversion; a schema violation is an invalid-format error and any other failure a parse error, never a partial result |
| Transformers.FailureMessage | transcript_agent/src/transformers/transcription.transformers.ts:228-232 | the two failures can be told apart by their message: it starts with the format prefix exactly when the schema refused the value, and with the parse prefix exactly when the text was not JSON |
| Estimators.Clamp | transcript_agent/src/transformers/transcription.transformers.ts:171 | `Math.max(lo, Math.min(hi, x))` lies in [lo, hi], is x when x already does, hi when x is at or above hi and lo when x is at or below lo |
| Estimators.HasDigit | transcript_agent/src/transformers/transcription.transformers.ts:158 | `/\d/` finds an ASCII digit; a text with one is not punctuation-only |
| Estimators.HasSpecialChar | transcript_agent/src/transformers/transcription.transformers.ts:159 | `/[^a-zA-Z0-9\s.,!?-]/` finds a character outside letters, digits, whitespace and `.,!?-`; such a text is neither punctuation-only nor blank |
| Estimators.IsAllCaps | transcript_agent/src/transformers/transcription.transformers.ts:160 | a text equal to its upper case and longer than three characters holds no small letter a–z |
| Estimators.OnlyPunctuation | transcript_agent/src/transformers/transcription.transformers.ts:206 | `/^[.,!?\-\s]*$/` holds of every whitespace-only text |
| Estimators.HasRepeatedRun | transcript_agent/src/transformers/transcription.transformers.ts:207 | `/(.)\1{3,}/` needs at least four characters |
| Estimators.EstimateLogProb | transcript_agent/src/transformers/transcription.transformers.ts:148-172 | the estimate lies in [-4.0, -0.1], and is -3.0 exactly when the trimmed text is empty |
| Estimators.LogProbOfTrimmed | transcript_agent/src/transformers/transcription.transformers.ts:151-171 | -3.0 for empty text; any non-empty text scores within [-1.7, -0.3], so the clamp never cuts |
| Estimators.LogProbEmpty | transcript_agent/src/transformers/transcription.transformers.ts:149-151 | the estimate is -3.0 exactly for empty or whitespace-only text |
| Estimators.LogProbBest | transcript_agent/src/transformers/transcription.transformers.ts:162-171 | the best score, -0.3, goes exactly to a single word under four characters with no digit and no special character |
| Estimators.LogProbAtMostBase | transcript_agent/src/transformers/transcription.transformers.ts:162-171 | any other non-empty text scores at most the base -0.5 |
| Estimators.LogProbIgnoresPadding | transcript_agent/src/transformers/transcription.transformers.ts:149 | whitespace at either end does not change the estimate |
| Estimators.LogProbDigitsCountAsCaps | transcript_agent/src/transformers/transcription.transformers.ts:158-168 | `2024` scores -1.1: a digit penalty and an all-caps penalty, since digits equal their upper case |
| Estimators.LogProbLengthCountsSpaces | transcript_agent/src/transformers/transcription.transformers.ts:154-155 | the average word length counts the spaces: two 8-letter words average 8.5 and take the long-word penalty |
| Estimators.Elements | transcript_agent/src/transformers/transcription.transformers.ts:184 | `new Set(words)` holds exactly the words, is no larger than the list, is as large exactly when the words are distinct, and is non-empty for a non-empty list |
| Estimators.EstimateCompressionRatio | transcript_agent/src/transformers/transcription.transformers.ts:177-193 | the estimate lies in [1.0, 4.0], and is 1.0 exactly when the trimmed text is empty |
| Estimators.RatioOfTrimmed | transcript_agent/src/transformers/transcription.transformers.ts:180-192 | 1.0 for empty text; any non-empty text gets at least 2.0 |
| Estimators.Words | transcript_agent/src/transformers/transcription.transformers.ts:183 | the lower-cased words are at least one piece, and no piece holds whitespace |
| Estimators.CompressionDistinct | transcript_agent/src/transformers/transcription.transformers.ts:183-190 | a non-empty text gets exactly 2.0 when its lower-cased words are all different, and more otherwise |
| Estimators.CompressionCaseInsensitive | transcript_agent/src/transformers/transcription.transformers.ts:183 | texts equal up to letter case get the same estimate |
| Estimators.CompressionIgnoresPadding | transcript_agent/src/transformers/transcription.transformers.ts:178 | whitespace at either end does not change the estimate |
| Estimators.WordsOfJoin | transcript_agent/src/transformers/transcription.transformers.ts:183 | the lower-cased words of lower-case words joined by spaces are those words |
| Estimators.CompressionOfWords | transcript_agent/src/transformers/transcription.transformers.ts:183-192 | for words joined by spaces, the estimate is the clamped 2 + (words/distinct − 1)·0.5 |
| Estimators.CompressionRepeated | transcript_agent/src/transformers/transcription.transformers.ts:183-192 | any lower-case word said four times gets 3.5 |
| Estimators.CompressionSaturated | transcript_agent/src/transformers/transcription.transformers.ts:183-192 | any lower-case word said five times or more gets 4.0: a ratio of 5 or more is clamped to the upper bound |
| Estimators.CompressionVaried | transcript_agent/src/transformers/transcription.transformers.ts:183-192 | `the quick brown fox` gets 2.0 |
| Estimators.CompressionRepetition | transcript_agent/src/transformers/transcription.transformers.ts:183-192 | `the the the the` gets 3.5, higher than the 2.0 of `the quick brown fox` |
| Estimators.EstimateNoSpeechProb | transcript_agent/src/transformers/transcription.transformers.ts:198-216 | the probability lies in [0.0, 0.8], and is 0.8 exactly when the trimmed text is empty |
| Estimators.NoSpeechOfTrimmed | transcript_agent/src/transformers/transcription.transformers.ts:202-215 | the probability lies in [0.0, 0.8], and is 0.8 exactly for the empty text |
| Estimators.NoSpeechFlagged | transcript_agent/src/transformers/transcription.transformers.ts:202-215 | the probability exceeds 0.05 exactly when the text is under five characters, only punctuation, or holds a character repeated four times |
| Estimators.NoSpeechLongText | transcript_agent/src/transformers/transcription.transformers.ts:215 | ordinary text of 50 characters or more gets 0 |
| Estimators.NoSpeechShrinksWithLength | transcript_agent/src/transformers/transcription.transformers.ts:215 | among ordinary texts of up to 50 characters, the longer one gets the lower probability |
| Estimators.NoSpeechIgnoresPadding | transcript_agent/src/transformers/transcription.transformers.ts:199 | whitespace at either end does not change the probability |
| Estimators.NoSpeechFirstMatch | transcript_agent/src/transformers/transcription.transformers.ts:206-211 | the first matching rule wins: `....` is punctuation (0.7) before it is a repeated run, and `aaaa` is a repeated run (0.4) before it is short |
| Estimators.EstimatesOfTrimmed | transcript_agent/src/transformers/transcription.transformers.ts:114-116 | trimming the text beforehand changes none of the three estimates |
| Estimators.GeneratePlaceholderTokens | transcript_agent/src/transformers/transcription.transformers.ts:133-143 | there are max(1, ⌈length/4⌉) ids, each below 50000; the first is 7·(character sum) mod 50000 and each next one is the previous plus 13, mod 50000 |
| Estimators.CharSum | transcript_agent/src/transformers/transcription.transformers.ts:140 | the character sum of one character is its code point, and any sum is at most the length times the largest code point; with CharSumAppend it is the sum of code points |
| Estimators.CharSumAppend | transcript_agent/src/transformers/transcription.transformers.ts:140 | the character sum of a concatenation is the sum of the character sums |
| Estimators.CharSumPermutation | transcript_agent/src/transformers/transcription.transformers.ts:140 | the character sum does not depend on the order of the characters |
| Estimators.TokensIgnoreOrder | transcript_agent/src/transformers/transcription.transformers.ts:138-142 | the placeholder ids depend only on which characters occur and how often |

## Left out

- Timestamp.ParseTimestamp: a field is readable only when it is a string of
  ASCII digits (the empty string reads as 0, as in JavaScript). JavaScript's
  `Number` also accepts surrounding whitespace, a sign, a decimal point, an
  exponent, hexadecimal, binary and octal (`0x`, `0b`, `0o`) and `Infinity`. The model gives NaN for those.
- Timestamp.ParseTimestamp: the timestamp is read in full and the result is
  NaN when it is malformed, rather than demanding a well-formed timestamp
  from the caller. This is what the JavaScript does.
- Numbers are exact reals. IEEE-754 rounding is not modelled, so `0.05 - n *
  0.001` and `ms / 1000` are exact.
- The `avg_logprob` arithmetic `-0.5 - 0.3 - …` is exact as well.
- JsText.ToLower and JsText.ToUpper map ASCII letters only. Estimators.IsAllCaps
  therefore sees letters outside A–Z and a–z as having no case. Full Unicode
  case mapping is not modelled.
- Strings are sequences of Unicode scalar values. `length` and `charCodeAt`
  count UTF-16 code units in JavaScript. The model counts scalar values and
  sums their code points, so the two differ on characters outside the Basic
  Multilingual Plane.
- Estimators.HasRepeatedRun: `/(.)\1{3,}/` has no `u` flag, so JavaScript
  compares UTF-16 code units, while the model compares scalar values. Five
  copies of one character outside the Basic Multilingual Plane are ten code
  units of alternating surrogates with no run in JavaScript, so
  `estimateNoSpeechProb` gives 0.04; the model sees a run of five and gives 0.4.
- `JSON.parse` and the zod validation are not modelled. Their outcome is the
  input of `Transformers.ConvertJson`: a syntax error, a schema violation or a
  validated transcript.
- The error details (the zod message and the stringified error) are opaque
  strings.
- Exceptions are modelled as a `Result`.
- `segmentDuration` and `textLength` (lines 101-102) are computed and never
  used, so they are not modelled.
- `generatePlaceholderTokens` is never called: every output segment has
  `tokens: []`. It is modelled on its own.
- The zod schemas become datatypes. Their runtime checks are left out.
- The schema files, the LLM agents, file I/O and the commented-out example at
  the end of the file are not part of this model.
- Most estimator lemmas are stated on the trimmed text, since each estimator
  trims first. `Estimators.EstimatesOfTrimmed` and the `*IgnoresPadding`
  lemmas connect them to the untrimmed text the converter passes in.
