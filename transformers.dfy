/**
  The Whisper-to-transcription-object converter: the input and output records
  shaped after the two zod schemas, the per-segment mapping, the document
  header (task, language, duration, full text), the batch conversion and the
  JSON entry point with its two error kinds.
 */
module Transformers {
  import opened JsText
  import opened Timestamp
  import opened Estimators

  // ---------------------------------------------------------------------------
  // `Array.prototype.map`, with and without the index argument.

  function Map<A, B>(f: A -> B, xs: seq<A>): (r: seq<B>)
    ensures |r| == |xs| && forall i :: 0 <= i < |xs| ==> r[i] == f(xs[i])
  {
    seq(|xs|, i requires 0 <= i < |xs| => f(xs[i]))
  }

  function MapIndexed<A, B>(f: (A, nat) -> B, xs: seq<A>): (r: seq<B>)
    ensures |r| == |xs| && forall i :: 0 <= i < |xs| ==> r[i] == f(xs[i], i)
  {
    seq(|xs|, i requires 0 <= i < |xs| => f(xs[i], i))
  }

  lemma MapAppend<A, B>(f: A -> B, xs: seq<A>, ys: seq<A>)
    ensures Map(f, xs + ys) == Map(f, xs) + Map(f, ys)
  {
    var l, r := Map(f, xs + ys), Map(f, xs) + Map(f, ys);
    forall i | 0 <= i < |l| ensures l[i] == r[i] {
      if i < |xs| {
        assert (xs + ys)[i] == xs[i];
      } else {
        assert (xs + ys)[i] == ys[i - |xs|];
      }
    }
  }

  lemma MapIndexedAppend<A, B>(f: (A, nat) -> B, xs: seq<A>, x: A)
    ensures MapIndexed(f, xs + [x]) == MapIndexed(f, xs) + [f(x, |xs|)]
  {
    var l, r := MapIndexed(f, xs + [x]), MapIndexed(f, xs) + [f(x, |xs|)];
    forall i | 0 <= i < |l| ensures l[i] == r[i] {
      if i < |xs| {
        assert (xs + [x])[i] == xs[i];
      }
    }
  }

  // ---------------------------------------------------------------------------
  // Input: a transcript as the speech recognizer writes it (`TranscriptSchema`).
  // JSON numbers are reals.

  datatype LayerDims = LayerDims(ctx: real, state: real, head: real, layer: real)

  /** `model`; the schema's `type` field is `modelType` here. */
  datatype ModelInfo = ModelInfo(
    modelType: string, multilingual: bool, vocab: real,
    audio: LayerDims, text: LayerDims, mels: real, ftype: real)

  datatype Params = Params(model: string, language: string, translate: bool)

  datatype WhisperResult = WhisperResult(language: string)

  datatype Timestamps = Timestamps(from: string, to: string)

  datatype Offsets = Offsets(from: real, to: real)

  datatype SourceSegment = SourceSegment(timestamps: Timestamps, offsets: Offsets, text: string)

  datatype WhisperTranscript = WhisperTranscript(
    systeminfo: string, model: ModelInfo, params: Params,
    result: WhisperResult, transcription: seq<SourceSegment>)

  // ---------------------------------------------------------------------------
  // Output: the standard transcription object (`TranscriptionObjectSchema`).

  datatype Segment = Segment(
    id: nat, seek: real, start: Number, end: Number, text: string,
    tokens: seq<real>, temperature: real,
    avgLogprob: real, compressionRatio: real, noSpeechProb: real)

  datatype TranscriptionObject = TranscriptionObject(
    task: string, language: string, duration: Number, text: string, segments: seq<Segment>)

  /** Both timestamps of a segment have the `HH:MM:SS,mmm` shape the parser reads. */
  predicate WellFormedSegment(seg: SourceSegment) {
    WellFormedTimestamp(seg.timestamps.from) && WellFormedTimestamp(seg.timestamps.to)
  }

  // ---------------------------------------------------------------------------
  // Duration

  /** The parsed `to` timestamp of the last segment, or 0 when there is none. */
  function Duration(tr: seq<SourceSegment>): (r: Number)
    ensures tr == [] ==> r == Finite(0.0)
    ensures tr != [] ==> (r.Finite? <==> WellFormedTimestamp(tr[|tr| - 1].timestamps.to))
    ensures r.Finite? ==> r.value >= 0.0
  {
    if tr == [] then Finite(0.0) else ParseTimestamp(tr[|tr| - 1].timestamps.to)
  }

  /** Only the last segment decides the duration: what comes before it, and
      how late it ends, plays no part. */
  lemma DurationOfLast(prefix: seq<SourceSegment>, last: SourceSegment)
    ensures Duration(prefix + [last]) == ParseTimestamp(last.timestamps.to)
  {
    assert (prefix + [last])[|prefix + [last]| - 1] == last;
  }

  // ---------------------------------------------------------------------------
  // Full text

  function Texts(tr: seq<SourceSegment>): (r: seq<string>)
    ensures |r| == |tr| && forall k :: 0 <= k < |tr| ==> r[k] == tr[k].text
  {
    seq(|tr|, k requires 0 <= k < |tr| => tr[k].text)
  }

  function TrimAll(texts: seq<string>): (r: seq<string>)
    ensures |r| == |texts| && forall k :: 0 <= k < |texts| ==> r[k] == Trim(texts[k])
  {
    seq(|texts|, k requires 0 <= k < |texts| => Trim(texts[k]))
  }

  /** The non-whitespace characters of all texts, one text after the other. */
  function Content(texts: seq<string>): string {
    if texts == [] then [] else NonWs(texts[0]) + Content(texts[1..])
  }

  /** The full text: every segment text trimmed, joined with spaces, whitespace
      runs collapsed to one space, and trimmed again. */
  function FullText(texts: seq<string>): (r: string)
    ensures NoEdgeWs(r) && Collapsed(r)
    ensures NonWs(r) == Content(texts)
  {
    var joined := JoinSpace(TrimAll(texts));
    var c := Collapse(joined);
    TrimKeepsCollapsed(c);
    FullTextContent(texts);
    Trim(c)
  }

  /** Trimming a collapsed text leaves it collapsed. */
  lemma TrimKeepsCollapsed(s: string)
    requires Collapsed(s)
    ensures Collapsed(Trim(s))
  {
    var i := TrimIsSlice(s);
    CollapsedSlice(s, i, i + |Trim(s)|);
  }

  /** `trim` removes whitespace only. */
  lemma TrimKeepsContent(s: string)
    ensures NonWs(Trim(s)) == NonWs(s)
  {
    var t := Trim(s);
    var pre, post := TrimParts(s);
    NonWsAppend(pre + t, post);
    NonWsAppend(pre, t);
    NonWsOfWs(pre);
    NonWsOfWs(post);
    assert NonWs(pre + t) == NonWs(t) by {
      assert [] + NonWs(t) == NonWs(t);
    }
    assert NonWs(t) + [] == NonWs(t);
  }

  /** Joining with spaces adds whitespace only. */
  lemma {:induction false} JoinKeepsContent(parts: seq<string>)
    ensures NonWs(JoinSpace(parts)) == Content(parts)
  {
    if |parts| == 1 {
      assert parts[1..] == [];
      assert NonWs(parts[0]) + [] == NonWs(parts[0]);
    } else if |parts| > 1 {
      JoinKeepsContent(parts[1..]);
      NonWsAppend(parts[0] + " ", JoinSpace(parts[1..]));
      NonWsAppend(parts[0], " ");
      assert NonWs(" ") == [];
      assert NonWs(parts[0]) + [] == NonWs(parts[0]);
    }
  }

  lemma {:induction false} TrimAllKeepsContent(texts: seq<string>)
    ensures Content(TrimAll(texts)) == Content(texts)
  {
    if texts != [] {
      TrimAllKeepsContent(texts[1..]);
      TrimKeepsContent(texts[0]);
      assert TrimAll(texts)[1..] == TrimAll(texts[1..]);
    }
  }

  /** The full text keeps every non-whitespace character of every segment, in order. */
  lemma FullTextContent(texts: seq<string>)
    ensures NonWs(Trim(Collapse(JoinSpace(TrimAll(texts))))) == Content(texts)
  {
    var joined := JoinSpace(TrimAll(texts));
    JoinKeepsContent(TrimAll(texts));
    TrimAllKeepsContent(texts);
    CollapseKeepsContent(joined);
    TrimKeepsContent(Collapse(joined));
  }

  /** The words of every segment text, segment after segment; blank
      segments contribute none. */
  function AllWords(texts: seq<string>): (r: seq<string>)
    ensures forall k :: 0 <= k < |r| ==> IsWord(r[k])
  {
    if texts == [] then [] else WordsOf(texts[0]) + AllWords(texts[1..])
  }

  /** The trimmed segment texts joined by spaces hold the words of all
      segments, in order. */
  lemma {:induction false} JoinedWords(texts: seq<string>)
    ensures WordsOf(JoinSpace(TrimAll(texts))) == AllWords(texts)
  {
    if texts != [] {
      assert [texts[0]] + texts[1..] == texts;
      if |texts| == 1 {
        JoinedWordsSingle(texts[0]);
      } else {
        JoinedWords(texts[1..]);
        JoinedWordsStep(texts[0], texts[1..]);
      }
    }
  }

  lemma WordsOfTrimmed(x: string)
    ensures WordsOf(Trim(x)) == WordsOf(x)
  {
    TrimOfTrimmed(Trim(x));
  }

  lemma JoinedWordsSingle(x: string)
    ensures WordsOf(JoinSpace(TrimAll([x]))) == AllWords([x])
  {
    assert TrimAll([x]) == [Trim(x)];
    assert [x][1..] == [];
    WordsOfTrimmed(x);
    assert WordsOf(x) + [] == WordsOf(x);
  }

  lemma JoinedWordsStep(x: string, rest: seq<string>)
    requires rest != []
    requires WordsOf(JoinSpace(TrimAll(rest))) == AllWords(rest)
    ensures WordsOf(JoinSpace(TrimAll([x] + rest))) == AllWords([x] + rest)
  {
    var p := Trim(x);
    var tail := TrimAll(rest);
    assert TrimAll([x] + rest) == [p] + tail;
    assert ([x] + rest)[0] == x && ([x] + rest)[1..] == rest;
    JoinCons(p, tail);
    WordsOfAtRun(p, " ", JoinSpace(tail));
    WordsOfTrimmed(x);
  }

  /** The full text is the words of all segment texts, in order, separated
      by single spaces; so splitting it on whitespace gives back exactly
      those words. */
  lemma FullTextWords(texts: seq<string>)
    ensures FullText(texts) == JoinSpace(AllWords(texts))
    ensures AllWords(texts) != [] ==> SplitWs(FullText(texts)) == AllWords(texts)
  {
    TrimCollapseIsWords(JoinSpace(TrimAll(texts)));
    JoinedWords(texts);
    if AllWords(texts) != [] {
      SplitJoinWords(AllWords(texts));
    }
  }

  /** Collapsing and trimming the full text again changes nothing. */
  lemma FullTextIdempotent(texts: seq<string>)
    ensures Trim(Collapse(FullText(texts))) == FullText(texts)
  {
    var r := FullText(texts);
    CollapseFixpoint(r);
    TrimOfTrimmed(r);
  }

  /** The full text is empty exactly when no segment has a non-whitespace character. */
  lemma FullTextEmpty(texts: seq<string>)
    ensures FullText(texts) == [] <==> Content(texts) == []
  {
    var r := FullText(texts);
    if r != [] {
      NonWsOfWord(r);
    }
  }

  lemma NonWsOfWord(s: string)
    requires s != [] && !IsWs(s[0])
    ensures NonWs(s) != []
  {
  }

  /** Two padded words: the full text is the two words and one space. */
  lemma FullTextTwoWords(texts: seq<string>, w1: string, a: string, w2: string, w3: string, b: string, w4: string)
    requires IsWord(a) && IsWord(b) && AllWs(w1) && AllWs(w2) && AllWs(w3) && AllWs(w4)
    requires texts == [w1 + a + w2, w3 + b + w4]
    ensures FullText(texts) == a + " " + b
  {
    TrimPadded(w1, a, w2);
    TrimPadded(w3, b, w4);
    TrimPair(w1 + a + w2, w3 + b + w4);
    JoinTwo([a, b]);
    var j := a + " " + b;
    WordsCollapsed(a, b);
    CollapseFixpoint(j);
    TrimOfTrimmed(j);
  }

  lemma TrimPair(x: string, y: string)
    ensures TrimAll([x, y]) == [Trim(x), Trim(y)]
  {
  }

  lemma TrimPadded(w1: string, a: string, w2: string)
    requires IsWord(a) && AllWs(w1) && AllWs(w2)
    ensures Trim(w1 + a + w2) == a
  {
    TrimIgnoresPadding(w1, a, w2);
    TrimOfTrimmed(a);
  }

  lemma JoinTwo(ws: seq<string>)
    requires |ws| == 2
    ensures JoinSpace(ws) == ws[0] + " " + ws[1]
  {
    assert ws[1..] == [ws[1]];
  }

  /** `["  hello ", "world  "]` gives `"hello world"`. */
  lemma FullTextExample(texts: seq<string>, a: string, b: string)
    requires a == "hello" && b == "world"
    requires texts == ["  " + a + " ", b + "  "]
    ensures FullText(texts) == a + " " + b
  {
    assert IsWord(a) && IsWord(b);
    assert AllWs("  ") && AllWs(" ") && AllWs([]);
    assert b + "  " == [] + b + "  ";
    FullTextTwoWords(texts, "  ", a, " ", [], b, "  ");
  }

  lemma WordsCollapsed(a: string, b: string)
    requires IsWord(a) && IsWord(b)
    ensures Collapsed(a + " " + b) && NoEdgeWs(a + " " + b)
  {
    var j := a + " " + b;
    assert forall k :: 0 <= k < |j| ==> j[k] == if k < |a| then a[k] else if k == |a| then ' ' else b[k - |a| - 1];
  }

  // ---------------------------------------------------------------------------
  // Segments

  /** One output segment, from the source segment at position `index`. */
  function NormalizeSegment(seg: SourceSegment, index: nat): (r: Segment)
    ensures r.id == index && r.seek == seg.offsets.from
    ensures r.start.Finite? <==> WellFormedTimestamp(seg.timestamps.from)
    ensures r.end.Finite? <==> WellFormedTimestamp(seg.timestamps.to)
    ensures NoEdgeWs(r.text) && NonWs(r.text) == NonWs(seg.text)
    ensures r.tokens == [] && 1.0 <= r.compressionRatio <= 4.0
  {
    TrimKeepsContent(seg.text);
    Segment(
      id := index,
      seek := seg.offsets.from,
      start := ParseTimestamp(seg.timestamps.from),
      end := ParseTimestamp(seg.timestamps.to),
      text := Trim(seg.text),
      tokens := [],
      temperature := 0.0,
      avgLogprob := EstimateLogProb(seg.text),
      compressionRatio := EstimateCompressionRatio(seg.text),
      noSpeechProb := EstimateNoSpeechProb(seg.text))
  }

  /** What an output segment holds: its position as id, the offset as seek,
      times that are non-negative numbers exactly when the timestamps are
      readable (NaN otherwise), the text without edge whitespace but with all
      its other characters, no tokens, temperature 0, and the three estimates
      in their ranges, all three at their empty-text values exactly when the
      text is empty. */
  lemma NormalizeSegmentFields(seg: SourceSegment, index: nat)
    ensures var r := NormalizeSegment(seg, index);
            && r.id == index && r.seek == seg.offsets.from
            && r.start == ParseTimestamp(seg.timestamps.from) && r.end == ParseTimestamp(seg.timestamps.to)
            && r.text == Trim(seg.text)
            && (r.start.Finite? <==> WellFormedTimestamp(seg.timestamps.from))
            && (r.end.Finite? <==> WellFormedTimestamp(seg.timestamps.to))
            && (r.start.Finite? ==> r.start.value >= 0.0)
            && (r.end.Finite? ==> r.end.value >= 0.0)
            && NoEdgeWs(r.text) && NonWs(r.text) == NonWs(seg.text)
            && r.tokens == [] && r.temperature == 0.0
            && -4.0 <= r.avgLogprob <= -0.1
            && 1.0 <= r.compressionRatio <= 4.0
            && 0.0 <= r.noSpeechProb <= 0.8
            && (r.text == [] <==> r.avgLogprob == -3.0 && r.compressionRatio == 1.0 && r.noSpeechProb == 0.8)
  {
    TrimKeepsContent(seg.text);
  }

  /** The estimators are given the untrimmed text, but each trims it first, so
      the three estimates are those of the segment's trimmed output text. */
  lemma SegmentEstimatesOfOutputText(seg: SourceSegment, index: nat)
    ensures var r := NormalizeSegment(seg, index);
            && r.avgLogprob == EstimateLogProb(r.text)
            && r.compressionRatio == EstimateCompressionRatio(r.text)
            && r.noSpeechProb == EstimateNoSpeechProb(r.text)
  {
    EstimatesOfTrimmed(seg.text);
  }

  /** Whitespace around a segment's text changes nothing in its output segment. */
  lemma SegmentIgnoresPadding(seg: SourceSegment, w1: string, w2: string, index: nat)
    requires AllWs(w1) && AllWs(w2)
    ensures NormalizeSegment(seg.(text := w1 + seg.text + w2), index) == NormalizeSegment(seg, index)
  {
    TrimIgnoresPadding(w1, seg.text, w2);
  }

  // ---------------------------------------------------------------------------
  // The conversion

  function Task(translate: bool): (r: string)
    ensures r == "translate" <==> translate
    ensures r == "transcribe" <==> !translate
  {
    if translate then "translate" else "transcribe"
  }

  /** The output segments: source segment `i` becomes output segment `i`. */
  function Segments(tr: seq<SourceSegment>): (r: seq<Segment>)
    ensures |r| == |tr|
    ensures forall i :: 0 <= i < |tr| ==> r[i] == NormalizeSegment(tr[i], i)
  {
    MapIndexed(NormalizeSegment, tr)
  }

  /** `convertWhisperToTranscriptionObject` */
  function Convert(w: WhisperTranscript): (r: TranscriptionObject)
    ensures r.task == "translate" <==> w.params.translate
    ensures r.task == "transcribe" <==> !w.params.translate
    ensures r.language == w.result.language
    ensures NoEdgeWs(r.text) && Collapsed(r.text)
    ensures |r.segments| == |w.transcription|
  {
    var tr := w.transcription;
    TranscriptionObject(
      task := Task(w.params.translate),
      language := w.result.language,
      duration := Duration(tr),
      text := FullText(Texts(tr)),
      segments := Segments(tr))
  }

  /** The document text holds every non-whitespace character of every
      segment text, in segment order, and nothing else; it is the words of
      the segments separated by single spaces. */
  lemma ConvertTextContent(w: WhisperTranscript)
    ensures NonWs(Convert(w).text) == Content(Texts(w.transcription))
    ensures Convert(w).text == JoinSpace(AllWords(Texts(w.transcription)))
  {
    FullTextWords(Texts(w.transcription));
  }

  /** When every timestamp is well formed, no time in the result is NaN. */
  lemma ConvertTimesFinite(w: WhisperTranscript)
    requires forall k :: 0 <= k < |w.transcription| ==> WellFormedSegment(w.transcription[k])
    ensures var r := Convert(w);
            && r.duration.Finite?
            && forall i :: 0 <= i < |r.segments| ==> r.segments[i].start.Finite? && r.segments[i].end.Finite?
  {
    var tr := w.transcription;
    var r := Convert(w);
    if tr != [] {
      assert WellFormedSegment(tr[|tr| - 1]);
    }
    forall i | 0 <= i < |r.segments| ensures r.segments[i].start.Finite? && r.segments[i].end.Finite? {
      assert WellFormedSegment(tr[i]);
      assert r.segments[i] == NormalizeSegment(tr[i], i);
    }
  }

  /** One output segment per source segment, with ids 0, 1, 2, ... */
  lemma ConvertSegments(w: WhisperTranscript)
    ensures var r := Convert(w);
            && |r.segments| == |w.transcription|
            && forall i :: 0 <= i < |r.segments| ==> r.segments[i].id == i
  {
    var r := Convert(w);
    forall i | 0 <= i < |r.segments| ensures r.segments[i].id == i {
      assert r.segments[i] == NormalizeSegment(w.transcription[i], i);
    }
  }

  /** The duration is the end of the last output segment. */
  lemma ConvertDurationIsLastEnd(w: WhisperTranscript)
    requires w.transcription != []
    ensures var r := Convert(w);
            |r.segments| == |w.transcription| && r.duration == r.segments[|r.segments| - 1].end
  {
    var last := |w.transcription| - 1;
    var seg := w.transcription[last];
    assert Convert(w).duration == ParseTimestamp(seg.timestamps.to);
    assert Convert(w).segments[last] == NormalizeSegment(seg, last);
    assert NormalizeSegment(seg, last).end == ParseTimestamp(seg.timestamps.to);
  }

  /** The conversion reads the translate flag, the detected language and the
      segments, and nothing else: system info, model description, model name
      and requested language do not affect the result. */
  lemma ConvertReadsOnly(w1: WhisperTranscript, w2: WhisperTranscript)
    requires w1.params.translate == w2.params.translate
    requires w1.result == w2.result && w1.transcription == w2.transcription
    ensures Convert(w1) == Convert(w2)
  {
  }

  /** The conversion works segment by segment: appending a segment appends its
      output segment and leaves the earlier ones as they were. */
  lemma SegmentsAppend(tr: seq<SourceSegment>, seg: SourceSegment)
    ensures Segments(tr + [seg]) == Segments(tr) + [NormalizeSegment(seg, |tr|)]
  {
    MapIndexedAppend(NormalizeSegment, tr, seg);
  }

  /** Appending a segment to a transcript appends its output segment, and the
      new last segment alone decides the duration. */
  lemma ConvertAppend(w: WhisperTranscript, seg: SourceSegment)
    ensures var before := Convert(w);
            var after := Convert(w.(transcription := w.transcription + [seg]));
            && after.segments == before.segments + [NormalizeSegment(seg, |w.transcription|)]
            && after.duration == ParseTimestamp(seg.timestamps.to)
  {
    SegmentsAppend(w.transcription, seg);
    DurationOfLast(w.transcription, seg);
  }

  // ---------------------------------------------------------------------------
  // Batch conversion

  /** `batchConvertWhisperTranscripts`: one transcription object per transcript, in order. */
  function Batch(ws: seq<WhisperTranscript>): (r: seq<TranscriptionObject>)
    ensures |r| == |ws|
    ensures forall k :: 0 <= k < |ws| ==> r[k] == Convert(ws[k])
  {
    Map(Convert, ws)
  }

  /** Converting two lists of transcripts one after the other is converting their concatenation. */
  lemma BatchAppend(a: seq<WhisperTranscript>, b: seq<WhisperTranscript>)
    ensures Batch(a + b) == Batch(a) + Batch(b)
  {
    MapAppend(Convert, a, b);
  }

  // ---------------------------------------------------------------------------
  // JSON entry point

  /** What `JSON.parse` followed by the schema validation made of the input text:
      a syntax error, a value the schema refuses, or a validated transcript.
      Parsing and validation are not part of this model; their outcome is the input. */
  datatype ParseOutcome =
    | SyntaxError(detail: string)
    | SchemaViolation(detail: string)
    | Validated(transcript: WhisperTranscript)

  datatype ConvertError =
    | FailedToParseJson(detail: string)
    | InvalidFormat(detail: string)

  datatype Result<T> = Success(value: T) | Failure(error: ConvertError)

  function ParsePrefix(): string { "Failed to parse JSON: " }

  function FormatPrefix(): string { "Invalid Whisper transcript format: " }

  /** The message of the error thrown to the caller: the prefix of its kind,
      then the detail. */
  function Message(e: ConvertError): (m: string)
    ensures e.FailedToParseJson? ==> |m| >= |ParsePrefix()| && m[..|ParsePrefix()|] == ParsePrefix()
    ensures e.InvalidFormat? ==> |m| >= |FormatPrefix()| && m[..|FormatPrefix()|] == FormatPrefix()
    ensures |m| >= |e.detail| && m[|m| - |e.detail|..] == e.detail
  {
    match e
    case FailedToParseJson(detail) => ParsePrefix() + detail
    case InvalidFormat(detail) => FormatPrefix() + detail
  }

  /** `convertWhisperJsonToTranscriptionObject`: a schema violation becomes an
      invalid-format error, any other failure a parse error, and a validated
      transcript is converted. */
  function ConvertJson(o: ParseOutcome): (r: Result<TranscriptionObject>)
    ensures r.Success? <==> o.Validated?
    ensures r.Success? ==> r.value == Convert(o.transcript)
    ensures o.SyntaxError? ==> r == Failure(FailedToParseJson(o.detail))
    ensures o.SchemaViolation? ==> r == Failure(InvalidFormat(o.detail))
  {
    match o
    case SyntaxError(detail) => Failure(FailedToParseJson(detail))
    case SchemaViolation(detail) => Failure(InvalidFormat(detail))
    case Validated(transcript) => Success(Convert(transcript))
  }

  /** A caller can tell the two failures apart by the message alone: it starts
      with the invalid-format prefix exactly when the schema refused the value,
      and the detail of the underlying error closes the message either way. */
  lemma FailureMessage(o: ParseOutcome)
    requires !o.Validated?
    ensures ConvertJson(o).Failure?
    ensures var m := Message(ConvertJson(o).error);
            && (o.SchemaViolation? <==> |m| >= |FormatPrefix()| && m[..|FormatPrefix()|] == FormatPrefix())
            && (o.SyntaxError? <==> |m| >= |ParsePrefix()| && m[..|ParsePrefix()|] == ParsePrefix())
            && m[|m| - |o.detail|..] == o.detail
  {
    var m := Message(ConvertJson(o).error);
    if o.SyntaxError? {
      assert m[0] == 'F';
      assert FormatPrefix()[0] == 'I';
    } else {
      assert m[0] == 'I';
      assert ParsePrefix()[0] == 'F';
    }
  }
}
