/**
 * The full-text segmenter and chunker (chunk_up_transcript): a single pass over the transcript
 * items that builds paragraphs (opened at every speaker change when speaker labels exist, at
 * long pauses otherwise) and, in the same pass, cuts the text into chunks small enough for
 * entity detection.
 */
module FullText {
  import opened Wrappers
  import opened TextOps
  import opened Transcript

  /** A chunk is flushed at punctuation once it holds this many characters ... */
  const CHUNK_FLUSH_AT_PUNCTUATION: nat := 4500
  /** ... and after any item once it holds more than this many. */
  const CHUNK_LIMIT: nat := 4900
  /** Without speaker labels, a silence longer than this opens a paragraph ... */
  const PAUSE_GAP: real := 2.0
  /** ... and so does a sentence end this long after the last break. */
  const LONG_PARAGRAPH_TIME: real := 15.0

  // ---------------------------------------------------------------------------
  // Speaker segments
  // ---------------------------------------------------------------------------

  datatype Segment = Segment(startTime: real, endTime: real, speaker: string)

  /** parse_speaker_segments: one segment per label, in order, with its times and speaker. */
  function ParseSpeakerSegments(labels: seq<SpeakerSegment>): (segments: seq<Segment>)
    ensures |segments| == |labels|
    ensures forall i :: 0 <= i < |labels| ==>
      segments[i] == Segment(labels[i].startTime, labels[i].endTime, labels[i].speakerLabel)
  {
    seq(|labels|, i requires 0 <= i < |labels| => Segment(labels[i].startTime, labels[i].endTime, labels[i].speakerLabel))
  }

  predicate Covers(s: Segment, t: real) {
    s.startTime <= t < s.endTime
  }

  /** Segment i is the first one that covers time t. */
  predicate FirstCover(segments: seq<Segment>, t: real, i: int) {
    0 <= i < |segments| && Covers(segments[i], t) && forall j :: 0 <= j < i ==> !Covers(segments[j], t)
  }

  /** get_speaker_label: the speaker of the first segment covering t, None when none covers it. */
  function GetSpeakerLabel(segments: seq<Segment>, t: real): (r: Option<string>)
    ensures r.None? <==> forall i :: 0 <= i < |segments| ==> !Covers(segments[i], t)
    ensures r.Some? ==> exists i :: FirstCover(segments, t, i) && r.value == segments[i].speaker
    decreases |segments|
  {
    if segments == [] then None
    else if Covers(segments[0], t) then
      assert FirstCover(segments, t, 0);
      Some(segments[0].speaker)
    else
      var r := GetSpeakerLabel(segments[1..], t);
      assert forall i :: 1 <= i < |segments| ==> segments[i] == segments[1..][i - 1];
      if r.Some? then
        var i :| FirstCover(segments[1..], t, i) && r.value == segments[1..][i].speaker;
        assert FirstCover(segments, t, i + 1);
        r
      else r
  }

  // ---------------------------------------------------------------------------
  // The state of the pass and one step of it
  // ---------------------------------------------------------------------------

  datatype Error =
    | MissingStartTime                 // float(item['start_time']) on a word without one
    | NoSpeakerAt(time: real)          // current_speaker + " :" with no segment covering the word

  /** The loop's variables: last_speaker, paragraphs, current_paragraph, comprehend_chunks,
      current_comprehend_chunk, previous_time, last_pause, last_item_was_sentence_end. */
  datatype State = State(
    lastSpeaker: Option<string>,
    paragraphs: seq<string>,
    current: string,
    chunks: seq<string>,
    chunk: string,
    previousTime: real,
    lastPause: real,
    sentenceEnd: bool)

  const Start: State := State(None, [], "", [], "", 0.0, 0.0, false)

  /** The text of a word: a whole-token match in the custom vocabulary is replaced by its
      value, and then "i" (commonDict) becomes "I". */
  function Phrase(customVocabs: Option<map<string, string>>, content: string): (p: string)
    ensures p != "i"
    ensures customVocabs.Some? && content in customVocabs.value ==>
      p == (if customVocabs.value[content] == "i" then "I" else customVocabs.value[content])
    ensures (customVocabs.None? || content !in customVocabs.value) ==>
      p == (if content == "i" then "I" else content)
  {
    var phrase := if customVocabs.Some? && content in customVocabs.value then customVocabs.value[content] else content;
    if phrase == "i" then "I" else phrase
  }

  /** What an item adds to the paragraph and to the chunk: a word with a leading space,
      punctuation as it is. */
  function PieceOf(customVocabs: Option<map<string, string>>, item: Item): string {
    match item.kind
    case Pronunciation => " " + Phrase(customVocabs, item.content)
    case Punctuation => item.content
  }

  /** The paragraph break a word may cause, before its text is added. Only the speaker,
      the paragraphs and the last pause can change. */
  function OpenParagraph(segments: Option<seq<Segment>>, st: State, t: real): (r: Result<State, Error>)
    ensures r.Success? ==>
      && r.value.chunks == st.chunks && r.value.chunk == st.chunk
      && r.value.previousTime == st.previousTime && r.value.sentenceEnd == st.sentenceEnd
      && (r.value.paragraphs == st.paragraphs || r.value.paragraphs == st.paragraphs + [st.current])
    ensures segments.None? ==> r.Success? && r.value.lastSpeaker == st.lastSpeaker
    ensures segments.Some? ==> (r.Success? <==> GetSpeakerLabel(segments.value, t).Some?)
    ensures segments.None? ==>
      var pause := t - st.previousTime > PAUSE_GAP || (t - st.lastPause > LONG_PARAGRAPH_TIME && st.sentenceEnd);
      && (r.value.paragraphs == st.paragraphs + [st.current] <==> pause)
      && r.value.current == (if pause then "" else st.current)
      && r.value.lastPause == (if pause then t else st.lastPause)
  {
    if segments.Some? then
      var speaker := GetSpeakerLabel(segments.value, t);
      if st.lastSpeaker.None? || speaker != st.lastSpeaker then
        if speaker.None? then Failure(NoSpeakerAt(t))
        else
          Success(st.(lastSpeaker := speaker, paragraphs := st.paragraphs + [st.current],
                      current := speaker.value + " :", lastPause := t))
      else
        Success(st.(lastSpeaker := speaker))
    else if t - st.previousTime > PAUSE_GAP || (t - st.lastPause > LONG_PARAGRAPH_TIME && st.sentenceEnd) then
      Success(st.(lastPause := t, paragraphs := st.paragraphs + [st.current], current := ""))
    else
      Success(st)
  }

  /** After either kind of item: flush the chunk when it is due, then remember the end time. */
  function Close(st: State, item: Item): State {
    var flush := (item.kind == Punctuation && |st.chunk| >= CHUNK_FLUSH_AT_PUNCTUATION) || |st.chunk| > CHUNK_LIMIT;
    var flushed := if flush then st.(chunks := st.chunks + [st.chunk], chunk := "") else st;
    if item.endTime.Some? then flushed.(previousTime := item.endTime.value) else flushed
  }

  /** The break an item may cause before its text is added: none for punctuation; for a word,
      the one OpenParagraph decides, after reading its start time. */
  function Break(segments: Option<seq<Segment>>, st: State, item: Item): Result<State, Error> {
    match item.kind
    case Punctuation => Success(st)
    case Pronunciation =>
      if item.startTime.None? then Failure(MissingStartTime) else OpenParagraph(segments, st, item.startTime.value)
  }

  /** Adding the item's text to the paragraph and to the chunk; only punctuation ".", "!" or
      "?" leaves the sentence-end flag set. */
  function Append(customVocabs: Option<map<string, string>>, st: State, item: Item): State {
    var piece := PieceOf(customVocabs, item);
    st.(current := st.current + piece, chunk := st.chunk + piece,
        sentenceEnd := item.kind == Punctuation && item.content in {".", "!", "?"})
  }

  /** One iteration of the loop. */
  function Step(customVocabs: Option<map<string, string>>, segments: Option<seq<Segment>>, st: State, item: Item): Result<State, Error> {
    var r := Break(segments, st, item);
    if r.Failure? then Failure(r.error) else Success(Close(Append(customVocabs, r.value, item), item))
  }

  /** The state after the loop has processed `items`, or the error it raised. */
  function Run(customVocabs: Option<map<string, string>>, segments: Option<seq<Segment>>, items: seq<Item>): Result<State, Error>
    decreases |items|
  {
    if items == [] then Success(Start)
    else
      match Run(customVocabs, segments, items[..|items| - 1])
      case Failure(e) => Failure(e)
      case Success(st) => Step(customVocabs, segments, st, items[|items| - 1])
  }

  datatype Output = Output(chunks: seq<string>, fullText: string)

  /** After the loop: the pending chunk and the last paragraph are kept only when non-empty,
      and the paragraphs are joined with blank lines. */
  function Finish(st: State): Output {
    var chunks := if st.chunk != "" then st.chunks + [st.chunk] else st.chunks;
    var paragraphs := if st.current != "" then st.paragraphs + [st.current] else st.paragraphs;
    Output(chunks, Join(paragraphs, "\n\n"))
  }

  function ChunkUp(customVocabs: Option<map<string, string>>, segments: Option<seq<Segment>>, items: seq<Item>): Result<Output, Error> {
    match Run(customVocabs, segments, items)
    case Failure(e) => Failure(e)
    case Success(st) => Success(Finish(st))
  }

  // ---------------------------------------------------------------------------
  // Reference definitions the properties are stated against
  // ---------------------------------------------------------------------------

  /** All the text the items contribute, in order. */
  function TextOf(customVocabs: Option<map<string, string>>, items: seq<Item>): string
    decreases |items|
  {
    if items == [] then [] else TextOf(customVocabs, items[..|items| - 1]) + PieceOf(customVocabs, items[|items| - 1])
  }

  /** The length of the longest piece any item contributes. */
  function Longest(customVocabs: Option<map<string, string>>, items: seq<Item>): (n: nat)
    ensures forall k :: 0 <= k < |items| ==> |PieceOf(customVocabs, items[k])| <= n
    decreases |items|
  {
    if items == [] then 0
    else
      var rest := Longest(customVocabs, items[..|items| - 1]);
      var here := |PieceOf(customVocabs, items[|items| - 1])|;
      assert forall k :: 0 <= k < |items| - 1 ==> items[k] == items[..|items| - 1][k];
      if here > rest then here else rest
  }

  /** The end time of the last item that has one, 0 before any. */
  function LastEndTime(items: seq<Item>): real
    decreases |items|
  {
    if items == [] then 0.0
    else if items[|items| - 1].endTime.Some? then items[|items| - 1].endTime.value
    else LastEndTime(items[..|items| - 1])
  }

  /** The speaker of the last word, None before any word. */
  function LastSpeakerOf(segments: seq<Segment>, items: seq<Item>): Option<string>
    decreases |items|
  {
    if items == [] then None
    else
      var last := items[|items| - 1];
      if last.kind == Pronunciation && last.startTime.Some? then GetSpeakerLabel(segments, last.startTime.value)
      else LastSpeakerOf(segments, items[..|items| - 1])
  }

  /** The number of words whose speaker differs from the previous word's (the first word counts). */
  function Turns(segments: seq<Segment>, items: seq<Item>): nat
    decreases |items|
  {
    if items == [] then 0
    else
      var prefix := items[..|items| - 1];
      var last := items[|items| - 1];
      var turn := last.kind == Pronunciation && last.startTime.Some?
                  && GetSpeakerLabel(segments, last.startTime.value) != LastSpeakerOf(segments, prefix);
      Turns(segments, prefix) + (if turn then 1 else 0)
  }

  predicate IsWord(item: Item) {
    item.kind == Pronunciation
  }

  // ---------------------------------------------------------------------------
  // Properties of the pass
  // ---------------------------------------------------------------------------

  /** The pieces the items contribute, one per item. */
  function Pieces(customVocabs: Option<map<string, string>>, items: seq<Item>): seq<string> {
    seq(|items|, k requires 0 <= k < |items| => PieceOf(customVocabs, items[k]))
  }

  /** c is a text of at most 4900 characters followed by `piece`. */
  predicate EndsWithPiece(c: string, piece: string) {
    |piece| <= |c| <= CHUNK_LIMIT + |piece| && c[|c| - |piece|..] == piece
  }

  /** c is at most 4900 characters followed by the piece of one of the items: the shape of a
      chunk flushed right after that item's piece was added. */
  predicate FlushedAfterSomePiece(c: string, pieces: seq<string>) {
    exists k :: 0 <= k < |pieces| && EndsWithPiece(c, pieces[k])
  }

  /** The chunk invariant: the pending chunk never exceeds 4900 characters, every flushed chunk
      has at least 4500 and is at most 4900 characters followed by one item's piece, and the
      flushed chunks followed by the pending one are exactly the text of the items, nothing lost
      or repeated. */
  predicate ChunksGood(st: State, text: string, pieces: seq<string>) {
    && |st.chunk| <= CHUNK_LIMIT
    && (forall c :: c in st.chunks ==> |c| >= CHUNK_FLUSH_AT_PUNCTUATION && FlushedAfterSomePiece(c, pieces))
    && Concat(st.chunks) + st.chunk == text
  }

  /** Close either keeps a chunk of at most 4900 characters pending or flushes one of at least 4500. */
  lemma CloseFlushes(before: State, item: Item)
    ensures var after := Close(before, item);
      || (after.chunks == before.chunks && after.chunk == before.chunk && |before.chunk| <= CHUNK_LIMIT)
      || (after.chunks == before.chunks + [before.chunk] && after.chunk == "" && |before.chunk| >= CHUNK_FLUSH_AT_PUNCTUATION)
  {
  }

  /** The flush rule of one item: a chunk is added exactly when the pending chunk with the
      item's piece appended holds at least 4500 characters and the item is punctuation, or holds
      more than 4900; the added chunk is that text and the pending chunk starts over empty.
      Otherwise the piece stays pending and no chunk is added. */
  lemma FlushRule(customVocabs: Option<map<string, string>>, segments: Option<seq<Segment>>, st: State, item: Item)
    requires Step(customVocabs, segments, st, item).Success?
    ensures var r := Step(customVocabs, segments, st, item).value;
      var pending := st.chunk + PieceOf(customVocabs, item);
      var flush := (item.kind == Punctuation && |pending| >= CHUNK_FLUSH_AT_PUNCTUATION) || |pending| > CHUNK_LIMIT;
      && (|r.chunks| == |st.chunks| + 1 <==> flush)
      && (flush ==> r.chunks == st.chunks + [pending] && r.chunk == "")
      && (!flush ==> r.chunks == st.chunks && r.chunk == pending)
  {
  }

  /** One item keeps the chunk invariant: its piece is added to the pending chunk, which Close
      then keeps or flushes. */
  lemma ChunkStep(st: State, other: State, item: Item, piece: string, text: string, pieces: seq<string>)
    requires ChunksGood(st, text, pieces)
    requires other.chunks == st.chunks && other.chunk == st.chunk + piece
    ensures ChunksGood(Close(other, item), text + piece, pieces + [piece])
  {
    CloseFlushes(other, item);
    FlushedStaysFlushed(st.chunks, pieces, piece);
    if Close(other, item).chunks != other.chunks {
      ConcatAppend(st.chunks, other.chunk);
      FlushedAfterNewPiece(st.chunk, piece, pieces);
    }
  }

  /** A flushed chunk keeps its shape as more pieces arrive. */
  lemma FlushedStaysFlushed(chunks: seq<string>, pieces: seq<string>, piece: string)
    requires forall c :: c in chunks ==> FlushedAfterSomePiece(c, pieces)
    ensures forall c :: c in chunks ==> FlushedAfterSomePiece(c, pieces + [piece])
  {
    forall c | c in chunks ensures FlushedAfterSomePiece(c, pieces + [piece]) {
      var k :| 0 <= k < |pieces| && EndsWithPiece(c, pieces[k]);
      assert (pieces + [piece])[k] == pieces[k];
    }
  }

  /** A pending chunk within the limit, with the latest piece added, has the shape of a flushed chunk. */
  lemma FlushedAfterNewPiece(chunk: string, piece: string, pieces: seq<string>)
    requires |chunk| <= CHUNK_LIMIT
    ensures FlushedAfterSomePiece(chunk + piece, pieces + [piece])
  {
    assert (chunk + piece)[|chunk|..] == piece;
    assert EndsWithPiece(chunk + piece, (pieces + [piece])[|pieces|]);
  }

  lemma {:induction false} ChunkInvariant(customVocabs: Option<map<string, string>>, segments: Option<seq<Segment>>, items: seq<Item>)
    requires Run(customVocabs, segments, items).Success?
    ensures ChunksGood(Run(customVocabs, segments, items).value, TextOf(customVocabs, items), Pieces(customVocabs, items))
    decreases |items|
  {
    if items != [] {
      var prefix := items[..|items| - 1];
      var item := items[|items| - 1];
      ChunkInvariant(customVocabs, segments, prefix);
      var st := Run(customVocabs, segments, prefix).value;
      var piece := PieceOf(customVocabs, item);
      assert Run(customVocabs, segments, items) == Step(customVocabs, segments, st, item);
      assert TextOf(customVocabs, items) == TextOf(customVocabs, prefix) + piece;
      PiecesSnoc(customVocabs, items);
      ChunkAfterStep(customVocabs, segments, st, item, Run(customVocabs, segments, items).value,
                     TextOf(customVocabs, prefix), Pieces(customVocabs, prefix),
                     TextOf(customVocabs, items), Pieces(customVocabs, items));
    }
  }

  /** One iteration keeps the chunk invariant, with the item's piece added to the text. */
  lemma ChunkAfterStep(customVocabs: Option<map<string, string>>, segments: Option<seq<Segment>>, st: State, item: Item,
                       next: State, text: string, pieces: seq<string>, text': string, pieces': seq<string>)
    requires Step(customVocabs, segments, st, item) == Success(next) && ChunksGood(st, text, pieces)
    requires text' == text + PieceOf(customVocabs, item) && pieces' == pieces + [PieceOf(customVocabs, item)]
    ensures ChunksGood(next, text', pieces')
  {
    var before := Append(customVocabs, Break(segments, st, item).value, item);
    ChunkStep(st, before, item, PieceOf(customVocabs, item), text, pieces);
  }

  lemma PiecesSnoc(customVocabs: Option<map<string, string>>, items: seq<Item>)
    requires items != []
    ensures Pieces(customVocabs, items) == Pieces(customVocabs, items[..|items| - 1]) + [PieceOf(customVocabs, items[|items| - 1])]
  {
  }

  /** last_item_was_sentence_end holds exactly when the latest item is ".", "!" or "?". */
  lemma SentenceEndFlag(customVocabs: Option<map<string, string>>, segments: Option<seq<Segment>>, items: seq<Item>)
    requires Run(customVocabs, segments, items).Success?
    ensures Run(customVocabs, segments, items).value.sentenceEnd <==>
      items != [] && items[|items| - 1].kind == Punctuation && items[|items| - 1].content in {".", "!", "?"}
  {
  }

  /** The latest item is ".", "!" or "?". */
  predicate EndsSentence(items: seq<Item>) {
    items != [] && items[|items| - 1].kind == Punctuation && items[|items| - 1].content in {".", "!", "?"}
  }

  /** Without speaker labels: the last item is a word that opens a paragraph, because it starts
      more than 2 seconds after the latest end time, or more than 15 seconds after the last break
      and right after a sentence end. */
  predicate PauseBreakAt(items: seq<Item>)
    decreases |items|, 0
  {
    && items != []
    && var prefix, last := items[..|items| - 1], items[|items| - 1];
    && last.kind == Pronunciation && last.startTime.Some?
    && (|| last.startTime.value - LastEndTime(prefix) > PAUSE_GAP
        || (last.startTime.value - LastBreakTime(prefix) > LONG_PARAGRAPH_TIME && EndsSentence(prefix)))
  }

  /** The start time of the latest word that opened a paragraph, 0 before any. */
  function LastBreakTime(items: seq<Item>): real
    decreases |items|, 1
  {
    if items == [] then 0.0
    else if PauseBreakAt(items) then items[|items| - 1].startTime.value
    else LastBreakTime(items[..|items| - 1])
  }

  /** The number of words that opened a paragraph. */
  function PauseBreaks(items: seq<Item>): nat
    decreases |items|
  {
    if items == [] then 0
    else PauseBreaks(items[..|items| - 1]) + (if PauseBreakAt(items) then 1 else 0)
  }

  /** Without speaker labels, a paragraph is closed exactly at each pause break, last_pause is
      the start of the latest break, and right after a break the open paragraph holds only the
      word that opened it. */
  lemma {:induction false} PauseParagraphs(customVocabs: Option<map<string, string>>, items: seq<Item>)
    requires Run(customVocabs, None, items).Success?
    ensures var st := Run(customVocabs, None, items).value;
      && |st.paragraphs| == PauseBreaks(items)
      && st.lastPause == LastBreakTime(items)
      && (PauseBreakAt(items) ==> st.current == PieceOf(customVocabs, items[|items| - 1]))
    decreases |items|
  {
    if items != [] {
      var prefix := items[..|items| - 1];
      PauseParagraphs(customVocabs, prefix);
      PreviousTimeIsLastEnd(customVocabs, None, prefix);
      SentenceEndFlag(customVocabs, None, prefix);
      var st := Run(customVocabs, None, prefix).value;
      assert st.sentenceEnd <==> EndsSentence(prefix);
      assert Run(customVocabs, None, items) == Step(customVocabs, None, st, items[|items| - 1]);
    }
  }

  /** previous_time is the end time of the latest item that has one (0 before any). */
  lemma {:induction false} PreviousTimeIsLastEnd(customVocabs: Option<map<string, string>>, segments: Option<seq<Segment>>, items: seq<Item>)
    requires Run(customVocabs, segments, items).Success?
    ensures Run(customVocabs, segments, items).value.previousTime == LastEndTime(items)
    decreases |items|
  {
    if items != [] {
      PreviousTimeIsLastEnd(customVocabs, segments, items[..|items| - 1]);
    }
  }

  /** The pass fails exactly at a word without a start time or, with speaker labels, at a word
      no segment covers: in a successful pass every word has both. */
  lemma {:induction false} SuccessNeedsTimesAndSpeakers(customVocabs: Option<map<string, string>>, segments: Option<seq<Segment>>, items: seq<Item>)
    requires Run(customVocabs, segments, items).Success?
    ensures forall k :: 0 <= k < |items| && IsWord(items[k]) ==>
      items[k].startTime.Some? && (segments.Some? ==> GetSpeakerLabel(segments.value, items[k].startTime.value).Some?)
    decreases |items|
  {
    if items != [] {
      var prefix := items[..|items| - 1];
      SuccessNeedsTimesAndSpeakers(customVocabs, segments, prefix);
      assert forall k :: 0 <= k < |items| - 1 ==> items[k] == prefix[k];
    }
  }

  /** Without speaker labels the paragraphs hold exactly the text of the items: a pause break
      closes the current paragraph and opens an empty one. */
  lemma {:induction false} PlainParagraphsKeepText(customVocabs: Option<map<string, string>>, items: seq<Item>)
    requires Run(customVocabs, None, items).Success?
    ensures var st := Run(customVocabs, None, items).value;
      Concat(st.paragraphs) + st.current == TextOf(customVocabs, items)
    decreases |items|
  {
    if items != [] {
      var prefix, item := items[..|items| - 1], items[|items| - 1];
      PlainParagraphsKeepText(customVocabs, prefix);
      var st := Run(customVocabs, None, prefix).value;
      assert Run(customVocabs, None, items) == Step(customVocabs, None, st, item);
      assert TextOf(customVocabs, items) == TextOf(customVocabs, prefix) + PieceOf(customVocabs, item);
      PlainStepKeepsText(customVocabs, st, item, Step(customVocabs, None, st, item).value);
    }
  }

  /** One item without speaker labels: the paragraphs and the open paragraph gain exactly the
      item's piece. */
  lemma PlainStepKeepsText(customVocabs: Option<map<string, string>>, st: State, item: Item, next: State)
    requires Step(customVocabs, None, st, item) == Success(next)
    ensures Concat(next.paragraphs) + next.current == Concat(st.paragraphs) + st.current + PieceOf(customVocabs, item)
  {
    var broken := Break(None, st, item).value;
    if broken.paragraphs != st.paragraphs {
      ConcatAppend(st.paragraphs, st.current);
    }
  }

  /** With speaker labels, a paragraph is opened at every speaker turn and only there, and the
      open paragraph starts with "<speaker> :" once a word has been seen. */
  lemma {:induction false} SpeakerParagraphs(customVocabs: Option<map<string, string>>, segments: seq<Segment>, items: seq<Item>)
    requires Run(customVocabs, Some(segments), items).Success?
    ensures var st := Run(customVocabs, Some(segments), items).value;
      && st.lastSpeaker == LastSpeakerOf(segments, items)
      && |st.paragraphs| == Turns(segments, items)
      && (st.lastSpeaker.Some? ==> StartsWith(st.current, st.lastSpeaker.value + " :"))
    decreases |items|
  {
    if items != [] {
      var prefix := items[..|items| - 1];
      SpeakerParagraphs(customVocabs, segments, prefix);
      var st := Run(customVocabs, Some(segments), prefix).value;
      var item := items[|items| - 1];
      var st' := Run(customVocabs, Some(segments), items).value;
      var broken := Break(Some(segments), st, item).value;
      if st'.lastSpeaker.Some? {
        StartsWithAppend(broken.current, PieceOf(customVocabs, item), st'.lastSpeaker.value + " :");
      }
    }
  }

  predicate StartsWith(s: string, prefix: string) {
    |prefix| <= |s| && s[..|prefix|] == prefix
  }

  lemma StartsWithAppend(s: string, tail: string, prefix: string)
    requires StartsWith(s, prefix)
    ensures StartsWith(s + tail, prefix)
  {
    assert (s + tail)[..|prefix|] == s[..|prefix|];
  }

  /** With speaker labels, a transcript that starts with a word starts with an empty paragraph:
      the guard before the first append is always true, so the full text begins with a blank line. */
  lemma {:induction false} LeadingEmptyParagraph(customVocabs: Option<map<string, string>>, segments: seq<Segment>, items: seq<Item>)
    requires items != [] && IsWord(items[0])
    requires Run(customVocabs, Some(segments), items).Success?
    ensures var st := Run(customVocabs, Some(segments), items).value;
      |st.paragraphs| >= 1 && st.paragraphs[0] == ""
    decreases |items|
  {
    if |items| > 1 {
      var prefix := items[..|items| - 1];
      LeadingEmptyParagraph(customVocabs, segments, prefix);
    } else {
      assert items[..0] == [];
    }
  }

  /** The outputs: the chunks hold exactly the transcript text; none is empty; each is at most
      4900 characters or at most 4900 followed by the piece of one of the items; all but
      the last hold at least 4500 characters and were flushed after an item's piece. So no chunk
      exceeds 4900 characters by more than the longest piece. */
  lemma ChunkUpOutput(customVocabs: Option<map<string, string>>, segments: Option<seq<Segment>>, items: seq<Item>)
    requires ChunkUp(customVocabs, segments, items).Success?
    ensures var chunks := ChunkUp(customVocabs, segments, items).value.chunks;
      && ChunksCover(chunks, TextOf(customVocabs, items), Pieces(customVocabs, items))
      && forall i :: 0 <= i < |chunks| ==> |chunks[i]| <= CHUNK_LIMIT + Longest(customVocabs, items)
  {
    ChunkInvariant(customVocabs, segments, items);
    var st := Run(customVocabs, segments, items).value;
    var chunks := ChunkUp(customVocabs, segments, items).value.chunks;
    var pieces := Pieces(customVocabs, items);
    if st.chunk != "" {
      ConcatAppend(st.chunks, st.chunk);
    }
    forall i | 0 <= i < |chunks| ensures chunks[i] != "" && (|chunks[i]| <= CHUNK_LIMIT || FlushedAfterSomePiece(chunks[i], pieces)) {
      if i < |st.chunks| {
        assert chunks[i] in st.chunks;
      }
    }
    forall i | 0 <= i < |chunks| - 1 ensures |chunks[i]| >= CHUNK_FLUSH_AT_PUNCTUATION && FlushedAfterSomePiece(chunks[i], pieces) {
      assert chunks[i] in st.chunks;
    }
    ChunksWithinLongest(customVocabs, items, chunks);
  }

  /** What the chunks promise about the transcript text and the pieces it is made of. */
  predicate ChunksCover(chunks: seq<string>, text: string, pieces: seq<string>) {
    && Concat(chunks) == text
    && (forall i :: 0 <= i < |chunks| ==>
          chunks[i] != "" && (|chunks[i]| <= CHUNK_LIMIT || FlushedAfterSomePiece(chunks[i], pieces)))
    && (forall i :: 0 <= i < |chunks| - 1 ==>
          |chunks[i]| >= CHUNK_FLUSH_AT_PUNCTUATION && FlushedAfterSomePiece(chunks[i], pieces))
  }

  /** A chunk that overshoots by one item's piece is within 4900 plus the longest piece. */
  lemma ChunksWithinLongest(customVocabs: Option<map<string, string>>, items: seq<Item>, chunks: seq<string>)
    requires forall i :: 0 <= i < |chunks| ==>
      |chunks[i]| <= CHUNK_LIMIT || FlushedAfterSomePiece(chunks[i], Pieces(customVocabs, items))
    ensures forall i :: 0 <= i < |chunks| ==> |chunks[i]| <= CHUNK_LIMIT + Longest(customVocabs, items)
  {
    forall i | 0 <= i < |chunks| ensures |chunks[i]| <= CHUNK_LIMIT + Longest(customVocabs, items) {
      if |chunks[i]| > CHUNK_LIMIT {
        var k :| 0 <= k < |items| && EndsWithPiece(chunks[i], Pieces(customVocabs, items)[k]);
        assert |PieceOf(customVocabs, items[k])| <= Longest(customVocabs, items);
      }
    }
  }

  // ---------------------------------------------------------------------------
  // The loop as the source runs it
  // ---------------------------------------------------------------------------

  /**
   * chunk_up_transcript: returns the chunks for entity detection and the full text, or the
   * error the loop raises. The chunks hold exactly the transcript text, in size-bounded pieces.
   */
  method ChunkUpTranscript(customVocabs: Option<map<string, string>>, speakerLabels: Option<seq<SpeakerSegment>>, items: seq<Item>)
    returns (result: Result<Output, Error>)
    ensures var segments := if speakerLabels.Some? then Some(ParseSpeakerSegments(speakerLabels.value)) else None;
      && result == ChunkUp(customVocabs, segments, items)
      && (result.Success? ==> ChunksCover(result.value.chunks, TextOf(customVocabs, items), Pieces(customVocabs, items)))
      && (result.Success? ==> forall i :: 0 <= i < |result.value.chunks| ==> |result.value.chunks[i]| <= CHUNK_LIMIT + Longest(customVocabs, items))
  {
    var speakerSegments: Option<seq<Segment>> := None;
    if speakerLabels.Some? {
      speakerSegments := Some(ParseSpeakerSegments(speakerLabels.value));
    }
    var st := Start;
    for i := 0 to |items|
      invariant Run(customVocabs, speakerSegments, items[..i]) == Success(st)
    {
      RunOneMore(customVocabs, speakerSegments, items, i);
      var next := ProcessItem(customVocabs, speakerSegments, st, items[i]);
      if next.Failure? {
        result := Failure(next.error);
        ChunkUpFailsFrom(customVocabs, speakerSegments, items, i + 1);
        return;
      }
      st := next.value;
    }
    assert items[..|items|] == items;
    var comprehendChunks, paragraphs := st.chunks, st.paragraphs;
    if st.chunk != "" {
      comprehendChunks := comprehendChunks + [st.chunk];
    }
    if st.current != "" {
      paragraphs := paragraphs + [st.current];
    }
    result := Success(Output(comprehendChunks, Join(paragraphs, "\n\n")));
    ChunkUpOutput(customVocabs, speakerSegments, items);
  }

  /** The body of the item loop, on the loop's variables: the paragraph break, the text, the
      chunk flush and the end time, or the error a word without a start time or speaker raises. */
  method ProcessItem(customVocabs: Option<map<string, string>>, speakerSegments: Option<seq<Segment>>, st: State, item: Item)
    returns (result: Result<State, Error>)
    ensures result == Step(customVocabs, speakerSegments, st, item)
  {
    var broken := BreakBefore(speakerSegments, st, item);
    if broken.Failure? {
      return Failure(broken.error);
    }
    var State(lastSpeaker, paragraphs, currentParagraph, comprehendChunks, currentChunk,
              previousTime, lastPause, lastItemWasSentenceEnd) := broken.value;
    if item.kind == Pronunciation {
      var phrase := item.content;
      if customVocabs.Some? && phrase in customVocabs.value {
        phrase := customVocabs.value[phrase];
      }
      if phrase == "i" {
        phrase := "I";
      }
      currentParagraph := currentParagraph + (" " + phrase);
      currentChunk := currentChunk + (" " + phrase);
      lastItemWasSentenceEnd := false;
    } else {
      currentParagraph := currentParagraph + item.content;
      currentChunk := currentChunk + item.content;
      lastItemWasSentenceEnd := item.content == "." || item.content == "!" || item.content == "?";
    }
    assert State(lastSpeaker, paragraphs, currentParagraph, comprehendChunks, currentChunk,
                 previousTime, lastPause, lastItemWasSentenceEnd) == Append(customVocabs, broken.value, item);
    if (item.kind == Punctuation && |currentChunk| >= CHUNK_FLUSH_AT_PUNCTUATION) || |currentChunk| > CHUNK_LIMIT {
      comprehendChunks := comprehendChunks + [currentChunk];
      currentChunk := "";
    }
    if item.endTime.Some? {
      previousTime := item.endTime.value;
    }
    result := Success(State(lastSpeaker, paragraphs, currentParagraph, comprehendChunks, currentChunk,
                            previousTime, lastPause, lastItemWasSentenceEnd));
  }

  /** The first half of the loop body: for a word, read its start time and open a paragraph
      at a speaker turn or, without speaker labels, after a pause. */
  method BreakBefore(speakerSegments: Option<seq<Segment>>, st: State, item: Item) returns (result: Result<State, Error>)
    ensures result == Break(speakerSegments, st, item)
  {
    if item.kind == Punctuation {
      return Success(st);
    }
    if item.startTime.None? {
      return Failure(MissingStartTime);
    }
    var startTime := item.startTime.value;
    var next := st;
    if speakerSegments.Some? {
      var currentSpeaker := GetSpeakerLabel(speakerSegments.value, startTime);
      if st.lastSpeaker.None? || currentSpeaker != st.lastSpeaker {
        next := next.(paragraphs := st.paragraphs + [st.current]);
        if currentSpeaker.None? {
          return Failure(NoSpeakerAt(startTime));
        }
        next := next.(current := currentSpeaker.value + " :", lastPause := startTime);
      }
      next := next.(lastSpeaker := currentSpeaker);
    } else if startTime - st.previousTime > PAUSE_GAP || (startTime - st.lastPause > LONG_PARAGRAPH_TIME && st.sentenceEnd) {
      next := next.(lastPause := startTime, paragraphs := st.paragraphs + [st.current], current := "");
    }
    result := Success(next);
  }

  lemma RunOneMore(customVocabs: Option<map<string, string>>, segments: Option<seq<Segment>>, items: seq<Item>, i: nat)
    requires i < |items| && Run(customVocabs, segments, items[..i]).Success?
    ensures Run(customVocabs, segments, items[..i + 1]) == Step(customVocabs, segments, Run(customVocabs, segments, items[..i]).value, items[i])
  {
    assert items[..i + 1][..i] == items[..i];
  }

  /** Once the pass has failed on a prefix, it fails on the whole transcript. */
  lemma {:induction false} ChunkUpFailsFrom(customVocabs: Option<map<string, string>>, segments: Option<seq<Segment>>, items: seq<Item>, n: nat)
    requires n <= |items| && Run(customVocabs, segments, items[..n]).Failure?
    ensures Run(customVocabs, segments, items) == Run(customVocabs, segments, items[..n])
    ensures ChunkUp(customVocabs, segments, items) == Failure(Run(customVocabs, segments, items[..n]).error)
    decreases |items| - n
  {
    if n < |items| {
      assert items[..n + 1][..n] == items[..n];
      ChunkUpFailsFrom(customVocabs, segments, items, n + 1);
    } else {
      assert items[..n] == items;
    }
  }
}
