/**
 * The paragraph segmenter of the transcription step: one pass over the Transcribe items that
 * cuts the text into paragraphs at speaker changes, long pauses and long paragraphs, records
 * each paragraph with its times, speaker, reason and entity tags, and maps vocabulary tokens
 * back to the terms they stand for.
 */
module ParagraphSegmenter {
  import opened Wrappers
  import opened TextOps
  import opened Transcript
  import opened Entities

  /** A pause longer than this many seconds between words starts a new paragraph. */
  const PARAGRAPH_GAP: real := 1.5
  /** A paragraph longer than this many characters is closed at the next word. */
  const LONG_PARAGRAPH: nat := 4900
  /** The sentinel for "no time recorded yet". */
  const NO_TIME: real := -1.0
  /** The speaker of every word when the transcript has no speaker labels. */
  const DEFAULT_SPEAKER: string := "spk_0"
  /** The entity types kept as paragraph tags. */
  const ENTITY_TYPES: seq<string> := ["COMMERCIAL_ITEM", "EVENT", "LOCATION", "ORGANIZATION", "TITLE", "PERSON"]

  // ---------------------------------------------------------------------------
  // run_comprehend: the entity texts kept as tags
  // ---------------------------------------------------------------------------

  predicate IsTag(e: DetectedEntity) {
    e.entityType in ENTITY_TYPES
  }

  /** The texts of the entities of a kept type, in the order of the response. */
  function Tags(entities: seq<DetectedEntity>): (tags: seq<string>)
    ensures |tags| <= |entities|
    ensures forall t :: t in tags <==> exists k :: 0 <= k < |entities| && IsTag(entities[k]) && entities[k].text == t
    decreases |entities|
  {
    if entities == [] then []
    else
      var last := entities[|entities| - 1];
      var rest := Tags(entities[..|entities| - 1]);
      assert forall k :: 0 <= k < |entities| - 1 ==> entities[..|entities| - 1][k] == entities[k];
      if IsTag(last) then rest + [last.text] else rest
  }

  /** Tagging two responses one after the other gives the tags of the first, then those of the
      second: the filter keeps the response order. */
  lemma {:induction false} TagsOfConcat(a: seq<DetectedEntity>, b: seq<DetectedEntity>)
    ensures Tags(a + b) == Tags(a) + Tags(b)
    decreases |b|
  {
    if b == [] {
      assert a + b == a;
    } else {
      var b' := b[..|b| - 1];
      assert (a + b)[..|a + b| - 1] == a + b';
      assert (a + b)[|a + b| - 1] == b[|b| - 1];
      TagsOfConcat(a, b');
    }
  }

  /**
   * run_comprehend: asks entity detection (a parameter here) for the entities of the text and
   * keeps, in order, the texts of those whose type is one of the tag types.
   */
  method RunComprehend(detectEntities: string -> seq<DetectedEntity>, text: string) returns (keywords: seq<string>)
    ensures keywords == Tags(detectEntities(text))
  {
    var entities := detectEntities(text);
    keywords := [];
    for i := 0 to |entities|
      invariant keywords == Tags(entities[..i])
    {
      assert entities[..i + 1][..i] == entities[..i];
      if entities[i].entityType in ENTITY_TYPES {
        keywords := keywords + [entities[i].text];
      }
    }
    assert entities[..|entities|] == entities;
  }

  // ---------------------------------------------------------------------------
  // convertPositionToTime
  // ---------------------------------------------------------------------------

  /** An entry of the time data: a character position in the text and the time it was spoken. */
  datatype TimeMark = TimeMark(position: int, startTime: real)

  /** The index of the last entry at or before the offset, or -1 when there is none. */
  function LastAtOrBefore(timedata: seq<TimeMark>, offset: int): (i: int)
    ensures -1 <= i < |timedata|
    ensures i >= 0 ==> timedata[i].position <= offset
    ensures forall j :: i < j < |timedata| ==> timedata[j].position > offset
    decreases |timedata|
  {
    if timedata == [] then -1
    else if timedata[|timedata| - 1].position <= offset then |timedata| - 1
    else LastAtOrBefore(timedata[..|timedata| - 1], offset)
  }

  /**
   * The start time of the last entry at or before the offset; None stands for the empty string
   * the function returns when there is none.
   */
  function TimeAt(timedata: seq<TimeMark>, offset: int): (r: Option<real>)
    ensures r.None? <==> forall k :: 0 <= k < |timedata| ==> timedata[k].position > offset
    ensures r.Some? ==> exists k :: (0 <= k < |timedata| && timedata[k].position <= offset && timedata[k].startTime == r.value
      && forall j :: k < j < |timedata| ==> timedata[j].position > offset)
  {
    var i := LastAtOrBefore(timedata, offset);
    if i < 0 then None else Some(timedata[i].startTime)
  }

  /** convertPositionToTime: scans the whole time data and keeps the last match. */
  method ConvertPositionToTime(offset: int, timedata: seq<TimeMark>) returns (timePosition: Option<real>)
    ensures timePosition == TimeAt(timedata, offset)
  {
    timePosition := None;
    for i := 0 to |timedata|
      invariant timePosition == TimeAt(timedata[..i], offset)
    {
      assert timedata[..i + 1][..i] == timedata[..i];
      assert timedata[..i + 1][i] == timedata[i];
      if timedata[i].position <= offset {
        timePosition := Some(timedata[i].startTime);
      }
    }
    assert timedata[..|timedata|] == timedata;
  }

  // ---------------------------------------------------------------------------
  // Vocabulary decoding: every key of the mapping, in the mapping's order
  // ---------------------------------------------------------------------------

  /** The word after `word.replace(key, val)` for each (key, val) of the mapping in order. */
  function Decode(word: string, mapping: seq<(string, string)>): string
    decreases |mapping|
  {
    if mapping == [] then word
    else
      var (key, val) := mapping[|mapping| - 1];
      Replace(Decode(word, mapping[..|mapping| - 1]), key, val)
  }

  /** Decoding with two mappings in turn is decoding with the first followed by the second:
      each key works on the result of the keys before it. */
  lemma {:induction false} DecodeInTurn(word: string, first: seq<(string, string)>, second: seq<(string, string)>)
    ensures Decode(word, first + second) == Decode(Decode(word, first), second)
    decreases |second|
  {
    if second == [] {
      assert first + second == first;
    } else {
      var second' := second[..|second| - 1];
      assert (first + second)[..|first + second| - 1] == first + second';
      assert (first + second)[|first + second| - 1] == second[|second| - 1];
      DecodeInTurn(word, first, second');
    }
  }

  /** A word holding none of the (non-empty) tokens is left as it is. */
  lemma {:induction false} DecodeLeavesPlainWords(word: string, mapping: seq<(string, string)>)
    requires forall k :: 0 <= k < |mapping| ==> mapping[k].0 != [] && !Contains(word, mapping[k].0)
    ensures Decode(word, mapping) == word
    decreases |mapping|
  {
    if mapping != [] {
      var prefix := mapping[..|mapping| - 1];
      assert forall k :: 0 <= k < |prefix| ==> prefix[k] == mapping[k];
      DecodeLeavesPlainWords(word, prefix);
      ReplaceAbsent(word, mapping[|mapping| - 1].0, mapping[|mapping| - 1].1);
    }
  }

  /** A word that is exactly a token comes back as its term when no later key occurs in the term. */
  lemma DecodeToken(token: string, term: string, later: seq<(string, string)>)
    requires token != []
    requires forall k :: 0 <= k < |later| ==> later[k].0 != [] && !Contains(term, later[k].0)
    ensures Decode(token, [(token, term)] + later) == term
  {
    DecodeInTurn(token, [(token, term)], later);
    assert [(token, term)][..0] == [];
    ReplaceWhole(token, term);
    DecodeLeavesPlainWords(term, later);
  }

  /** The replacements do not commute: the order of the mapping matters. */
  lemma DecodeOrderMatters()
    ensures Decode("a", [("a", "b"), ("b", "c")]) == "c"
    ensures Decode("a", [("b", "c"), ("a", "b")]) == "b"
  {
    var ab := [("a", "b"), ("b", "c")];
    assert ab[..1] == [("a", "b")];
    assert ab[..1][..0] == [];
    DecodeToken("a", "b", []);
    ReplaceWhole("b", "c");
    var ba := [("b", "c"), ("a", "b")];
    assert ba[..1] == [("b", "c")];
    assert ba[..1][..0] == [];
    ReplaceAbsent("a", "b", "c");
    ReplaceWhole("a", "b");
  }

  /** The decoding loop of the segmenter. */
  method DecodeWord(word: string, mapping: seq<(string, string)>) returns (decoded: string)
    ensures decoded == Decode(word, mapping)
  {
    decoded := word;
    for i := 0 to |mapping|
      invariant decoded == Decode(word, mapping[..i])
    {
      assert mapping[..i + 1][..i] == mapping[..i];
      var (key, val) := mapping[i];
      decoded := Replace(decoded, key, val);
    }
    assert mapping[..|mapping|] == mapping;
  }

  // ---------------------------------------------------------------------------
  // The speaker index
  // ---------------------------------------------------------------------------

  /**
   * The speaker index after the advancing loop: it moves forward while there is a next segment and
   * that segment ends before t, so it stops on the segment just before the first later one
   * whose end time reaches t, or on the last segment.
   */
  function Advance(segments: seq<SpeakerSegment>, idx: nat, t: real): (r: nat)
    requires idx < |segments|
    ensures idx <= r < |segments|
    ensures forall j :: idx < j <= r ==> segments[j].endTime < t
    ensures r + 1 < |segments| ==> segments[r + 1].endTime >= t
    decreases |segments| - idx
  {
    if idx < |segments| - 1 && segments[idx + 1].endTime < t then Advance(segments, idx + 1, t) else idx
  }

  /** An index that points into the segments whenever there are some. */
  predicate InRange(speakerLabels: Option<seq<SpeakerSegment>>, idx: nat) {
    speakerLabels.Some? && speakerLabels.value != [] ==> idx < |speakerLabels.value|
  }

  datatype Error =
    | NoSpeakerSegments  // speaker labels without segments: the segment lookup is out of range
    | MissingEndTime     // a timed item without an end time where the loop reads it

  /** The speaker index and the speaker of a word starting at t. */
  function Resolve(speakerLabels: Option<seq<SpeakerSegment>>, idx: nat, t: real): (r: Result<(nat, string), Error>)
    requires InRange(speakerLabels, idx)
    ensures r.Failure? <==> speakerLabels.Some? && speakerLabels.value == []
    ensures r.Success? ==> idx <= r.value.0 && InRange(speakerLabels, r.value.0)
    ensures speakerLabels.None? ==> r == Success((idx, DEFAULT_SPEAKER))
    ensures r.Success? && speakerLabels.Some? ==>
      r.value.0 == Advance(speakerLabels.value, idx, t) && r.value.1 == speakerLabels.value[r.value.0].speakerLabel
  {
    if speakerLabels.None? then Success((idx, DEFAULT_SPEAKER))
    else if speakerLabels.value == [] then Failure(NoSpeakerSegments)
    else
      var j := Advance(speakerLabels.value, idx, t);
      Success((j, speakerLabels.value[j].speakerLabel))
  }

  // ---------------------------------------------------------------------------
  // Paragraph boundaries
  // ---------------------------------------------------------------------------

  datatype Boundary = SpeakerChange(from: string, to: string) | TimeGap | LongParagraph | NoBoundary

  /** Why the paragraph ends before a word: a speaker change wins over a gap, a gap over length. */
  function BoundaryOf(prevSpeaker: string, speaker: string, gap: real, length: nat): (b: Boundary)
    ensures b.SpeakerChange? <==> speaker != prevSpeaker
    ensures b.SpeakerChange? ==> b == SpeakerChange(prevSpeaker, speaker)
    ensures b == TimeGap <==> speaker == prevSpeaker && gap > PARAGRAPH_GAP
    ensures b == LongParagraph <==> speaker == prevSpeaker && gap <= PARAGRAPH_GAP && length > LONG_PARAGRAPH
  {
    if speaker != prevSpeaker then SpeakerChange(prevSpeaker, speaker)
    else if gap > PARAGRAPH_GAP then TimeGap
    else if length > LONG_PARAGRAPH then LongParagraph
    else NoBoundary
  }

  /** The reason recorded with a paragraph; empty exactly when there is no boundary. */
  function ReasonText(b: Boundary): (reason: string)
    ensures reason == [] <==> b == NoBoundary
  {
    match b
    case SpeakerChange(from, to) => "Speaker Change from " + from + " to " + to
    case TimeGap => "Time gap"
    case LongParagraph => "Long paragraph"
    case NoBoundary => ""
  }

  // ---------------------------------------------------------------------------
  // The loop as a fold
  // ---------------------------------------------------------------------------

  /** An element of the returned list: the paragraphs closed in the loop, and the final one. */
  datatype Record =
    | Paragraph(startTime: real, endTime: real, text: string, gap: real, tags: seq<string>,
                reason: string, speaker: string, len: nat)
    | Final(startTime: real, endTime: real, text: string, tags: seq<string>, speaker: string)

  /** The loop variables: contents, prevEndTime, prevStartTime, newParagraph, prevSpeaker,
      speakerIndex and the records returned so far. */
  datatype State = State(contents: string, prevEndTime: real, prevStartTime: real, newParagraph: bool,
                         prevSpeaker: string, speakerIndex: nat, retval: seq<Record>)

  const Start: State := State("", NO_TIME, NO_TIME, false, DEFAULT_SPEAKER, 0, [])

  /** A punctuation item is appended as it is; a full stop sets the new-paragraph flag. */
  function AfterPunctuation(st: State, item: Item): (r: State)
    ensures item.kind == Pronunciation ==> r == st
    ensures item.kind == Punctuation ==> r.contents == st.contents + item.content
    ensures r.newParagraph == (st.newParagraph || (item.kind == Punctuation && item.content == "."))
    ensures r.(contents := st.contents, newParagraph := st.newParagraph) == st
  {
    if item.kind == Punctuation then
      st.(newParagraph := if item.content == "." then true else st.newParagraph, contents := st.contents + item.content)
    else st
  }

  /** The decoded word is appended, after one space when the paragraph already has text. */
  function AppendWord(mapping: seq<(string, string)>, st: State, word: string): (r: State)
    ensures r.(contents := st.contents) == st
    ensures r.contents == st.contents + (if st.contents == "" then "" else " ") + Decode(word, mapping)
  {
    var spaced := if st.contents != "" then st.contents + " " else st.contents;
    st.(contents := spaced + Decode(word, mapping))
  }

  /** A record of a closed paragraph: it has an end time, a reason and its length. */
  predicate Emitted(r: Record) {
    r.Paragraph? && r.len == |r.text| && r.endTime != NO_TIME && r.reason != ""
  }

  /** The records of `after` are those of `before`, possibly followed by one closed paragraph. */
  predicate ExtendsByAtMostOne(before: seq<Record>, after: seq<Record>) {
    after == before || (|after| == |before| + 1 && after[..|before|] == before && Emitted(after[|before|]))
  }

  /** The part of the loop body for an item that has a start time. */
  function Timed(detectEntities: string -> seq<DetectedEntity>, mapping: seq<(string, string)>,
                 speakerLabels: Option<seq<SpeakerSegment>>, st: State, item: Item): (r: Result<State, Error>)
    requires item.startTime.Some? && InRange(speakerLabels, st.speakerIndex)
    ensures r.Success? ==> InRange(speakerLabels, r.value.speakerIndex) && st.speakerIndex <= r.value.speakerIndex
    ensures r.Success? ==> ExtendsByAtMostOne(st.retval, r.value.retval)
  {
    var start := item.startTime.value;
    var prevStartTime := if st.prevStartTime == NO_TIME then start else st.prevStartTime;
    var gap := start - st.prevEndTime;
    var resolved := Resolve(speakerLabels, st.speakerIndex, start);
    if resolved.Failure? then Failure(resolved.error)
    else
      var idx := resolved.value.0;
      var speaker := resolved.value.1;
      var boundary := BoundaryOf(st.prevSpeaker, speaker, gap, |st.contents|);
      if st.prevEndTime != NO_TIME && boundary != NoBoundary then
        var record := Paragraph(prevStartTime, st.prevEndTime, st.contents, gap, Tags(detectEntities(st.contents)),
                                ReasonText(boundary), st.prevSpeaker, |st.contents|);
        Success(AppendWord(mapping, State("", NO_TIME, NO_TIME, false, speaker, idx, st.retval + [record]), item.content))
      else if item.endTime.None? then Failure(MissingEndTime)
      else
        Success(AppendWord(mapping, State(st.contents, item.endTime.value, prevStartTime, boundary != NoBoundary,
                                          speaker, idx, st.retval), item.content))
  }

  /** One iteration of the loop: punctuation first, then, for an item with a start time, the
      paragraph decision and the word. An item without a start time adds no word. */
  function Step(detectEntities: string -> seq<DetectedEntity>, mapping: seq<(string, string)>,
                speakerLabels: Option<seq<SpeakerSegment>>, st: State, item: Item): (r: Result<State, Error>)
    requires InRange(speakerLabels, st.speakerIndex)
    ensures r.Success? ==> InRange(speakerLabels, r.value.speakerIndex) && st.speakerIndex <= r.value.speakerIndex
    ensures r.Success? ==> ExtendsByAtMostOne(st.retval, r.value.retval)
  {
    var st' := AfterPunctuation(st, item);
    if item.startTime.None? then Success(st') else Timed(detectEntities, mapping, speakerLabels, st', item)
  }

  /** The state after the loop has processed `items`, or the error it raised. */
  function Run(detectEntities: string -> seq<DetectedEntity>, mapping: seq<(string, string)>,
               speakerLabels: Option<seq<SpeakerSegment>>, items: seq<Item>): (r: Result<State, Error>)
    ensures r.Success? ==> InRange(speakerLabels, r.value.speakerIndex)
    ensures r.Success? ==> forall k :: 0 <= k < |r.value.retval| ==> Emitted(r.value.retval[k])
    decreases |items|
  {
    if items == [] then Success(Start)
    else
      var before := Run(detectEntities, mapping, speakerLabels, items[..|items| - 1]);
      if before.Failure? then before
      else Step(detectEntities, mapping, speakerLabels, before.value, items[|items| - 1])
  }

  /** After the loop the remaining text is always recorded, even when it is empty. */
  function Finish(detectEntities: string -> seq<DetectedEntity>, st: State): seq<Record> {
    st.retval + [Final(st.prevStartTime, st.prevEndTime, st.contents, Tags(detectEntities(st.contents)), st.prevSpeaker)]
  }

  /** The records the segmenter returns, or the error it raises. */
  function Segment(detectEntities: string -> seq<DetectedEntity>, mapping: seq<(string, string)>,
                   speakerLabels: Option<seq<SpeakerSegment>>, items: seq<Item>): (r: Result<seq<Record>, Error>)
    ensures r.Success? ==> |r.value| >= 1 && r.value[|r.value| - 1].Final?
    ensures r.Success? ==> forall k :: 0 <= k < |r.value| - 1 ==> Emitted(r.value[k])
  {
    var st := Run(detectEntities, mapping, speakerLabels, items);
    if st.Failure? then Failure(st.error) else Success(Finish(detectEntities, st.value))
  }

  // ---------------------------------------------------------------------------
  // Properties
  // ---------------------------------------------------------------------------

  /** Whether the step for `item` closes a paragraph, and with which record: exactly when a
      previous end time is recorded and there is a boundary before the word. */
  lemma EmissionRule(detectEntities: string -> seq<DetectedEntity>, mapping: seq<(string, string)>,
                     speakerLabels: Option<seq<SpeakerSegment>>, st: State, item: Item)
    requires item.startTime.Some? && InRange(speakerLabels, st.speakerIndex)
    requires Step(detectEntities, mapping, speakerLabels, st, item).Success?
    ensures var r := Step(detectEntities, mapping, speakerLabels, st, item).value;
      var before := AfterPunctuation(st, item);
      var start := item.startTime.value;
      var speaker := r.prevSpeaker;
      var boundary := BoundaryOf(st.prevSpeaker, speaker, start - st.prevEndTime, |before.contents|);
      && (|r.retval| == |st.retval| + 1 <==> st.prevEndTime != NO_TIME && boundary != NoBoundary)
      && (|r.retval| == |st.retval| + 1 ==>
            r.retval[|st.retval|] == Paragraph(if st.prevStartTime == NO_TIME then start else st.prevStartTime,
                                               st.prevEndTime, before.contents, start - st.prevEndTime,
                                               Tags(detectEntities(before.contents)), ReasonText(boundary),
                                               st.prevSpeaker, |before.contents|))
      && (|r.retval| == |st.retval| ==> r.prevEndTime == item.endTime.value && r.newParagraph == (boundary != NoBoundary))
  {
  }

  /** After a paragraph is closed, the text restarts with the decoded word and both times are
      cleared: the word that caused the boundary leaves no time behind. */
  lemma ResetAfterEmission(detectEntities: string -> seq<DetectedEntity>, mapping: seq<(string, string)>,
                           speakerLabels: Option<seq<SpeakerSegment>>, st: State, item: Item)
    requires InRange(speakerLabels, st.speakerIndex)
    requires Step(detectEntities, mapping, speakerLabels, st, item).Success?
    requires |Step(detectEntities, mapping, speakerLabels, st, item).value.retval| == |st.retval| + 1
    ensures var r := Step(detectEntities, mapping, speakerLabels, st, item).value;
      && r.contents == Decode(item.content, mapping)
      && r.prevStartTime == NO_TIME && r.prevEndTime == NO_TIME && !r.newParagraph
  {
  }

  /** No step closes a paragraph while no end time is recorded. */
  lemma NoEmissionWithoutEndTime(detectEntities: string -> seq<DetectedEntity>, mapping: seq<(string, string)>,
                                 speakerLabels: Option<seq<SpeakerSegment>>, st: State, item: Item)
    requires InRange(speakerLabels, st.speakerIndex) && st.prevEndTime == NO_TIME
    requires Step(detectEntities, mapping, speakerLabels, st, item).Success?
    ensures Step(detectEntities, mapping, speakerLabels, st, item).value.retval == st.retval
  {
  }

  /** Two consecutive items never both close a paragraph. */
  lemma NoTwoEmissionsInARow(detectEntities: string -> seq<DetectedEntity>, mapping: seq<(string, string)>,
                             speakerLabels: Option<seq<SpeakerSegment>>, st: State, first: Item, second: Item)
    requires InRange(speakerLabels, st.speakerIndex)
    requires Step(detectEntities, mapping, speakerLabels, st, first).Success?
    requires |Step(detectEntities, mapping, speakerLabels, st, first).value.retval| == |st.retval| + 1
    requires Step(detectEntities, mapping, speakerLabels, Step(detectEntities, mapping, speakerLabels, st, first).value, second).Success?
    ensures var mid := Step(detectEntities, mapping, speakerLabels, st, first).value;
      Step(detectEntities, mapping, speakerLabels, mid, second).value.retval == mid.retval
  {
    ResetAfterEmission(detectEntities, mapping, speakerLabels, st, first);
    var mid := Step(detectEntities, mapping, speakerLabels, st, first).value;
    NoEmissionWithoutEndTime(detectEntities, mapping, speakerLabels, mid, second);
  }

  /** The flag a full stop sets is never read: for an item with a start time the step does not
      depend on it. */
  lemma FullStopFlagOverwritten(detectEntities: string -> seq<DetectedEntity>, mapping: seq<(string, string)>,
                                speakerLabels: Option<seq<SpeakerSegment>>, st: State, item: Item, flag: bool)
    requires item.startTime.Some? && InRange(speakerLabels, st.speakerIndex)
    ensures Step(detectEntities, mapping, speakerLabels, st.(newParagraph := flag), item)
         == Step(detectEntities, mapping, speakerLabels, st, item)
  {
    assert AfterPunctuation(st.(newParagraph := flag), item).(newParagraph := false)
        == AfterPunctuation(st, item).(newParagraph := false);
  }

  /** Once the pass has failed on a prefix, it fails on the whole transcript. */
  lemma {:induction false} FailsFrom(detectEntities: string -> seq<DetectedEntity>, mapping: seq<(string, string)>,
                                     speakerLabels: Option<seq<SpeakerSegment>>, items: seq<Item>, n: nat)
    requires n <= |items| && Run(detectEntities, mapping, speakerLabels, items[..n]).Failure?
    ensures Run(detectEntities, mapping, speakerLabels, items) == Run(detectEntities, mapping, speakerLabels, items[..n])
    ensures Segment(detectEntities, mapping, speakerLabels, items) == Failure(Run(detectEntities, mapping, speakerLabels, items[..n]).error)
    decreases |items| - n
  {
    if n < |items| {
      assert items[..n + 1][..n] == items[..n];
      FailsFrom(detectEntities, mapping, speakerLabels, items, n + 1);
    } else {
      assert items[..n] == items;
    }
  }

  /** The speaker index never moves back over the whole pass. */
  lemma {:induction false} SpeakerIndexMonotone(detectEntities: string -> seq<DetectedEntity>, mapping: seq<(string, string)>,
                                           speakerLabels: Option<seq<SpeakerSegment>>, items: seq<Item>, i: nat, j: nat)
    requires i <= j <= |items| && Run(detectEntities, mapping, speakerLabels, items[..j]).Success?
    ensures Run(detectEntities, mapping, speakerLabels, items[..i]).Success?
    ensures Run(detectEntities, mapping, speakerLabels, items[..i]).value.speakerIndex
         <= Run(detectEntities, mapping, speakerLabels, items[..j]).value.speakerIndex
    decreases j - i
  {
    if i < j {
      var prefix := items[..j - 1];
      assert items[..j][..j - 1] == prefix;
      assert prefix[..i] == items[..i];
      SpeakerIndexMonotone(detectEntities, mapping, speakerLabels, items, i, j - 1);
    }
  }

  /** Without speaker labels every word is spoken by spk_0, so no paragraph ends at a speaker
      change and every record is attributed to spk_0. */
  lemma {:induction false} DefaultSpeakerOnly(detectEntities: string -> seq<DetectedEntity>, mapping: seq<(string, string)>,
                                              items: seq<Item>)
    requires Run(detectEntities, mapping, None, items).Success?
    ensures var st := Run(detectEntities, mapping, None, items).value;
      && st.prevSpeaker == DEFAULT_SPEAKER
      && forall k :: 0 <= k < |st.retval| ==>
           st.retval[k].speaker == DEFAULT_SPEAKER && st.retval[k].reason in {"Time gap", "Long paragraph"}
    decreases |items|
  {
    if items != [] {
      var prefix := items[..|items| - 1];
      DefaultSpeakerOnly(detectEntities, mapping, prefix);
    }
  }

  // ---------------------------------------------------------------------------
  // The loop itself
  // ---------------------------------------------------------------------------

  /**
   * The segmentation loop: returns the closed paragraphs followed by the final one, or the
   * error the loop raises. Entity detection is a parameter.
   */
  method SegmentParagraphs(detectEntities: string -> seq<DetectedEntity>, mapping: seq<(string, string)>,
                           speakerLabels: Option<seq<SpeakerSegment>>, items: seq<Item>)
    returns (result: Result<seq<Record>, Error>)
    ensures result == Segment(detectEntities, mapping, speakerLabels, items)
  {
    var st := Start;
    for i := 0 to |items|
      invariant Run(detectEntities, mapping, speakerLabels, items[..i]) == Success(st)
    {
      assert items[..i + 1][..i] == items[..i];
      var next := ProcessItem(detectEntities, mapping, speakerLabels, st, items[i]);
      if next.Failure? {
        result := Failure(next.error);
        FailsFrom(detectEntities, mapping, speakerLabels, items, i + 1);
        return;
      }
      st := next.value;
    }
    assert items[..|items|] == items;
    var tags := RunComprehend(detectEntities, st.contents);
    result := Success(st.retval + [Final(st.prevStartTime, st.prevEndTime, st.contents, tags, st.prevSpeaker)]);
  }

  /** The body of the loop for one item. */
  method ProcessItem(detectEntities: string -> seq<DetectedEntity>, mapping: seq<(string, string)>,
                     speakerLabels: Option<seq<SpeakerSegment>>, st: State, item: Item)
    returns (result: Result<State, Error>)
    requires InRange(speakerLabels, st.speakerIndex)
    ensures result == Step(detectEntities, mapping, speakerLabels, st, item)
  {
    var contents := st.contents;
    var newParagraph := st.newParagraph;
    if item.kind == Punctuation {
      if item.content == "." {
        newParagraph := true;
      }
      contents := contents + item.content;
    }
    var punctuated := st.(contents := contents, newParagraph := newParagraph);
    assert punctuated == AfterPunctuation(st, item);
    if item.startTime.Some? {
      result := ProcessWord(detectEntities, mapping, speakerLabels, punctuated, item);
    } else {
      result := Success(punctuated);
    }
  }

  /** The body of the loop for the word of an item that has a start time. */
  method ProcessWord(detectEntities: string -> seq<DetectedEntity>, mapping: seq<(string, string)>,
                     speakerLabels: Option<seq<SpeakerSegment>>, st: State, item: Item)
    returns (result: Result<State, Error>)
    requires item.startTime.Some? && InRange(speakerLabels, st.speakerIndex)
    ensures result == Timed(detectEntities, mapping, speakerLabels, st, item)
  {
    var contents, prevEndTime, prevStartTime, newParagraph := st.contents, st.prevEndTime, st.prevStartTime, st.newParagraph;
    var prevSpeaker, speakerIndex, retval := st.prevSpeaker, st.speakerIndex, st.retval;
    var start := item.startTime.value;
    var speakerLabel := DEFAULT_SPEAKER;
    if prevStartTime == NO_TIME {
      prevStartTime := start;
    }
    var gap := start - prevEndTime;
    if speakerLabels.Some? {
      var segments := speakerLabels.value;
      if segments == [] {
        return Failure(NoSpeakerSegments);
      }
      while speakerIndex < |segments| - 1 && segments[speakerIndex + 1].endTime < start
        invariant st.speakerIndex <= speakerIndex < |segments|
        invariant Advance(segments, speakerIndex, start) == Advance(segments, st.speakerIndex, start)
        decreases |segments| - speakerIndex
      {
        speakerIndex := speakerIndex + 1;
      }
      speakerLabel := segments[speakerIndex].speakerLabel;
    }
    ghost var boundary := BoundaryOf(prevSpeaker, speakerLabel, gap, |contents|);
    var reason := "";
    if speakerLabel != prevSpeaker {
      newParagraph := true;
      reason := "Speaker Change from " + prevSpeaker + " to " + speakerLabel;
    } else if gap > PARAGRAPH_GAP {
      newParagraph := true;
      reason := "Time gap";
    } else if |contents| > LONG_PARAGRAPH {
      newParagraph := true;
      reason := "Long paragraph";
    } else {
      newParagraph := false;
    }
    assert reason == ReasonText(boundary) && newParagraph == (boundary != NoBoundary);
    if prevEndTime != NO_TIME && newParagraph {
      var tags := RunComprehend(detectEntities, contents);
      retval := retval + [Paragraph(prevStartTime, prevEndTime, contents, gap, tags, reason, prevSpeaker, |contents|)];
      contents := "";
      prevEndTime := NO_TIME;
      prevStartTime := NO_TIME;
      newParagraph := false;
    } else {
      if item.endTime.None? {
        return Failure(MissingEndTime);
      }
      prevEndTime := item.endTime.value;
    }
    prevSpeaker := speakerLabel;
    if contents != "" {
      contents := contents + " ";
    }
    var word := DecodeWord(item.content, mapping);
    contents := contents + word;
    result := Success(State(contents, prevEndTime, prevStartTime, newParagraph, prevSpeaker, speakerIndex, retval));
  }
}
