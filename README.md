# Podcast transcript post-processing, modelled in Dafny

This project models the deterministic core of a podcast-indexing workflow. The workflow:

- encodes a custom vocabulary so that the transcription service accepts it;
- throttles how many episodes are transcribed at once;
- post-processes each transcript.

Post-processing has two paths. The full-text path builds speaker- or pause-delimited paragraphs and cuts the text into chunks for entity detection. It then aggregates the detected entities and cleans them up, including person-name deduplication. The paragraph path cuts the text at speaker changes, pauses and length, and tags each paragraph.

The modules are:

- `Wrappers`: `Option` and `Result`.
- `TextOps`: the Python string operations the core relies on, restricted to ASCII:
  - `strip`, `split(",")`, `split()` and `join`;
  - substring `in` and `replace`;
  - `string.capwords`.
- `Transcript`: transcript items and speaker-label segments, shared by both segmenters.
- `PersonNames`: `find_duplicate_person`, and what removing its result does to a list of names.
- `Vocabulary`: the right-to-left term encoder and the token-to-term mapping.
- `FullText`: `chunk_up_transcript`, `get_speaker_label` and `parse_speaker_segments`.
- `Entities`: `parse_detected_entities_response`, `parse_detected_key_phrases_response` and `clean_up_entity_results`.
- `ParagraphSegmenter`: the segmentation loop of the paragraph step, `run_comprehend` and `convertPositionToTime`.
- `EpisodeThrottle`: the refresh, count and start loops of the podcast-item step, over an array updated in place.

Every state-changing loop of the source is a method with loop invariants. Most tie the loop variables to a fold over the processed prefix of the input. The term encoder's loop is tied to a fold over the processed suffix, since it runs right to left. The duplicate-name search keeps soundness and completeness predicates over the pairs it has visited. The pure segment search (`get_speaker_label`) and segment map (`parse_speaker_segments`) are functions. The properties are lemmas about these functions.

The two segmenters are modelled separately, as the code has them. They use different thresholds: 2 s and 15 s in one, 1.5 s and 4900 characters in the other. They also use different speaker lookups and call entity detection differently.

## Model

| member | source | states |
|---|---|---|
| TextOps.Strip | src/create_transcribe_vocabulary.py:44 | the result is the slice of the input between leading and trailing whitespace, and neither starts nor ends with whitespace |
| TextOps.StripLeft | src/create_transcribe_vocabulary.py:44 | a suffix of the input, the dropped prefix all whitespace, the rest not starting with whitespace |
| TextOps.StripRight | src/create_transcribe_vocabulary.py:44 | a prefix of the input, the dropped suffix all whitespace, the rest not ending with whitespace |
| TextOps.Split | src/create_transcribe_vocabulary.py:41 | at least one piece; no piece holds the separator; joining the pieces with the separator gives back the row |
| TextOps.SplitOfJoin | src/create_transcribe_vocabulary.py:41 | splitting undoes joining when no piece holds the separator |
| TextOps.ReplaceAbsent | src/process_transcription_paragraph.py:184 | `replace` leaves a string without the key unchanged |
| TextOps.ReplaceWhole | src/process_transcription_paragraph.py:184 | `replace` turns a string that is exactly the key into exactly the value |
| TextOps.ReplaceInContext | src/process_transcription_paragraph.py:184 | `replace` is local: text before an occurrence that cannot hold the key is kept, and the rest is replaced independently |
| TextOps.Capitalize | src/process_transcription_full_text.py:327 | same length; the first character is the upper-case form of the input's first, every other one the lower-case form of the input's; a word stays a word |
| TextOps.CapitalizeIdempotent | src/process_transcription_full_text.py:327 | capitalizing twice is capitalizing once |
| TextOps.WordsOfJoin | src/process_transcription_full_text.py:327 | `split()` of words joined by single spaces gives back the words |
| TextOps.CapwordsIdempotent | src/process_transcription_full_text.py:327 | `capwords` applied twice equals `capwords` applied once, so a normalized entity text is stable |
| PersonNames.FindDuplicatePerson | src/common_lib.py:9-21 | no name is reported twice; a name is reported exactly when it stands at one index and is contained in the name at another index (sound and complete over all pairs i < j, both directions) |
| PersonNames.ReportRow | src/common_lib.py:12-20 | the inner loop keeps the report free of repeats and sound, and extends completeness to every pair starting at index i |
| PersonNames.DuplicateNames | src/common_lib.py:9-21 | the reported names as a set: x is in it exactly when x is in the list and is a duplicate |
| PersonNames.RepeatedNameIsDuplicate | src/common_lib.py:13-20 | a name at two indices is contained in itself and so is reported |
| PersonNames.RemoveFirst | src/process_transcription_full_text.py:292 | `list.remove`: one element fewer, and the multiset loses exactly one copy of the name |
| PersonNames.RemoveOneThenRest | src/process_transcription_full_text.py:291-292 | removing one reported name, then the others, equals removing them all: the removal order does not matter |
| PersonNames.RemoveFirstOccurrencesOfDistinct | src/process_transcription_full_text.py:291-292 | on a list without repeats, removing first occurrences is plain filtering |
| PersonNames.DeduplicatedIsContainmentFree | src/common_lib.py:9-21 | for distinct names, the list after removing the reported names keeps the input order, keeps exactly the non-duplicates, has no repeats, and no kept name is contained in another |
| PersonNames.DeduplicatedIdempotent | src/common_lib.py:9-21 | deduplicating a deduplicated list of distinct names changes nothing |
| PersonNames.BobSmithExample | src/common_lib.py:13-15 | ["Bob", "Bob Smith", "Alice"] becomes ["Bob Smith", "Alice"] |
| Vocabulary.DigitWordsAreLetters | src/create_transcribe_vocabulary.py:18 | every digit word is a non-empty run of letters |
| Vocabulary.Letter | src/create_transcribe_vocabulary.py:57-71 | the replacement text for one character is a single character, or letters possibly preceded by one dash |
| Vocabulary.ChooseLetter | src/create_transcribe_vocabulary.py:57-71 | the capital-dash, digit-word, "-dot" and whitespace-dash rules in source order compute `Letter` |
| Vocabulary.LetterOfDigit | src/create_transcribe_vocabulary.py:62-65 | a digit becomes its English word, with a dash in front except at index 0 |
| Vocabulary.LetterOfSpace | src/create_transcribe_vocabulary.py:70-71 | a whitespace character becomes "-" |
| Vocabulary.LetterOfInnerCapital | src/create_transcribe_vocabulary.py:59-60 | a capital after a non-whitespace character gets a dash in front |
| Vocabulary.LetterOfDot | src/create_transcribe_vocabulary.py:67-68 | "." becomes "-dot" |
| Vocabulary.LetterOfOther | src/create_transcribe_vocabulary.py:57-78 | any other character (a capital after whitespace, a comma, ...) is kept as it is, and the filter removes it when it is not a letter, dash or parenthesis |
| Vocabulary.LetterOfLowerOrFirst | src/create_transcribe_vocabulary.py:57-60 | a lower-case letter, or a capital at index 0, is kept as it is, case unchanged |
| Vocabulary.StripTrailingDashes | src/create_transcribe_vocabulary.py:74-75 | a prefix of the letter that does not end with a dash; only dashes were dropped |
| Vocabulary.DropTrailingDashes | src/create_transcribe_vocabulary.py:74-75 | the `while letter.endswith('-')` loop computes `StripTrailingDashes` |
| Vocabulary.KeepTokenChars | src/create_transcribe_vocabulary.py:78 | the filter keeps only letters, dashes and parentheses, and changes nothing when every character is one of them |
| Vocabulary.PieceShape | src/create_transcribe_vocabulary.py:73-78 | the prepended piece holds token characters only, has a dash at most in front, and ends with a dash only when it is a lone "-" before a token that does not start with one |
| Vocabulary.PieceOfOneChar | src/create_transcribe_vocabulary.py:73-78 | a one-character letter leaves at most one token character, and a dash survives only before a token not starting with a dash |
| Vocabulary.PieceOfTokenLetter | src/create_transcribe_vocabulary.py:73-78 | a letter of token characters that does not end with a dash is prepended as it is |
| Vocabulary.PrependPiece | src/create_transcribe_vocabulary.py:80 | prepending such a piece to a valid token gives a valid token |
| Vocabulary.PrependLetter | src/create_transcribe_vocabulary.py:57-80 | one iteration of the character loop keeps the token valid |
| Vocabulary.EncodeFrom | src/create_transcribe_vocabulary.py:56-80 | proved from the recursive call's own contract: every token holds only letters, dashes and parentheses, never holds "--", and never ends with a dash |
| Vocabulary.Encode | src/create_transcribe_vocabulary.py:56-80 | the token for a term is valid in that sense |
| Vocabulary.EncodeTerm | src/create_transcribe_vocabulary.py:56-80 | the right-to-left loop computes `Encode` and yields a valid token |
| Vocabulary.PlainLettersKept | src/create_transcribe_vocabulary.py:56-80 | a run of lower-case letters, or a leading capital, is copied into the token unchanged |
| Vocabulary.Route53Example | src/create_transcribe_vocabulary.py:49-51 | "Route 53" encodes to "Route-five-three": case kept, digits spelt out, and the space's dash dropped before "-five" |
| Vocabulary.RowPieces | src/create_transcribe_vocabulary.py:41-44 | one stripped piece per comma-separated part of the row, in order |
| Vocabulary.Tokens | src/create_transcribe_vocabulary.py:56-83 | one token per piece, in input order |
| Vocabulary.StoreAllLastWins | src/create_transcribe_vocabulary.py:82 | the mapping has a key for each distinct token stored; each key holds the value of its last store |
| Vocabulary.MappingHoldsLastOriginal | src/create_transcribe_vocabulary.py:82 | the mapping's keys are the tokens of the pieces; each token maps to the last piece that encoded to it |
| Vocabulary.TokensAreMapped | src/create_transcribe_vocabulary.py:82-83 | every vocabulary term is a key of the mapping |
| Vocabulary.AddRow | src/create_transcribe_vocabulary.py:41-83 | the inner loop appends the row's tokens and stores its pieces |
| Vocabulary.AddPart | src/create_transcribe_vocabulary.py:44-83 | one part of a row keeps the row invariant: after part j the terms are the tokens of every piece so far, in order, and the mapping is the one those pieces build |
| Vocabulary.CreateVocabulary | src/create_transcribe_vocabulary.py:32-83 | the terms are the tokens of all pieces in input order; the mapping keeps the last piece per token; every term is valid and mapped |
| FullText.ParseSpeakerSegments | src/process_transcription_full_text.py:345-354 | one segment per label, in order, with its times and speaker |
| FullText.GetSpeakerLabel | src/process_transcription_full_text.py:338-342 | None exactly when no segment covers t (start <= t < end); otherwise the speaker of the first covering segment |
| FullText.Phrase | src/process_transcription_full_text.py:225-231 | a whole-token vocabulary match is replaced by its value, then "i" becomes "I"; the result is never "i" |
| FullText.OpenParagraph | src/process_transcription_full_text.py:209-223 | only the speaker, the paragraphs, the open paragraph and the last pause change, and at most the open paragraph is closed; with labels it fails exactly when no segment covers the word; without labels it never fails, and the open paragraph is closed and last_pause set to the word's start exactly when the word starts more than 2 s after previous_time, or more than 15 s after last_pause right after a sentence end |
| FullText.BreakBefore | src/process_transcription_full_text.py:206-223 | the first half of the loop body computes `Break` |
| FullText.ProcessItem | src/process_transcription_full_text.py:205-253 | the loop body computes one `Step`, including its errors |
| FullText.ChunkUpTranscript | src/process_transcription_full_text.py:135-263 | the result is `ChunkUp` of the items; on success the chunks satisfy `ChunksCover` for the items' text and pieces, and none is longer than 4900 plus the longest piece |
| FullText.CloseFlushes | src/process_transcription_full_text.py:247-250 | after an item, the pending chunk either stays at most 4900 characters or is flushed with at least 4500 |
| FullText.FlushRule | src/process_transcription_full_text.py:231-250 | one item adds a chunk exactly when the pending chunk with the item's piece appended holds at least 4500 characters after punctuation, or more than 4900; the added chunk is that text and the pending chunk becomes empty; otherwise the piece stays pending |
| FullText.ChunkStep | src/process_transcription_full_text.py:232-250 | one item keeps the chunk invariant |
| FullText.ChunkInvariant | src/process_transcription_full_text.py:205-253 | after any prefix: the pending chunk holds at most 4900 characters; every flushed chunk holds at least 4500 and is at most 4900 characters followed by the piece of one of the items; the flushed chunks followed by the pending one are exactly the items' text |
| FullText.ChunkUpOutput | src/process_transcription_full_text.py:247-256 | the returned chunks are, in order, exactly the items' text (nothing lost or repeated); none is empty; each holds at most 4900 characters or is at most 4900 followed by one item's piece; every chunk but the last holds at least 4500 and ends with an item's piece; hence none is longer than 4900 plus the longest piece |
| FullText.ChunksWithinLongest | src/process_transcription_full_text.py:247-250 | a chunk of at most 4900 characters followed by one piece is no longer than 4900 plus the longest piece |
| FullText.PauseParagraphs | src/process_transcription_full_text.py:218-223 | without labels, over a whole pass: one paragraph is closed per pause break, last_pause is the start of the latest break, and right after a break the open paragraph holds only that word's piece |
| FullText.SentenceEndFlag | src/process_transcription_full_text.py:237-245 | the sentence-end flag holds exactly when the latest item is ".", "!" or "?" |
| FullText.PreviousTimeIsLastEnd | src/process_transcription_full_text.py:252-253 | previous_time is the end time of the latest item that has one, 0 before any |
| FullText.SuccessNeedsTimesAndSpeakers | src/process_transcription_full_text.py:207-214 | in a successful pass every word has a start time and, with labels, a covering segment |
| FullText.PlainParagraphsKeepText | src/process_transcription_full_text.py:218-240 | without labels, the closed paragraphs followed by the open one hold exactly the items' text |
| FullText.PlainStepKeepsText | src/process_transcription_full_text.py:218-240 | without labels, one item adds exactly its piece to the paragraphs' text |
| FullText.SpeakerParagraphs | src/process_transcription_full_text.py:209-216 | with labels: the last speaker is that of the latest word; one paragraph is closed per speaker turn; the open paragraph starts with "<speaker> :" |
| FullText.LeadingEmptyParagraph | src/process_transcription_full_text.py:211-213 | with labels and a first word, the first paragraph is the empty one closed at the first turn |
| Entities.NormalizedTextIdempotent | src/process_transcription_full_text.py:325-327 | normalizing a normalized text changes nothing |
| Entities.AddAllCollects | src/process_transcription_full_text.py:315-332 | a type is a key exactly when it was one or some retained entity has it; its set is the old set plus the normalized texts of the retained entities of that type |
| Entities.NothingBelowThreshold | src/process_transcription_full_text.py:318-322 | no QUANTITY text is added; every added text comes from an entity of that type scoring at least 0.5 |
| Entities.EntitySets.ParseDetectedEntitiesResponse | src/process_transcription_full_text.py:307-335 | with a result list, the passed sets are extended in place with every entity and returned; without one, {} is returned and the sets are untouched |
| Entities.ParseDetectedKeyPhrasesResponse | src/process_transcription_full_text.py:266-283 | the phrases kept are exactly those scoring at least 0.5 somewhere; nothing without a result list |
| Entities.KeyPhrasesAbove | src/process_transcription_full_text.py:274-279 | x is kept exactly when some phrase with text x scores at least the threshold |
| Entities.KeyPhraseBelowItsThresholdIsKept | src/process_transcription_full_text.py:277 | as written, a phrase scoring 0.6 is kept though the key-phrase threshold is 0.7 |
| Entities.KeyPhrasesAboveIntendedThreshold | src/process_transcription_full_text.py:34 | with the 0.7 threshold every kept phrase scored at least 0.7, and the kept set is a subset of the 0.5 one |
| Entities.CleanedUp | src/process_transcription_full_text.py:286-304 | COMMERCIAL_ITEM and TITLE are gone; PERSON is deduplicated; Products_and_Titles is the TITLE list if there was one, else the COMMERCIAL_ITEM list, else it is kept as it was; other types are untouched |
| Entities.EntityLists.CleanUpEntityResults | src/process_transcription_full_text.py:286-304 | the in-place clean-up computes `CleanedUp` of the old lists |
| Entities.TitleReplacesCommercialItems | src/process_transcription_full_text.py:296-304 | as written, a detected commercial item is lost when a title is also detected |
| Entities.CleanedUpMerged | src/process_transcription_full_text.py:299-304 | the merging clean-up also removes both keys and deduplicates PERSON |
| Entities.MergedKeepsAllProducts | src/process_transcription_full_text.py:299-304 | with the merge, Products_and_Titles holds exactly the commercial items and the titles |
| Entities.CleanedPeopleAreContainmentFree | src/process_transcription_full_text.py:287-293 | for lists built from the sets, the cleaned PERSON list has no repeats, no name inside another, and exactly the detected non-duplicates |
| ParagraphSegmenter.Tags | src/process_transcription_paragraph.py:213-221 | at most one tag per entity; t is a tag exactly when some entity of a kept type has text t |
| ParagraphSegmenter.TagsOfConcat | src/process_transcription_paragraph.py:216-219 | the filter keeps response order: tags of a concatenation are the concatenated tags |
| ParagraphSegmenter.RunComprehend | src/process_transcription_paragraph.py:213-221 | the loop computes `Tags` of the detected entities |
| ParagraphSegmenter.LastAtOrBefore | src/process_transcription_paragraph.py:226-232 | -1, or the index of an entry at or before the offset after which no entry is |
| ParagraphSegmenter.TimeAt | src/process_transcription_paragraph.py:226-232 | None (the source's "") exactly when no entry is at or before the offset; otherwise the start time of the last such entry |
| ParagraphSegmenter.ConvertPositionToTime | src/process_transcription_paragraph.py:226-232 | the scan over all entries computes `TimeAt` |
| ParagraphSegmenter.DecodeInTurn | src/process_transcription_paragraph.py:182-184 | decoding with two mappings in turn is decoding with the first, then the second: each key works on the previous result |
| ParagraphSegmenter.DecodeLeavesPlainWords | src/process_transcription_paragraph.py:182-184 | a word holding no (non-empty) key is unchanged |
| ParagraphSegmenter.DecodeToken | src/process_transcription_paragraph.py:182-184 | a word that is exactly a token decodes to its term when no later key occurs in the term |
| ParagraphSegmenter.DecodeOrderMatters | src/process_transcription_paragraph.py:182-184 | the mapping order changes the result: "a" with a→b, b→c gives "c", with the order reversed "b" |
| ParagraphSegmenter.DecodeWord | src/process_transcription_paragraph.py:179-186 | the replace loop computes `Decode` |
| ParagraphSegmenter.Advance | src/process_transcription_paragraph.py:126-129 | the speaker index never moves back and stays in range; every segment it moves onto ends before t; it stops before the first later segment ending at or after t |
| ParagraphSegmenter.Resolve | src/process_transcription_paragraph.py:117-131 | without labels the speaker is spk_0 and the speaker index stays; with labels it fails exactly on an empty segment list, else the speaker is the segment `Advance` picks |
| ParagraphSegmenter.BoundaryOf | src/process_transcription_paragraph.py:133-146 | strict priority: speaker change, else gap over 1.5, else length over 4900, else no boundary (each case as an if-and-only-if) |
| ParagraphSegmenter.ReasonText | src/process_transcription_paragraph.py:134-146 | the reason is empty exactly when there is no boundary |
| ParagraphSegmenter.AfterPunctuation | src/process_transcription_paragraph.py:109-114 | punctuation is appended as it is and only "." sets the flag; words leave the state alone |
| ParagraphSegmenter.AppendWord | src/process_transcription_paragraph.py:174-186 | the decoded word is appended after exactly one space when the text is non-empty; nothing else changes |
| ParagraphSegmenter.Timed | src/process_transcription_paragraph.py:116-186 | the speaker index stays in range and never decreases; at most one record is added, and it is a closed paragraph |
| ParagraphSegmenter.Step | src/process_transcription_paragraph.py:105-186 | the same for a whole iteration |
| ParagraphSegmenter.Run | src/process_transcription_paragraph.py:105-186 | after any prefix the speaker index is in range and every record has an end time, a reason and len equal to its text's length |
| ParagraphSegmenter.Segment | src/process_transcription_paragraph.py:188-197 | the result is never empty: it ends with the final record, and every record before it is a closed paragraph |
| ParagraphSegmenter.EmissionRule | src/process_transcription_paragraph.py:148-170 | a record is added exactly when an end time is recorded and there is a boundary; it carries the previous times, text, gap, tags, reason, speaker and length; otherwise prevEndTime becomes the item's end time |
| ParagraphSegmenter.ResetAfterEmission | src/process_transcription_paragraph.py:162-168 | after a record: the text is just the decoded word, both times are -1, and the flag is false |
| ParagraphSegmenter.NoEmissionWithoutEndTime | src/process_transcription_paragraph.py:148 | no record is added while prevEndTime is -1 |
| ParagraphSegmenter.NoTwoEmissionsInARow | src/process_transcription_paragraph.py:148-170 | the item after one that added a record never adds one |
| ParagraphSegmenter.FullStopFlagOverwritten | src/process_transcription_paragraph.py:109-146 | the flag a full stop sets is overwritten before it is read: a timed step does not depend on it |
| ParagraphSegmenter.SpeakerIndexMonotone | src/process_transcription_paragraph.py:126-129 | over the whole pass, the speaker index never decreases |
| ParagraphSegmenter.DefaultSpeakerOnly | src/process_transcription_paragraph.py:117-136 | without labels every record is by spk_0, and its reason is "Time gap" or "Long paragraph" |
| ParagraphSegmenter.SegmentParagraphs | src/process_transcription_paragraph.py:75-197 | the loop and the final record compute `Segment`, including its errors |
| ParagraphSegmenter.ProcessItem | src/process_transcription_paragraph.py:105-186 | the loop body computes `Step` |
| ParagraphSegmenter.ProcessWord | src/process_transcription_paragraph.py:116-186 | the body for a timed item, with the speaker index loop and the reason chain, computes `Timed` |
| EpisodeThrottle.CountRunning | src/process_podcast_item.py:52-53 | at most the list length; 0 exactly when no episode is RUNNING |
| EpisodeThrottle.CountPending | src/process_podcast_item.py:66 | at most the list length; 0 exactly when no episode is PENDING |
| EpisodeThrottle.CountRemaining | src/process_podcast_item.py:55-56 | at most the list length; 0 exactly when no episode is RUNNING or PENDING |
| EpisodeThrottle.RemainingIsRunningPlusPending | src/process_podcast_item.py:52-56 | remaining = running + pending |
| EpisodeThrottle.RefreshAll | src/process_podcast_item.py:44-50 | same length; each episode refreshed on its own |
| EpisodeThrottle.RefreshOnlyTouchesRunning | src/process_podcast_item.py:47-50 | only statuses change, and only those of RUNNING episodes |
| EpisodeThrottle.Throttle | src/process_podcast_item.py:60-98 | the list keeps its length |
| EpisodeThrottle.ThrottleStartsUpToTheLimit | src/process_podcast_item.py:60-98 | the number started is min(#PENDING, max(0, max - running)) |
| EpisodeThrottle.ThrottleOnlyStartsPending | src/process_podcast_item.py:66-98 | non-PENDING entries are untouched; a changed entry was PENDING and is now RUNNING with its new execution |
| EpisodeThrottle.ThrottleInListOrder | src/process_podcast_item.py:60-66 | a PENDING episode left alone means the limit was reached, and nothing after it is started |
| EpisodeThrottle.ThrottleKeepsRemaining | src/process_podcast_item.py:96-97 | starting episodes does not change the remaining count |
| EpisodeThrottle.ThrottleSaturated | src/process_podcast_item.py:63-64 | once the limit is reached the rest of the list is untouched, which justifies the early break |
| EpisodeThrottle.Decide | src/process_podcast_item.py:100-109 | COMPLETE exactly when nothing remains, else RUNNING; the list is written back exactly when not COMPLETE |
| EpisodeThrottle.CompleteWhenNothingRemains | src/process_podcast_item.py:100-103 | the feed is COMPLETE exactly when no refreshed episode is RUNNING or PENDING |
| EpisodeThrottle.RefreshStatuses | src/process_podcast_item.py:44-56 | fails exactly when a RUNNING episode has no execution; otherwise the array holds the refreshed list, with the running and remaining counts of it |
| EpisodeThrottle.StartPending | src/process_podcast_item.py:60-98 | the array and the running count become `Throttle` of the old array |
| EpisodeThrottle.ProcessPodcastItem | src/process_podcast_item.py:36-109 | fails exactly when a RUNNING episode has no execution; otherwise the array is the refreshed list throttled from its running count, and the outcome is `Decide` of its remaining count |

## Left out

- I/O is not modelled. This covers S3 reads and writes, `urlopen`, JSON parsing and printing, logging, Elasticsearch, and the lambda handlers around the loops. The loops take parsed items, segments, mappings and episode lists as inputs.
- Calls to external services are function parameters:
  - entity detection (`detect_entities`) in `run_comprehend`;
  - `describe_execution` and `start_execution`.
  - Their results are whatever the parameter returns. A failing call is not modelled.
- Random names are not modelled: execution names, vocabulary names and S3 keys.
- The episode request payload built at src/process_podcast_item.py:67-85 is not modelled, nor the KeyErrors on its fields. `startExecution` receives the episode itself.
- Character classes are ASCII only. `isupper`, `isdigit`, `isspace` and `capwords` on non-ASCII text are not modelled.
- Timestamps are `real` inputs; parsing floats from strings is not modelled. `int()` in `convertPositionToTime` is the identity on the `int` positions.
- The time data of the paragraph step is reset but never filled. `convertPositionToTime` is modelled on its own, with None for the empty string it returns.
- Every item is assumed to have its first alternative (`alternatives[0]`). Item types other than pronunciation and punctuation are not modelled.
- Raised exceptions are `Result` failures: a missing start or end time, a word no segment covers, an empty segment list, and a RUNNING episode without an execution. Partial effects before the exception are not kept.
- Entities.ParseDetectedKeyPhrasesResponse: returns a set, because the order of `list(set)` is unspecified.
- Entities.CleanedUp: requires that the misspelt key 'PRODUCTS / TTTLES' is absent. No entity type has that name, and its branch would append a list into a list of names.
- Entities.EntitySets.ParseDetectedEntitiesResponse: does not model aliasing of the passed dictionary beyond the object's own field.
- The `try`/`except` around the PERSON clean-up is not modelled. It cannot trigger, because every reported name is in the list when it is removed.

## Findings

| source | as written | input that shows it | evidently intended | confidence | as-written member | corrected member |
|---|---|---|---|---|---|---|
| src/process_transcription_full_text.py:299-304 | the merge tests the misspelt key 'PRODUCTS / TTTLES', so the TITLE list overwrites Products_and_Titles | COMMERCIAL_ITEM ["Widget"] and TITLE ["CEO"] give Products_and_Titles ["CEO"] | titles added to the commercial items | not executed | Entities.TitleReplacesCommercialItems | Entities.MergedKeepsAllProducts |
| src/process_transcription_full_text.py:277 | key phrases are filtered with ENTITY_CONFIDENCE_THRESHOLD (0.5); KEY_PHRASES_CONFIDENCE_THRESHOLD (0.7, line 34) is never used | a phrase scoring 0.6 is kept | only phrases scoring at least 0.7 are kept | not executed | Entities.KeyPhraseBelowItsThresholdIsKept | Entities.KeyPhrasesAboveIntendedThreshold |
