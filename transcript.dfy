/**
 * The parts of an Amazon Transcribe result that the two transcript segmenters read:
 * the item list (one entry per word or punctuation mark) and the speaker-label segments.
 */
module Transcript {
  import opened Wrappers

  datatype Kind = Pronunciation | Punctuation

  /**
   * One entry of results.items: its type, the content of its first alternative, and the start
   * and end times when the entry carries them (punctuation entries normally carry neither).
   */
  datatype Item = Item(kind: Kind, content: string, startTime: Option<real>, endTime: Option<real>)

  /** One entry of results.speaker_labels.segments, with its times already parsed as numbers. */
  datatype SpeakerSegment = SpeakerSegment(startTime: real, endTime: real, speakerLabel: string)
}
