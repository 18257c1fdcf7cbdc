/**
 * The `/webhook` handler: it reads the last segment of a transcript payload,
 * lower-cases its text and answers with the message of the first keyword
 * rule that matches, falling back to an echo of the lower-cased text, or to a
 * fixed message when the payload carries no segments.
 */
module Notifier {
  import opened Wrappers
  import opened Text

  /** One span of transcribed speech; its `text` key may be absent. */
  datatype Segment = Segment(text: Option<string>)

  /** The JSON body of the webhook call; its `segments` key may be absent. */
  datatype Transcript = Transcript(segments: Option<seq<Segment>>)

  /** The handler's response body, `{"message": ...}`. */
  datatype Notification = Notification(message: string)

  const TiredMessage: string := "You mentioned being tired. Consider taking a break to rest and recharge!"
  const BreakMessage: string := "Good idea! Taking regular breaks is important for productivity and well-being."
  const StressMessage: string := "It sounds like you might be feeling stressed. Try some deep breathing or a short walk."
  const HungryMessage: string := "Time for a snack! Make sure to fuel your body with nutritious food."
  const HelpMessage: string := "I'm here to help! Feel free to ask if you need assistance with anything."
  const ThankMessage: string := "You're welcome! I'm glad I could help."
  const NoSegmentsMessage: string := "No transcript segments found"
  const FallbackPrefix: string := "Received transcript: '"

  /** The six canned keyword replies, in the order the handler tries them. */
  const KeywordMessages: seq<string> :=
    [TiredMessage, BreakMessage, StressMessage, HungryMessage, HelpMessage, ThankMessage]

  /** The keywords whose presence selects a canned reply ("stressed" is subsumed by "stress"). */
  const Keywords: seq<string> := ["tired", "break", "stress", "hungry", "help", "thank"]

  /** Some keyword occurs in the text `t`. */
  predicate MentionsKeyword(t: string) {
    exists k :: k in Keywords && Contains(t, k)
  }

  /** The reply that echoes a text no keyword matched. */
  function Fallback(t: string): (r: string) {
    FallbackPrefix + t + "'"
  }

  /** A message of the fallback's shape: the fixed prefix, then any text, then a closing quote. */
  predicate IsFallbackShaped(m: string) {
    |m| > |FallbackPrefix| && StartsWith(m, FallbackPrefix) && m[|m| - 1] == '\''
  }

  /** The payload has a `segments` list and it is not empty. */
  predicate HasSegments(tr: Transcript) {
    tr.segments.Some? && |tr.segments.value| > 0
  }

  /** The `text` of the last segment, "" when that key is absent. */
  function LatestText(tr: Transcript): (r: string)
    requires HasSegments(tr)
  {
    var segs := tr.segments.value;
    ValueOr(segs[|segs| - 1].text, "")
  }

  /** The handler's if/elif chain over the lower-cased text `t`. */
  function Respond(t: string): (m: string)
    ensures m in KeywordMessages || m == Fallback(t)
  {
    if Contains(t, "tired") then TiredMessage
    else if Contains(t, "break") then BreakMessage
    else if Contains(t, "stressed") || Contains(t, "stress") then StressMessage
    else if Contains(t, "hungry") then HungryMessage
    else if Contains(t, "help") then HelpMessage
    else if Contains(t, "thank") then ThankMessage
    else Fallback(t)
  }

  /**
   * The webhook handler. `uid` identifies the user and, as in the handler,
   * takes no part in the answer.
   */
  function Webhook(uid: string, transcript: Transcript): (n: Notification)
    ensures n.message == NoSegmentsMessage <==> !HasSegments(transcript)
    ensures || n.message == NoSegmentsMessage
            || n.message in KeywordMessages
            || IsFallbackShaped(n.message)
  {
    if HasSegments(transcript) then
      var t := Lower(LatestText(transcript));
      FallbackNotCanned(t);
      Notification(Respond(t))
    else
      Notification(NoSegmentsMessage)
  }

  /** The fallback has the fallback's shape and is neither a keyword reply nor the no-segments message. */
  lemma FallbackNotCanned(t: string)
    ensures IsFallbackShaped(Fallback(t))
    ensures Fallback(t) !in KeywordMessages
    ensures Fallback(t) != NoSegmentsMessage
  {
  }
}
