/** How the chat and symptom pages show the `reply` field of a server answer. The field holds
    whatever the model endpoint returned, so it can be any JSON value: a falsy one shows nothing,
    a string goes through the page's formatter, and any other value makes `escapeHtml` throw
    (`s.replaceAll` is not a function), after which the page's `catch` shows its network-error
    notice instead of a reply. `None` in `reply` is a missing field (`undefined`). */
module ReplyView {
  import opened Text
  import opened Json
  import opened SafeMarkup
  import opened ReplyFormat
  import opened TextFormat

  /** `formatReply(j.reply)` on the chat page: `None` when formatting throws. */
  function ShowReply(reply: Option<Json>): (r: Option<string>)
    ensures r.None? <==> JsTruthyOpt(reply) && !reply.value.JStr?
    ensures !JsTruthyOpt(reply) ==> r == Some("")
    ensures reply.Some? && reply.value.JStr? ==> r == Some(FormatReply(Some(reply.value.s)))
    ensures r.Some? ==> Markup(r.value)
  {
    if !JsTruthyOpt(reply) then
      FormatReplySafe(None);
      Some(FormatReply(None))
    else match reply.value
      case JStr(s) =>
        FormatReplySafe(Some(s));
        Some(FormatReply(Some(s)))
      case _ => None
  }

  /** `formatText(j.reply || "")` on the symptom page: `None` when formatting throws. */
  function ShowAnalysis(reply: Option<Json>): (r: Option<string>)
    ensures r.None? <==> JsTruthyOpt(reply) && !reply.value.JStr?
    ensures !JsTruthyOpt(reply) ==> r == Some("")
    ensures reply.Some? && reply.value.JStr? ==> r == Some(FormatText(Some(reply.value.s)))
    ensures r.Some? ==> Markup(r.value)
  {
    if !JsTruthyOpt(reply) then
      FormatTextSafe(Some(""));
      Some(FormatText(Some("")))
    else match reply.value
      case JStr(s) =>
        FormatTextSafe(Some(s));
        Some(FormatText(Some(s)))
      case _ => None
  }
}
