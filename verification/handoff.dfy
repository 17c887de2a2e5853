/** Clicking an option in a chat answer: the option text is appended, on a
    new line, to the `text` input of the current conversation, and the page
    moves to the configured workflow with that text, percent-encoded, in its
    `autoFillText` query parameter. The navigation, the notice shown and the
    closing of the option popup are returned instead of performed. */
module Handoff {
  import opened Results
  import opened JsText
  import opened UriCodec

  //
  // The chat context
  //

  /** A value read from an inputs map where a string is expected. Anything
      other than a string is known only by its truthiness. */
  datatype Value = Str(s: JsString) | NonString(truthy: bool)

  type Inputs = map<JsString, Value>

  /** The fields of the chat-with-history context the click reads: the
      current conversation's id (empty when there is none), the current
      conversation item with its optional inputs, and the inputs of a new
      conversation. */
  datatype ChatContext = ChatContext(
    currentConversationId: JsString,
    currentConversationInputs: Option<Option<Inputs>>,
    newConversationInputs: Option<Inputs>)

  /** `inputs.text`. */
  const TextKey: JsString := [0x74, 0x65, 0x78, 0x74]

  /** The inputs of the conversation in progress: the current conversation's
      when it has an id, the new conversation's otherwise. */
  function CurrentInputs(ctx: ChatContext): (r: Option<Inputs>)
    ensures |ctx.currentConversationId| == 0 ==> r == ctx.newConversationInputs
    ensures |ctx.currentConversationId| > 0 && ctx.currentConversationInputs.Some? ==>
      r == ctx.currentConversationInputs.value
    ensures |ctx.currentConversationId| > 0 && ctx.currentConversationInputs.None? ==> r.None?
  {
    if |ctx.currentConversationId| > 0 then
      match ctx.currentConversationInputs
      case Some(inputs) => inputs
      case None => None
    else ctx.newConversationInputs
  }

  /** The `TypeError` of calling `trim` on something that is not a string. */
  datatype TypeError = TypeError

  /** The previous text: the `text` input trimmed, the empty string for a
      missing or falsy one, and a `TypeError` for a truthy value that is not
      a string, since only strings can be trimmed. */
  function PriorText(inputs: Option<Inputs>): (r: Result<JsString, TypeError>)
    ensures r.Failure? <==>
      inputs.Some? && TextKey in inputs.value && inputs.value[TextKey] == NonString(true)
    ensures r.Success? ==> IsTrimmed(r.value)
    ensures r.Success? && inputs.Some? && TextKey in inputs.value && inputs.value[TextKey].Str? ==>
      r.value == Trim(inputs.value[TextKey].s)
    ensures r.Success? && !(inputs.Some? && TextKey in inputs.value && inputs.value[TextKey].Str?) ==>
      r.value == []
  {
    var text := if inputs.Some? && TextKey in inputs.value then inputs.value[TextKey] else NonString(false);
    TrimIsTrimmed(if text.Str? then text.s else []);
    match text
    case Str(s) => Success(Trim(s))
    case NonString(truthy) => if truthy then Failure(TypeError) else Success(Trim([]))
  }

  /** The text sent to the form: the previous text, a line break, the
      option. */
  function Compose(prior: JsString, option: JsString): (r: JsString)
    ensures |r| == |prior| + 1 + |option|
    ensures prior <= r && r[|prior|] == LF
    ensures r[|prior| + 1..] == option
  {
    prior + [LF] + option
  }

  /** The option stands on the last line of the composed text, and the lines
      before it give back the previous text. */
  lemma {:induction false} ComposeSplits(prior: JsString, option: JsString)
    requires LF !in option
    ensures var lines := Split(Compose(prior, option));
      && |lines| >= 2
      && lines[|lines| - 1] == option
      && Join(lines[..|lines| - 1]) == prior
  {
    SplitConcat(prior, option);
    SplitLineFree(option);
    var lines := Split(Compose(prior, option));
    assert lines[..|lines| - 1] == Split(prior);
    JoinSplit(prior);
  }

  //
  // The target address
  //

  /** The configured path without one leading `/`, if it has one. */
  function FormattedPath(path: JsString): (r: JsString)
    ensures path == r || path == [Slash] + r
    ensures r == path <==> !StartsWith(path, [Slash])
  {
    if StartsWith(path, [Slash]) then
      assert path == [path[0]] + path[1..];
      path[1..]
    else path
  }

  /** Only one leading separator goes: a path that starts with two keeps the
      second. */
  lemma {:induction false} FormattedPathStripsOne(rest: JsString)
    ensures FormattedPath([Slash, Slash] + rest) == [Slash] + rest
  {
    assert ([Slash, Slash] + rest)[1..] == [Slash] + rest;
  }

  /** `?autoFillText=`. */
  const QueryKey: JsString := [0x3F, 0x61, 0x75, 0x74, 0x6F, 0x46, 0x69, 0x6C, 0x6C, 0x54, 0x65, 0x78, 0x74, 0x3D]

  /** The origin, a slash and the formatted path: the address without a query. */
  function BaseUrl(origin: JsString, path: JsString): (r: JsString)
    ensures |r| == |origin| + 1 + |FormattedPath(path)|
    ensures StartsWith(path, [Slash]) ==> r == origin + path
    ensures !StartsWith(path, [Slash]) ==> r == origin + [Slash] + path
  {
    origin + [Slash] + FormattedPath(path)
  }

  //
  // The click
  //

  datatype Navigation =
    | Navigate(url: JsString)          // to the workflow, with the text in the query
    | NavigateFallback(url: JsString)  // to the workflow, without the text
    | NoContext                        // outside a chat with history; nowhere
    | Aborted                          // `trim` threw before anything happened

  /** The notices: "redirecting and filling in the form" (info), "setting up
      autofill failed" (error), "cannot get the form data" (error). */
  datatype Notice = Redirecting | AutofillFailed | NoFormData

  datatype Click = Click(navigation: Navigation, notice: Option<Notice>, closesPopup: bool)

  /** `handleOptionClick`: `ctx` is the chat-with-history context if there is
      one, `origin` the page's origin and `path` the configured workflow path
      (empty when it is not set). */
  function OptionClick(ctx: Option<ChatContext>, origin: JsString, path: JsString, option: JsString): (r: Click)
    ensures r.navigation.Aborted? <==> r.notice.None?
    ensures r.closesPopup <==> !r.navigation.Aborted?
    ensures r.navigation.NoContext? <==> ctx.None?
    ensures r.navigation.NoContext? ==> r.notice == Some(NoFormData)
    ensures r.navigation.Navigate? ==> r.notice == Some(Redirecting)
    ensures r.navigation.NavigateFallback? ==>
      r.notice == Some(AutofillFailed) && r.navigation.url == BaseUrl(origin, path)
    ensures r.navigation.Aborted? <==> ctx.Some? && SentText(ctx.value, option).None?
    ensures r.navigation.Navigate? <==>
      ctx.Some? && SentText(ctx.value, option).Some? && Encode(SentText(ctx.value, option).value).Success?
    ensures r.navigation.Navigate? ==>
      r.navigation.url == BaseUrl(origin, path) + QueryKey + Encode(SentText(ctx.value, option).value).value
  {
    match ctx
    case None => Click(NoContext, Some(NoFormData), true)
    case Some(c) =>
      match PriorText(CurrentInputs(c))
      case Failure(_) => Click(Aborted, None, false)
      case Success(prior) =>
        match Encode(Compose(prior, option))
        case Success(encoded) =>
          Click(Navigate(BaseUrl(origin, path) + QueryKey + encoded), Some(Redirecting), true)
        case Failure(_) =>
          Click(NavigateFallback(BaseUrl(origin, path)), Some(AutofillFailed), true)
  }

  /** The text the click sends: the trimmed previous text and the option. */
  function SentText(ctx: ChatContext, option: JsString): (r: Option<JsString>)
    ensures r.Some? <==> PriorText(CurrentInputs(ctx)).Success?
    ensures r.Some? ==> r.value == Compose(PriorText(CurrentInputs(ctx)).value, option)
  {
    match PriorText(CurrentInputs(ctx))
    case Success(prior) => Some(Compose(prior, option))
    case Failure(_) => None
  }

  /** Inside a chat, the click navigates with the text exactly when the text
      is well-formed UTF-16, and otherwise falls back to the bare address;
      the query value of the full address decodes back to the text. */
  lemma {:induction false} ClickCarriesText(ctx: ChatContext, origin: JsString, path: JsString, option: JsString)
    requires SentText(ctx, option).Some?
    ensures var r, text := OptionClick(Some(ctx), origin, path, option), SentText(ctx, option).value;
      && (r.navigation.Navigate? <==> WellFormed(text))
      && (r.navigation.NavigateFallback? <==> !WellFormed(text))
      && (r.navigation.Navigate? ==>
            var prefix := BaseUrl(origin, path) + QueryKey;
            && StartsWith(r.navigation.url, prefix)
            && r.navigation.url[|prefix|..] == Encode(text).value
            && AllEncodedUnits(r.navigation.url[|prefix|..])
            && Decode(r.navigation.url[|prefix|..]) == Success(text))
  {
    var text := SentText(ctx, option).value;
    EncodeFailsIffIllFormed(text);
    if WellFormed(text) {
      DecodeEncode(text);
      EncodeAlphabet(text);
      var prefix := BaseUrl(origin, path) + QueryKey;
      var url := prefix + Encode(text).value;
      assert url[..|prefix|] == prefix;
      assert url[|prefix|..] == Encode(text).value;
    }
  }
}
