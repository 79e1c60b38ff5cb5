/**
 * The provider stream adapter (services/geminiService.ts `streamAppGeneration`,
 * `streamGemini`, `streamOpenRouter`): the text fragments a generation yields
 * and how it ends, for each back end.
 *
 * The network is a parameter: for Gemini the `text` of each streamed chunk
 * (absent or a string), for OpenRouter the HTTP reply and the decoded chunks
 * of its body; either may end with a thrown error after what it delivered.
 */
module ProviderStream {
  import opened Types
  import opened Text
  import opened EventStream

  const GeminiKeyMessage := KeyHint + " is required. Please configure it in Settings."
  const OpenRouterKeyMessage := "OpenRouter " + KeyHint + " is required"
  const OpenRouterErrorPrefix := "OpenRouter Error: "
  const NoBodyMessage := "No response body"
  const DefaultGeminiModel := "gemini-2.5-flash"
  const DefaultOpenRouterModel := "anthropic/claude-3.5-sonnet"

  /** How a stream ends: it runs out, or an error with this message is thrown. */
  datatype Ending = Exhausted | Thrown(message: string)

  /** The fragments a stream yields, then its ending. */
  datatype Stream = Stream(fragments: seq<string>, ending: Ending)

  /** The error that ends the stream after its last chunk, if the transport failed. */
  function EndingOf(failure: Option<string>): Ending {
    if failure.Some? then Thrown(failure.value) else Exhausted
  }

  // ---------------------------------------------------------------------------
  // Requests

  /** The model name sent: the configured one, or the back end's default when it is empty. */
  function ModelName(settings: AISettings, default: string): (r: string)
    ensures settings.model != "" ==> r == settings.model
    ensures settings.model == "" ==> r == default
  {
    if settings.model == "" then default else settings.model
  }

  /** Roles of the OpenRouter chat format. */
  datatype WireRole = SystemRole | AssistantRole | UserRole

  datatype WireMessage = WireMessage(role: WireRole, content: string)

  function WireRoleOf(role: Role): WireRole {
    if role == Model then AssistantRole else UserRole
  }

  /** `history.map(...)`: each message with its role renamed, content as it is. */
  function WireHistory(history: seq<Message>): (r: seq<WireMessage>)
    ensures |r| == |history|
  {
    if history == [] then []
    else [WireMessage(WireRoleOf(history[0].role), history[0].content)] + WireHistory(history[1..])
  }

  /** The messages of an OpenRouter request: the system prompt, then the history. */
  function RequestMessages(history: seq<Message>, system: string): (r: seq<WireMessage>)
    ensures |r| == |history| + 1 && r[0] == WireMessage(SystemRole, system)
  {
    [WireMessage(SystemRole, system)] + WireHistory(history)
  }

  /** Each history message becomes the message after it, `model` as `assistant` and anything else as `user`. */
  lemma {:induction false} WireHistoryAt(history: seq<Message>)
    ensures forall i :: 0 <= i < |history| ==>
      WireHistory(history)[i] == WireMessage(if history[i].role == Model then AssistantRole else UserRole, history[i].content)
  {
    if history != [] {
      WireHistoryAt(history[1..]);
      forall i | 1 <= i < |history|
        ensures WireHistory(history)[i] == WireHistory(history[1..])[i - 1]
      {
      }
    }
  }

  /** The system message is the only one with the system role. */
  lemma RequestSystemOnce(history: seq<Message>, system: string)
    ensures forall i :: 1 <= i < |RequestMessages(history, system)| ==> RequestMessages(history, system)[i].role != SystemRole
  {
    WireHistoryAt(history);
    var r := RequestMessages(history, system);
    forall i | 1 <= i < |r|
      ensures r[i].role != SystemRole
    {
      assert r[i] == WireHistory(history)[i - 1];
    }
  }

  /** One entry of the Gemini `contents`: the role kept, the content as its single text part. */
  datatype GeminiContent = GeminiContent(role: Role, parts: seq<string>)

  function GeminiContents(history: seq<Message>): (r: seq<GeminiContent>)
    ensures |r| == |history|
  {
    if history == [] then []
    else [GeminiContent(history[0].role, [history[0].content])] + GeminiContents(history[1..])
  }

  /** The Gemini request keeps every message, role and text, in order. */
  lemma {:induction false} GeminiContentsAt(history: seq<Message>)
    ensures forall i :: 0 <= i < |history| ==>
      GeminiContents(history)[i] == GeminiContent(history[i].role, [history[i].content])
  {
    if history != [] {
      GeminiContentsAt(history[1..]);
      forall i | 1 <= i < |history|
        ensures GeminiContents(history)[i] == GeminiContents(history[1..])[i - 1]
      {
      }
    }
  }

  // ---------------------------------------------------------------------------
  // Gemini

  /** The chunk texts that are present and not empty, in order. */
  function PresentTexts(texts: seq<Option<string>>): seq<string> {
    if texts == [] then []
    else
      var last := texts[|texts| - 1];
      PresentTexts(texts[..|texts| - 1]) + (if last.Some? && last.value != "" then [last.value] else [])
  }

  /** The `for await` loop of `streamGemini`: yield each chunk's text when it is present and not empty. */
  method GeminiFragments(texts: seq<Option<string>>) returns (out: seq<string>)
    ensures out == PresentTexts(texts)
  {
    out := [];
    var i := 0;
    while i < |texts|
      invariant 0 <= i <= |texts|
      invariant out == PresentTexts(texts[..i])
    {
      var text := texts[i];
      assert texts[..i + 1][..i] == texts[..i];
      if text.Some? && text.value != "" {
        out := out + [text.value];
      }
      i := i + 1;
    }
    assert texts[..i] == texts;
  }

  /** A fragment is yielded exactly when some chunk carries it as a non-empty text. */
  lemma {:induction false} PresentTextsMembers(texts: seq<Option<string>>)
    ensures forall x :: x in PresentTexts(texts) <==> x != "" && Some(x) in texts
  {
    if texts != [] {
      var init := texts[..|texts| - 1];
      PresentTextsMembers(init);
      assert texts == init + [texts[|texts| - 1]];
    }
  }

  /** What `streamGemini` yields. */
  function GeminiStream(settings: AISettings, texts: seq<Option<string>>, failure: Option<string>): Stream {
    if settings.apiKey == "" then Stream([], Thrown(GeminiKeyMessage))
    else Stream(PresentTexts(texts), EndingOf(failure))
  }

  // ---------------------------------------------------------------------------
  // OpenRouter

  /** The HTTP reply: its status, the error text of a failed request, and the decoded chunks of the body if any. */
  datatype Reply = Reply(ok: bool, errorText: string, body: Option<seq<string>>)

  /** What `streamOpenRouter` yields. */
  function OpenRouterStream(settings: AISettings, reply: Reply, failure: Option<string>, decode: string -> Decoded): Stream {
    if settings.apiKey == "" then Stream([], Thrown(OpenRouterKeyMessage))
    else if !reply.ok then Stream([], Thrown(OpenRouterErrorPrefix + reply.errorText))
    else if reply.body.None? then Stream([], Thrown(NoBodyMessage))
    else
      var o := Decode(reply.body.value, decode);
      Stream(o.fragments, if o.stopped then Exhausted else EndingOf(failure))
  }

  // ---------------------------------------------------------------------------
  // Dispatch

  /** What the network delivers to whichever back end is asked. */
  datatype Upstream = Upstream(geminiTexts: seq<Option<string>>, reply: Reply, failure: Option<string>)

  /** `streamAppGeneration`: OpenRouter when it is the configured provider, Gemini otherwise. */
  function GenerationStream(settings: AISettings, up: Upstream, decode: string -> Decoded): Stream {
    if settings.provider == OpenRouter then OpenRouterStream(settings, up.reply, up.failure, decode)
    else GeminiStream(settings, up.geminiTexts, up.failure)
  }

  /** Both missing-key messages mention the API key, which the app looks for. */
  lemma KeyMessagesMention()
    ensures Contains(GeminiKeyMessage, KeyHint) && Contains(OpenRouterKeyMessage, KeyHint)
  {
    ContainsIff(GeminiKeyMessage, KeyHint);
    IsAtMiddle("", KeyHint, " is required. Please configure it in Settings.");
    assert "" + KeyHint == KeyHint;
    ContainsIff(OpenRouterKeyMessage, KeyHint);
    IsAtMiddle("OpenRouter ", KeyHint, " is required");
  }

  /** Without a key, either back end fails at once, yields nothing, and its message mentions the API key. */
  lemma MissingKey(settings: AISettings, up: Upstream, decode: string -> Decoded)
    requires settings.apiKey == ""
    ensures var s := GenerationStream(settings, up, decode);
      s.fragments == [] && s.ending.Thrown? && Contains(s.ending.message, KeyHint)
  {
    KeyMessagesMention();
  }

  /** A failed OpenRouter request or a reply without a body ends the stream before any fragment. */
  lemma OpenRouterFailsEarly(settings: AISettings, up: Upstream, decode: string -> Decoded)
    requires settings.provider == OpenRouter && settings.apiKey != ""
    requires !up.reply.ok || up.reply.body.None?
    ensures var s := GenerationStream(settings, up, decode);
      s.fragments == [] &&
      s.ending == Thrown(if !up.reply.ok then OpenRouterErrorPrefix + up.reply.errorText else NoBodyMessage)
  {
  }

  /** No back end ever yields an empty fragment. */
  lemma FragmentsNonEmpty(settings: AISettings, up: Upstream, decode: string -> Decoded)
    ensures forall i :: 0 <= i < |GenerationStream(settings, up, decode).fragments| ==>
      GenerationStream(settings, up, decode).fragments[i] != ""
  {
    var s := GenerationStream(settings, up, decode);
    if settings.provider == OpenRouter {
      if settings.apiKey != "" && up.reply.ok && up.reply.body.Some? {
        LinesOutputNonEmpty(CompleteLines(Concat(up.reply.body.value)), decode);
      }
    } else if settings.apiKey != "" {
      PresentTextsMembers(up.geminiTexts);
      forall i | 0 <= i < |s.fragments|
        ensures s.fragments[i] != ""
      {
        assert s.fragments[i] in PresentTexts(up.geminiTexts);
      }
    }
  }

  /** `[DONE]` ends the OpenRouter stream quietly: a transport failure after it is never seen. */
  lemma DoneHidesFailure(settings: AISettings, up: Upstream, decode: string -> Decoded)
    requires settings.provider == OpenRouter && settings.apiKey != "" && up.reply.ok && up.reply.body.Some?
    requires Decode(up.reply.body.value, decode).stopped
    ensures GenerationStream(settings, up, decode).ending == Exhausted
  {
  }
}
