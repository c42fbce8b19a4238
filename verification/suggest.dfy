/** The reply handling of the suggestion endpoint (`POST` in
    src/app/api/suggest-messages/route.ts): pick the generated text out of
    the chat-completion reply, strip its first fenced code block and trim
    it on success, or pass the provider's status and payload through on
    failure. */
module SuggestMessages {
  import opened Wrappers
  import opened Whitespace
  import opened Fence

  /** `choices[k].message` of the parsed reply; `content` may be absent. */
  datatype ChatMessage = ChatMessage(content: Option<string>)

  /** One element of `choices`; a JSON `null` element is `None` in the list. */
  datatype Choice = Choice(message: Option<ChatMessage>)

  /** The parsed JSON reply: `choices`, plus every other field, of type `X`,
      which only the serialiser looks at. */
  datatype Reply<X> = Reply(choices: Option<seq<Option<Choice>>>, other: X)

  /** What the endpoint answers with. */
  datatype HttpResponse = HttpResponse(status: int, body: string)

  /** `response.ok`: the status is in the range 200 to 299 (Fetch standard). */
  predicate IsOk(status: int) {
    200 <= status <= 299
  }

  /** The reply carries a non-empty `choices[0].message.content`. */
  predicate HasContent<X>(data: Reply<X>) {
    && data.choices.Some?
    && |data.choices.value| > 0
    && data.choices.value[0].Some?
    && data.choices.value[0].value.message.Some?
    && data.choices.value[0].value.message.value.content.Some?
    && data.choices.value[0].value.message.value.content.value != ""
  }

  /** `data.choices?.[0]?.message?.content || ''`: the first choice's text,
      or the empty string when any link is missing or the text is empty. */
  function ExtractContent<X>(data: Reply<X>): (r: string)
    ensures r != "" <==> HasContent(data)
    ensures HasContent(data) ==> r == data.choices.value[0].value.message.value.content.value
  {
    match data.choices
    case None => ""
    case Some(list) =>
      if |list| == 0 then ""
      else match list[0]
        case None => ""
        case Some(choice) =>
          match choice.message
          case None => ""
          case Some(msg) =>
            match msg.content
            case None => ""
            case Some(text) => text  // an empty text is falsy: `|| ''` gives "" too
  }

  /** `raw.replace(/```[\s\S]*?\n([\s\S]*?)```/, '$1').trim()`. */
  function Clean(raw: string): (r: string)
    ensures IsTrimmed(r)
    ensures |r| <= |raw|
    ensures forall i, n, c :: RegexMatch(raw, i, n, c) ==>
              r == Trim(raw[..i] + raw[n + 1..c] + raw[c + |Backticks|..])
  {
    Trim(StripFirstFence(raw))
  }

  /** The endpoint's answer to a provider reply with status `status` and
      parsed payload `data`; `serialise` stands for `JSON.stringify`. */
  function Respond<X>(status: int, data: Reply<X>, serialise: Reply<X> -> string): (r: HttpResponse)
    ensures IsOk(status) ==> r.status == 200 && IsTrimmed(r.body) && |r.body| <= |ExtractContent(data)|
    ensures IsOk(status) && !HasContent(data) ==> r == HttpResponse(200, "")
    ensures IsOk(status) && HasContent(data) ==>
              r.body == Clean(data.choices.value[0].value.message.value.content.value)
    ensures !IsOk(status) ==> r == HttpResponse(status, serialise(data))
  {
    if IsOk(status) then
      HttpResponse(200, Clean(ExtractContent(data)))
    else
      HttpResponse(status, serialise(data))
  }

  /** Without any "```" in the text, cleaning is just trimming. */
  lemma CleanWithoutBackticks(raw: string)
    requires NoBackticks(raw)
    ensures Clean(raw) == Trim(raw)
  {
    StripWithoutBackticks(raw);
  }

  /** When no "```" is followed by a line feed that is followed by "```",
      cleaning is just trimming. */
  lemma CleanWithoutMatch(raw: string)
    requires forall i, n, c :: !MatchAt(raw, i, n, c)
    ensures Clean(raw) == Trim(raw)
  {
    forall i | 0 <= i ensures !Matchable(raw, i) {
    }
    StripIdentityIffNoMatch(raw);
  }

  /** The first well-formed fenced block gives up its fences and info
      string; the text around it, a second fenced block included, is kept
      verbatim before trimming. */
  lemma CleanFencedBlock(pre: string, info: string, body: string, post: string)
    requires NoBackticks(pre + "``")
    requires '\n' !in info
    requires NoBackticks(body + "``")
    ensures Clean(Fenced(pre, info, body, post)) == Trim(pre + body + post)
  {
    StripFencedBlock(pre, info, body, post);
  }

  /** The shape the prompt's provider typically answers with. */
  lemma CleanPlaintextExample(raw: string)
    requires raw == "```plaintext\nA||B||C\n```"
    ensures Clean(raw) == "A||B||C"
  {
    var body := "A||B||C\n";
    ExampleIsFenced(raw, body);
    assert NoBackticks("" + "``");
    BodyHasNoBackticks(body + "``");
    CleanFencedBlock("", "plaintext", body, "");
    assert "" + body + "" == body;
    TrimExampleBody(body);
  }

  lemma ExampleIsFenced(raw: string, body: string)
    requires raw == "```plaintext\nA||B||C\n```" && body == "A||B||C\n"
    ensures raw == Fenced("", "plaintext", body, "")
  {
  }

  lemma BodyHasNoBackticks(t: string)
    requires t == "A||B||C\n``"
    ensures NoBackticks(t)
  {
    forall j | 0 <= j < |t| ensures !Occurs(t, Backticks, j) {
      if j + 3 <= |t| {
        assert t[j] != '`';
      }
    }
  }

  lemma TrimExampleBody(t: string)
    requires t == "A||B||C\n"
    ensures Trim(t) == "A||B||C"
  {
    assert t == "" + "A||B||C" + LineFeed;
    TrimUnique("", "A||B||C", LineFeed);
  }

  /** The cleaned text is a fixed point of trimming. */
  lemma CleanIsTrimFixpoint(raw: string)
    ensures Trim(Clean(raw)) == Clean(raw)
  {
    TrimIdempotent(StripFirstFence(raw));
  }
}
