/** One chat turn and the start-up key check. A turn appends the user's
    message, asks the language model for the reply text, and, when the text
    asks for imagery, attaches up to three results of an image search; then
    it appends the assistant's message. The two external calls are
    parameters giving their outcomes. */
module App {
  import opened Wrappers
  import Text
  import Intent
  import Nasa
  import Chatbot

  /** The reply text used when the response generator raises. */
  const ApologyText: string := "\U{274C} Sorry, I encountered an error generating the response."
  /** At most this many search results are attached to a reply. */
  const MaxImages: nat := 3
  /** The documentation's example value, rejected at start-up. */
  const PlaceholderKey: string := "your_actual_api_key"
  const KeyNotSetMessage: string := "\U{1F6A8} GEMINI_API_KEY is not set correctly."
  const ConfigErrorPrefix: string := "Gemini configuration error: "

  datatype Role = User | Assistant

  /** A transcript entry. `images` is absent unless a non-empty search
      result was attached. */
  datatype Message = Message(role: Role, content: string, images: Option<seq<Nasa.ImageResult>>)

  function Min(a: int, b: int): int {
    if a <= b then a else b
  }

  function ImageCount(images: Option<seq<Nasa.ImageResult>>): nat {
    if images.Some? then |images.value| else 0
  }

  /** The reply text: what the generator returned, or the apology when it
      raised. */
  function AssistantContent(gen: Call<string>): (r: string)
    ensures gen.Returned? ==> r == gen.value
    ensures gen.Raised? ==> r == ApologyText
  {
    match gen
    case Returned(text) => text
    case Raised(_) => ApologyText
  }

  /** The images attached to the reply. The search runs only when the
      question asks for imagery, on the sanitised question; a non-empty
      result is cut to its first three entries, and an empty or raising
      search attaches nothing. */
  function AttachedImages(question: string, search: string -> Call<seq<Nasa.ImageResult>>): (r: Option<seq<Nasa.ImageResult>>)
    ensures r.Some? <==>
      (Intent.ContainsImageRequest(question)
       && search(Intent.ExtractSearchQuery(question)).Returned?
       && |search(Intent.ExtractSearchQuery(question)).value| > 0)
    ensures r.Some? ==> r.value <= search(Intent.ExtractSearchQuery(question)).value
    ensures ImageCount(r) ==
      if Intent.ContainsImageRequest(question) && search(Intent.ExtractSearchQuery(question)).Returned?
      then Min(|search(Intent.ExtractSearchQuery(question)).value|, MaxImages)
      else 0
    ensures r.Some? ==> 1 <= |r.value| <= MaxImages
  {
    if Intent.ContainsImageRequest(question) then
      match search(Intent.ExtractSearchQuery(question))
      case Returned(found) =>
        if |found| > 0 then Some(found[..Min(|found|, MaxImages)]) else None
      case Raised(_) => None
    else None
  }

  /** One turn on a non-empty question: the user's message, then the
      assistant's, appended to an otherwise unchanged transcript. */
  function Turn(transcript: seq<Message>, question: string, gen: Call<string>,
                search: string -> Call<seq<Nasa.ImageResult>>): (r: seq<Message>)
    ensures |r| == |transcript| + 2
    ensures r[..|transcript|] == transcript
    ensures r[|transcript|] == Message(User, question, None)
    ensures r[|transcript| + 1].role == Assistant
    ensures r[|transcript| + 1].content == AssistantContent(gen)
    ensures r[|transcript| + 1].images == AttachedImages(question, search)
  {
    var user := Message(User, question, None);
    var assistant := Message(Assistant, AssistantContent(gen), AttachedImages(question, search));
    transcript + [user, assistant]
  }

  /** `if user_question:` — no input, or an empty one, leaves the transcript
      as it is. */
  function Step(transcript: seq<Message>, input: Option<string>, gen: Call<string>,
                search: string -> Call<seq<Nasa.ImageResult>>): (r: seq<Message>)
    ensures (input.None? || input.value == "") ==> r == transcript
    ensures input.Some? && input.value != "" ==> r == Turn(transcript, input.value, gen, search)
  {
    if input.Some? && input.value != "" then Turn(transcript, input.value, gen, search) else transcript
  }

  /** A user message as a turn records it: non-empty text, no images. */
  predicate IsUserEntry(m: Message) {
    m.role == User && m.content != "" && m.images.None?
  }

  /** An assistant message as a turn records it: when it carries images,
      one to three of them. */
  predicate IsAssistantEntry(m: Message) {
    m.role == Assistant && (m.images.Some? ==> 1 <= |m.images.value| <= MaxImages)
  }

  /** A transcript built by turns: a sequence of exchanges, each a user
      entry followed by an assistant entry. */
  predicate WellFormed(ms: seq<Message>)
    decreases |ms|
  {
    |ms| == 0 ||
    (|ms| >= 2 && WellFormed(ms[..|ms| - 2]) && IsUserEntry(ms[|ms| - 2]) && IsAssistantEntry(ms[|ms| - 1]))
  }

  /** In a well-formed transcript the roles alternate, starting with the
      user, and the transcript ends on an assistant message. */
  lemma {:induction false} WellFormedAlternates(ms: seq<Message>)
    requires WellFormed(ms)
    ensures |ms| % 2 == 0
    ensures forall k :: 0 <= k < |ms| && k % 2 == 0 ==> IsUserEntry(ms[k])
    ensures forall k :: 0 <= k < |ms| && k % 2 == 1 ==> IsAssistantEntry(ms[k])
    decreases |ms|
  {
    if |ms| > 0 {
      var front := ms[..|ms| - 2];
      WellFormedAlternates(front);
      assert forall k :: 0 <= k < |front| ==> ms[k] == front[k];
    }
  }

  /** Every step keeps the transcript well formed. */
  lemma StepPreservesWellFormed(transcript: seq<Message>, input: Option<string>, gen: Call<string>,
                                search: string -> Call<seq<Nasa.ImageResult>>)
    requires WellFormed(transcript)
    ensures WellFormed(Step(transcript, input, gen, search))
  {
    var r := Step(transcript, input, gen, search);
    if input.Some? && input.value != "" {
      assert r[..|r| - 2] == transcript;
    }
  }

  /** The image search is consulted only when the question asks for
      imagery, and then only for the sanitised question. */
  lemma SearchOnlyOnIntent(transcript: seq<Message>, question: string, gen: Call<string>,
                           s1: string -> Call<seq<Nasa.ImageResult>>, s2: string -> Call<seq<Nasa.ImageResult>>)
    requires !Intent.ContainsImageRequest(question) ||
             s1(Intent.ExtractSearchQuery(question)) == s2(Intent.ExtractSearchQuery(question))
    ensures Turn(transcript, question, gen, s1) == Turn(transcript, question, gen, s2)
  {
  }

  // ---------------------------------------------------------------------------
  // The turn wired to the two clients

  /** The search the chat layer performs: the image-archive client with its
      default media type. */
  function ImageSearch(get: Nasa.Request -> Nasa.HttpOutcome): (r: string -> Call<seq<Nasa.ImageResult>>)
    ensures forall q :: r(q) == Nasa.SearchNasaImages(q, "image", get)
    ensures forall q :: get(Nasa.SearchRequest(q, Nasa.DefaultMediaType)).TransportError? ==> r(q) == Returned([])
    ensures forall q :: r(q).Returned? ==> forall k :: 0 <= k < |r(q).value| ==> r(q).value[k].imageUrl != ""
  {
    query => Nasa.SearchNasaImages(query, Nasa.DefaultMediaType, get)
  }

  /** A turn with the real clients in place of the abstract outcomes. */
  function ClientTurn(transcript: seq<Message>, question: string, key: Option<string>, sdk: string -> Call<()>,
                      model: string -> Call<string>, get: Nasa.Request -> Nasa.HttpOutcome): (r: seq<Message>)
    ensures |r| == |transcript| + 2 && r[..|transcript|] == transcript
    ensures r[|transcript|] == Message(User, question, None)
    ensures r[|transcript| + 1].role == Assistant
    ensures r[|transcript| + 1].content == Chatbot.GenerateResponse(Chatbot.SpaceSeedText, key, sdk, question, model)
    ensures r[|transcript| + 1].images == AttachedImages(question, ImageSearch(get))
  {
    Turn(transcript, question, Returned(Chatbot.GenerateResponse(Chatbot.SpaceSeedText, key, sdk, question, model)),
         ImageSearch(get))
  }

  /** With the real image client, every attached image has a URL. */
  lemma ClientTurnReply(transcript: seq<Message>, question: string, key: Option<string>, sdk: string -> Call<()>,
                        model: string -> Call<string>, get: Nasa.Request -> Nasa.HttpOutcome)
    ensures var imgs := ClientTurn(transcript, question, key, sdk, model, get)[|transcript| + 1].images;
            imgs.Some? ==> forall k :: 0 <= k < |imgs.value| ==> imgs.value[k].imageUrl != ""
  {
    var r := ClientTurn(transcript, question, key, sdk, model, get);
    var imgs := r[|transcript| + 1].images;
    if imgs.Some? {
      var found := ImageSearch(get)(Intent.ExtractSearchQuery(question)).value;
      assert imgs.value <= found;
      forall k | 0 <= k < |imgs.value|
        ensures imgs.value[k].imageUrl != ""
      {
        assert imgs.value[k] == found[k];
      }
    }
  }

  /** "Show me a picture of a nebula" asks for imagery, is searched for
      verbatim, and gets at most three images. */
  lemma NebulaScenario(question: string, transcript: seq<Message>, gen: Call<string>,
                       search: string -> Call<seq<Nasa.ImageResult>>)
    requires question == "Show me a picture of a nebula"
    ensures Intent.ContainsImageRequest(question)
    ensures Intent.ExtractSearchQuery(question) == question
    ensures ImageCount(Turn(transcript, question, gen, search)[|transcript| + 1].images) <= MaxImages
  {
    NebulaAsksForImages(question);
    NebulaQueryUnchanged(question);
  }

  lemma NebulaAsksForImages(question: string)
    requires question == "Show me a picture of a nebula"
    ensures Intent.ContainsImageRequest(question)
  {
    var lowered := Text.Lower(question);
    assert lowered[0..7] == "show me" by {
      forall k | 0 <= k < 7
        ensures lowered[0..7][k] == "show me"[k]
      {
        assert lowered[k] == Text.LowerChar(question[k]);
      }
    }
    assert Text.OccursAt(lowered, "show me", 0);
    assert Intent.ImageKeywords[1] == "show me";
    Intent.ContainsImageRequestIff(question);
  }

  lemma NebulaQueryUnchanged(question: string)
    requires question == "Show me a picture of a nebula"
    ensures Intent.ExtractSearchQuery(question) == question
  {
    assert Text.AllQueryChars(question);
    assert Text.Trimmed(question);
    Intent.ExtractSearchQueryFixedPoints(question);
  }

  // ---------------------------------------------------------------------------
  // Start-up

  /** The outcome of start-up: the chat opens with a configured key, or
      stops with a message. */
  datatype Startup = Blocked(message: string) | Ready(apiKey: string)

  /** The key check before the chat opens, then the client configuration,
      whose SDK call may still raise. */
  function StartApp(key: Option<string>, sdk: string -> Call<()>): (r: Startup)
    ensures r.Ready? <==> Chatbot.KeyPresent(key) && key.value != PlaceholderKey && sdk(key.value).Returned?
    ensures r.Ready? ==> r.apiKey == key.value
    ensures !Chatbot.KeyPresent(key) || key.value == PlaceholderKey ==> r == Blocked(KeyNotSetMessage)
    ensures Chatbot.KeyPresent(key) && key.value != PlaceholderKey && sdk(key.value).Raised? ==>
              r == Blocked(ConfigErrorPrefix + sdk(key.value).message)
  {
    if key.None? || key.value == "" || key.value == PlaceholderKey then Blocked(KeyNotSetMessage)
    else match Chatbot.ConfigureGemini(key, sdk)
      case Raised(e) => Blocked(ConfigErrorPrefix + e)
      case Returned(k) => Ready(k)
  }

  /** The two key checks disagree on the placeholder: the client passes it
      on to the SDK, start-up rejects it; on every other key they agree. */
  lemma KeyChecksDiffer(key: Option<string>, sdk: string -> Call<()>)
    ensures Chatbot.ConfigureGemini(Some(PlaceholderKey), sdk).Returned? <==> sdk(PlaceholderKey).Returned?
    ensures StartApp(Some(PlaceholderKey), sdk) == Blocked(KeyNotSetMessage)
    ensures key != Some(PlaceholderKey) ==> (StartApp(key, sdk).Ready? <==> Chatbot.ConfigureGemini(key, sdk).Returned?)
  {
  }
}
