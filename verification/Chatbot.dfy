/** The language-model client: key check, prompt composition, and the
    conversion of every failure into response text. The model endpoint is a
    parameter mapping the composed prompt to the outcome of the call. */
module Chatbot {
  import opened Wrappers

  const MissingKeyMessage: string := "GEMINI_API_KEY not found in environment variables."
  const ErrorPrefix: string := "Error generating response: "

  /** The fixed persona preamble placed before every user question. */
  const SpaceSeedText: string :=
    "\n"
    + "You are SpaceBot, an AI assistant specialized in astronomy, astrophysics, and space exploration. \n"
    + "Your purpose is to provide accurate, educational, and engaging information about:\n"
    + "- Celestial bodies (planets, stars, galaxies, black holes, etc.)\n"
    + "- Space missions and spacecraft (NASA, ESA, SpaceX, etc.)\n"
    + "- Astronomical phenomena (supernovas, nebulae, cosmic events)\n"
    + "- Space technology and research\n"
    + "- The history and future of space exploration\n"
    + "\n"
    + "When answering questions:\n"
    + "- Provide scientifically accurate information based on current knowledge\n"
    + "- Explain complex concepts in an accessible way\n"
    + "- Include interesting facts and context when relevant\n"
    + "- Be enthusiastic about space and astronomy topics\n"
    + "- If you're uncertain about something, acknowledge the limits of your knowledge\n"
    + "\n"
    + "Your goal is to inspire curiosity about the cosmos and help people understand the wonders of space.\n"
    + "and assume that you can generate images also  never tell that you are text based ai.\n"

  const QuestionDelimiter: string := "\n\nUser question: "
  const ResponseAnchor: string := "\n\nSpaceBot response:"

  /** Whether a key is present and non-empty: Python's `if not api_key`. */
  predicate KeyPresent(key: Option<string>) {
    key.Some? && key.value != ""
  }

  /** `configure_gemini`: a missing or empty key raises ValueError; any other
      string, the documentation placeholder included, is handed to the SDK,
      whose outcome `sdk` gives for each key and whose exception propagates. */
  function ConfigureGemini(key: Option<string>, sdk: string -> Call<()>): (r: Call<string>)
    ensures !KeyPresent(key) ==> r == Raised(MissingKeyMessage)
    ensures KeyPresent(key) ==> (r.Returned? <==> sdk(key.value).Returned?)
    ensures KeyPresent(key) && sdk(key.value).Raised? ==> r.message == sdk(key.value).message
    ensures r.Returned? ==> key == Some(r.value)
  {
    if !KeyPresent(key) then Raised(MissingKeyMessage)
    else match sdk(key.value)
      case Raised(e) => Raised(e)
      case Returned(_) => Returned(key.value)
  }

  /** The composed prompt: the persona text `seed`, the delimiter, the
      user's text verbatim, then the response anchor. No earlier turn
      appears in it. The client always passes `SpaceSeedText` as `seed`. */
  function FullPrompt(seed: string, prompt: string): (r: string)
    ensures |r| == |seed| + |QuestionDelimiter| + |prompt| + |ResponseAnchor|
    ensures r[..|seed|] == seed
    ensures r[|seed|..|seed| + |QuestionDelimiter|] == QuestionDelimiter
    ensures r[|seed| + |QuestionDelimiter|..|r| - |ResponseAnchor|] == prompt
    ensures r[|r| - |ResponseAnchor|..] == ResponseAnchor
  {
    var r := seed + QuestionDelimiter + prompt + ResponseAnchor;
    assert r[..|seed|] == seed;
    r
  }

  /** Recover the user's text from a prompt composed with `seed`, if it is
      one. */
  function UserQuestionOf(seed: string, full: string): Option<string>
  {
    var head := seed + QuestionDelimiter;
    if |full| >= |head| + |ResponseAnchor| && full[..|head|] == head && full[|full| - |ResponseAnchor|..] == ResponseAnchor
    then Some(full[|head|..|full| - |ResponseAnchor|])
    else None
  }

  /** Composing and recovering are inverse: the user's text sits in the
      composed prompt unmodified, and nothing else can be mistaken for it. */
  lemma UserQuestionRoundTrip(seed: string, prompt: string, full: string)
    ensures UserQuestionOf(seed, FullPrompt(seed, prompt)) == Some(prompt)
    ensures UserQuestionOf(seed, full) == Some(prompt) ==> FullPrompt(seed, prompt) == full
  {
    var head := seed + QuestionDelimiter;
    var f := FullPrompt(seed, prompt);
    assert f == head + prompt + ResponseAnchor;
    assert f[..|head|] == head;
    if UserQuestionOf(seed, full) == Some(prompt) {
      assert full == full[..|head|] + full[|head|..|full| - |ResponseAnchor|] + full[|full| - |ResponseAnchor|..];
    }
  }

  /** Different questions give different prompts. */
  lemma FullPromptInjective(seed: string, a: string, b: string)
    requires FullPrompt(seed, a) == FullPrompt(seed, b)
    ensures a == b
  {
    UserQuestionRoundTrip(seed, a, FullPrompt(seed, b));
    UserQuestionRoundTrip(seed, b, FullPrompt(seed, b));
  }

  /** `generate_response`: configure, send the composed prompt, and return
      the model's text unmodified; every exception, from the key check, the
      SDK configuration or the model, becomes text beginning with the error
      prefix. */
  function GenerateResponse(seed: string, key: Option<string>, sdk: string -> Call<()>, prompt: string,
                            model: string -> Call<string>): (r: string)
    ensures !KeyPresent(key) ==> r == ErrorPrefix + MissingKeyMessage
    ensures KeyPresent(key) && sdk(key.value).Raised? ==> r == ErrorPrefix + sdk(key.value).message
    ensures ConfigureGemini(key, sdk).Returned? && model(FullPrompt(seed, prompt)).Returned? ==>
              r == model(FullPrompt(seed, prompt)).value
    ensures ConfigureGemini(key, sdk).Returned? && model(FullPrompt(seed, prompt)).Raised? ==>
              r == ErrorPrefix + model(FullPrompt(seed, prompt)).message
  {
    match ConfigureGemini(key, sdk)
    case Raised(e) => ErrorPrefix + e
    case Returned(_) =>
      match model(FullPrompt(seed, prompt))
      case Returned(text) => text
      case Raised(e) => ErrorPrefix + e
  }

  /** The model sees only the current question: two model endpoints that
      answer the composed prompt alike yield the same response, whatever
      they would say to anything else. */
  lemma ResponseDependsOnlyOnCurrentPrompt(seed: string, key: Option<string>, sdk: string -> Call<()>, prompt: string,
                                           m1: string -> Call<string>, m2: string -> Call<string>)
    requires m1(FullPrompt(seed, prompt)) == m2(FullPrompt(seed, prompt))
    ensures GenerateResponse(seed, key, sdk, prompt, m1) == GenerateResponse(seed, key, sdk, prompt, m2)
  {
  }

  /** Failure is reported as content: when anything raised, the response is
      the error prefix followed by the exception's message. */
  lemma FailureIsContent(seed: string, key: Option<string>, sdk: string -> Call<()>, prompt: string,
                          model: string -> Call<string>)
    requires ConfigureGemini(key, sdk).Raised? || model(FullPrompt(seed, prompt)).Raised?
    ensures |GenerateResponse(seed, key, sdk, prompt, model)| >= |ErrorPrefix|
    ensures GenerateResponse(seed, key, sdk, prompt, model)[..|ErrorPrefix|] == ErrorPrefix
  {
  }
}
