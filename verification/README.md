# SpaceBot core, modelled in Dafny

SpaceBot is a chat front-end for a generative-language API. When the user's text
looks like a request for imagery, it also queries the NASA image archive. Most of
the repository is glue around Streamlit, `requests` and the Gemini SDK. Inside
that glue are four small deterministic procedures, and this project models and
proves each of them:

- **Intent** (`Intent.dfy`, app.py:13-23) covers two things.
  - The image-intent classifier: a case-insensitive substring test against a fixed
    keyword list, with no word boundary.
  - The search-query sanitiser: it deletes `[^\w\s]`, then strips.
- **Nasa** (`Nasa.dfy`, nasa.py) is the search-result normaliser. It is a
  filter-map over the JSON shape `collection → items → data[0] / links`:
  - an item survives only when its first `render == "image"` link has a non-empty
    `href`;
  - the title and description have fixed fallbacks;
  - transport, status and decoding failures give an empty list.
- **Chatbot** (`Chatbot.dfy`, chatbot.py) is the language-model client:
  - the key check;
  - the fixed composition persona + delimiter + question + anchor;
  - every exception is turned into response text.
- **App** (`App.dfy`, app.py:61-104) covers one chat turn and start-up.
  - A turn appends the user message. It takes the reply text from the generator,
    or a fixed apology if the generator raised. When intent is detected and the
    search returns something, it attaches the first three results. Then it appends
    the assistant message.
  - Start-up is the key check before the chat opens.

`Text.dfy` holds the Python string primitives these need: ASCII `str.lower`,
substring search, the `\w`/`\s` classes, `str.strip`, and subsequences.
`Wrappers.dfy` holds `Option` (an absent key or unset variable) and `Call` (a
Python call that returns a value or raises).

The external calls are parameters:
- the HTTP exchange is a function `Request -> HttpOutcome`;
- `genai.configure` is a function `sdk` from the key to `Call<()>`, which returns or raises;
- the Gemini model is a function from the composed prompt to `Call<string>`;
- at the turn level, the generator and the search are outcomes or functions
  handed in.

The environment variable is an `Option<string>` argument. `App.ClientTurn` wires
the real clients into a turn.

The Chatbot functions take the persona text as a parameter `seed`, so their
properties hold for any persona. The client always passes
`Chatbot.SpaceSeedText`, the module's fixed preamble, and `App.ClientTurn` does
the same.

Three behaviours of the code are easy to misread:
- `configure_gemini` accepts the placeholder key `"your_actual_api_key"`. Only
  the start-up check at app.py:95 rejects it (`App.KeyChecksDiffer`).
- The sanitiser deletes `[^\w\s]`. Its `\w` includes `_`, so underscores are
  kept along with letters and digits.
- A search that raises reaches only the `st.error` call at app.py:87-88, so the
  turn attaches no images and records nothing else about the failure.

## Model

| member | source | states |
|---|---|---|
| Text.Lower | app.py:17 | `str.lower()` keeps the length, shifts each ASCII capital to its lower-case letter, and leaves every other character as it is. |
| Text.Contains | app.py:17 | The empty needle occurs in every text, and a needle longer than the text never occurs. |
| Text.ContainsIff | app.py:17 | The left-to-right `kw in text` scan succeeds exactly when the keyword occurs at some index of the text. |
| Text.LowerIsLowerCase | app.py:17 | Lowering yields a lower-case string, leaves a lower-case string unchanged, and is idempotent. |
| Text.QueryChars | app.py:23 | `re.sub(r'[^\w\s]', '', s)` leaves only word and whitespace characters and never grows the text. |
| Text.QueryCharsIsSubsequence | app.py:23 | The deletion keeps the order of the surviving characters: the result is a subsequence of the input. |
| Text.QueryCharsIdentity | app.py:23 | A string with nothing to delete is returned unchanged. |
| Text.QueryCharsCounts | app.py:23 | Counted per character, the filter keeps every occurrence of a word or whitespace character and drops every other character. |
| Text.Strip | app.py:23 | `str.strip()` gives a result with no whitespace at either end, and the input is that result padded only with whitespace. |
| Text.StripKeepsCounts | app.py:23 | Stripping removes only whitespace: every other character keeps all its occurrences. |
| Text.StripUnique | app.py:23 | Any trimmed string that the input pads with whitespace is the strip of the input, so the strip is the unique trimmed core. |
| Intent.AnyKeywordIn | app.py:17 | If the `any(...)` scan succeeds, some keyword of the list is a substring of the text. |
| Intent.AnyKeywordInIff | app.py:17 | The `any(...)` scan succeeds exactly when some keyword of the list is a substring of the text. |
| Intent.ContainsImageRequest | app.py:15-17 | Only a text of at least three characters, the length of the shortest keyword, can ask for images. |
| Intent.ContainsImageRequestIff | app.py:13-17 | `contains_image_request(t)` holds iff some keyword of the list occurs anywhere in `lower(t)`, including inside other words. |
| Intent.ContainsImageRequestIgnoresCase | app.py:13-17 | Texts that are equal after lowering are classified alike, and classifying `lower(t)` equals classifying `t`. |
| Intent.PluralKeywordsRedundant | app.py:13-17 | "images", "pictures" and "photos" each contain a singular keyword, so the first six keywords classify every text the same way as all nine. |
| Intent.SeeInsideSentence | app.py:15-17 | "I can SEE it" is classified as an image request. |
| Intent.ExtractSearchQuery | app.py:19-23 | The query contains only word characters and whitespace, has no whitespace at either end, and is no longer than the prompt. |
| Intent.ExtractSearchQueryIsSubsequence | app.py:23 | The query is an order-preserving subsequence of the prompt. |
| Intent.ExtractSearchQueryKeepsWordChars | app.py:23 | The word characters of the query are exactly those of the prompt, in the same order. |
| Intent.ExtractSearchQueryIdempotent | app.py:23 | Sanitising an already sanitised query returns it unchanged. |
| Intent.ExtractSearchQueryDropsOnlyPunctuation | app.py:23 | Every occurrence of a word character in the prompt survives in the query. The query is the filtered prompt with whitespace removed from its two ends only, so inner spacing is kept. |
| Intent.ExtractSearchQueryFixedPoints | app.py:19-23 | The sanitiser leaves a text unchanged exactly when the text consists of word and whitespace characters and has no whitespace at either end. |
| Intent.MarsQuestion | app.py:23 | "What's Mars like?" becomes "Whats Mars like". |
| Nasa.FirstImageLink | nasa.py:35-39 | The scan returns the first link whose `render` is "image", and returns nothing exactly when no link is an image link. |
| Nasa.LaterLinksIgnored | nasa.py:36-39 | Once an image link has been seen, links appended after it never change the chosen `href`. |
| Nasa.FirstImageLinkDecides | nasa.py:35-41 | The chosen URL is the `href` of the first image link. If that `href` is missing or empty, the item is dropped even when a later image link has one. |
| Nasa.ImageUrl | nasa.py:35-39 | The URL is the `href` of the first `render == "image"` link. With no image link there is no URL. |
| Nasa.Eligible | nasa.py:33-41 | An item qualifies iff it has non-empty `data` and `links` and its first image link has a truthy `href`. |
| Nasa.DescriptionOf | nasa.py:44 | A truthy `description_508` wins. The description is empty exactly when `description_508` is falsy and `description` is present but empty. Otherwise it is one of the two fields or "N/A". |
| Nasa.ToResult | nasa.py:41-46 | An eligible item's record has a non-empty URL from the first image link. The title is `data[0].title`, else "N/A". The description is `description_508` if truthy, else `description` if present (even empty), else "N/A". |
| Nasa.NormaliseItems | nasa.py:32-46 | The result is never longer than the item list, and every record has a non-empty `image_url`. |
| Nasa.NormaliseItemsExact | nasa.py:30-47 | The k-th record is the normalised k-th eligible item, so the records keep the items' relative order and there is one record per eligible item. |
| Nasa.EligibleIndicesComplete | nasa.py:33-41 | An item is listed among the contributing items iff it has non-empty `data`, non-empty `links`, and a truthy `href` on its first image link. |
| Nasa.ItemContributesIff | nasa.py:32-46 | An item produces a record exactly when it is eligible. Its record is the normalised item, at the position given by its rank among the eligible items. |
| Nasa.OnlyFirstDataEntryConsulted | nasa.py:33-44 | Items agreeing on `data[0]` and `links` are equally eligible and normalise identically: later metadata entries are never read. |
| Nasa.ResultsOf | nasa.py:28-53 | A malformed body, or a missing or empty `collection` or `items`, gives `[]`. A non-object body raises (AttributeError is not caught). An object body with a non-empty `items` list gives exactly the normalised items. Every returned list is bounded by the item count and has non-empty URLs. |
| Nasa.SearchNasaImages | nasa.py:8-53 | Transport errors and 4xx/5xx statuses give `[]` instead of raising. Any other response gives the results of its body, that is, the normalised items. The only thing that can raise is a non-object body. Every returned record has a non-empty URL. |
| Nasa.SearchSendsOneRequest | nasa.py:6-26 | The search depends only on the answer to the one GET of `https://images-api.nasa.gov/search` with the given `q` and `media_type`. |
| Chatbot.ConfigureGemini | chatbot.py:7-11 | A missing or empty key raises ValueError with its fixed message. Any other key, the placeholder included, goes to `genai.configure`. The call succeeds, with that key, exactly when the SDK accepts it. Otherwise the SDK's exception propagates. |
| Chatbot.FullPrompt | chatbot.py:42 | The composed prompt begins with the persona text, then the "User question: " delimiter, then the user's text verbatim, and ends with the response anchor. Its length is exactly the sum of the parts. |
| Chatbot.UserQuestionRoundTrip | chatbot.py:42 | Recovering the question from a composed prompt gives back the user's text, and only the composed prompt of a text yields that text. |
| Chatbot.FullPromptInjective | chatbot.py:42 | Different questions give different composed prompts. |
| Chatbot.GenerateResponse | chatbot.py:35-47 | The response is the model's text unmodified on success. A missing key gives "Error generating response: " + the ValueError message. An SDK configuration failure or a model failure gives the same prefix + that exception's message. It never raises. |
| Chatbot.ResponseDependsOnlyOnCurrentPrompt | chatbot.py:38-44 | Only the composed prompt of the current question reaches the model, so no history is included. |
| Chatbot.FailureIsContent | chatbot.py:46-47 | Whenever anything raised, the response begins with "Error generating response: ". |
| App.AssistantContent | app.py:67-73 | The reply text equals the generator's returned text. If the generator raised, it is the fixed apology "❌ Sorry, I encountered an error generating the response." |
| App.AttachedImages | app.py:76-88 | Images are attached iff intent is detected and the search on the sanitised question returns a non-empty list. They are then a prefix of that list of length `min(K, 3)`. An empty or raising search attaches nothing. |
| App.Turn | app.py:61-90 | A turn appends exactly two messages, the user's then the assistant's, and leaves every earlier transcript entry unchanged. |
| App.Step | app.py:59-61 | No input, or an empty one, leaves the transcript unchanged; any other input runs one turn. |
| App.WellFormedAlternates | app.py:61-90 | In a transcript built by turns the roles alternate, starting with a user message, and the length is even. |
| App.StepPreservesWellFormed | app.py:61-90 | Every step keeps the transcript alternating user/assistant. User messages stay non-empty and image-free, and attached image lists hold one to three entries. |
| App.SearchOnlyOnIntent | app.py:77-81 | Without image intent the search is never consulted. With intent, only its answer for the sanitised question matters. |
| App.ClientTurnReply | app.py:76-88 | With the real image client, every attached image has a non-empty URL. |
| App.ImageSearch | app.py:81 | The chat layer's search is `search_nasa_images(query)` with the default media type "image". It gives no results on a transport error, and every record it returns has a URL. |
| App.ClientTurn | app.py:61-90 | With the real clients, a turn appends the user message and then an assistant message. Its text is exactly what `generate_response` returns, so the apology branch is never taken. Its images are those the real image search attaches. |
| App.NebulaScenario | app.py:77-83 | "Show me a picture of a nebula" asks for imagery, is searched verbatim, and gets at most three images. |
| App.StartApp | app.py:93-104 | The chat opens iff the key is present, non-empty and not "your_actual_api_key" and the SDK accepts it, and then with that key. A missing, empty or placeholder key stops with the "not set correctly" message. An SDK failure stops with "Gemini configuration error: " + its message. |
| App.KeyChecksDiffer | app.py:94-101 | The client's key check passes the placeholder on to the SDK, while start-up rejects it. On every other key the two checks agree. |

## Left out

- Streamlit rendering is not modelled: `display_image_results`, `show_user_message`, `show_assistant_message`, spinners, `st.info`/`st.warning`/`st.error` calls and the replay of earlier messages (app.py:25-59). These are UI only.
- `requests.get`, `raise_for_status` and `response.json()` are not modelled. Their combined effect is the `HttpOutcome` input: a transport error, or a status with a decoded body.
- A body that is not JSON is treated like the other caught failures (an empty list). This assumes a `requests` version in which the decoding error is a `RequestException`.
- The Gemini SDK is not modelled; its calls are parameters. `genai.configure` is a function from the key to `Returned(())` or `Raised(message)`. `GenerativeModel`, `generate_content` and `response.text` together are a function from the composed prompt to `Returned(text)` or `Raised(message)`.
- `load_dotenv` and `os.getenv` are not modelled. The key is passed in as an `Option<string>`.
- The `__main__` demo blocks and the `print` logging in nasa.py and chatbot.py are I/O only.
- Text.IsWordChar: `\w` is modelled for ASCII only (letters, digits, `_`). Non-ASCII letters and digits, which Python's `\w` keeps, are deleted by the model's sanitiser.
- Text.Lower: `str.lower` is modelled for ASCII letters only. For the classifier this changes nothing:
  - Python lowercases non-ASCII characters to non-ASCII ones, with two exceptions. U+212A becomes "k", and no keyword contains "k". U+0130 becomes "i" plus a combining dot, and no keyword can match across the dot.
  - This argument is not mechanised.
- JSON is modelled with a typed shape. Three things follow:
  - JSON `null` values and non-string field values are not modelled; a key is either absent or holds a string.
  - Items or links that are not objects would raise TypeError or AttributeError, and that is not modelled. Only a top-level non-object body is modelled as raising.
  - The `KeyError` handler (nasa.py:51-53) cannot fire for this shape, because every subscript in the loop is guarded by a `.get` truthiness test.
- The text of a raised exception is not modelled beyond the messages the source writes itself. Its UI display (app.py:71, 88, 103) is not modelled either.
