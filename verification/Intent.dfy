/** The image-intent classifier and the search-query sanitiser of the chat
    front-end: a keyword test on the lower-cased user text, and the user text
    with punctuation removed and surrounding whitespace trimmed. */
module Intent {
  import opened Text

  /** The fixed keyword list; matching is by substring, with no word boundary. */
  const ImageKeywords: seq<string> :=
    ["image", "show me", "picture", "photo", "visualize", "see", "images", "pictures", "photos"]

  /** `any(kw in text for kw in keywords)`. */
  predicate AnyKeywordIn(keywords: seq<string>, text: string)
    ensures AnyKeywordIn(keywords, text) ==> exists k :: 0 <= k < |keywords| && Contains(text, keywords[k])
  {
    |keywords| > 0 && (Contains(text, keywords[0]) || AnyKeywordIn(keywords[1..], text))
  }

  /** `contains_image_request`: does the lower-cased text contain a keyword? */
  predicate ContainsImageRequest(text: string)
    ensures ContainsImageRequest(text) ==> |text| >= 3
  {
    assert forall k :: 0 <= k < |ImageKeywords| ==> |ImageKeywords[k]| >= 3;
    AnyKeywordIn(ImageKeywords, Lower(text))
  }

  /** `extract_search_query`: delete every character that is neither a word
      character nor whitespace, then strip whitespace from both ends. */
  function ExtractSearchQuery(prompt: string): (q: string)
    ensures AllQueryChars(q)
    ensures Trimmed(q)
    ensures |q| <= |prompt|
  {
    var kept := QueryChars(prompt);
    StripKeepsQueryChars(kept);
    Strip(kept)
  }

  // ---------------------------------------------------------------------------
  // The classifier

  /** The scan over the keyword list succeeds exactly when some listed
      keyword is a substring of the text. */
  lemma {:induction false} AnyKeywordInIff(keywords: seq<string>, text: string)
    ensures AnyKeywordIn(keywords, text) <==> exists k :: 0 <= k < |keywords| && Contains(text, keywords[k])
  {
    if |keywords| > 0 {
      AnyKeywordInIff(keywords[1..], text);
      if k :| 1 <= k < |keywords| && Contains(text, keywords[k]) {
        assert keywords[1..][k - 1] == keywords[k];
      }
      if k :| 0 <= k < |keywords[1..]| && Contains(text, keywords[1..][k]) {
        assert keywords[1..][k] == keywords[k + 1];
      }
    }
  }

  /** The classifier holds exactly when some keyword occurs, at any position
      and inside any word, in the lower-cased text. */
  lemma ContainsImageRequestIff(text: string)
    ensures ContainsImageRequest(text) <==>
      exists kw, i :: kw in ImageKeywords && OccursAt(Lower(text), kw, i)
  {
    AnyKeywordInIff(ImageKeywords, Lower(text));
    if ContainsImageRequest(text) {
      var k :| 0 <= k < |ImageKeywords| && Contains(Lower(text), ImageKeywords[k]);
      ContainsIff(Lower(text), ImageKeywords[k]);
    }
    if kw, i :| kw in ImageKeywords && OccursAt(Lower(text), kw, i) {
      ContainsIff(Lower(text), kw);
      var k :| 0 <= k < |ImageKeywords| && ImageKeywords[k] == kw;
    }
  }

  /** All keywords are lower case, so lowering the input first changes
      nothing: the classifier is insensitive to case. */
  lemma ContainsImageRequestIgnoresCase(a: string, b: string)
    requires Lower(a) == Lower(b)
    ensures ContainsImageRequest(a) == ContainsImageRequest(b)
    ensures ContainsImageRequest(Lower(a)) == ContainsImageRequest(a)
  {
    LowerIsLowerCase(a);
  }

  /** The plural keywords are dead entries: each contains its singular, so
      the first six keywords alone classify every text the same way. */
  lemma PluralKeywordsRedundant(text: string)
    ensures ContainsImageRequest(text) == AnyKeywordIn(ImageKeywords[..6], Lower(text))
  {
    PluralsCoveredBySingulars(Lower(text));
  }

  lemma {:induction false} PluralsCoveredBySingulars(t: string)
    ensures AnyKeywordIn(ImageKeywords, t) == AnyKeywordIn(ImageKeywords[..6], t)
  {
    AnyKeywordInIff(ImageKeywords, t);
    AnyKeywordInIff(ImageKeywords[..6], t);
    if k :| 6 <= k < 9 && Contains(t, ImageKeywords[k]) {
      ghost var j := if k == 6 then 0 else if k == 7 then 2 else 3;
      assert Contains(ImageKeywords[k], ImageKeywords[j]) by {
        assert ImageKeywords[k][..|ImageKeywords[j]|] == ImageKeywords[j];
      }
      ContainsTransitive(t, ImageKeywords[k], ImageKeywords[j]);
      assert ImageKeywords[..6][j] == ImageKeywords[j];
    }
    if k :| 0 <= k < 6 && Contains(t, ImageKeywords[..6][k]) {
      assert ImageKeywords[..6][k] == ImageKeywords[k];
    }
  }

  /** A keyword inside another word counts: "I can SEE it" asks for images. */
  lemma SeeInsideSentence(text: string)
    requires text == "I can SEE it"
    ensures ContainsImageRequest(text)
  {
    var t := Lower(text);
    assert t[6..9] == "see" by {
      forall k | 0 <= k < 3
        ensures t[6..9][k] == "see"[k]
      {
        assert t[6 + k] == LowerChar(text[6 + k]);
      }
    }
    assert OccursAt(t, "see", 6);
    assert ImageKeywords[5] == "see";
    ContainsImageRequestIff(text);
  }

  // ---------------------------------------------------------------------------
  // The query sanitiser

  /** The query is the input with some characters deleted and the order of
      the rest kept. */
  lemma ExtractSearchQueryIsSubsequence(prompt: string)
    ensures IsSubsequence(ExtractSearchQuery(prompt), prompt)
  {
    var kept := QueryChars(prompt);
    QueryCharsIsSubsequence(prompt);
    StripIsSubsequence(kept);
    SubsequenceTransitive(ExtractSearchQuery(prompt), kept, prompt);
  }

  /** Only punctuation and surrounding whitespace go: the word characters of
      the query are exactly those of the input, in the same order. */
  lemma ExtractSearchQueryKeepsWordChars(prompt: string)
    ensures WordChars(ExtractSearchQuery(prompt)) == WordChars(prompt)
  {
    StripKeepsWordChars(QueryChars(prompt));
    QueryCharsKeepsWordChars(prompt);
  }

  /** Only punctuation and surrounding whitespace go. Every occurrence of a
      word character survives, and the query is the filtered text with
      whitespace removed from its two ends only, so inner spacing stays. */
  lemma ExtractSearchQueryDropsOnlyPunctuation(prompt: string)
    ensures forall c :: IsQueryChar(c) && !IsSpace(c) ==>
      multiset(ExtractSearchQuery(prompt))[c] == multiset(prompt)[c]
    ensures exists i :: SpacePadded(QueryChars(prompt), ExtractSearchQuery(prompt), i)
  {
    var kept := QueryChars(prompt);
    QueryCharsCounts(prompt);
    StripKeepsCounts(kept);
    assert ExtractSearchQuery(prompt) == Strip(kept);
  }

  /** Sanitising a sanitised query changes nothing. */
  lemma ExtractSearchQueryIdempotent(prompt: string)
    ensures ExtractSearchQuery(ExtractSearchQuery(prompt)) == ExtractSearchQuery(prompt)
  {
    var q := ExtractSearchQuery(prompt);
    QueryCharsIdentity(q);
    StripTrimmed(q);
  }

  /** The sanitiser's fixed points are exactly the trimmed strings of word
      and whitespace characters. */
  lemma ExtractSearchQueryFixedPoints(prompt: string)
    ensures ExtractSearchQuery(prompt) == prompt <==> AllQueryChars(prompt) && Trimmed(prompt)
  {
    if AllQueryChars(prompt) && Trimmed(prompt) {
      QueryCharsIdentity(prompt);
      StripTrimmed(prompt);
    }
  }

  /** Apostrophe and question mark go, inner spacing stays. */
  lemma MarsQuestion(prompt: string)
    requires prompt == "What's Mars like?"
    ensures ExtractSearchQuery(prompt) == "Whats Mars like"
  {
    MarsQuestionChars(prompt);
    var kept := QueryChars(prompt);
    assert Trimmed(kept);
    StripTrimmed(kept);
  }

  lemma MarsQuestionChars(prompt: string)
    requires prompt == "What's Mars like?"
    ensures QueryChars(prompt) == "Whats Mars like"
  {
    var a, b, c, d := "What", "'", "s Mars like", "?";
    assert a + c == "Whats Mars like";
    assert prompt == a + b + c + d;
    assert AllQueryChars(a);
    assert AllQueryChars(c);
    assert QueryChars(b) == [] by { assert !IsQueryChar(b[0]); }
    assert QueryChars(d) == [] by { assert !IsQueryChar(d[0]); }
    DropPunctuation(a, b, c, d);
  }

  lemma DropPunctuation(a: string, b: string, c: string, d: string)
    requires AllQueryChars(a) && AllQueryChars(c)
    requires QueryChars(b) == [] && QueryChars(d) == []
    ensures QueryChars(a + b + c + d) == a + c
  {
    QueryCharsIdentity(a);
    QueryCharsIdentity(c);
    QueryCharsConcat(a, b);
    QueryCharsConcat(a + b, c);
    QueryCharsConcat(a + b + c, d);
  }
}
