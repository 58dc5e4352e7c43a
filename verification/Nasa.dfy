/** The image-archive search client: one GET to the search endpoint, then a
    filter-map from the decoded JSON collection to flat image records. The
    HTTP exchange is a parameter; every transport, status and decoding
    failure becomes an empty result list. */
module Nasa {
  import opened Wrappers

  const ApiBaseUrl: string := "https://images-api.nasa.gov"
  const SearchUrl: string := ApiBaseUrl + "/search"
  const DefaultMediaType: string := "image"
  /** The placeholder used for a missing title or description. */
  const NotAvailable: string := "N/A"

  /** The GET request: endpoint plus the `q` and `media_type` parameters. */
  datatype Request = Request(url: string, q: string, mediaType: string)

  // ---------------------------------------------------------------------------
  // The JSON shape consumed: {collection: {items: [{data: [...], links: [...]}]}}.
  // A key that may be absent is an Option.

  datatype ItemData = ItemData(title: Option<string>, description: Option<string>, description508: Option<string>)
  datatype Link = Link(render: Option<string>, href: Option<string>)
  datatype Item = Item(data: Option<seq<ItemData>>, links: Option<seq<Link>>)
  datatype Collection = Collection(items: Option<seq<Item>>)

  /** The body as `response.json()` sees it: not JSON at all, a JSON value
      other than an object (named by its Python type), or an object. */
  datatype Body = Malformed | NotAnObject(pythonType: string) | Object(collection: Option<Collection>)

  /** What the HTTP layer produced: no response at all (connection, DNS,
      timeout), or a response with a status code and a body. */
  datatype HttpOutcome = TransportError(reason: string) | Response(status: int, body: Body)

  /** The flat record handed to the chat layer. */
  datatype ImageResult = ImageResult(title: string, description: string, imageUrl: string)

  // ---------------------------------------------------------------------------
  // Python truthiness of the values tested

  /** A list value that is present and non-empty. */
  predicate NonEmpty<T>(o: Option<seq<T>>) {
    o.Some? && |o.value| > 0
  }

  /** A string value that is present and non-empty. */
  predicate Truthy(o: Option<string>) {
    o.Some? && o.value != ""
  }

  /** `raise_for_status()` raises for client (4xx) and server (5xx) errors. */
  predicate IsHttpError(status: int) {
    400 <= status < 600
  }

  // ---------------------------------------------------------------------------
  // Choosing the image link

  predicate IsImageLink(l: Link) {
    l.render == Some("image")
  }

  /** `links[i]` is the first link whose `render` is `"image"`. */
  ghost predicate IsFirstImageAt(links: seq<Link>, i: int) {
    0 <= i < |links| && IsImageLink(links[i]) && forall j :: 0 <= j < i ==> !IsImageLink(links[j])
  }

  /** The scan over the links, stopping at the first image link. */
  function FirstImageLink(links: seq<Link>): (r: Option<Link>)
    ensures r.Some? ==> exists i :: IsFirstImageAt(links, i) && links[i] == r.value
    ensures r.None? <==> forall j :: 0 <= j < |links| ==> !IsImageLink(links[j])
  {
    if |links| == 0 then None
    else if IsImageLink(links[0]) then Some(links[0])
    else
      var r := FirstImageLink(links[1..]);
      assert forall j :: 1 <= j < |links| ==> links[j] == links[1..][j - 1];
      if r.Some? then
        ghost var i :| IsFirstImageAt(links[1..], i) && links[1..][i] == r.value;
        assert IsFirstImageAt(links, i + 1);
        r
      else r
  }

  /** `image_url` after the loop: the `href` of the first image link, if any. */
  function ImageUrl(links: seq<Link>): (r: Option<string>)
    ensures forall i :: IsFirstImageAt(links, i) ==> r == links[i].href
    ensures (forall j :: 0 <= j < |links| ==> !IsImageLink(links[j])) ==> r.None?
  {
    match FirstImageLink(links)
    case Some(l) => l.href
    case None => None
  }

  // ---------------------------------------------------------------------------
  // Normalising items

  /** An item yields a record exactly when it has metadata, has links, and
      the first image link carries a non-empty `href`. */
  predicate Eligible(item: Item)
    ensures Eligible(item) <==>
      NonEmpty(item.data) && NonEmpty(item.links) &&
      exists i :: IsFirstImageAt(item.links.value, i) && Truthy(item.links.value[i].href)
  {
    NonEmpty(item.data) && NonEmpty(item.links) && Truthy(ImageUrl(item.links.value))
  }

  /** `description_508` if truthy, else `description` if present (even when
      empty), else the placeholder. */
  function DescriptionOf(d: ItemData): (r: string)
    ensures Truthy(d.description508) ==> Some(r) == d.description508
    ensures r == "" <==> !Truthy(d.description508) && d.description == Some("")
    ensures r == NotAvailable || Some(r) == d.description508 || Some(r) == d.description
  {
    if Truthy(d.description508) then d.description508.value
    else if d.description.Some? then d.description.value
    else NotAvailable
  }

  /** The record built from an eligible item. Only the first metadata entry
      is consulted. */
  function ToResult(item: Item): (r: ImageResult)
    requires Eligible(item)
    ensures r.imageUrl != "" && Some(r.imageUrl) == ImageUrl(item.links.value)
    ensures r.title == (if item.data.value[0].title.Some? then item.data.value[0].title.value else NotAvailable)
    ensures Truthy(item.data.value[0].description508) ==> r.description == item.data.value[0].description508.value
    ensures !Truthy(item.data.value[0].description508) && item.data.value[0].description.Some? ==>
              r.description == item.data.value[0].description.value
    ensures !Truthy(item.data.value[0].description508) && item.data.value[0].description.None? ==>
              r.description == NotAvailable
  {
    var d := item.data.value[0];
    ImageResult(
      if d.title.Some? then d.title.value else NotAvailable,
      DescriptionOf(d),
      ImageUrl(item.links.value).value)
  }

  /** The loop over `collection.items`: eligible items become records, the
      rest are skipped silently. */
  function NormaliseItems(items: seq<Item>): (r: seq<ImageResult>)
    ensures |r| <= |items|
    ensures forall k :: 0 <= k < |r| ==> r[k].imageUrl != ""
  {
    if |items| == 0 then []
    else if Eligible(items[0]) then [ToResult(items[0])] + NormaliseItems(items[1..])
    else NormaliseItems(items[1..])
  }

  /** The indices, from `start` on, of the eligible items, in increasing order. */
  ghost function EligibleIndices(items: seq<Item>, start: nat): (ix: seq<int>)
    requires start <= |items|
    ensures forall k :: 0 <= k < |ix| ==> start <= ix[k] < |items| && Eligible(items[ix[k]])
    ensures forall k, l :: 0 <= k < l < |ix| ==> ix[k] < ix[l]
    decreases |items| - start
  {
    if start == |items| then []
    else if Eligible(items[start]) then [start] + EligibleIndices(items, start + 1)
    else EligibleIndices(items, start + 1)
  }

  /** Every eligible item from `start` on is listed. */
  lemma {:induction false} EligibleIndicesComplete(items: seq<Item>, start: nat)
    requires start <= |items|
    ensures forall i :: start <= i < |items| ==> (Eligible(items[i]) <==> i in EligibleIndices(items, start))
    decreases |items| - start
  {
    if start < |items| {
      EligibleIndicesComplete(items, start + 1);
    }
  }

  /** The records are exactly the eligible items, each normalised, in their
      original order: the k-th record comes from the k-th eligible item. */
  lemma {:induction false} NormaliseItemsExact(items: seq<Item>, start: nat)
    requires start <= |items|
    ensures |NormaliseItems(items[start..])| == |EligibleIndices(items, start)|
    ensures forall k :: 0 <= k < |EligibleIndices(items, start)| ==>
              NormaliseItems(items[start..])[k] == ToResult(items[EligibleIndices(items, start)[k]])
    decreases |items| - start
  {
    if start < |items| {
      NormaliseItemsExact(items, start + 1);
      var here, tail := items[start..], items[start + 1..];
      assert here[0] == items[start] && here[1..] == tail;
      var rest, ix := NormaliseItems(tail), EligibleIndices(items, start + 1);
      if Eligible(items[start]) {
        assert NormaliseItems(here) == [ToResult(items[start])] + rest;
        assert EligibleIndices(items, start) == [start] + ix;
        forall k | 1 <= k < |ix| + 1
          ensures NormaliseItems(here)[k] == ToResult(items[EligibleIndices(items, start)[k]])
        {
          assert NormaliseItems(here)[k] == rest[k - 1];
          assert EligibleIndices(items, start)[k] == ix[k - 1];
        }
      } else {
        assert NormaliseItems(here) == rest;
      }
    }
  }

  /** An item contributes a record exactly when it is eligible, and then
      in the position its rank among the eligible items gives it. */
  lemma ItemContributesIff(items: seq<Item>, i: int)
    requires 0 <= i < |items|
    ensures Eligible(items[i]) <==>
      exists k :: 0 <= k < |NormaliseItems(items)| && k < |EligibleIndices(items, 0)| && EligibleIndices(items, 0)[k] == i
                  && NormaliseItems(items)[k] == ToResult(items[i])
  {
    EligibleIndicesComplete(items, 0);
    NormaliseItemsExact(items, 0);
    assert items[0..] == items;
  }

  /** The scan stops at the first image link: whatever follows it, including
      other image links, is never looked at. */
  lemma {:induction false} LaterLinksIgnored(links: seq<Link>, more: seq<Link>)
    requires exists j :: 0 <= j < |links| && IsImageLink(links[j])
    ensures ImageUrl(links + more) == ImageUrl(links)
  {
    if !IsImageLink(links[0]) {
      var j :| 0 <= j < |links| && IsImageLink(links[j]);
      assert links[1..][j - 1] == links[j];
      assert (links + more)[1..] == links[1..] + more;
      LaterLinksIgnored(links[1..], more);
    }
  }

  /** When the first image link has no usable `href`, the item is dropped
      even if a later image link has one. */
  lemma FirstImageLinkDecides(item: Item, i: int)
    requires NonEmpty(item.links) && IsFirstImageAt(item.links.value, i)
    ensures ImageUrl(item.links.value) == item.links.value[i].href
    ensures !Truthy(item.links.value[i].href) ==> !Eligible(item)
  {
    var links := item.links.value;
    var r := FirstImageLink(links);
    var j :| IsFirstImageAt(links, j) && links[j] == r.value;
    assert i == j;
  }

  /** Only the first metadata entry matters: items that agree on it and on
      their links normalise identically. */
  lemma OnlyFirstDataEntryConsulted(a: Item, b: Item)
    requires NonEmpty(a.data) && NonEmpty(b.data) && a.data.value[0] == b.data.value[0]
    requires a.links == b.links
    ensures Eligible(a) == Eligible(b)
    ensures Eligible(a) ==> ToResult(a) == ToResult(b)
  {
  }

  // ---------------------------------------------------------------------------
  // The request and the error handling around it

  /** The number of items a body carries, zero when it carries none. */
  function ItemCount(body: Body): nat {
    if body.Object? && body.collection.Some? && body.collection.value.items.Some?
    then |body.collection.value.items.value|
    else 0
  }

  /** Decode a successful response. A body that is not JSON raises a
      decoding error, which the client catches like a transport error; a
      JSON value other than an object has no `.get` and raises
      AttributeError, which the client does not catch. */
  function ResultsOf(body: Body): (r: Call<seq<ImageResult>>)
    ensures r.Raised? <==> body.NotAnObject?
    ensures body.Object? && body.collection.Some? && NonEmpty(body.collection.value.items) ==>
              r == Returned(NormaliseItems(body.collection.value.items.value))
    ensures r.Returned? ==> |r.value| <= ItemCount(body)
    ensures r.Returned? ==> forall k :: 0 <= k < |r.value| ==> r.value[k].imageUrl != ""
    ensures body.Malformed? || (body.Object? && (body.collection.None? || !NonEmpty(body.collection.value.items)))
            ==> r == Returned([])
  {
    match body
    case Malformed => Returned([])
    case NotAnObject(t) => Raised("'" + t + "' object has no attribute 'get'")
    case Object(c) =>
      if c.Some? && NonEmpty(c.value.items) then Returned(NormaliseItems(c.value.items.value))
      else Returned([])
  }

  /** The one request a search sends. */
  function SearchRequest(query: string, mediaType: string): Request {
    Request(SearchUrl, query, mediaType)
  }

  /** `search_nasa_images(query, media_type)`, with `get` standing for the
      HTTP exchange. */
  function SearchNasaImages(query: string, mediaType: string, get: Request -> HttpOutcome): (r: Call<seq<ImageResult>>)
    ensures var o := get(SearchRequest(query, mediaType));
      && (o.TransportError? ==> r == Returned([]))
      && (o.Response? && IsHttpError(o.status) ==> r == Returned([]))
      && (o.Response? && !IsHttpError(o.status) ==> r == ResultsOf(o.body))
      && (r.Raised? ==> o.Response? && o.body.NotAnObject?)
    ensures r.Returned? ==> forall k :: 0 <= k < |r.value| ==> r.value[k].imageUrl != ""
  {
    match get(SearchRequest(query, mediaType))
    case TransportError(_) => Returned([])
    case Response(status, body) => if IsHttpError(status) then Returned([]) else ResultsOf(body)
  }

  /** The client sends one request only, to the fixed endpoint with the
      query and media type as given: two HTTP layers that answer that
      request alike give the same result. */
  lemma SearchSendsOneRequest(query: string, mediaType: string, get1: Request -> HttpOutcome, get2: Request -> HttpOutcome)
    requires get1(SearchRequest(query, mediaType)) == get2(SearchRequest(query, mediaType))
    ensures SearchNasaImages(query, mediaType, get1) == SearchNasaImages(query, mediaType, get2)
    ensures SearchUrl == "https://images-api.nasa.gov/search"
  {
  }
}
