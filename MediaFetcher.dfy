/**
 * `fetch_gif`: search Giphy for the phrase and pick one result at random,
 * falling back to a fixed GIF when anything goes wrong.
 */
module MediaFetcher {
  import opened Wrappers
  import opened Services

  const FallbackGif: string := "https://media.giphy.com/media/RBeddeaQ5Xo0E/giphy.gif"

  /** What the search call yields once its JSON is read. SearchFailed stands
      for every exception raised before `r["data"]` is read (transport error,
      a body that is not JSON, no "data" key); each item of SearchData is the
      item's `images.original.url`, or None when the item lacks it. */
  datatype SearchReply = SearchFailed(error: string) | SearchData(items: seq<Option<string>>)

  /** `random.choice` is the arbitrary `pick`: the item at `pick % |items|`. */
  function FetchGif(prompt: string, search: GifSearch -> SearchReply, pick: nat): (url: string)
    ensures search(GifSearchFor(prompt)).SearchFailed? ==> url == FallbackGif
    ensures search(GifSearchFor(prompt)) == SearchData([]) ==> url == ""
    ensures search(GifSearchFor(prompt)).SearchData? && search(GifSearchFor(prompt)).items != [] ==>
      Some(url) in search(GifSearchFor(prompt)).items ||
      (url == FallbackGif && None in search(GifSearchFor(prompt)).items)
  {
    match search(GifSearchFor(prompt))
    case SearchFailed(_) => FallbackGif
    case SearchData(items) =>
      if items == [] then ""
      else
        match items[pick % |items|]
        case Some(u) => u
        case None => FallbackGif
  }

  /** When every result has a URL, the pick is always one of them. */
  lemma WellFormedResultsGiveMember(prompt: string, search: GifSearch -> SearchReply, pick: nat)
    requires search(GifSearchFor(prompt)).SearchData?
    requires var items := search(GifSearchFor(prompt)).items;
      items != [] && forall k :: 0 <= k < |items| ==> items[k].Some?
    ensures Some(FetchGif(prompt, search, pick)) in search(GifSearchFor(prompt)).items
  {
    var items := search(GifSearchFor(prompt)).items;
    assert items[pick % |items|].Some?;
  }

  /** Every result is some pick's outcome: the random choice can return any
      candidate URL, and reaches the fallback through an item without one. */
  lemma EveryCandidateReachable(prompt: string, search: GifSearch -> SearchReply, k: nat)
    requires search(GifSearchFor(prompt)).SearchData?
    requires k < |search(GifSearchFor(prompt)).items|
    ensures var item := search(GifSearchFor(prompt)).items[k];
      && (item.Some? ==> exists pick: nat :: FetchGif(prompt, search, pick) == item.value)
      && (item.None? ==> exists pick: nat :: FetchGif(prompt, search, pick) == FallbackGif)
  {
    var items := search(GifSearchFor(prompt)).items;
    assert k % |items| == k;
    var url := FetchGif(prompt, search, k);
    assert items[k].Some? ==> url == items[k].value;
    assert items[k].None? ==> url == FallbackGif;
  }
}
