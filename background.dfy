/**
 * The background picker of the dashboard (BackgroundManager in
 * js/modules/background.js): the hour of the day chooses a time-of-day
 * bucket; with an Unsplash API key a random photo for that bucket is
 * requested, and without a key, or when the request fails, one of three
 * built-in photos is used instead.
 *
 * The clock and the network are parameters: SetBackground receives the hour
 * that new Date().getHours() would give and the outcome the request would
 * have. The URLs the manager requests are logged in `requests`.
 */
module Background {
  import opened Wrappers
  import opened JsStrings

  // ---------------------------------------------------------------------------
  // Time of day
  // ---------------------------------------------------------------------------

  datatype TimeOfDay = Morning | Afternoon | Evening {
    /** The string getTimeOfDay returns. */
    function Name(): string {
      match this
      case Morning => "morning"
      case Afternoon => "afternoon"
      case Evening => "evening"
    }

    /** The bucket's place in the day. */
    function Rank(): nat {
      match this
      case Morning => 0
      case Afternoon => 1
      case Evening => 2
    }
  }

  /** getTimeOfDay for a given hour: before noon, before six in the evening, or later. */
  function TimeOfDayOf(hour: int): (t: TimeOfDay)
    ensures t == Morning <==> hour < 12
    ensures t == Afternoon <==> 12 <= hour < 18
    ensures t == Evening <==> 18 <= hour
  {
    if hour < 12 then Morning
    else if hour < 18 then Afternoon
    else Evening
  }

  /** A later hour never falls in an earlier bucket. */
  lemma TimeOfDayMonotone(h1: int, h2: int)
    requires h1 <= h2
    ensures TimeOfDayOf(h1).Rank() <= TimeOfDayOf(h2).Rank()
  {
  }

  /** Every hour of a day 0..23 falls in exactly one bucket, and each bucket is reached. */
  lemma TimeOfDayCovers()
    ensures forall h :: 0 <= h < 24 ==> TimeOfDayOf(h).Rank() < 3
    ensures TimeOfDayOf(9) == Morning && TimeOfDayOf(14) == Afternoon && TimeOfDayOf(19) == Evening
    ensures TimeOfDayOf(0) == Morning && TimeOfDayOf(11) == Morning
    ensures TimeOfDayOf(12) == Afternoon && TimeOfDayOf(17) == Afternoon
    ensures TimeOfDayOf(18) == Evening && TimeOfDayOf(23) == Evening
  {
  }

  // ---------------------------------------------------------------------------
  // Images and the built-in fallbacks
  // ---------------------------------------------------------------------------

  datatype Image = Image(url: string, author: string, link: string)

  /** The three built-in photos, for morning, afternoon and evening. */
  const FallbackImages: seq<Image> := [
    Image("https://images.unsplash.com/photo-1470071459604-3b5ec3a7fe05?ixlib=rb-1.2.1&auto=format&fit=crop&w=1950&q=80",
          "V2osk", "https://unsplash.com/@v2osk"),
    Image("https://images.unsplash.com/photo-1441974231531-c6227db76b6e?ixlib=rb-1.2.1&auto=format&fit=crop&w=1950&q=80",
          "Lukasz Szmigiel", "https://unsplash.com/@szmigiel"),
    Image("https://images.unsplash.com/photo-1472214103451-9374bd1c798e?ixlib=rb-1.2.1&auto=format&fit=crop&w=1950&q=80",
          "Patrick Hendry", "https://unsplash.com/@worldsbetweenlines")
  ]

  /**
   * The fallback index setBackground computes: 0 by default (morning), 1
   * for 'afternoon', 2 for 'evening'. It is always a valid index.
   */
  function FallbackIndex(t: TimeOfDay): (index: nat)
    ensures index < |FallbackImages|
    ensures index == t.Rank()
  {
    if t == Afternoon then 1
    else if t == Evening then 2
    else 0
  }

  /** Different buckets get different built-in photos. */
  lemma FallbackDistinct(a: TimeOfDay, b: TimeOfDay)
    requires a != b
    ensures FallbackImages[FallbackIndex(a)] != FallbackImages[FallbackIndex(b)]
  {
    var ia, ib := FallbackIndex(a), FallbackIndex(b);
    assert FallbackImages[ia].author[0] != FallbackImages[ib].author[0];
  }

  // ---------------------------------------------------------------------------
  // The request
  // ---------------------------------------------------------------------------

  const ApiPath := "https://api.unsplash.com/photos/random?"
  const Orientation := "&orientation=landscape&"

  /** The query parameter of the request for a bucket. */
  function QueryParam(query: TimeOfDay): string {
    "query=nature," + query.Name()
  }

  /** The client_id parameter of the request for a key. */
  function ClientParam(apiKey: string): string {
    "client_id=" + apiKey
  }

  /** The URL fetchUnsplashImage requests for a bucket with a key. */
  function RequestUrl(apiKey: string, query: TimeOfDay): (url: string)
    ensures |url| >= |ApiPath| + |apiKey|
    ensures url[..|ApiPath|] == ApiPath
    ensures url[|url| - |apiKey|..] == apiKey
  {
    var head := ApiPath + QueryParam(query) + Orientation;
    assert (head + ClientParam(apiKey))[|head| + 10..] == apiKey;
    head + ClientParam(apiKey)
  }

  lemma IncludesInfix(a: string, b: string, c: string)
    ensures Includes(a + b + c, b)
  {
    assert (a + b + c)[|a|..] == b + c;
  }

  /** The URL carries the nature query for the bucket and the client id. */
  lemma RequestUrlCarries(apiKey: string, query: TimeOfDay)
    ensures Includes(RequestUrl(apiKey, query), "query=nature," + query.Name())
    ensures Includes(RequestUrl(apiKey, query), "client_id=" + apiKey)
  {
    IncludesInfix(ApiPath, QueryParam(query), Orientation + ClientParam(apiKey));
    assert RequestUrl(apiKey, query) == ApiPath + QueryParam(query) + (Orientation + ClientParam(apiKey));
    IncludesInfix(ApiPath + QueryParam(query) + Orientation, ClientParam(apiKey), "");
    assert RequestUrl(apiKey, query) == ApiPath + QueryParam(query) + Orientation + ClientParam(apiKey) + "";
  }

  /** The bucket is determined by the first letter of its name. */
  lemma FirstLetterDetermines(a: TimeOfDay, b: TimeOfDay)
    requires a.Name()[0] == b.Name()[0]
    ensures a == b
  {
  }

  /** The URL determines both the bucket and the key. */
  lemma RequestUrlInjective(k1: string, q1: TimeOfDay, k2: string, q2: TimeOfDay)
    requires RequestUrl(k1, q1) == RequestUrl(k2, q2)
    ensures k1 == k2 && q1 == q2
  {
    var u1, u2 := RequestUrl(k1, q1), RequestUrl(k2, q2);
    var p := |ApiPath + "query=nature,"|;
    assert u1[p] == q1.Name()[0];
    assert u2[p] == q2.Name()[0];
    FirstLetterDetermines(q1, q2);
    var n := |ApiPath + QueryParam(q1) + Orientation + "client_id="|;
    assert u1[n..] == k1;
    assert u2[n..] == k2;
  }

  /**
   * What the request can come to: fetch throws (network failure), the
   * response is not ok (fetchUnsplashImage throws its 'Unsplash API Error'),
   * or the response is ok and its body either carries a photo or lacks the
   * fields read from it (a TypeError, or a JSON syntax error).
   */
  datatype FetchOutcome = Threw | Responded(ok: bool, body: Option<Image>)

  datatype FetchError = NetworkError | ApiError | BadBody

  /** What fetchUnsplashImage resolves to, or the error it rejects with. */
  function FetchResult(outcome: FetchOutcome): (r: Result<Image, FetchError>)
    ensures r.Ok? <==> outcome.Responded? && outcome.ok && outcome.body.Some?
    ensures r.Ok? ==> r.value == outcome.body.value
  {
    match outcome
    case Threw => Err(NetworkError)
    case Responded(ok, body) =>
      if !ok then Err(ApiError)
      else if body.None? then Err(BadBody)
      else Ok(body.value)
  }

  /** The photo setBackground applies: the fetched one, else the bucket's built-in one. */
  function Chosen(apiKey: string, t: TimeOfDay, outcome: FetchOutcome): (image: Image)
    ensures image in FallbackImages || (apiKey != "" && outcome.Responded? && outcome.body == Some(image))
  {
    if apiKey != "" && FetchResult(outcome).Ok? then FetchResult(outcome).value
    else FallbackImages[FallbackIndex(t)]
  }

  /**
   * The built-in photo for the hour's bucket is used exactly when there is no
   * key or the request failed; otherwise the fetched photo is used.
   */
  lemma ChosenFallback(apiKey: string, hour: int, outcome: FetchOutcome)
    ensures var t := TimeOfDayOf(hour);
      (apiKey == "" || FetchResult(outcome).Err?) ==> Chosen(apiKey, t, outcome) == FallbackImages[t.Rank()]
    ensures var t := TimeOfDayOf(hour);
      (apiKey != "" && outcome.Responded? && outcome.ok && outcome.body.Some?) ==>
        Chosen(apiKey, t, outcome) == outcome.body.value
  {
  }

  /** Without a key, the photo depends only on the hour's bucket, one photo per bucket. */
  lemma ChosenWithoutKey(h1: int, h2: int, o1: FetchOutcome, o2: FetchOutcome)
    ensures (Chosen("", TimeOfDayOf(h1), o1) == Chosen("", TimeOfDayOf(h2), o2)) <==> TimeOfDayOf(h1) == TimeOfDayOf(h2)
  {
    if TimeOfDayOf(h1) != TimeOfDayOf(h2) {
      FallbackDistinct(TimeOfDayOf(h1), TimeOfDayOf(h2));
    }
  }

  /** The CSS value applyBackground writes: url('<image url>'). */
  function BackgroundCss(url: string): (css: string)
    ensures |css| == |url| + 7 && css[5..|css| - 2] == url
  {
    "url('" + url + "')"
  }

  // ---------------------------------------------------------------------------
  // The manager
  // ---------------------------------------------------------------------------

  class BackgroundManager {
    const apiKey: string
    const fallbackImages: seq<Image>
    /** Whether #background-credit and #photo-author exist in the page. */
    const hasCredit: bool
    const hasAuthor: bool

    /** document.body.style.backgroundImage */
    var backgroundImage: string
    /** The text of #photo-author. */
    var authorText: string
    /** The URLs passed to fetch, oldest first. */
    var requests: seq<string>

    /**
     * The constructor: the key stored under 'unsplashApiKey', or '' when
     * there is none (or it is empty), and the three built-in photos.
     */
    constructor (storedKey: Option<string>, hasCredit: bool, hasAuthor: bool, backgroundImage: string, authorText: string)
      ensures apiKey == storedKey.GetOr("") && fallbackImages == FallbackImages
      ensures this.hasCredit == hasCredit && this.hasAuthor == hasAuthor
      ensures this.backgroundImage == backgroundImage && this.authorText == authorText && requests == []
    {
      apiKey := storedKey.GetOr("");
      fallbackImages := FallbackImages;
      this.hasCredit := hasCredit;
      this.hasAuthor := hasAuthor;
      this.backgroundImage := backgroundImage;
      this.authorText := authorText;
      requests := [];
    }

    /** getTimeOfDay, with the hour that new Date().getHours() gives. */
    method GetTimeOfDay(hour: int) returns (t: TimeOfDay)
      ensures t == TimeOfDayOf(hour)
      ensures hour < 12 ==> t.Name() == "morning"
      ensures 12 <= hour < 18 ==> t.Name() == "afternoon"
      ensures 18 <= hour ==> t.Name() == "evening"
    {
      if hour < 12 {
        return Morning;
      }
      if hour < 18 {
        return Afternoon;
      }
      return Evening;
    }

    /** fetchUnsplashImage: request the URL for the bucket; outcome is what the network answers. */
    method FetchUnsplashImage(query: TimeOfDay, outcome: FetchOutcome) returns (r: Result<Image, FetchError>)
      modifies this`requests
      ensures requests == old(requests) + [RequestUrl(apiKey, query)]
      ensures r == FetchResult(outcome)
    {
      var url := RequestUrl(apiKey, query);
      requests := requests + [url];
      match outcome
      case Threw =>
        r := Err(NetworkError);
      case Responded(ok, body) =>
        if !ok {
          r := Err(ApiError);
        } else if body.None? {
          r := Err(BadBody);
        } else {
          r := Ok(body.value);
        }
    }

    /**
     * setBackground: with a key, try to fetch a photo for the hour's bucket;
     * without a photo, take the bucket's built-in one; then apply it.
     */
    method SetBackground(hour: int, outcome: FetchOutcome)
      requires fallbackImages == FallbackImages
      modifies this`backgroundImage, this`authorText, this`requests
      ensures requests == old(requests) + if apiKey != "" then [RequestUrl(apiKey, TimeOfDayOf(hour))] else []
      ensures var image := Chosen(apiKey, TimeOfDayOf(hour), outcome);
        && backgroundImage == BackgroundCss(image.url)
        && authorText == if hasCredit && hasAuthor then image.author else old(authorText)
    {
      var timeOfDay := GetTimeOfDay(hour);
      var imageData: Option<Image> := None;
      if apiKey != "" {
        var fetched := FetchUnsplashImage(timeOfDay, outcome);
        if fetched.Ok? {
          imageData := Some(fetched.value);
        }
      }
      if imageData.None? {
        var index := 0;
        if timeOfDay == Afternoon {
          index := 1;
        } else if timeOfDay == Evening {
          index := 2;
        }
        imageData := Some(fallbackImages[index]);
      }
      ApplyBackground(imageData.value);
    }

    /** applyBackground: the body background always; the author text only when both credit elements exist. */
    method ApplyBackground(image: Image)
      modifies this`backgroundImage, this`authorText
      ensures backgroundImage == BackgroundCss(image.url)
      ensures authorText == if hasCredit && hasAuthor then image.author else old(authorText)
    {
      backgroundImage := BackgroundCss(image.url);
      if hasCredit && hasAuthor {
        authorText := image.author;
      }
    }
  }
}
