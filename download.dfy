/** `downloadImage` of index.js: one HTTP(S) GET with status dispatch, a
    declared-size check and a streamed-size cap, following 301/302 redirects
    by calling itself on the `Location` header.

    The network is abstract. Each request receives a `Reply` from the
    environment: no response at all (a transport error or the idle timer), or
    a response whose body arrives as a sequence of chunks followed by how the
    stream ended. The replies to the successive requests of one redirect
    chain are given in order. */
module Download {
  import opened Wrappers
  import opened Text
  import opened Config
  import opened UrlSafety

  newtype byte = x: int | 0 <= x < 256

  type Bytes = seq<byte>

  /** How the body stream stopped once its last chunk had arrived. */
  datatype Ending = Complete | StreamError | TimedOut

  /** A response: status, `Location` header, `Content-Length` header (Node's
      HTTP parser admits only a decimal value, so it is a number when
      present), and the body. */
  datatype Response = Response(status: int, location: Option<string>, contentLength: Option<nat>, body: seq<Bytes>, ending: Ending)

  datatype Reply = Answered(response: Response) | RequestFailed | RequestTimedOut

  datatype DownloadError =
    | HttpStatus(status: int)
    | DeclaredTooLarge(declared: nat)
    | StreamedTooLarge
    | Timeout
    | Transport
    | MissingLocation
    | InvalidUrl
    | ProtocolNotSupported(protocol: string)
    | Unanswered

  /** The two Node client modules; `client.get` refuses a URL whose protocol
      is not its own. */
  datatype Client = Http | Https

  function ClientProtocol(c: Client): string {
    match c
    case Http => "http:"
    case Https => "https:"
  }

  /** `url.startsWith("https") ? https : http`, on the raw text of the URL. */
  function SelectClient(url: string): Client {
    if StartsWith(url, "https") then Https else Http
  }

  /** `client.get(url)` sends a request: the URL parses and its protocol is
      the chosen client's own. Otherwise it throws before any network
      traffic, a URL without a host (such as a relative `Location`) first. */
  predicate ClientAccepts(url: string, parse: string -> Option<ParsedUrl>) {
    parse(url).Some? && parse(url).value.protocol == ClientProtocol(SelectClient(url))
  }

  /** `parseInt(res.headers["content-length"] || "0")`: an absent header counts as 0. */
  function DeclaredSize(contentLength: Option<nat>): nat {
    match contentLength
    case None => 0
    case Some(n) => n
  }

  /** Sum of the chunk lengths: the source's `receivedLength`. */
  function TotalLength(chunks: seq<Bytes>): nat {
    if chunks == [] then 0 else TotalLength(chunks[..|chunks| - 1]) + |chunks[|chunks| - 1]|
  }

  /** `Buffer.concat(chunks)`. */
  function Flatten(chunks: seq<Bytes>): (r: Bytes)
    ensures |r| == TotalLength(chunks)
  {
    if chunks == [] then [] else Flatten(chunks[..|chunks| - 1]) + chunks[|chunks| - 1]
  }

  /** What reading a body yields: refused when the whole body exceeds the
      cap, however it is split into chunks; otherwise the stream's ending
      decides between the concatenated bytes and an error. */
  function BodySpec(body: seq<Bytes>, ending: Ending): (r: Result<Bytes, DownloadError>)
    ensures r.Success? ==> |r.value| <= MAX_IMAGE_SIZE
  {
    var bytes := Flatten(body);
    if |bytes| > MAX_IMAGE_SIZE then Failure(StreamedTooLarge)
    else
      match ending
      case Complete => Success(bytes)
      case StreamError => Failure(Transport)
      case TimedOut => Failure(Timeout)
  }

  /** The outcome of `downloadImage(url)` given the replies to it and to the
      redirects it follows. */
  function DownloadSpec(url: string, parse: string -> Option<ParsedUrl>, replies: seq<Reply>): (r: Result<Bytes, DownloadError>)
    ensures r.Success? ==> |r.value| <= MAX_IMAGE_SIZE
    decreases |replies|
  {
    if parse(url).None? then Failure(InvalidUrl)
    else if !ClientAccepts(url, parse) then Failure(ProtocolNotSupported(parse(url).value.protocol))
    else if replies == [] then Failure(Unanswered)
    else
      match replies[0]
      case RequestFailed => Failure(Transport)
      case RequestTimedOut => Failure(Timeout)
      case Answered(res) =>
        if res.status == 301 || res.status == 302 then
          match res.location
          case None => Failure(MissingLocation)
          case Some(location) => DownloadSpec(location, parse, replies[1..])
        else if res.status != 200 then Failure(HttpStatus(res.status))
        else if DeclaredSize(res.contentLength) > MAX_IMAGE_SIZE then Failure(DeclaredTooLarge(DeclaredSize(res.contentLength)))
        else BodySpec(res.body, res.ending)
  }

  lemma {:induction false} TotalLengthMonotone(chunks: seq<Bytes>, j: nat, k: nat)
    requires j <= k <= |chunks|
    ensures TotalLength(chunks[..j]) <= TotalLength(chunks[..k])
    decreases k - j
  {
    if j < k {
      TotalLengthMonotone(chunks, j + 1, k);
      assert chunks[..j + 1][..j] == chunks[..j];
    }
  }

  lemma TotalLengthStep(chunks: seq<Bytes>, k: nat)
    requires k < |chunks|
    ensures TotalLength(chunks[..k + 1]) == TotalLength(chunks[..k]) + |chunks[k]|
  {
    assert chunks[..k + 1][..k] == chunks[..k];
  }

  /** Once a prefix of the chunks is over the cap, so is the whole body. */
  lemma PrefixOverCap(chunks: seq<Bytes>, k: nat)
    requires k <= |chunks| && TotalLength(chunks[..k]) > MAX_IMAGE_SIZE
    ensures |Flatten(chunks)| > MAX_IMAGE_SIZE
  {
    TotalLengthMonotone(chunks, k, |chunks|);
    assert chunks[..|chunks|] == chunks;
  }

  /** The data handler and the end handler: append each chunk, keep the running
      length, and stop at the first chunk that takes it over the cap (the
      source then destroys the request, so no later chunk is consumed).
      `consumed` is the number of chunks the handler saw. */
  method ReadBody(body: seq<Bytes>, ending: Ending) returns (r: Result<Bytes, DownloadError>, consumed: nat)
    ensures r == BodySpec(body, ending)
    ensures consumed <= |body|
    ensures r == Failure(StreamedTooLarge) ==>
      && 0 < consumed
      && TotalLength(body[..consumed - 1]) <= MAX_IMAGE_SIZE < TotalLength(body[..consumed])
      && TotalLength(body[..consumed]) <= MAX_IMAGE_SIZE + |body[consumed - 1]|
    ensures r != Failure(StreamedTooLarge) ==> consumed == |body|
  {
    var chunks: seq<Bytes> := [];
    var receivedLength: nat := 0;
    consumed := 0;
    while consumed < |body|
      invariant consumed <= |body|
      invariant chunks == body[..consumed]
      invariant receivedLength == TotalLength(chunks) <= MAX_IMAGE_SIZE
    {
      var chunk := body[consumed];
      TotalLengthStep(body, consumed);
      assert body[..consumed + 1] == chunks + [chunk];
      chunks := chunks + [chunk];
      receivedLength := receivedLength + |chunk|;
      consumed := consumed + 1;
      if receivedLength > MAX_IMAGE_SIZE {
        PrefixOverCap(body, consumed);
        return Failure(StreamedTooLarge), consumed;
      }
    }
    assert chunks == body;
    var buffer := Flatten(chunks);
    match ending
    case Complete => r := Success(buffer);
    case StreamError => r := Failure(Transport);
    case TimedOut => r := Failure(Timeout);
  }

  /** `downloadImage(url)`. */
  method DownloadImage(url: string, parse: string -> Option<ParsedUrl>, replies: seq<Reply>) returns (r: Result<Bytes, DownloadError>)
    ensures r == DownloadSpec(url, parse, replies)
    decreases |replies|
  {
    var client := SelectClient(url);
    var target := parse(url);
    if target.None? {
      return Failure(InvalidUrl);
    }
    if target.value.protocol != ClientProtocol(client) {
      return Failure(ProtocolNotSupported(target.value.protocol));
    }
    if replies == [] {
      return Failure(Unanswered);
    }
    match replies[0]
    case RequestFailed =>
      r := Failure(Transport);
    case RequestTimedOut =>
      r := Failure(Timeout);
    case Answered(res) =>
      if res.status == 301 || res.status == 302 {
        if res.location.None? {
          return Failure(MissingLocation);
        }
        r := DownloadImage(res.location.value, parse, replies[1..]);
        return;
      }
      if res.status != 200 {
        return Failure(HttpStatus(res.status));
      }
      var contentLength := DeclaredSize(res.contentLength);
      if contentLength > MAX_IMAGE_SIZE {
        return Failure(DeclaredTooLarge(contentLength));
      }
      var consumed;
      r, consumed := ReadBody(res.body, res.ending);
  }

  // ----- Properties of the download -----

  /** The streamed cap refuses a body exactly when the body is longer than
      the cap; how it is split into chunks plays no part. */
  lemma StreamedCapIsExact(body: seq<Bytes>, other: seq<Bytes>, ending: Ending)
    requires Flatten(body) == Flatten(other)
    ensures BodySpec(body, ending) == Failure(StreamedTooLarge) <==> TotalLength(body) > MAX_IMAGE_SIZE
    ensures BodySpec(body, ending) == BodySpec(other, ending)
  {
  }

  /** A response whose status is neither 200 nor a redirect is an HTTP error
      whatever its headers and body; a redirect's headers other than
      `Location`, and its body, are never looked at. */
  lemma StatusDispatch(url: string, parse: string -> Option<ParsedUrl>, res: Response, other: Response, rest: seq<Reply>)
    requires ClientAccepts(url, parse)
    requires other.status == res.status && other.location == res.location
    ensures res.status != 200 && res.status != 301 && res.status != 302 ==>
      DownloadSpec(url, parse, [Answered(res)] + rest) == Failure(HttpStatus(res.status))
    ensures (res.status == 301 || res.status == 302) && res.location.None? ==>
      DownloadSpec(url, parse, [Answered(res)] + rest) == Failure(MissingLocation)
    ensures (res.status == 301 || res.status == 302) && res.location.Some? ==>
      DownloadSpec(url, parse, [Answered(res)] + rest) == DownloadSpec(res.location.value, parse, rest)
    ensures res.status != 200 ==>
      DownloadSpec(url, parse, [Answered(res)] + rest) == DownloadSpec(url, parse, [Answered(other)] + rest)
  {
    assert ([Answered(res)] + rest)[1..] == rest;
    assert ([Answered(other)] + rest)[1..] == rest;
  }

  /** A declared `Content-Length` over the cap refuses the download before
      any of the body is consumed: the body and the way the stream ends play
      no part. */
  lemma DeclaredSizeCheckedFirst(url: string, parse: string -> Option<ParsedUrl>, res: Response, body: seq<Bytes>, ending: Ending, rest: seq<Reply>)
    requires ClientAccepts(url, parse)
    requires res.status == 200 && res.contentLength.Some? && res.contentLength.value > MAX_IMAGE_SIZE
    ensures DownloadSpec(url, parse, [Answered(res)] + rest) == Failure(DeclaredTooLarge(res.contentLength.value))
    ensures DownloadSpec(url, parse, [Answered(res.(body := body, ending := ending))] + rest) == Failure(DeclaredTooLarge(res.contentLength.value))
  {
  }

  /** An absent `Content-Length` behaves as a declared length of 0, so only
      the streamed cap applies. */
  lemma AbsentLengthCountsAsZero(url: string, parse: string -> Option<ParsedUrl>, res: Response, rest: seq<Reply>)
    requires res.contentLength.None?
    ensures DownloadSpec(url, parse, [Answered(res)] + rest) == DownloadSpec(url, parse, [Answered(res.(contentLength := Some(0)))] + rest)
    ensures ClientAccepts(url, parse) && res.status == 200 ==>
      DownloadSpec(url, parse, [Answered(res)] + rest) == BodySpec(res.body, res.ending)
  {
    assert ([Answered(res)] + rest)[1..] == rest;
    assert ([Answered(res.(contentLength := Some(0)))] + rest)[1..] == rest;
  }

  /** A successful download yields exactly the concatenated body of one
      200 response among the replies, with no decoding. */
  lemma {:induction false} DownloadedBytesAreABody(url: string, parse: string -> Option<ParsedUrl>, replies: seq<Reply>)
    requires DownloadSpec(url, parse, replies).Success?
    ensures exists i ::
              && 0 <= i < |replies|
              && replies[i].Answered?
              && replies[i].response.status == 200
              && DownloadSpec(url, parse, replies).value == Flatten(replies[i].response.body)
    decreases |replies|
  {
    var res := replies[0].response;
    if res.status == 301 || res.status == 302 {
      var location := res.location.value;
      DownloadedBytesAreABody(location, parse, replies[1..]);
      var i :|
        && 0 <= i < |replies[1..]|
        && replies[1..][i].Answered?
        && replies[1..][i].response.status == 200
        && DownloadSpec(location, parse, replies[1..]).value == Flatten(replies[1..][i].response.body);
      assert replies[i + 1] == replies[1..][i];
    } else {
      assert replies[0].Answered? && replies[0].response.status == 200;
    }
  }

  /** One redirect hop resolves transparently to the final resource's body. */
  lemma OneHopRedirect(url: string, location: string, parse: string -> Option<ParsedUrl>, redirect: Response, final: Response)
    requires ClientAccepts(url, parse) && ClientAccepts(location, parse)
    requires (redirect.status == 301 || redirect.status == 302) && redirect.location == Some(location)
    requires final.status == 200 && DeclaredSize(final.contentLength) <= MAX_IMAGE_SIZE && final.ending == Complete
    requires TotalLength(final.body) <= MAX_IMAGE_SIZE
    ensures DownloadSpec(url, parse, [Answered(redirect), Answered(final)]) == Success(Flatten(final.body))
  {
    assert [Answered(redirect), Answered(final)][1..] == [Answered(final)];
  }

  /** A `Location` that does not parse as an absolute URL (a relative
      reference, say) makes the follow-up request throw, so the download
      fails whatever else the environment has in store. */
  lemma UnparsableLocationFails(url: string, location: string, parse: string -> Option<ParsedUrl>, redirect: Response, rest: seq<Reply>)
    requires ClientAccepts(url, parse) && parse(location).None?
    requires (redirect.status == 301 || redirect.status == 302) && redirect.location == Some(location)
    ensures DownloadSpec(url, parse, [Answered(redirect)] + rest) == Failure(InvalidUrl)
  {
    assert ([Answered(redirect)] + rest)[1..] == rest;
  }

  /** The redirect target is not passed through the safety filter: a hop to
      the cloud metadata endpoint is followed like any other. */
  lemma RedirectTargetNotRechecked(url: string, location: string, parse: string -> Option<ParsedUrl>, redirect: Response, final: Response)
    requires ClientAccepts(url, parse)
    requires StartsWith(location, "http:") && parse(location) == Some(ParsedUrl("http:", "169.254.169.254", "/latest/meta-data/", "", ""))
    requires (redirect.status == 301 || redirect.status == 302) && redirect.location == Some(location)
    requires final.status == 200 && final.contentLength.None? && final.ending == Complete && TotalLength(final.body) <= MAX_IMAGE_SIZE
    ensures !IsValidURL(parse(location))
    ensures DownloadSpec(url, parse, [Answered(redirect), Answered(final)]) == Success(Flatten(final.body))
  {
    MetadataEndpointRejected("/latest/meta-data/", "", "");
    assert !StartsWith(location, "https") by {
      assert location[..5] == "http:";
      assert location[4] == ':';
    }
    OneHopRedirect(url, location, parse, redirect, final);
  }

  /** The client is chosen from the raw text, so a URL that the parser reads
      as https but whose text does not begin with the lower-case "https"
      (for instance "HTTPS://host/a.png") is handed to the http client, which
      refuses it whatever the network would answer. */
  lemma UpperCaseSchemeRefused(url: string, parse: string -> Option<ParsedUrl>, replies: seq<Reply>)
    requires parse(url).Some? && parse(url).value.protocol == "https:"
    requires !StartsWith(url, "https")
    ensures DownloadSpec(url, parse, replies) == Failure(ProtocolNotSupported("https:"))
  {
  }
}
