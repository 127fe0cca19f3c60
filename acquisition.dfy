/** The acquisition branch of the `analyze_image` tool handler in index.js:
    turn the caller's `image_path` into image bytes and a MIME type, either by
    downloading a URL or by reading a local file.

    The filesystem is an abstract map from path to file contents (regular
    files only); the network is the sequence of replies the Download module
    describes; URL parsing is the abstract `parse`. */
module Acquisition {
  import opened Wrappers
  import opened Text
  import opened Config
  import opened UrlSafety
  import opened ImageFormat
  import opened Download

  datatype Image = Image(bytes: Bytes, mimeType: string)

  /** The failures the handler raises before the image is sent on; each
      becomes the tool's error response. */
  datatype AcquireError =
    | MissingImagePath
    | UnsafeUrl
    | DownloadFailed(error: DownloadError)
    | UnsupportedFormat
    | FileNotFound
    | FileTooLarge(size: nat)

  /** What the handler acquires for `imagePath`. */
  function AcquireSpec(imagePath: string, parse: string -> Option<ParsedUrl>, files: map<string, Bytes>, replies: seq<Reply>): (r: Result<Image, AcquireError>)
    ensures r.Success? ==> |r.value.bytes| <= MAX_IMAGE_SIZE && r.value.mimeType in MIME_TYPE_NAMES
  {
    if imagePath == "" then Failure(MissingImagePath)
    else if IsURL(parse(imagePath)) then
      if !IsValidURL(parse(imagePath)) then Failure(UnsafeUrl)
      else
        match DownloadSpec(imagePath, parse, replies)
        case Failure(e) => Failure(DownloadFailed(e))
        case Success(bytes) =>
          var urlPath := parse(imagePath).value.pathname;
          if !IsSupportedFormat(urlPath) then Failure(UnsupportedFormat)
          else Success(Image(bytes, GetMimeType(urlPath)))
    else if imagePath !in files then Failure(FileNotFound)
    else if !IsSupportedFormat(imagePath) then Failure(UnsupportedFormat)
    else if |files[imagePath]| > MAX_IMAGE_SIZE then Failure(FileTooLarge(|files[imagePath]|))
    else Success(Image(files[imagePath], GetMimeType(imagePath)))
  }

  /** The handler's acquisition steps, assigning `imageBuffer` and `mediaType`. */
  method Acquire(imagePath: string, parse: string -> Option<ParsedUrl>, files: map<string, Bytes>, replies: seq<Reply>) returns (r: Result<Image, AcquireError>)
    ensures r == AcquireSpec(imagePath, parse, files, replies)
  {
    if imagePath == "" {
      return Failure(MissingImagePath);
    }
    var imageBuffer: Bytes;
    var mediaType: string;
    if IsURL(parse(imagePath)) {
      if !IsValidURL(parse(imagePath)) {
        return Failure(UnsafeUrl);
      }
      var downloaded := DownloadImage(imagePath, parse, replies);
      if downloaded.Failure? {
        return Failure(DownloadFailed(downloaded.error));
      }
      imageBuffer := downloaded.value;
      var urlPath := parse(imagePath).value.pathname;
      if !IsSupportedFormat(urlPath) {
        return Failure(UnsupportedFormat);
      }
      mediaType := GetMimeType(urlPath);
    } else {
      if imagePath !in files {
        return Failure(FileNotFound);
      }
      if !IsSupportedFormat(imagePath) {
        return Failure(UnsupportedFormat);
      }
      var size := |files[imagePath]|;
      if size > MAX_IMAGE_SIZE {
        return Failure(FileTooLarge(size));
      }
      imageBuffer := files[imagePath];
      mediaType := GetMimeType(imagePath);
    }
    r := Success(Image(imageBuffer, mediaType));
  }

  // ----- Properties of acquisition -----

  /** An empty `image_path` fails before either branch. */
  lemma EmptyPathRejected(parse: string -> Option<ParsedUrl>, files: map<string, Bytes>, replies: seq<Reply>)
    ensures AcquireSpec("", parse, files, replies) == Failure(MissingImagePath)
  {
  }

  /** A local path never touches the network, and a URL never touches the filesystem. */
  lemma BranchesAreIndependent(imagePath: string, parse: string -> Option<ParsedUrl>, files: map<string, Bytes>, otherFiles: map<string, Bytes>, replies: seq<Reply>, otherReplies: seq<Reply>)
    ensures !IsURL(parse(imagePath)) ==>
      AcquireSpec(imagePath, parse, files, replies) == AcquireSpec(imagePath, parse, files, otherReplies)
    ensures IsURL(parse(imagePath)) ==>
      AcquireSpec(imagePath, parse, files, replies) == AcquireSpec(imagePath, parse, otherFiles, replies)
  {
  }

  /** A missing local file is reported as not found. */
  lemma MissingFileNotFound(imagePath: string, parse: string -> Option<ParsedUrl>, files: map<string, Bytes>, replies: seq<Reply>)
    requires imagePath != "" && !IsURL(parse(imagePath)) && imagePath !in files
    ensures AcquireSpec(imagePath, parse, files, replies) == Failure(FileNotFound)
  {
  }

  /** An existing file with an unsupported extension is refused before its
      size is looked at or it is read: its contents play no part. */
  lemma UnsupportedFileNotRead(imagePath: string, parse: string -> Option<ParsedUrl>, files: map<string, Bytes>, contents: Bytes, replies: seq<Reply>)
    requires imagePath != "" && !IsURL(parse(imagePath)) && imagePath in files
    requires !IsSupportedFormat(imagePath)
    ensures AcquireSpec(imagePath, parse, files, replies) == Failure(UnsupportedFormat)
    ensures AcquireSpec(imagePath, parse, files[imagePath := contents], replies) == Failure(UnsupportedFormat)
  {
  }

  /** A supported local file over the cap is refused with its size. */
  lemma OversizedFileRejected(imagePath: string, parse: string -> Option<ParsedUrl>, files: map<string, Bytes>, replies: seq<Reply>)
    requires imagePath != "" && !IsURL(parse(imagePath)) && imagePath in files
    ensures IsSupportedFormat(imagePath) && |files[imagePath]| > MAX_IMAGE_SIZE ==>
      AcquireSpec(imagePath, parse, files, replies) == Failure(FileTooLarge(|files[imagePath]|))
  {
  }

  /** A supported local file within the cap is returned byte for byte, typed
      by its extension's own table entry. */
  lemma LocalFileRoundTrip(imagePath: string, parse: string -> Option<ParsedUrl>, files: map<string, Bytes>, replies: seq<Reply>)
    requires imagePath != "" && !IsURL(parse(imagePath)) && imagePath in files
    ensures IsSupportedFormat(imagePath) && |files[imagePath]| <= MAX_IMAGE_SIZE ==>
      && Extension(imagePath) in MIME_TYPES
      && AcquireSpec(imagePath, parse, files, replies) == Success(Image(files[imagePath], MIME_TYPES[Extension(imagePath)]))
  {
    FormatsAndTableInLockstep(imagePath);
  }

  /** A local ".png" file within the cap comes back exactly, as image/png. */
  lemma PngFileRoundTrip(stem: string, data: Bytes, parse: string -> Option<ParsedUrl>, files: map<string, Bytes>, replies: seq<Reply>)
    requires stem != [] && stem[|stem| - 1] != '/'
    requires !IsURL(parse(stem + ".png"))
    requires stem + ".png" in files && files[stem + ".png"] == data && |data| <= MAX_IMAGE_SIZE
    ensures AcquireSpec(stem + ".png", parse, files, replies) == Success(Image(data, "image/png"))
  {
    PngExample(stem);
  }

  /** An unsafe URL is refused before any download: the network plays no part. */
  lemma UnsafeUrlRejectedBeforeDownload(imagePath: string, parse: string -> Option<ParsedUrl>, files: map<string, Bytes>, replies: seq<Reply>)
    requires imagePath != "" && IsURL(parse(imagePath)) && !IsValidURL(parse(imagePath))
    ensures AcquireSpec(imagePath, parse, files, replies) == Failure(UnsafeUrl)
  {
  }

  /** The cloud metadata endpoint is refused with no request made. */
  lemma MetadataUrlRejected(parse: string -> Option<ParsedUrl>, files: map<string, Bytes>, replies: seq<Reply>)
    requires parse("http://169.254.169.254/latest/meta-data/") == Some(ParsedUrl("http:", "169.254.169.254", "/latest/meta-data/", "", ""))
    ensures AcquireSpec("http://169.254.169.254/latest/meta-data/", parse, files, replies) == Failure(UnsafeUrl)
  {
    MetadataEndpointRejected("/latest/meta-data/", "", "");
  }

  /** For a safe URL the download comes first: its failure is reported even
      when the path has an unsupported extension; after a successful
      download only the URL's path component decides the format. */
  lemma UrlDownloadsBeforeFormatCheck(imagePath: string, parse: string -> Option<ParsedUrl>, files: map<string, Bytes>, replies: seq<Reply>)
    requires imagePath != "" && IsValidURL(parse(imagePath))
    ensures DownloadSpec(imagePath, parse, replies).Failure? ==>
      AcquireSpec(imagePath, parse, files, replies) == Failure(DownloadFailed(DownloadSpec(imagePath, parse, replies).error))
    ensures DownloadSpec(imagePath, parse, replies).Success? ==>
      var urlPath := parse(imagePath).value.pathname;
      AcquireSpec(imagePath, parse, files, replies) ==
        if IsSupportedFormat(urlPath) then Success(Image(DownloadSpec(imagePath, parse, replies).value, GetMimeType(urlPath)))
        else Failure(UnsupportedFormat)
  {
    ValidURLIsURL(parse(imagePath));
  }

  predicate SameProtocol(a: Option<ParsedUrl>, b: Option<ParsedUrl>) {
    a.Some? == b.Some? && (a.Some? ==> a.value.protocol == b.value.protocol)
  }

  /** The download reads nothing of a parsed URL but its protocol. */
  lemma {:induction false} DownloadReadsOnlyProtocols(url: string, parse: string -> Option<ParsedUrl>, other: string -> Option<ParsedUrl>, replies: seq<Reply>)
    requires forall s :: SameProtocol(parse(s), other(s))
    ensures DownloadSpec(url, parse, replies) == DownloadSpec(url, other, replies)
    decreases |replies|
  {
    assert SameProtocol(parse(url), other(url));
    if replies != [] && replies[0].Answered? {
      var res := replies[0].response;
      if (res.status == 301 || res.status == 302) && res.location.Some? {
        DownloadReadsOnlyProtocols(res.location.value, parse, other, replies[1..]);
      }
    }
  }

  /** `parse` with the query and fragment of `imagePath` replaced. */
  function WithQuery(parse: string -> Option<ParsedUrl>, imagePath: string, search: string, hash: string): string -> Option<ParsedUrl> {
    s => if s == imagePath && parse(s).Some? then Some(parse(s).value.(search := search, hash := hash)) else parse(s)
  }

  /** The query and fragment of a URL play no part: the format is checked on
      its path component only. */
  lemma QueryAndFragmentIgnored(imagePath: string, parse: string -> Option<ParsedUrl>, search: string, hash: string, files: map<string, Bytes>, replies: seq<Reply>)
    ensures AcquireSpec(imagePath, WithQuery(parse, imagePath, search, hash), files, replies) == AcquireSpec(imagePath, parse, files, replies)
  {
    var other := WithQuery(parse, imagePath, search, hash);
    assert forall s :: SameProtocol(parse(s), other(s));
    DownloadReadsOnlyProtocols(imagePath, parse, other, replies);
  }

  /** An https URL written with an upper-case scheme passes both URL checks
      and then fails in the download, whatever the network would answer. */
  lemma UpperCaseSchemeUrlFails(parse: string -> Option<ParsedUrl>, files: map<string, Bytes>, replies: seq<Reply>)
    requires parse("HTTPS://example.com/cat.png") == Some(ParsedUrl("https:", "example.com", "/cat.png", "", ""))
    ensures IsValidURL(parse("HTTPS://example.com/cat.png"))
    ensures AcquireSpec("HTTPS://example.com/cat.png", parse, files, replies) == Failure(DownloadFailed(ProtocolNotSupported("https:")))
  {
    var host := "example.com";
    LowerOfLowerCase(host);
    assert host !in BLOCKED_HOSTS;
    assert !MatchesPrivateRange(host) by {
      assert host[0] == 'e';
      assert !StartsWith(host, "10.") && !StartsWith(host, "172.") && !StartsWith(host, "192.168.");
    }
    assert !StartsWith("HTTPS://example.com/cat.png", "https") by {
      assert "HTTPS://example.com/cat.png"[0] == 'H';
    }
    UpperCaseSchemeRefused("HTTPS://example.com/cat.png", parse, replies);
  }
}
