# Image acquisition of the Kimi vision tool, modelled in Dafny

The tool server (`index.js`) exposes one tool, `analyze_image`. It takes an
`image_path`, which is either an http/https URL or a local file path, and turns
it into image bytes and a MIME type before it sends them to a remote model.
This project models that acquisition step and proves properties of it:

- **Reference classifier** (`UrlSafety.IsURL`). A reference counts as a URL when
  it parses and its protocol is `http:` or `https:`.
- **Request-forgery filter** (`UrlSafety.IsValidURL`). It refuses:
  - any protocol other than http/https;
  - the four literal hosts `localhost`, `127.0.0.1`, `0.0.0.0` and
    `169.254.169.254`, after lower-casing;
  - host names that start with `10.`, `172.16.`–`172.31.` or `192.168.`.

  The filter spells out the source's regular expression one alternative at a
  time. `InPrivateRange` is an independent definition of the same ranges, and a
  lemma shows the two agree exactly.
- **Format check** (`ImageFormat`):
  - Node's POSIX `path.extname`: trailing separators are ignored, and the
    extension runs from the last dot of the final component. It is empty when
    that component has no dot, when its only dot is its first character, or when
    the component is `..`.
  - The five-entry allow-list, and the MIME table with its `image/jpeg` default.
- **Bounded download** (`Download`):
  - Status dispatch: 301/302 redirects, any other non-200 status is an error.
  - The declared `Content-Length` check. An absent header counts as 0.
  - The chunk loop. It keeps `receivedLength`, stops at the first chunk that
    takes the total past 10 MiB, and otherwise concatenates the chunks in order.
  - Redirects call the download again on the `Location` header.
- **Acquisition** (`Acquisition.Acquire`). An empty path fails first. A URL
  goes through the filter, then the download, then the format check on the
  URL's path component. A local path goes through existence, format, size, and
  then read.

Parts of the environment are inputs to the model:

- **URL parsing.** WHATWG URL parsing (`new URL`) is a parameter,
  `parse: string -> Option<ParsedUrl>`. `None` means the constructor throws.
- **Filesystem.** It is a map from path to file contents.
- **Network.** Each request gets a `Reply` from the environment. A reply is
  either a failed or timed-out request, or a response. A response has a status,
  a `Location`, a declared length, the body as a sequence of chunks, and the way
  the stream ended. The replies to the requests of one redirect chain come in
  order.

Methods carry the source's step-by-step code: `ReadBody`, the recursive
`DownloadImage` and `Acquire`. Each one is proved equal to a specification
function (`BodySpec`, `DownloadSpec`, `AcquireSpec`). The lemmas are stated
about those functions.

One behaviour the model makes visible. The download picks its client with
`url.startsWith("https")` on the raw text, but Node's http client refuses a URL
whose protocol is `https:`. So a reference such as `HTTPS://example.com/cat.png`
passes both URL checks (the parser lower-cases the scheme) and then always fails
in the download. The model keeps this behaviour as the code has it
(`Download.UpperCaseSchemeRefused`, `Acquisition.UpperCaseSchemeUrlFails`).

Three more behaviours of the code that the model keeps:

- Redirects are followed with no depth cap, and the target is not re-checked
  against the filter (`Download.RedirectTargetNotRechecked`).
- The timeout is the socket's idle timer (`request.setTimeout`).
- There are four distinct MIME types; `.jpg` and `.jpeg` share `image/jpeg`.

A redirect whose `Location` is not an absolute URL (a relative reference such
as `/cat.png`) makes `client.get` throw, since neither of Node's URL parsers
finds a host in it. The download then fails with `InvalidUrl`
(`Download.UnparsableLocationFails`).

## Model

| member | source | states |
|---|---|---|
| `Config.MAX_IMAGE_SIZE` | index.js:16 | the 10 MiB cap; `Download.BodySpec`, `Download.DownloadSpec` and `Acquisition.AcquireSpec` bound every success by it, and `Download.ReadBody` refuses exactly the bodies above it |
| `Config.SUPPORTED_FORMATS` | index.js:18 | the five-entry allow-list; `ImageFormat.FormatsAndTableInLockstep` shows that it holds exactly the keys of `ImageFormat.MIME_TYPES` |
| `Text.StartsWith` | index.js:45 | `startsWith`; `Download.UpperCaseSchemeRefused` gives its consequence for a URL text that begins with an upper-case scheme |
| `Text.Lower` | index.js:113 | `toLowerCase`, restricted to ASCII letters (see the `Text.Lower` line under "## Left out"); its contract keeps the length and maps each character; `ImageFormat.ExtNameLower` and `ImageFormat.CaseInsensitive` use it |
| `UrlSafety.WEB_PROTOCOLS` | index.js:108 | the protocols `http:` and `https:` that both URL checks admit, which also appear at index.js:96; `UrlSafety.NonWebURLRejected` states that every other protocol is refused |
| `UrlSafety.BLOCKED_HOSTS` | index.js:114-119 | the four literal hosts; `UrlSafety.BlockedHostRejected` states that each is refused in any letter case |
| `UrlSafety.IsURL` | index.js:93-100 | the classifier; `UrlSafety.ValidURLIsURL` states that every URL the filter accepts is classified as one |
| `UrlSafety.IsValidURL` | index.js:103-134 | the filter; `UrlSafety.IsValidURLExactly` characterises it in both directions |
| `UrlSafety.MatchesPrivateRange` | index.js:126 | the regular expression, one alternative at a time; `UrlSafety.MatchesPrivateRangeIsExact` shows it matches exactly the private ranges |
| `UrlSafety.MatchesPrivateRangeIsExact` | index.js:126-128 | the prefix pattern matches a host name exactly when it starts with `10.`, `192.168.` or `172.N.` with N from 16 to 31 (both directions) |
| `UrlSafety.IsValidURLExactly` | index.js:103-134 | `isValidURL` is true exactly when the URL parsed, its protocol is http/https, its lower-cased host is not one of the four blocked hosts, and that host is outside the private ranges |
| `UrlSafety.ValidURLIsURL` | index.js:93-100 | every URL the filter accepts is a URL to the classifier; for a classified URL, only the host name decides the filter |
| `UrlSafety.NonWebURLRejected` | index.js:105-110 | a parse failure or a protocol other than `http:`/`https:` is never safe |
| `UrlSafety.BlockedHostRejected` | index.js:113-123 | a host equal, up to letter case, to `localhost`, `127.0.0.1`, `0.0.0.0` or `169.254.169.254` is refused |
| `UrlSafety.Private172Rejected` | index.js:126-128 | every host beginning `172.N.` with N from 16 to 31 is refused, whatever follows |
| `UrlSafety.NeighbouringOctetsNotInRange` | index.js:126-128 | hosts beginning `172.15.` or `172.32.` are not caught by the range rule |
| `UrlSafety.MetadataEndpointRejected` | index.js:114-123 | an http URL to `169.254.169.254` is refused, whatever its path, query or fragment |
| `ImageFormat.ExtName` | index.js:138 | the extension is empty, or a dot followed by characters that contain no further dot and no separator; `ImageFormat.ExtNameOfFinalComponent` places it in the final component |
| `ImageFormat.ExtNameOfFinalComponent` | index.js:138 | the extension is empty for the final component `..`, and when no dot follows the first character of the final component (a dotless name, or a bare hidden file such as `.png`); it is non-empty whenever such a dot exists and the component is not `..`; a non-empty extension is the tail of the final component after a non-empty stem |
| `ImageFormat.LastSegmentIsMaximal` | index.js:138 | the final component is the whole trimmed path or starts right after a `/`, so it is the longest suffix without a separator |
| `ImageFormat.ExtNameOfAppended` | index.js:138 | a non-empty stem not ending in `/`, followed by a dot and a non-empty suffix without dots or separators, has exactly that suffix, with its dot, as extension |
| `ImageFormat.HiddenFileHasNoExtension` | index.js:138 | a final component after a `/` whose only dot is its first character (such as `dir/.png`) has no extension |
| `ImageFormat.ExtNameLower` | index.js:138 | taking the extension commutes with lower-casing the path |
| `ImageFormat.GetMimeType` | index.js:137-147 | the MIME type is always one of `image/jpeg`, `image/png`, `image/gif`, `image/webp`; an extension missing from the table gets `image/jpeg` |
| `ImageFormat.Extension` | index.js:151 | `path.extname(filePath).toLowerCase()`, the key both format operations look up (also at index.js:138); `ImageFormat.ExtNameLower` and `ImageFormat.CaseInsensitive` state how it treats letter case |
| `ImageFormat.DEFAULT_MIME_TYPE` | index.js:146 | the `image/jpeg` fallback; `ImageFormat.GetMimeType` returns it for every extension missing from the table, and `ImageFormat.BmpExample` shows one such case |
| `ImageFormat.IsSupportedFormat` | index.js:150-153 | the allow-list check on the lower-cased extension; `ImageFormat.FormatsAndTableInLockstep` ties it to the MIME table and `ImageFormat.CaseInsensitive` to letter case |
| `ImageFormat.MIME_TYPES` | index.js:139-145 | the extension table; `ImageFormat.FormatsAndTableInLockstep` shows that its keys are exactly the allow-list |
| `ImageFormat.FormatsAndTableInLockstep` | index.js:137-153 | a path is supported exactly when its lower-cased extension has an entry in the MIME table, and a supported path gets that entry, never the default |
| `ImageFormat.CaseInsensitive` | index.js:137-153 | two paths equal up to letter case have the same extension, support and MIME type |
| `ImageFormat.ExtensionCaseInsensitive` | index.js:150-153 | changing the letter case of the extension alone changes neither the support nor the MIME type |
| `ImageFormat.PngExample` | index.js:139-146 | for a non-empty stem not ending in `/`, `stem.png` and `stem.PNG` are supported and typed `image/png` |
| `ImageFormat.BmpExample` | index.js:146-152 | for a non-empty stem not ending in `/`, `stem.bmp` is not supported, and its MIME lookup falls back to `image/jpeg` |
| `Download.SelectClient` | index.js:45 | the choice of client on the raw URL text; `Download.UpperCaseSchemeRefused` gives its consequence for an upper-case scheme |
| `Download.ClientAccepts` | index.js:45-47 | whether `client.get` sends a request; `Download.UnparsableLocationFails` and `Download.UpperCaseSchemeRefused` give the two ways it refuses |
| `Download.DeclaredSize` | index.js:59 | the declared length, 0 when absent; `Download.AbsentLengthCountsAsZero` and `Download.DeclaredSizeCheckedFirst` state how the download uses it |
| `Download.TotalLength` | index.js:66-70 | the running `receivedLength`; `Download.Flatten` equates it with the length of the concatenated buffer, and `Download.ReadBody` keeps it as its loop invariant |
| `Download.Flatten` | index.js:78 | the concatenated buffer is as long as the chunk lengths added up |
| `Download.BodySpec` | index.js:65-79 | a body read to the end is within the 10 MiB cap |
| `Download.ReadBody` | index.js:65-79 | the chunk loop refuses exactly the bodies longer than the cap. It stops at the first chunk that takes `receivedLength` past the cap, having buffered at most the cap plus that chunk. Otherwise it consumes every chunk and returns their concatenation in order, or the error that ended the stream |
| `Download.StreamedCapIsExact` | index.js:65-78 | the streamed refusal happens exactly when the whole body exceeds the cap, and how the body is split into chunks plays no part |
| `Download.DownloadSpec` | index.js:43-90 | every successful download, through any number of redirects, is within the cap |
| `Download.DownloadImage` | index.js:43-90 | the recursive download yields exactly the outcome of the download specification for the given replies |
| `Download.StatusDispatch` | index.js:48-57 | 301/302 with a `Location` continues at that location; 301/302 without one fails; any other non-200 status is an `HTTP <status>` error; the headers and body of a non-200 response play no part |
| `Download.DeclaredSizeCheckedFirst` | index.js:59-63 | a 200 response that declares more than the cap is refused with that size, whatever its body and stream ending |
| `Download.AbsentLengthCountsAsZero` | index.js:59 | a missing `Content-Length` behaves as a declared 0, so a 200 response is decided by its body alone |
| `Download.DownloadedBytesAreABody` | index.js:48-78 | the bytes of a successful download are exactly the concatenated body of a 200 response among the replies |
| `Download.OneHopRedirect` | index.js:48-52 | a 301/302 to an absolute URL the client accepts, followed by a 200 response with a complete body within the cap, resolves to that body |
| `Download.UnparsableLocationFails` | index.js:45-50 | a 301/302 whose `Location` does not parse as an absolute URL fails with `InvalidUrl`, whatever the later replies |
| `Download.RedirectTargetNotRechecked` | index.js:50 | a redirect to the metadata endpoint is followed and its body returned, although the filter would refuse that URL |
| `Download.UpperCaseSchemeRefused` | index.js:45 | a URL parsed as https whose text does not begin with lower-case `https` gets the http client and always fails with an unsupported protocol |
| `Acquisition.AcquireSpec` | index.js:237-284 | every acquired image is at most 10 MiB and carries one of the four MIME types |
| `Acquisition.Acquire` | index.js:237-284 | the handler's acquisition steps yield exactly the acquisition specification's outcome |
| `Acquisition.EmptyPathRejected` | index.js:237-239 | an empty `image_path` fails before either branch, whatever the environment |
| `Acquisition.BranchesAreIndependent` | index.js:245-284 | a local path's outcome does not depend on the network, and a URL's outcome does not depend on the filesystem |
| `Acquisition.MissingFileNotFound` | index.js:265-269 | a local path missing from the filesystem yields not-found |
| `Acquisition.UnsupportedFileNotRead` | index.js:271-274 | an existing file with an unsupported extension yields a format error whatever its contents, so neither the size check nor the read takes place |
| `Acquisition.OversizedFileRejected` | index.js:276-280 | a supported file over the cap yields a too-large error carrying its size |
| `Acquisition.LocalFileRoundTrip` | index.js:282-283 | a supported file within the cap is returned byte for byte, with its extension's own table entry as MIME type |
| `Acquisition.PngFileRoundTrip` | index.js:262-283 | a local `.png` file within the cap comes back as exactly its bytes with `image/png` |
| `Acquisition.UnsafeUrlRejectedBeforeDownload` | index.js:247-249 | a URL the filter refuses yields the unsafe-URL error whatever the network would answer |
| `Acquisition.MetadataUrlRejected` | index.js:245-249 | `http://169.254.169.254/latest/meta-data/` is refused as unsafe with no request made |
| `Acquisition.UrlDownloadsBeforeFormatCheck` | index.js:252-260 | for a safe URL the download's failure is reported even when the extension is unsupported; after a successful download, the URL's path component alone decides the format and the MIME type |
| `Acquisition.DownloadReadsOnlyProtocols` | index.js:43-90 | the download reads nothing of a parsed URL but its protocol |
| `Acquisition.QueryAndFragmentIgnored` | index.js:255-260 | replacing a URL's query and fragment never changes the outcome |
| `Acquisition.UpperCaseSchemeUrlFails` | index.js:245-252 | `HTTPS://example.com/cat.png` passes both URL checks and then fails in the download with an unsupported protocol |

## Left out

- Server setup, the tool listing and the stdio transport (index.js:23-33, 202-230, 324-343). These are protocol plumbing.
- The check of the API key variable and `process.exit` (index.js:36-40, 334-337). No acquisition step depends on them.
- `analyzeImageWithKimi` (index.js:156-200), the base64 encoding (index.js:286) and the mapping of errors to the tool's error response (index.js:303-318). They are a remote call, a library call and message formatting. The model stops at the acquired bytes and MIME type, or the error kind.
- Console logging.
- URL parsing by the WHATWG URL Standard, including IPv4 canonicalisation. It is the `parse` parameter.
- The http/https sockets and `request.destroy`. A `Reply` stands for what a request produced.
- Node's legacy URL fallback in `client.get`. A text the WHATWG parser rejects but the legacy parser finds a host in (malformed absolute URLs) would still be requested by Node. The model treats every text the WHATWG parser rejects as `InvalidUrl`. A relative `Location` is modelled exactly, because the legacy parser finds no host in it either.
- Event timing. The idle timer (`DOWNLOAD_TIMEOUT_MILLIS`) can fire only as the ending of a reply. A timer firing on the first request while a redirected request is still running is not modelled.
- The redirect recursion has no cap in the source. The model follows as many redirects as replies are supplied. A chain that runs out yields `Unanswered`, which has no counterpart in the source.
- Node's HTTP parser rejects a malformed `Content-Length`, so the header is modelled as an optional number. `parseInt` on other text is not modelled.
- `fs.access`, `fs.stat` and `fs.readFile` are a map of regular files. Directories, permissions, symbolic links and changes between the three calls are not modelled.
- Windows path rules for `path.extname`. The POSIX form is modelled.
- Arguments of the wrong type (an `image_path` that is not a string), `prompt` and `model`. They do not take part in acquisition.
- Text.Lower: maps only the ASCII letters, while `toLowerCase` maps all of Unicode. Two non-ASCII characters lower to text that contains ASCII letters: the Kelvin sign lowers to `k`, and the dotted capital I (U+0130) lowers to `i` followed by the combining dot U+0307. `k` occurs in no allowed extension and no blocked host. The combining dot is not ASCII, so no lowered text containing it equals an allowed extension or a blocked host. So no outcome of the format check or the host block list changes.
