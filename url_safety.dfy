/** The reference classifier (`isURL`) and the server-side request forgery
    filter (`isValidURL`) of index.js. Both start from `new URL(str)`; parsing by
    the WHATWG URL Standard is not modelled, so they take its outcome: `None`
    when the constructor throws, otherwise the parsed components. */
module UrlSafety {
  import opened Wrappers
  import opened Text

  /** The components of a parsed URL that the core reads (protocol with its
      trailing colon, as `URL.protocol` gives it). */
  datatype ParsedUrl = ParsedUrl(protocol: string, hostname: string, pathname: string, search: string, hash: string)

  const WEB_PROTOCOLS: seq<string> := ["http:", "https:"]

  /** Host names refused literally, after lower-casing. */
  const BLOCKED_HOSTS: seq<string> := ["localhost", "127.0.0.1", "0.0.0.0", "169.254.169.254"]

  /** `isURL`: the reference parses and names the http or https scheme. */
  predicate IsURL(u: Option<ParsedUrl>) {
    u.Some? && u.value.protocol in WEB_PROTOCOLS
  }

  /** The second octet alternatives `1[6-9]|2[0-9]|3[01]` of the private-range pattern. */
  predicate IsPrivate172Octet(a: char, b: char) {
    || (a == '1' && '6' <= b <= '9')
    || (a == '2' && '0' <= b <= '9')
    || (a == '3' && (b == '0' || b == '1'))
  }

  /** The pattern `^(10\.|172\.(1[6-9]|2[0-9]|3[01])\.|192\.168\.)`, alternative by alternative. */
  predicate MatchesPrivateRange(h: string) {
    || StartsWith(h, "10.")
    || (StartsWith(h, "172.") && |h| >= 7 && IsPrivate172Octet(h[4], h[5]) && h[6] == '.')
    || StartsWith(h, "192.168.")
  }

  /** `isValidURL`: protocol check, literal block list, then the private-range prefixes. */
  predicate IsValidURL(u: Option<ParsedUrl>) {
    match u
    case None => false
    case Some(url) =>
      if url.protocol !in WEB_PROTOCOLS then false
      else
        var hostname := Lower(url.hostname);
        if hostname in BLOCKED_HOSTS then false
        else if MatchesPrivateRange(hostname) then false
        else true
  }

  // ----- Reference definition of the private ranges -----

  /** The decimal text of a two-digit number. */
  function TwoDigits(n: nat): (s: string)
    requires 10 <= n <= 99
    ensures |s| == 2 && '0' <= s[0] <= '9' && '0' <= s[1] <= '9'
    ensures (s[0] as int - '0' as int) * 10 + (s[1] as int - '0' as int) == n
  {
    [('0' as int + n / 10) as char, ('0' as int + n % 10) as char]
  }

  /** The ranges the filter means to refuse, written as the set of prefixes
      "10.", "192.168." and "172.N." for N from 16 to 31. */
  ghost predicate InPrivateRange(h: string) {
    || StartsWith(h, "10.")
    || StartsWith(h, "192.168.")
    || exists n: nat :: 16 <= n <= 31 && StartsWith(h, "172." + TwoDigits(n) + ".")
  }

  /** The pattern matches exactly the host names in the private ranges. */
  lemma MatchesPrivateRangeIsExact(h: string)
    ensures MatchesPrivateRange(h) <==> InPrivateRange(h)
  {
    if StartsWith(h, "172.") && |h| >= 7 && IsPrivate172Octet(h[4], h[5]) && h[6] == '.' {
      var n: nat := (h[4] as int - '0' as int) * 10 + (h[5] as int - '0' as int);
      assert 16 <= n <= 31;
      var d := TwoDigits(n);
      assert d[0] == h[4] && d[1] == h[5];
      assert h[..7] == "172." + d + ".";
    }
    if n: nat :| 16 <= n <= 31 && StartsWith(h, "172." + TwoDigits(n) + ".") {
      var d := TwoDigits(n);
      assert h[..7] == "172." + d + ".";
      assert h[4] == d[0] && h[5] == d[1] && h[6] == '.';
      assert StartsWith(h, "172.") by { assert h[..4] == h[..7][..4]; }
      assert IsPrivate172Octet(h[4], h[5]);
    }
  }

  // ----- Properties of the filter -----

  /** A safe URL is always a URL in the classifier's sense, and for a URL the
      filter is decided by the host name alone. */
  lemma ValidURLIsURL(u: Option<ParsedUrl>)
    ensures IsValidURL(u) ==> IsURL(u)
    ensures IsURL(u) ==> (IsValidURL(u) <==> Lower(u.value.hostname) !in BLOCKED_HOSTS && !InPrivateRange(Lower(u.value.hostname)))
  {
    if u.Some? {
      MatchesPrivateRangeIsExact(Lower(u.value.hostname));
    }
  }

  /** `isValidURL` holds exactly for http/https URLs whose lower-cased host name
      is neither blocked literally nor inside a private range. */
  lemma IsValidURLExactly(u: Option<ParsedUrl>)
    ensures IsValidURL(u) <==>
      && u.Some?
      && u.value.protocol in WEB_PROTOCOLS
      && Lower(u.value.hostname) !in BLOCKED_HOSTS
      && !InPrivateRange(Lower(u.value.hostname))
  {
    if u.Some? {
      MatchesPrivateRangeIsExact(Lower(u.value.hostname));
    }
  }

  /** A parse failure or a scheme other than http/https is never safe. */
  lemma NonWebURLRejected(u: Option<ParsedUrl>)
    requires u.None? || u.value.protocol !in WEB_PROTOCOLS
    ensures !IsValidURL(u)
  {
  }

  /** A host name equal to a blocked host up to letter case is refused. */
  lemma BlockedHostRejected(u: ParsedUrl, blocked: string)
    requires blocked in BLOCKED_HOSTS
    requires Lower(u.hostname) == Lower(blocked)
    ensures !IsValidURL(Some(u))
  {
    LowerOfLowerCase(blocked);
  }

  /** Every "172.N." prefix with N from 16 to 31 is refused, whatever follows. */
  lemma Private172Rejected(u: ParsedUrl, n: nat, rest: string)
    requires 16 <= n <= 31
    requires Lower(u.hostname) == "172." + TwoDigits(n) + "." + rest
    ensures !IsValidURL(Some(u))
  {
    var h := Lower(u.hostname);
    assert h[..|"172." + TwoDigits(n) + "."|] == "172." + TwoDigits(n) + ".";
    MatchesPrivateRangeIsExact(h);
  }

  /** The neighbours 172.15. and 172.32. are outside the range rule. */
  lemma NeighbouringOctetsNotInRange(rest: string)
    ensures !MatchesPrivateRange("172.15." + rest)
    ensures !MatchesPrivateRange("172.32." + rest)
  {
    var a := "172.15." + rest;
    var b := "172.32." + rest;
    assert a[1] == '7' && a[4] == '1' && a[5] == '5';
    assert b[1] == '7' && b[4] == '3' && b[5] == '2';
    assert !StartsWith(a, "10.") by { assert a[..3][1] != "10."[1]; }
    assert !StartsWith(b, "10.") by { assert b[..3][1] != "10."[1]; }
    assert !StartsWith(a, "192.168.") by { if |a| >= 8 { assert a[..8][1] != "192.168."[1]; } }
    assert !StartsWith(b, "192.168.") by { if |b| >= 8 { assert b[..8][1] != "192.168."[1]; } }
  }

  /** The cloud metadata endpoint is refused. */
  lemma MetadataEndpointRejected(path: string, search: string, hash: string)
    ensures !IsValidURL(Some(ParsedUrl("http:", "169.254.169.254", path, search, hash)))
  {
    LowerOfLowerCase("169.254.169.254");
  }
}
