/** Extension handling of index.js: `getMimeType` and `isSupportedFormat`, both
    built on Node's `path.extname` (POSIX form) followed by `toLowerCase()`. */
module ImageFormat {
  import opened Wrappers
  import opened Text
  import opened Config

  // ----- path.extname -----

  /** The path with its trailing separators removed; `path.extname` ignores them. */
  function TrimTrailingSlashes(p: string): (r: string)
    ensures |r| <= |p| && r == p[..|r|]
    ensures r == [] || r[|r| - 1] != '/'
    ensures forall i :: |r| <= i < |p| ==> p[i] == '/'
    decreases |p|
  {
    if p != [] && p[|p| - 1] == '/' then TrimTrailingSlashes(p[..|p| - 1]) else p
  }

  /** The position of the last occurrence of `c`, if any. */
  function LastIndexOf(s: string, c: char): (r: Option<nat>)
    ensures r.None? ==> c !in s
    ensures r.Some? ==> r.value < |s| && s[r.value] == c && c !in s[r.value + 1..]
    decreases |s|
  {
    if s == [] then None
    else if s[|s| - 1] == c then Some(|s| - 1)
    else LastIndexOf(s[..|s| - 1], c)
  }

  /** The text after the last separator. */
  function LastSegment(s: string): (r: string)
    ensures |r| <= |s| && r == s[|s| - |r|..]
    ensures '/' !in r
  {
    match LastIndexOf(s, '/')
    case None => s
    case Some(k) => s[k + 1..]
  }

  /** The last segment is the whole text or starts right after a separator:
      with the suffix and no-separator property of `LastSegment`, it is the
      longest separator-free suffix. */
  lemma LastSegmentIsMaximal(s: string)
    ensures |LastSegment(s)| == |s| || s[|s| - |LastSegment(s)| - 1] == '/'
  {
  }

  /** The final component of a path, as `path.basename` gives it. */
  function BaseName(p: string): string {
    LastSegment(TrimTrailingSlashes(p))
  }

  /** `path.extname(p)`: from the last dot of the final component to its end;
      empty when that component has no dot, when its only dot leads it (a
      hidden file such as ".png"), and for "..". */
  function ExtName(p: string): (e: string)
    ensures e == [] || (e[0] == '.' && '/' !in e && '.' !in e[1..])
  {
    ComponentExt(BaseName(p))
  }

  /** The extension of one final component `base`. */
  function ComponentExt(base: string): (e: string)
    ensures e == [] || (e[0] == '.' && '.' !in e[1..])
    ensures '/' !in base ==> '/' !in e
  {
    if base == ".." then ""
    else
      match LastIndexOf(base, '.')
      case None => ""
      case Some(d) => if d == 0 then "" else base[d..]
  }

  // ----- The format table -----

  /** The MIME type for each supported extension. */
  const MIME_TYPES: map<string, string> := map[
    ".jpg" := "image/jpeg",
    ".jpeg" := "image/jpeg",
    ".png" := "image/png",
    ".gif" := "image/gif",
    ".webp" := "image/webp"
  ]

  const DEFAULT_MIME_TYPE: string := "image/jpeg"

  const MIME_TYPE_NAMES: set<string> := {"image/jpeg", "image/png", "image/gif", "image/webp"}

  /** The lower-cased extension both operations look at. */
  function Extension(p: string): string {
    Lower(ExtName(p))
  }

  /** `isSupportedFormat`. */
  predicate IsSupportedFormat(p: string) {
    Extension(p) in SUPPORTED_FORMATS
  }

  /** `getMimeType`: the table entry of the extension, `image/jpeg` otherwise. */
  function GetMimeType(p: string): (m: string)
    ensures m in MIME_TYPE_NAMES
    ensures Extension(p) !in MIME_TYPES ==> m == DEFAULT_MIME_TYPE
  {
    var ext := Extension(p);
    if ext in MIME_TYPES then MIME_TYPES[ext] else DEFAULT_MIME_TYPE
  }

  // ----- Properties -----

  /** The allow-list and the table keys are the same five extensions, so no
      supported path ever falls back to the default entry. */
  lemma FormatsAndTableInLockstep(p: string)
    ensures IsSupportedFormat(p) <==> Extension(p) in MIME_TYPES
    ensures IsSupportedFormat(p) ==> GetMimeType(p) == MIME_TYPES[Extension(p)]
  {
    assert (set e | e in SUPPORTED_FORMATS) == MIME_TYPES.Keys;
  }

  lemma {:induction false} TrimTrailingSlashesLower(p: string)
    ensures TrimTrailingSlashes(Lower(p)) == Lower(TrimTrailingSlashes(p))
    decreases |p|
  {
    if p != [] && p[|p| - 1] == '/' {
      LowerTake(p, |p| - 1);
      TrimTrailingSlashesLower(p[..|p| - 1]);
    }
  }

  /** Lower-casing moves no dot and no separator. */
  lemma {:induction false} LastIndexOfLower(s: string, c: char)
    requires c == '.' || c == '/'
    ensures LastIndexOf(Lower(s), c) == LastIndexOf(s, c)
    decreases |s|
  {
    if s != [] && s[|s| - 1] != c {
      LowerTake(s, |s| - 1);
      LastIndexOfLower(s[..|s| - 1], c);
    }
  }

  lemma LastSegmentLower(s: string)
    ensures LastSegment(Lower(s)) == Lower(LastSegment(s))
  {
    LastIndexOfLower(s, '/');
    match LastIndexOf(s, '/')
    case None =>
    case Some(k) => LowerDrop(s, k + 1);
  }

  lemma LowerIsDotDot(b: string)
    ensures Lower(b) == ".." <==> b == ".."
  {
    if Lower(b) == ".." {
      assert |b| == 2;
      assert LowerChar(b[0]) == '.' && LowerChar(b[1]) == '.';
    }
  }

  lemma BaseNameLower(p: string)
    ensures BaseName(Lower(p)) == Lower(BaseName(p))
  {
    TrimTrailingSlashesLower(p);
    LastSegmentLower(TrimTrailingSlashes(p));
  }

  /** Lower-casing a path and taking its extension commute. */
  lemma ExtNameLower(p: string)
    ensures ExtName(Lower(p)) == Lower(ExtName(p))
  {
    var base := BaseName(p);
    BaseNameLower(p);
    LowerIsDotDot(base);
    LastIndexOfLower(base, '.');
    if base != ".." && LastIndexOf(base, '.').Some? && LastIndexOf(base, '.').value != 0 {
      LowerDrop(base, LastIndexOf(base, '.').value);
    }
  }

  /** Matching is case-insensitive: two paths equal up to letter case are
      equally supported and get the same MIME type. */
  lemma CaseInsensitive(p: string, q: string)
    requires Lower(p) == Lower(q)
    ensures Extension(p) == Extension(q)
    ensures IsSupportedFormat(p) == IsSupportedFormat(q)
    ensures GetMimeType(p) == GetMimeType(q)
  {
    ExtNameLower(p);
    ExtNameLower(q);
  }

  /** Changing the case of the extension alone changes neither operation. */
  lemma ExtensionCaseInsensitive(stem: string, e1: string, e2: string)
    requires Lower(e1) == Lower(e2)
    ensures IsSupportedFormat(stem + e1) == IsSupportedFormat(stem + e2)
    ensures GetMimeType(stem + e1) == GetMimeType(stem + e2)
  {
    LowerConcat(stem, e1);
    LowerConcat(stem, e2);
    CaseInsensitive(stem + e1, stem + e2);
  }

  lemma {:induction false} LastIndexOfAppend(a: string, b: string, c: char)
    requires c !in b
    ensures LastIndexOf(a + b, c) == LastIndexOf(a, c)
    decreases |b|
  {
    if b == [] {
      assert a + b == a;
    } else {
      var s := a + b;
      assert s[|s| - 1] == b[|b| - 1];
      assert s[..|s| - 1] == a + b[..|b| - 1];
      LastIndexOfAppend(a, b[..|b| - 1], c);
    }
  }

  /** The last `c` of `a + e` is the first character of `e` when `e` has no other. */
  lemma {:induction false} LastIndexOfAt(a: string, e: string, c: char)
    requires e != [] && e[0] == c && c !in e[1..]
    ensures LastIndexOf(a + e, c) == Some(|a|)
    decreases |e|
  {
    if |e| > 1 {
      var y := e[..|e| - 1];
      var s := a + e;
      assert s[|s| - 1] == e[1..][|e| - 2];
      assert s[..|s| - 1] == a + y;
      assert y[1..] == e[1..][..|e| - 2];
      LastIndexOfAt(a, y, c);
    }
  }

  lemma LastSegmentAppend(a: string, b: string)
    requires '/' !in b
    ensures LastSegment(a + b) == LastSegment(a) + b
  {
    LastIndexOfAppend(a, b, '/');
    var slash := LastIndexOf(a, '/');
    if slash.Some? {
      DropConcat(a, b, slash.value + 1);
      assert LastSegment(a + b) == (a + b)[slash.value + 1..];
    } else {
      assert LastSegment(a + b) == a + b;
    }
  }

  /** When the final component has a dot after its first character, the
      extension runs from the last such dot. */
  lemma ExtNameAtLastDot(p: string, d: nat)
    requires BaseName(p) != ".." && LastIndexOf(BaseName(p), '.') == Some(d) && d > 0
    ensures ExtName(p) == BaseName(p)[d..]
  {
  }

  /** How the extension sits in the final component: none when no dot
      follows the component's first character; one whenever a dot does
      (except for ".."); and a non-empty one is the component's tail after
      a non-empty stem. */
  lemma ExtNameOfFinalComponent(p: string)
    ensures BaseName(p) == ".." ==> ExtName(p) == ""
    ensures |BaseName(p)| <= 1 || '.' !in BaseName(p)[1..] ==> ExtName(p) == ""
    ensures BaseName(p) != ".." && (exists i :: 0 < i < |BaseName(p)| && BaseName(p)[i] == '.') ==> ExtName(p) != ""
    ensures ExtName(p) != "" ==> exists stem :: stem != "" && BaseName(p) == stem + ExtName(p)
  {
    ComponentExtPlacement(BaseName(p));
  }

  lemma ComponentExtPlacement(base: string)
    ensures base == ".." ==> ComponentExt(base) == ""
    ensures |base| <= 1 || '.' !in base[1..] ==> ComponentExt(base) == ""
    ensures base != ".." && (exists i :: 0 < i < |base| && base[i] == '.') ==> ComponentExt(base) != ""
    ensures ComponentExt(base) != "" ==> exists stem :: stem != "" && base == stem + ComponentExt(base)
  {
    match LastIndexOf(base, '.')
    case None =>
    case Some(d) =>
      if d > 0 {
        assert base[1..][d - 1] == '.';
      }
      if base != ".." && d > 0 {
        assert base == base[..d] + base[d..];
      }
  }

  /** A path whose final component is a non-empty stem followed by an
      extension (a dot and at least one more character, without further dots
      or separators) has exactly that extension. */
  lemma ExtNameOfAppended(stem: string, e: string)
    requires stem != [] && stem[|stem| - 1] != '/'
    requires |e| >= 2 && e[0] == '.' && '.' !in e[1..] && '/' !in e
    ensures ExtName(stem + e) == e
  {
    var p := stem + e;
    BaseNameOfAppended(stem, e);
    var seg := LastSegment(stem);
    var base := seg + e;
    LastIndexOfAt(seg, e, '.');
    assert base != ".." by { assert |base| >= 3; }
    assert base[|seg|..] == e;
    ExtNameAtLastDot(p, |seg|);
  }

  lemma BaseNameOfAppended(stem: string, e: string)
    requires stem != [] && stem[|stem| - 1] != '/'
    requires e != [] && '/' !in e
    ensures LastSegment(stem) != []
    ensures BaseName(stem + e) == LastSegment(stem) + e
  {
    var p := stem + e;
    assert p[|p| - 1] == e[|e| - 1];
    assert TrimTrailingSlashes(p) == p;
    LastSegmentAppend(stem, e);
    if LastIndexOf(stem, '/').Some? {
      assert LastIndexOf(stem, '/').value < |stem| - 1;
    }
  }

  /** A final component whose only dot is its first character has no extension. */
  lemma HiddenFileHasNoExtension(dir: string, name: string)
    requires |name| >= 2 && name[0] == '.' && '.' !in name[1..] && '/' !in name
    ensures ExtName(dir + "/" + name) == ""
  {
    var p := dir + "/" + name;
    assert p == (dir + "/") + name;
    assert p[|p| - 1] == name[|name| - 1];
    assert TrimTrailingSlashes(p) == p;
    LastSegmentAppend(dir + "/", name);
    LastIndexOfAt(dir, "/", '/');
    assert LastSegment(dir + "/") == [];
    LastIndexOfAt([], name, '.');
    assert [] + name == name;
  }

  lemma LowerDotPng()
    ensures Lower(".PNG") == ".png" && Lower(".png") == ".png"
  {
    var lowered := Lower(".PNG");
    assert lowered[0] == '.' && lowered[1] == 'p' && lowered[2] == 'n' && lowered[3] == 'g';
    LowerOfLowerCase(".png");
  }

  lemma PngExtension(p: string)
    requires Extension(p) == ".png"
    ensures IsSupportedFormat(p) && GetMimeType(p) == "image/png"
  {
    assert SUPPORTED_FORMATS[2] == ".png";
    assert ".png" in MIME_TYPES && MIME_TYPES[".png"] == "image/png";
  }

  /** Example: a ".png" file in any letter case is a supported PNG. */
  lemma PngExample(stem: string)
    requires stem != [] && stem[|stem| - 1] != '/'
    ensures IsSupportedFormat(stem + ".PNG") && GetMimeType(stem + ".PNG") == "image/png"
    ensures IsSupportedFormat(stem + ".png") && GetMimeType(stem + ".png") == "image/png"
  {
    LowerDotPng();
    ExtNameOfAppended(stem, ".PNG");
    PngExtension(stem + ".PNG");
    ExtNameOfAppended(stem, ".png");
    PngExtension(stem + ".png");
  }

  /** Example: ".bmp" is refused; only the default entry would apply to it. */
  lemma BmpExample(stem: string)
    requires stem != [] && stem[|stem| - 1] != '/'
    ensures !IsSupportedFormat(stem + ".bmp") && GetMimeType(stem + ".bmp") == DEFAULT_MIME_TYPE
  {
    LowerOfLowerCase(".bmp");
    assert ".bmp" !in SUPPORTED_FORMATS && ".bmp" !in MIME_TYPES by {
      assert forall e :: e in MIME_TYPES ==> e[1] != 'b';
    }
    ExtNameOfAppended(stem, ".bmp");
  }
}
