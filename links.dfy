/** The export-side link normalizer: `flatten` inside `_fix_content`, with
    the library functions it is built from (`urlparse.urlsplit`,
    `urlparse.urlunsplit`, `posixpath.join` and `posixpath.normpath` of
    Python 2.7), and what `_fix_content` returns. */
module Links {
  import opened Wrappers
  import opened Text

  // ---------------------------------------------------------------------
  // urlsplit / urlunsplit
  // ---------------------------------------------------------------------

  /** The five components `urlsplit` returns. */
  datatype SplitUrl = SplitUrl(scheme: string, netloc: string, path: string, query: string, fragment: string)

  /** `urlsplit` raises `ValueError("Invalid IPv6 URL")` for a network
      location with an unmatched bracket. */
  datatype UrlError = InvalidIPv6Url

  /** `urlparse.scheme_chars`. */
  predicate IsSchemeChar(c: char) {
    'a' <= c <= 'z' || 'A' <= c <= 'Z' || '0' <= c <= '9' || c == '+' || c == '-' || c == '.'
  }

  /** `url[:i]` is taken as the scheme: `http` always (the fast path), any
      other run of scheme characters unless what follows the colon is a
      non-empty run of digits (a port number). */
  predicate TakesScheme(url: string, i: nat)
    requires 0 < i < |url|
  {
    url[..i] == "http"
    || ((forall j :: 0 <= j < i ==> IsSchemeChar(url[j]))
        && (i + 1 == |url| || exists j :: i + 1 <= j < |url| && !IsDigit(url[j])))
  }

  /** The earliest of `/`, `?` and `#` at or after 2, or the end (`_splitnetloc(url, 2)`). */
  function NetlocEnd(url: string): (r: nat)
    requires |url| >= 2
    ensures 2 <= r <= |url|
  {
    var a, b, c := FindFrom(url, '/', 2), FindFrom(url, '?', 2), FindFrom(url, '#', 2);
    if a <= b && a <= c then a else if b <= c then b else c
  }

  /** Everything after the scheme: network location, then `#fragment`, then `?query`. */
  function SplitRest(scheme: string, url: string): Result<SplitUrl, UrlError> {
    var hasNetloc := |url| >= 2 && url[..2] == "//";
    var netloc := if hasNetloc then url[2..NetlocEnd(url)] else "";
    var rest := if hasNetloc then url[NetlocEnd(url)..] else url;
    if ('[' in netloc && ']' !in netloc) || (']' in netloc && '[' !in netloc) then Failure(InvalidIPv6Url)
    else
      var h := FindFrom(rest, '#', 0);
      var beforeFragment := rest[..h];
      var fragment := if h < |rest| then rest[h + 1..] else "";
      var q := FindFrom(beforeFragment, '?', 0);
      var query := if q < |beforeFragment| then beforeFragment[q + 1..] else "";
      Success(SplitUrl(scheme, netloc, beforeFragment[..q], query, fragment))
  }

  /** `urlparse.urlsplit(url)` (Python 2.7). */
  function UrlSplit(url: string): Result<SplitUrl, UrlError> {
    var i := FindFrom(url, ':', 0);
    if 0 < i < |url| && TakesScheme(url, i) then SplitRest(AsciiLower(url[..i]), url[i + 1..])
    else SplitRest("", url)
  }

  /** `urlunsplit(('', '', path, query, fragment))`. */
  function UnsplitRelative(path: string, query: string, fragment: string): string {
    path + (if query != "" then "?" + query else "") + (if fragment != "" then "#" + fragment else "")
  }

  // ---------------------------------------------------------------------
  // posixpath.join / posixpath.normpath
  // ---------------------------------------------------------------------

  /** `posixpath.join(a, b)`. */
  function PathJoin(a: string, b: string): string {
    if StartsWith(b, "/") then b
    else if a == "" || a[|a| - 1] == '/' then a + b
    else a + "/" + b
  }

  /** One step of normpath's component loop over the kept components `acc`. */
  function NormStep(acc: seq<string>, comp: string, rooted: bool): seq<string> {
    if comp == "" || comp == "." then acc
    else if comp != ".." || (!rooted && acc == []) || (acc != [] && acc[|acc| - 1] == "..") then acc + [comp]
    else if acc != [] then acc[..|acc| - 1]
    else acc
  }

  function NormComps(comps: seq<string>, rooted: bool, acc: seq<string>): seq<string>
    decreases |comps|
  {
    if comps == [] then acc else NormComps(comps[1..], rooted, NormStep(acc, comps[0], rooted))
  }

  /** How many leading slashes normpath keeps: one, or two for exactly two. */
  function InitialSlashes(path: string): nat {
    if !StartsWith(path, "/") then 0
    else if StartsWith(path, "//") && !StartsWith(path, "///") then 2
    else 1
  }

  /** `posixpath.normpath(path)`. */
  function NormPath(path: string): string {
    if path == "" then "."
    else
      var slashes := InitialSlashes(path);
      var kept := NormComps(Split(path, '/'), slashes > 0, []);
      var r := (if slashes == 2 then "//" else if slashes == 1 then "/" else "") + Join(kept, '/');
      if r == "" then "." else r
  }

  /** A component normpath keeps as it is. */
  predicate PlainComponent(c: string) {
    c != "" && c != "." && c != ".." && '/' !in c
  }

  predicate AllPlain(cs: seq<string>) {
    forall i :: 0 <= i < |cs| ==> PlainComponent(cs[i])
  }

  lemma {:induction false} NormCompsPlain(cs: seq<string>, rooted: bool, acc: seq<string>)
    requires AllPlain(cs)
    ensures NormComps(cs, rooted, acc) == acc + cs
    decreases |cs|
  {
    if cs != [] {
      NormCompsPlain(cs[1..], rooted, acc + [cs[0]]);
      assert acc + [cs[0]] + cs[1..] == acc + cs;
    } else {
      assert acc + cs == acc;
    }
  }

  /** A rooted path keeps no `..` component: there is never one at the end of the kept list to stack on. */
  lemma {:induction false} NormCompsRootedPlain(cs: seq<string>, acc: seq<string>)
    requires forall i :: 0 <= i < |cs| ==> '/' !in cs[i]
    requires AllPlain(acc)
    ensures AllPlain(NormComps(cs, true, acc))
    decreases |cs|
  {
    if cs != [] {
      NormCompsRootedPlain(cs[1..], NormStep(acc, cs[0], true));
    }
  }

  lemma SplitLeadingSlash(s: string)
    ensures Split("/" + s, '/') == [""] + Split(s, '/')
  {
    var t := "/" + s;
    assert FindFrom(t, '/', 0) == 0;
    assert t[1..] == s;
  }

  /** A join starts with the first character of its first part. */
  lemma JoinFirstChar(cs: seq<string>)
    requires cs != [] && cs[0] != ""
    ensures |Join(cs, '/')| > 0 && Join(cs, '/')[0] == cs[0][0]
  {
    if |cs| > 1 {
      assert Join(cs, '/') == cs[0] + ['/'] + Join(cs[1..], '/');
    }
  }

  /** The leading slashes normpath puts back. */
  function Lead(n: nat): string {
    if n == 2 then "//" else if n == 1 then "/" else ""
  }

  /** Dropping the empty component in front of a rooted path's pieces. */
  lemma NormCompsSkipsEmpty(x: seq<string>)
    ensures NormComps([""] + x, true, []) == NormComps(x, true, [])
  {
    assert ([""] + x)[1..] == x;
  }

  /** The pieces of `Join(cs)` that normpath keeps, when every component is plain. */
  lemma NormCompsOfJoin(cs: seq<string>)
    requires AllPlain(cs)
    ensures NormComps(Split(Join(cs, '/'), '/'), true, []) == cs
  {
    if cs == [] {
      assert Split("", '/') == [""];
      assert NormComps([""], true, []) == NormComps([], true, []);
    } else {
      SplitJoin(cs, '/');
      NormCompsPlain(cs, true, []);
    }
  }

  /** normpath of a rooted path, from its leading slashes and kept components. */
  lemma NormPathFromParts(s: string, n: nat, cs: seq<string>)
    requires InitialSlashes(s) == n && (n == 1 || n == 2)
    requires NormComps(Split(s, '/'), true, []) == cs
    ensures NormPath(s) == Lead(n) + Join(cs, '/')
  {
  }

  /** What normpath reads from `/` + a join of plain components. */
  lemma OneSlashParts(cs: seq<string>)
    requires AllPlain(cs)
    ensures InitialSlashes("/" + Join(cs, '/')) == 1
    ensures NormComps(Split("/" + Join(cs, '/'), '/'), true, []) == cs
  {
    var j := Join(cs, '/');
    var s := "/" + j;
    assert j != "" ==> j[0] != '/' by {
      if cs != [] {
        JoinFirstChar(cs);
      }
    }
    assert !StartsWith(s, "//") by {
      if |s| >= 2 { assert s[1] == j[0]; }
    }
    assert Split(s, '/') == [""] + Split(j, '/') by {
      SplitLeadingSlash(j);
    }
    NormCompsSkipsEmpty(Split(j, '/'));
    NormCompsOfJoin(cs);
  }

  /** What normpath reads from `//` + a join of plain components. */
  lemma TwoSlashParts(cs: seq<string>)
    requires AllPlain(cs)
    ensures InitialSlashes("//" + Join(cs, '/')) == 2
    ensures NormComps(Split("//" + Join(cs, '/'), '/'), true, []) == cs
  {
    var j := Join(cs, '/');
    var s := "//" + j;
    assert j != "" ==> j[0] != '/' by {
      if cs != [] {
        JoinFirstChar(cs);
      }
    }
    assert s[..2] == "//";
    assert !StartsWith(s, "///") by {
      if |s| >= 3 { assert s[2] == j[0]; }
    }
    assert Split(s, '/') == [""] + ([""] + Split(j, '/')) by {
      assert s == "/" + ("/" + j);
      SplitLeadingSlash("/" + j);
      SplitLeadingSlash(j);
    }
    NormCompsSkipsEmpty([""] + Split(j, '/'));
    NormCompsSkipsEmpty(Split(j, '/'));
    NormCompsOfJoin(cs);
  }

  /** A rooted path normpath has already normalised is left as it is. */
  lemma NormPathOfNormal(n: nat, cs: seq<string>)
    requires n == 1 || n == 2
    requires AllPlain(cs)
    ensures NormPath(Lead(n) + Join(cs, '/')) == Lead(n) + Join(cs, '/')
  {
    if n == 2 {
      TwoSlashParts(cs);
    } else {
      OneSlashParts(cs);
    }
    NormPathFromParts(Lead(n) + Join(cs, '/'), n, cs);
  }

  /** normpath of a rooted path: one or two leading slashes, then plain components. */
  lemma NormPathShape(path: string)
    requires StartsWith(path, "/")
    ensures var n := InitialSlashes(path);
            && (n == 1 || n == 2)
            && AllPlain(NormComps(Split(path, '/'), true, []))
            && NormPath(path) == Lead(n) + Join(NormComps(Split(path, '/'), true, []), '/')
  {
    NormCompsRootedPlain(Split(path, '/'), []);
  }

  /** The result of normalising an absolute path is already normal. */
  lemma NormPathIdempotent(path: string)
    requires StartsWith(path, "/")
    ensures NormPath(NormPath(path)) == NormPath(path)
  {
    NormPathShape(path);
    NormPathOfNormal(InitialSlashes(path), NormComps(Split(path, '/'), true, []));
  }

  // ---------------------------------------------------------------------
  // flatten and _fix_content
  // ---------------------------------------------------------------------

  /** `flatten(url, prefix)` for a chapter with slug `chapterSlug` in a book
      with slug `bookSlug`: a URL with a scheme is kept; otherwise its path
      is resolved against `here = /book/chapter`, and when the result starts
      with `/book/` + `prefix` the `/book/` part is cut off and the query
      and fragment are put back; anything else is kept as it was. */
  function Flatten(bookSlug: string, chapterSlug: string, url: string, prefix: string): (r: Result<string, UrlError>)
    ensures r.Failure? <==> UrlSplit(url).Failure?
    ensures r.Failure? ==> r.error == UrlSplit(url).error
  {
    var base := "/" + bookSlug + "/";
    match UrlSplit(url)
    case Failure(e) => Failure(e)
    case Success(parts) =>
      if parts.scheme != "" then Success(url)
      else
        var path := Resolved(bookSlug, chapterSlug, parts.path);
        if !StartsWith(path, base + prefix) then Success(url)
        else Success(UnsplitRelative(path[|base|..], parts.query, parts.fragment))
  }

  /** `normpath(join(here, path))` with `here = /book/chapter`. */
  function Resolved(bookSlug: string, chapterSlug: string, path: string): string {
    NormPath(PathJoin("/" + bookSlug + "/" + chapterSlug, path))
  }

  /** A URL with a scheme (`http:`, `mailto:`, `ftp:`, ...) is kept as it is. */
  lemma FlattenKeepsScheme(bookSlug: string, chapterSlug: string, url: string, prefix: string)
    requires UrlSplit(url).Success? && UrlSplit(url).value.scheme != ""
    ensures Flatten(bookSlug, chapterSlug, url, prefix) == Success(url)
  {
  }

  /** A relative URL whose resolved path lies outside `/book/` + `prefix`
      (`../../outside/page`, say) is kept as it is. */
  lemma FlattenOutside(bookSlug: string, chapterSlug: string, url: string, prefix: string)
    requires UrlSplit(url).Success? && UrlSplit(url).value.scheme == ""
    requires !StartsWith(Resolved(bookSlug, chapterSlug, UrlSplit(url).value.path), "/" + bookSlug + "/" + prefix)
    ensures Flatten(bookSlug, chapterSlug, url, prefix) == Success(url)
  {
  }

  /** A relative URL whose resolved path lies inside `/book/` + `prefix`
      becomes that path relative to the book's folder, followed by the
      query and the fragment: read from `/book/`, it names the same path,
      and it starts with `prefix`. */
  lemma FlattenInside(bookSlug: string, chapterSlug: string, url: string, prefix: string)
    requires UrlSplit(url).Success? && UrlSplit(url).value.scheme == ""
    requires StartsWith(Resolved(bookSlug, chapterSlug, UrlSplit(url).value.path), "/" + bookSlug + "/" + prefix)
    ensures var parts := UrlSplit(url).value;
            var path := Resolved(bookSlug, chapterSlug, parts.path);
            var base := "/" + bookSlug + "/";
            && |base| <= |path|
            && Flatten(bookSlug, chapterSlug, url, prefix) == Success(UnsplitRelative(path[|base|..], parts.query, parts.fragment))
            && base + path[|base|..] == path
            && StartsWith(path[|base|..], prefix)
  {
    var parts := UrlSplit(url).value;
    StripBase(Resolved(bookSlug, chapterSlug, parts.path), "/" + bookSlug + "/", prefix);
  }

  /** A path that starts with `base + prefix` is `base` followed by a rest that starts with `prefix`. */
  lemma StripBase(path: string, base: string, prefix: string)
    requires StartsWith(path, base + prefix)
    ensures |base| <= |path| && base + path[|base|..] == path && StartsWith(path[|base|..], prefix)
  {
    assert path[..|base|] == (base + prefix)[..|base|];
    assert path == path[..|base|] + path[|base|..];
    assert path[|base|..][..|prefix|] == (base + prefix)[|base|..];
  }

  /** The prefix `_fix_content` passes for `src` attributes. */
  const SrcPrefix: string := "static"

  /** A relative path in normal form: plain components separated by single slashes. */
  predicate NormalRelative(p: string) {
    p != "" && AllPlain(Split(p, '/'))
  }

  lemma NoCharFindsEnd(s: string, c: char)
    requires c !in s
    ensures FindFrom(s, c, 0) == |s|
  {
  }

  /** `../P` with no `?` or `#` splits into a bare path. */
  lemma SplitDotDot(p: string)
    requires '?' !in p && '#' !in p
    ensures UrlSplit("../" + p) == Success(SplitUrl("", "", "../" + p, "", ""))
  {
    var url := "../" + p;
    var i := FindFrom(url, ':', 0);
    assert !(0 < i < |url| && TakesScheme(url, i)) by {
      if 0 < i < |url| {
        assert url[2] == '/' && !IsSchemeChar(url[2]);
        assert url[..i] != "http" by {
          assert url[0] == '.';
        }
      }
    }
    assert url[..2] != "//" by {
      assert url[0] == '.';
    }
    assert FindFrom(url, '#', 0) == |url| && FindFrom(url, '?', 0) == |url| by {
      assert '#' !in url && '?' !in url;
      NoCharFindsEnd(url, '#');
      NoCharFindsEnd(url, '?');
    }
    assert url[..|url|] == url;
  }

  lemma JoinCons(x: string, rest: seq<string>)
    requires rest != []
    ensures Join([x] + rest, '/') == x + "/" + Join(rest, '/')
  {
    assert ([x] + rest)[1..] == rest;
  }

  /** `join('/book/chapter', '../P')`, as components. */
  lemma JoinDotDot(bookSlug: string, chapterSlug: string, p: string)
    requires PlainComponent(bookSlug) && PlainComponent(chapterSlug)
    ensures PathJoin("/" + bookSlug + "/" + chapterSlug, "../" + p)
            == "/" + Join([bookSlug, chapterSlug, ".."] + Split(p, '/'), '/')
  {
    var cs := Split(p, '/');
    var here := "/" + bookSlug + "/" + chapterSlug;
    var tail := "../" + p;
    assert PathJoin(here, tail) == here + "/" + tail by {
      assert here[|here| - 1] == chapterSlug[|chapterSlug| - 1];
      assert tail[0] == '.';
    }
    assert Join([".."] + cs, '/') == tail by {
      JoinCons("..", cs);
    }
    assert Join([chapterSlug] + ([".."] + cs), '/') == chapterSlug + "/" + tail by {
      JoinCons(chapterSlug, [".."] + cs);
    }
    assert Join([bookSlug] + ([chapterSlug] + ([".."] + cs)), '/') == bookSlug + "/" + (chapterSlug + "/" + tail) by {
      JoinCons(bookSlug, [chapterSlug] + ([".."] + cs));
    }
    assert [bookSlug, chapterSlug, ".."] + cs == [bookSlug] + ([chapterSlug] + ([".."] + cs));
    assert "/" + (bookSlug + "/" + (chapterSlug + "/" + tail)) == here + "/" + tail;
  }

  /** One component of normpath's loop. */
  lemma NormCompsCons(x: string, rest: seq<string>, rooted: bool, acc: seq<string>)
    ensures NormComps([x] + rest, rooted, acc) == NormComps(rest, rooted, NormStep(acc, x, rooted))
  {
    assert ([x] + rest)[1..] == rest;
  }

  /** The components normpath keeps of `/book/chapter/../P`. */
  lemma NormCompsDotDot(bookSlug: string, chapterSlug: string, cs: seq<string>)
    requires PlainComponent(bookSlug) && PlainComponent(chapterSlug) && AllPlain(cs)
    ensures NormComps([""] + ([bookSlug, chapterSlug, ".."] + cs), true, []) == [bookSlug] + cs
  {
    var l := [bookSlug, chapterSlug, ".."] + cs;
    assert l == [bookSlug] + ([chapterSlug] + ([".."] + cs));
    NormCompsSkipsEmpty(l);
    assert NormComps(l, true, []) == NormComps([chapterSlug] + ([".."] + cs), true, [bookSlug]) by {
      NormCompsCons(bookSlug, [chapterSlug] + ([".."] + cs), true, []);
      assert NormStep([], bookSlug, true) == [bookSlug];
    }
    assert NormComps([chapterSlug] + ([".."] + cs), true, [bookSlug]) == NormComps([".."] + cs, true, [bookSlug, chapterSlug]) by {
      NormCompsCons(chapterSlug, [".."] + cs, true, [bookSlug]);
      assert NormStep([bookSlug], chapterSlug, true) == [bookSlug, chapterSlug];
    }
    assert NormComps([".."] + cs, true, [bookSlug, chapterSlug]) == NormComps(cs, true, [bookSlug]) by {
      NormCompsCons("..", cs, true, [bookSlug, chapterSlug]);
      assert NormStep([bookSlug, chapterSlug], "..", true) == [bookSlug];
    }
    NormCompsPlain(cs, true, [bookSlug]);
  }

  /** `/` + a join of plain-free components: one leading slash, and the
      components come back from `split`. */
  lemma RootedJoin(l: seq<string>)
    requires l != [] && l[0] != "" && l[0][0] != '/'
    requires forall i :: 0 <= i < |l| ==> '/' !in l[i]
    ensures InitialSlashes("/" + Join(l, '/')) == 1
    ensures Split("/" + Join(l, '/'), '/') == [""] + l
  {
    var j := Join(l, '/');
    assert |j| > 0 && j[0] != '/' by {
      JoinFirstChar(l);
    }
    assert ("/" + j)[1] == j[0];
    assert Split("/" + j, '/') == [""] + Split(j, '/') by {
      SplitLeadingSlash(j);
    }
    SplitJoin(l, '/');
  }

  /** normpath cancels the chapter slug against the `..`. */
  lemma NormDotDot(bookSlug: string, chapterSlug: string, p: string)
    requires PlainComponent(bookSlug) && PlainComponent(chapterSlug) && NormalRelative(p)
    ensures NormPath("/" + Join([bookSlug, chapterSlug, ".."] + Split(p, '/'), '/')) == "/" + bookSlug + "/" + p
  {
    var cs := Split(p, '/');
    var l := [bookSlug, chapterSlug, ".."] + cs;
    assert forall i :: 0 <= i < |l| ==> '/' !in l[i] by {
      forall i | 0 <= i < |l| ensures '/' !in l[i] {
        if i >= 3 { assert l[i] == cs[i - 3]; }
      }
    }
    RootedJoin(l);
    NormCompsDotDot(bookSlug, chapterSlug, cs);
    JoinCons(bookSlug, cs);
  }

  /** `join('/book/chapter', '../P')` normalises to `/book/P`. */
  lemma ResolveDotDot(bookSlug: string, chapterSlug: string, p: string)
    requires PlainComponent(bookSlug) && PlainComponent(chapterSlug) && NormalRelative(p)
    ensures NormPath(PathJoin("/" + bookSlug + "/" + chapterSlug, "../" + p)) == "/" + bookSlug + "/" + p
  {
    JoinDotDot(bookSlug, chapterSlug, p);
    NormDotDot(bookSlug, chapterSlug, p);
  }

  /** A common first part does not change a prefix test. */
  lemma StartsWithAfter(base: string, p: string, prefix: string)
    ensures StartsWith(base + p, base + prefix) <==> StartsWith(p, prefix)
  {
    if |prefix| <= |p| {
      assert (base + p)[..|base + prefix|] == base + p[..|prefix|];
    }
    if StartsWith(base + p, base + prefix) {
      assert p[..|prefix|] == (base + p)[|base|..|base + prefix|];
      assert (base + prefix)[|base|..] == prefix;
    }
  }

  /** `flatten` on a reference of the form `../P`, the form the import
      rewrite gives `src` values: inside any chapter it gives back `P` when
      `P` starts with the prefix, and leaves the reference alone otherwise.
      This is a property of `flatten` alone: `_fix_content` discards what
      `flatten` computes. */
  lemma FlattenUndoesImportPrefix(bookSlug: string, chapterSlug: string, p: string, prefix: string)
    requires PlainComponent(bookSlug) && PlainComponent(chapterSlug)
    requires NormalRelative(p) && '?' !in p && '#' !in p
    ensures Flatten(bookSlug, chapterSlug, "../" + p, prefix)
            == Success(if StartsWith(p, prefix) then p else "../" + p)
  {
    var base := "/" + bookSlug + "/";
    var url := "../" + p;
    SplitDotDot(p);
    var path := NormPath(PathJoin(base + chapterSlug, url));
    assert path == base + p by {
      ResolveDotDot(bookSlug, chapterSlug, p);
    }
    assert StartsWith(path, base + prefix) <==> StartsWith(p, prefix) by {
      StartsWithAfter(base, p, prefix);
    }
    assert path[|base|..] == p;
    assert UnsplitRelative(p, "", "") == p;
  }

  /** Every URL that begins with `http:` takes the scheme `http`, so
      `flatten` keeps it as it is, unless `urlsplit` raises on its network
      location. */
  lemma FlattenKeepsHttp(bookSlug: string, chapterSlug: string, rest: string, prefix: string)
    ensures UrlSplit("http:" + rest) == SplitRest("http", rest)
    ensures Flatten(bookSlug, chapterSlug, "http:" + rest, prefix)
            == if SplitRest("http", rest).Failure? then Failure(InvalidIPv6Url) else Success("http:" + rest)
  {
    var url := "http:" + rest;
    assert FindFrom(url, ':', 0) == 4 by {
      assert url[4] == ':';
      assert url[0] != ':' && url[1] != ':' && url[2] != ':' && url[3] != ':';
    }
    assert url[..4] == "http" && url[5..] == rest;
    assert AsciiLower("http") == "http";
  }

  /** The placeholder `_fix_content` returns for a chapter with no content. */
  const NoContent: string := "<body><!--no content!--></body>"

  /** What `_fix_content(book, chapter)` returns when it does not raise:
      the stored content as it is, or the placeholder when it is empty, so
      an exported chapter is never empty.  The edits `flatten` makes to the
      lxml tree, and the `expand_authors` result, are thrown away. */
  function FixedContent(content: string): (r: string)
    ensures r != ""
    ensures content != "" ==> r == content
    ensures content == "" ==> r == NoContent
  {
    if content == "" then NoContent else content
  }

  /** A link attribute of the parsed chapter: a `src` value, flattened with
      the prefix `static`, or an `href` value, flattened with the prefix `''`. */
  datatype LinkAttr = Src(url: string) | Href(url: string)

  function LinkPrefix(a: LinkAttr): string {
    if a.Src? then SrcPrefix else ""
  }

  /** What lxml makes of a chapter's (non-empty) content: whether
      `document_fromstring` builds a document (it raises for content with no
      element in it, such as white space only), and the `src` and `href`
      values of the elements in `tree.iter()` order, an element's `src`
      before its `href`. */
  datatype ParsedPage = ParsedPage(parses: bool, links: seq<LinkAttr>)

  /** Why `_fix_content` raises: lxml's parser error, or the `ValueError`
      `urlsplit` raises inside `flatten` for the link at position `link`. */
  datatype FixError = ParserError | LinkError(link: nat, error: UrlError)

  /** Whether `urlsplit` accepts each link. */
  function Acceptance(links: seq<LinkAttr>): (r: seq<bool>)
    ensures |r| == |links|
  {
    if links == [] then [] else [UrlSplit(links[0].url).Success?] + Acceptance(links[1..])
  }

  lemma {:induction false} AcceptanceAt(links: seq<LinkAttr>, j: nat)
    requires j < |links|
    ensures Acceptance(links)[j] == UrlSplit(links[j].url).Success?
  {
    if j > 0 {
      AcceptanceAt(links[1..], j - 1);
      assert links[1..][j - 1] == links[j];
    }
  }

  /** The first position from `i` on whose entry is `false`. */
  function FirstRejected(oks: seq<bool>, i: nat): (r: Option<nat>)
    requires i <= |oks|
    ensures r.Some? ==> i <= r.value < |oks|
    decreases |oks| - i
  {
    if i == |oks| then None
    else if !oks[i] then Some(i)
    else FirstRejected(oks, i + 1)
  }

  /** `FirstRejected` finds the first `false` from `i` on, and finds none
      exactly when there is none. */
  lemma {:induction false} FirstRejectedExact(oks: seq<bool>, i: nat)
    requires i <= |oks|
    ensures var r := FirstRejected(oks, i);
            && (r.Some? ==> !oks[r.value] && forall j :: i <= j < r.value ==> oks[j])
            && (r.None? <==> forall j :: i <= j < |oks| ==> oks[j])
    decreases |oks| - i
  {
    if i < |oks| && oks[i] {
      FirstRejectedExact(oks, i + 1);
    }
  }

  /** The walk over the links from `i` on: the `ValueError` of the first
      link `urlsplit` rejects, if any. */
  function LinksOutcome(links: seq<LinkAttr>, i: nat): Option<FixError>
    requires i <= |links|
    decreases |links| - i
  {
    if i == |links| then None
    else match UrlSplit(links[i].url)
      case Failure(e) => Some(LinkError(i, e))
      case Success(_) => LinksOutcome(links, i + 1)
  }

  /** The walk stops at the first `false` of `Acceptance`, with that link's error. */
  lemma {:induction false} LinksOutcomeStops(links: seq<LinkAttr>, i: nat)
    requires i <= |links|
    ensures var r, f := LinksOutcome(links, i), FirstRejected(Acceptance(links), i);
            && (r.Some? <==> f.Some?)
            && (r.Some? ==> r.value.LinkError? && r.value.link == f.value
                            && UrlSplit(links[f.value].url) == Failure(r.value.error))
    decreases |links| - i
  {
    if i < |links| {
      AcceptanceAt(links, i);
      if UrlSplit(links[i].url).Success? {
        LinksOutcomeStops(links, i + 1);
      }
    }
  }

  /** The outcome of `_fix_content`: the placeholder for empty content
      (before any parsing); otherwise the parser error, or the `ValueError`
      of the first link `urlsplit` rejects, or the content as it is. */
  function FixOutcome(content: string, page: ParsedPage): Result<string, FixError> {
    if content == "" then Success(NoContent)
    else if !page.parses then Failure(ParserError)
    else match LinksOutcome(page.links, 0)
      case Some(e) => Failure(e)
      case None => Success(content)
  }

  /** `_fix_content` raises exactly when the content is not empty and either
      lxml finds no document or some link makes `urlsplit` raise; the
      `ValueError` is that of the first such link; without a raise the
      result is the content as it is, or the placeholder. */
  lemma FixOutcomeExact(content: string, page: ParsedPage)
    ensures var r := FixOutcome(content, page);
            && (r.Success? <==> content == "" || (page.parses && forall j :: 0 <= j < |page.links| ==> UrlSplit(page.links[j].url).Success?))
            && (r.Success? ==> r.value == FixedContent(content))
            && (r.Failure? && r.error.LinkError? ==>
                  && content != "" && page.parses
                  && r.error.link < |page.links|
                  && UrlSplit(page.links[r.error.link].url) == Failure(r.error.error)
                  && forall j :: 0 <= j < r.error.link ==> UrlSplit(page.links[j].url).Success?)
  {
    FirstRejectedExact(Acceptance(page.links), 0);
    LinksOutcomeStops(page.links, 0);
    forall j | 0 <= j < |page.links|
      ensures Acceptance(page.links)[j] == UrlSplit(page.links[j].url).Success?
    {
      AcceptanceAt(page.links, j);
    }
  }

  /** `_fix_content(book, chapter)` for a chapter with slug `chapterSlug` in
      a book with slug `bookSlug`: the walk over the tree runs `flatten` on
      every link in turn and stops at the first one that raises; the values
      it writes back into the tree are thrown away. */
  method FixContent(bookSlug: string, chapterSlug: string, content: string, page: ParsedPage) returns (r: Result<string, FixError>)
    ensures r == FixOutcome(content, page)
  {
    if content == "" {
      return Success(NoContent);
    }
    if !page.parses {
      return Failure(ParserError);
    }
    var i := 0;
    while i < |page.links|
      invariant i <= |page.links|
      invariant LinksOutcome(page.links, 0) == LinksOutcome(page.links, i)
    {
      var a := page.links[i];
      var flat := Flatten(bookSlug, chapterSlug, a.url, LinkPrefix(a));
      if flat.Failure? {
        return Failure(LinkError(i, flat.error));
      }
      i := i + 1;
    }
    return Success(content);
  }
}
