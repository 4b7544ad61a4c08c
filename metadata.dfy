/** The metadata codec.  Stored metadata is a list of `Info` records whose
    `name` packs a namespace, a keyword and a scheme into one string;
    bookizip metadata is a tree namespace -> keyword -> scheme -> values.
    `importBookFromFile` packs names with `EncodeKey`; `_format_metadata`
    unpacks them with the regular expression `key_re` (modelled by
    `DecodeKey`), rebuilds the tree with `add_metadata`, and fills in eight
    Dublin Core defaults. */
module Metadata {
  import opened Wrappers
  import opened Text

  /** The Dublin Core Metadata Element Set 1.1 namespace (`bookizip.DC`). */
  const DC: string := "http://purl.org/dc/elements/1.1/"

  /** One (namespace, keyword, scheme) slot of the tree. */
  datatype Bucket = Bucket(namespace: string, keyword: string, scheme: string)

  /** The bookizip metadata tree.  `bookizip.add_metadata`/`get_metadata` are
      not part of this model; they are taken to treat the tree as nested
      dictionaries whose leaves are lists of values. */
  type MetaTree = map<string, map<string, map<string, seq<string>>>>

  /** `get_metadata(metadata, keyword, namespace, scheme)`: the bucket's values, or none. */
  function Get(m: MetaTree, b: Bucket): seq<string> {
    if b.namespace in m && b.keyword in m[b.namespace] && b.scheme in m[b.namespace][b.keyword]
    then m[b.namespace][b.keyword][b.scheme]
    else []
  }

  /** `add_metadata(metadata, keyword, value, namespace, scheme)`: appends the
      value to its bucket and touches no other bucket. */
  function Add(m: MetaTree, b: Bucket, v: string): (r: MetaTree)
    ensures Get(r, b) == Get(m, b) + [v]
    ensures forall b' :: b' != b ==> Get(r, b') == Get(m, b')
  {
    var keywords := if b.namespace in m then m[b.namespace] else map[];
    var schemes := if b.keyword in keywords then keywords[b.keyword] else map[];
    var values := if b.scheme in schemes then schemes[b.scheme] else [];
    m[b.namespace := keywords[b.keyword := schemes[b.scheme := values + [v]]]]
  }

  /** The stored value of an `Info` record: `value_string` with kind 0 or
      `value_text` with kind 2. */
  datatype InfoValue = Short(s: string) | Long(s: string) {
    function Kind(): nat { if Short? then 0 else 2 }
  }

  /** A stored `Info` record.  `getValue()` is not part of this model; it is
      taken to return whichever of the two fields the kind selects. */
  datatype Info = Info(name: string, value: InfoValue)

  /** Values of 2500 code points or more go to the text field. */
  const LongValueLength: nat := 2500

  /** The record `importBookFromFile` saves for one value. */
  function MakeInfo(name: string, v: string): (r: Info)
    ensures r.name == name && r.value.s == v
    ensures r.value.Kind() == 2 <==> |v| >= LongValueLength
    ensures r.value.Kind() == 0 <==> |v| < LongValueLength
  {
    if |v| >= LongValueLength then Info(name, Long(v)) else Info(name, Short(v))
  }

  /** `'{%s}' % x if x else ''`. */
  function Braced(x: string): string {
    if x == "" then "" else "{" + x + "}"
  }

  /** The name `importBookFromFile` gives a value's record: the namespace in
      braces, the keyword, then the scheme, also in braces. */
  function EncodeKey(b: Bucket): string {
    Braced(b.namespace) + b.keyword + Braced(b.scheme)
  }

  // ---------------------------------------------------------------------
  // key_re = ^(?:\{([^}]*)\})?(.+)(?:\[([^}]*)\])?$ with Python's
  // backtracking: optional groups are tried present first, `.+` from its
  // longest extent down, `.` never matches a newline, and `$` matches at the
  // end or before a final newline.
  // ---------------------------------------------------------------------

  /** `$` holds at position `p`. */
  predicate AtEnd(k: string, p: nat) {
    p == |k| || (p + 1 == |k| && k[p] == '\n')
  }

  /** `([^}]*)\]$` after the `[` at `open`: the last position `c <= last` that
      holds `]` with `$` right after it.  `last` starts just before the first
      `}` after `open`, so the group never crosses a `}`. */
  function SchemeClose(k: string, open: nat, last: int): (r: Option<nat>)
    requires last < |k|
    ensures r.Some? ==> open < r.value <= last && k[r.value] == ']' && AtEnd(k, r.value + 1)
    decreases last
  {
    if last <= open then None
    else if k[last] == ']' && AtEnd(k, last + 1) then Some(last)
    else SchemeClose(k, open, last - 1)
  }

  /** How a match from `start` ends: the keyword `(.+)` is `k[start..kwEnd]`
      and, when the optional scheme group matched, it closes at `schemeEnd`. */
  datatype KeyMatch = KeyMatch(kwEnd: nat, schemeEnd: Option<nat>)

  /** Backtracking over the keyword's end `q`, longest first. */
  function KeywordFrom(k: string, start: nat, q: nat): (r: Option<KeyMatch>)
    requires start <= q <= |k|
    ensures r.Some? ==> start < r.value.kwEnd <= q
    ensures r.Some? && r.value.schemeEnd.Some? ==> r.value.kwEnd < r.value.schemeEnd.value < |k|
    decreases q
  {
    if q <= start then None
    else
      var withScheme := if q < |k| && k[q] == '[' then SchemeClose(k, q, FindFrom(k, '}', q + 1) - 1) else None;
      if withScheme.Some? then Some(KeyMatch(q, withScheme))
      else if AtEnd(k, q) then Some(KeyMatch(q, None))
      else KeywordFrom(k, start, q - 1)
  }

  /** The rest of the pattern, `(.+)(?:\[([^}]*)\])?$`, from `start`: the
      keyword and the scheme group (empty when it did not take part). */
  function MatchFrom(k: string, start: nat): Option<(string, string)>
    requires start <= |k|
  {
    match KeywordFrom(k, start, FindFrom(k, '\n', start))
    case None => None
    case Some(KeyMatch(q, None)) => Some((k[start..q], ""))
    case Some(KeyMatch(q, Some(c))) => Some((k[start..q], k[q + 1..c]))
  }

  /** `key_re.match(key)` followed by `m.groups('')`: the namespace group is
      tried first (up to the first `}`), and dropped when the rest cannot
      match after it. */
  function KeyRegexMatch(k: string): Option<Bucket> {
    var j := if |k| > 0 && k[0] == '{' then FindFrom(k, '}', 1) else |k|;
    var withNamespace := if j < |k| then MatchFrom(k, j + 1) else None;
    if withNamespace.Some? then Some(Bucket(k[1..j], withNamespace.value.0, withNamespace.value.1))
    else
      match MatchFrom(k, 0)
      case Some((kw, sc)) => Some(Bucket("", kw, sc))
      case None => None
  }

  /** The bucket `_format_metadata` files a record under: the match's groups,
      or the whole name as keyword when the pattern does not match. */
  function DecodeKey(k: string): (r: Bucket)
    ensures k != "" ==> r.keyword != ""
    ensures r.namespace != "" ==> |k| > 0 && k[0] == '{' && '}' !in r.namespace
  {
    match KeyRegexMatch(k)
    case Some(b) => b
    case None => Bucket("", k, "")
  }

  /** The name starts with `{...}` and has at least one character after the first `}`. */
  predicate HasNamespacePrefix(k: string) {
    |k| > 0 && k[0] == '{' && FindFrom(k, '}', 1) + 1 < |k|
  }

  lemma NoNewlineFindsEnd(k: string, start: nat)
    requires start <= |k| && '\n' !in k
    ensures FindFrom(k, '\n', start) == |k|
  {
  }

  /** On a name without newlines the greedy keyword group runs to the end, so
      the scheme group never takes part: a namespace is split off only when
      the name starts with `{...}` followed by at least one character, and
      any `[scheme]` suffix stays in the keyword.  An empty name, which the
      pattern does not match, gives the empty keyword. */
  lemma DecodeWithoutNewline(k: string)
    requires '\n' !in k
    ensures DecodeKey(k).scheme == ""
    ensures HasNamespacePrefix(k) ==>
              var j := FindFrom(k, '}', 1); DecodeKey(k) == Bucket(k[1..j], k[j + 1..], "")
    ensures !HasNamespacePrefix(k) ==> DecodeKey(k) == Bucket("", k, "")
  {
    var j := if |k| > 0 && k[0] == '{' then FindFrom(k, '}', 1) else |k|;
    if j < |k| {
      NoNewlineFindsEnd(k, j + 1);
    }
    NoNewlineFindsEnd(k, 0);
  }

  /** A name with a newline inside `[...]` is where backtracking lets the
      scheme group match: `a[x\ny]` decodes to keyword `a`, scheme `x\ny`. */
  lemma SchemeOnlyAcrossNewline()
    ensures DecodeKey("a[x\ny]") == Bucket("", "a", "x\ny")
  {
    var k := "a[x\ny]";
    assert FindFrom(k, '\n', 0) == 3;
    assert FindFrom(k, '}', 2) == 6;
    assert SchemeClose(k, 1, 5) == Some(5);
    assert KeywordFrom(k, 0, 1) == Some(KeyMatch(1, Some(5)));
    assert KeywordFrom(k, 0, 3) == Some(KeyMatch(1, Some(5)));
  }

  /** What survives a trip through the store: the name written on import
      decodes, on export, to the same namespace, but the scheme lands in the
      keyword, wrapped in braces, and the decoded scheme is empty. */
  lemma KeyRoundTrip(b: Bucket)
    requires '}' !in b.namespace
    requires '\n' !in b.namespace && '\n' !in b.keyword && '\n' !in b.scheme
    requires b.keyword != "" && b.keyword[0] != '{'
    ensures DecodeKey(EncodeKey(b)) == Bucket(b.namespace, b.keyword + Braced(b.scheme), "")
  {
    if b.namespace == "" {
      PlainKeyRoundTrip(b);
    } else {
      NamespacedKeyRoundTrip(b);
    }
  }

  /** `keyword{scheme}`: no namespace prefix, so the whole name is the keyword. */
  lemma PlainKeyRoundTrip(b: Bucket)
    requires b.namespace == ""
    requires '\n' !in b.keyword && '\n' !in b.scheme
    requires b.keyword != "" && b.keyword[0] != '{'
    ensures DecodeKey(EncodeKey(b)) == Bucket("", b.keyword + Braced(b.scheme), "")
  {
    var k := b.keyword + Braced(b.scheme);
    assert EncodeKey(b) == k;
    assert '\n' !in k && k[0] == b.keyword[0];
    DecodeWithoutNewline(k);
  }

  /** `{namespace}keyword{scheme}`: the namespace prefix is split off and the
      rest is the keyword. */
  lemma NamespacedKeyRoundTrip(b: Bucket)
    requires b.namespace != "" && '}' !in b.namespace
    requires '\n' !in b.namespace && '\n' !in b.keyword && '\n' !in b.scheme
    requires b.keyword != ""
    ensures DecodeKey(EncodeKey(b)) == Bucket(b.namespace, b.keyword + Braced(b.scheme), "")
  {
    var rest := b.keyword + Braced(b.scheme);
    var k := "{" + b.namespace + "}" + rest;
    assert EncodeKey(b) == k;
    assert '\n' !in k;
    NamespacedParts(b.namespace, rest);
    DecodeWithoutNewline(k);
  }


  /** In `{ns}rest` with no `}` in `ns`, the first `}` after the opening
      brace closes the namespace. */
  lemma NamespacedParts(ns: string, rest: string)
    requires '}' !in ns
    ensures var k := "{" + ns + "}" + rest;
            && |k| > |ns| + 1 && k[0] == '{'
            && FindFrom(k, '}', 1) == |ns| + 1
            && k[1..|ns| + 1] == ns && k[|ns| + 2..] == rest
  {
    var k := "{" + ns + "}" + rest;
    var n := |ns|;
    assert k[n + 1] == '}';
    assert k[1..n + 1] == ns;
    assert forall i :: 1 <= i < n + 1 ==> k[i] == ns[i - 1];
    FindFromAt(k, '}', 1, n + 1);
    assert k[n + 2..] == rest;
  }

  // ---------------------------------------------------------------------
  // _format_metadata
  // ---------------------------------------------------------------------

  /** What `_format_metadata` reads besides the records: the book's title and
      slug, its creation time, the days of its `BookHistory` rows newest
      first (`dates("modified", "day", order='DESC')`), the clock, all
      formatted as `%Y.%m.%d-%H.%M`, and the `DEFAULT_PUBLISHER` and
      `THIS_BOOKI_SERVER` settings. */
  datatype BookContext = BookContext(
    title: string, urlTitle: string,
    created: string, history: seq<string>, now: string,
    publisher: string, server: string)

  datatype Default = Default(bucket: Bucket, value: string)

  /** The eight defaults, in the source's order; the last-modified date is
      the newest history day, so there must be one. */
  function Defaults(ctx: BookContext): seq<Default>
    requires ctx.history != []
  {
    [ Default(Bucket(DC, "publisher", ""), ctx.publisher),
      Default(Bucket(DC, "language", ""), "en"),
      Default(Bucket(DC, "creator", ""), "The Contributors"),
      Default(Bucket(DC, "title", ""), ctx.title),
      Default(Bucket(DC, "date", "start"), ctx.created),
      Default(Bucket(DC, "date", "last-modified"), ctx.history[0]),
      Default(Bucket(DC, "date", "published"), ctx.now),
      Default(Bucket(DC, "identifier", "booki.cc"), "http://" + ctx.server + "/" + ctx.urlTitle + "/" + ctx.now) ]
  }

  predicate IsDefaultBucket(ctx: BookContext, b: Bucket)
    requires ctx.history != []
  {
    exists i :: 0 <= i < |Defaults(ctx)| && Defaults(ctx)[i].bucket == b
  }

  /** The values of the records whose names decode to `b`, in record order. */
  function Collected(records: seq<Info>, b: Bucket): seq<string> {
    if records == [] then []
    else
      var last := records[|records| - 1];
      Collected(records[..|records| - 1], b) + (if DecodeKey(last.name) == b then [last.value.s] else [])
  }

  /** What the default loop adds to bucket `b` after the records' values
      `collected`, having gone through `defs`: a default only when its bucket
      is still empty at its turn. */
  function Injected(defs: seq<Default>, b: Bucket, collected: seq<string>): seq<string> {
    if defs == [] then []
    else
      var d := defs[|defs| - 1];
      var before := Injected(defs[..|defs| - 1], b, collected);
      if d.bucket == b && collected + before == [] then before + [d.value] else before
  }

  /** The first loop of `_format_metadata`: every record's value is added
      to the bucket its name decodes to, so each bucket ends up holding the
      values of exactly the records filed under it, in record order. */
  method FileRecords(records: seq<Info>) returns (metadata: MetaTree)
    ensures forall b :: Get(metadata, b) == Collected(records, b)
  {
    metadata := map[];
    var i := 0;
    while i < |records|
      invariant 0 <= i <= |records|
      invariant forall b :: Get(metadata, b) == Collected(records[..i], b)
    {
      var item := records[i];
      metadata := Add(metadata, DecodeKey(item.name), item.value.s);
      assert records[..i + 1][..i] == records[..i];
      i := i + 1;
    }
    assert records[..|records|] == records;
  }

  /** One pass of the default loop keeps every bucket equal to the filed
      values followed by the defaults injected so far. */
  lemma InjectStep(filed: MetaTree, defs: seq<Default>, j: nat, m: MetaTree)
    requires j < |defs|
    requires forall b :: Get(m, b) == Get(filed, b) + Injected(defs[..j], b, Get(filed, b))
    ensures var m' := if Get(m, defs[j].bucket) == [] then Add(m, defs[j].bucket, defs[j].value) else m;
            forall b :: Get(m', b) == Get(filed, b) + Injected(defs[..j + 1], b, Get(filed, b))
  {
    assert defs[..j + 1][..j] == defs[..j];
  }

  /** The second loop of `_format_metadata`: each default is added only when
      its bucket is empty at its turn. */
  method InjectDefaults(filed: MetaTree, defs: seq<Default>) returns (metadata: MetaTree)
    ensures forall b :: Get(metadata, b) == Get(filed, b) + Injected(defs, b, Get(filed, b))
  {
    metadata := filed;
    var j := 0;
    while j < |defs|
      invariant 0 <= j <= |defs|
      invariant forall b :: Get(metadata, b) == Get(filed, b) + Injected(defs[..j], b, Get(filed, b))
    {
      var d := defs[j];
      InjectStep(filed, defs, j, metadata);
      if Get(metadata, d.bucket) == [] {
        metadata := Add(metadata, d.bucket, d.value);
      }
      j := j + 1;
    }
    assert defs[..|defs|] == defs;
  }

  /** `metadata` is what `_format_metadata` builds from `records`: every
      bucket holds its records' values, and each default bucket that no
      record fills holds its default. */
  ghost predicate FormattedFrom(records: seq<Info>, ctx: BookContext, metadata: MetaTree)
    requires ctx.history != []
  {
    && (forall b :: Collected(records, b) != [] ==> Get(metadata, b) == Collected(records, b))
    && (forall b :: !IsDefaultBucket(ctx, b) ==> Get(metadata, b) == Collected(records, b))
    && (forall i :: 0 <= i < |Defaults(ctx)| ==>
          Get(metadata, Defaults(ctx)[i].bucket)
          == (if Collected(records, Defaults(ctx)[i].bucket) == [] then [Defaults(ctx)[i].value]
              else Collected(records, Defaults(ctx)[i].bucket)))
  }

  /** `_format_metadata(book)`: the records' values filed by their decoded
      names, then each of the eight defaults added to its bucket only if that
      bucket is empty.  Buckets that had values, and buckets that are not
      default buckets, hold exactly the records' values; afterwards every
      default bucket holds at least one value.  `None` for a book without
      history rows, where taking the newest day raises `IndexError`. */
  method FormatMetadata(records: seq<Info>, ctx: BookContext) returns (r: Option<MetaTree>)
    ensures r.None? <==> ctx.history == []
    ensures r.Some? ==> forall b :: Collected(records, b) != [] ==> Get(r.value, b) == Collected(records, b)
    ensures r.Some? ==> forall b :: !IsDefaultBucket(ctx, b) ==> Get(r.value, b) == Collected(records, b)
    ensures r.Some? ==> forall i :: 0 <= i < |Defaults(ctx)| ==>
              Get(r.value, Defaults(ctx)[i].bucket)
              == (if Collected(records, Defaults(ctx)[i].bucket) == [] then [Defaults(ctx)[i].value]
                  else Collected(records, Defaults(ctx)[i].bucket))
    ensures r.Some? ==> forall i :: 0 <= i < |Defaults(ctx)| ==> Get(r.value, Defaults(ctx)[i].bucket) != []
  {
    if ctx.history == [] {
      return None;
    }
    var filed := FileRecords(records);
    var defs := Defaults(ctx);
    var metadata := InjectDefaults(filed, defs);
    forall b | Collected(records, b) != [] || !IsDefaultBucket(ctx, b)
      ensures Get(metadata, b) == Collected(records, b)
    {
      InjectedOnlyIntoEmptyDefaults(defs, b, Collected(records, b));
    }
    forall i | 0 <= i < |defs|
      ensures Get(metadata, defs[i].bucket)
              == (if Collected(records, defs[i].bucket) == [] then [defs[i].value] else Collected(records, defs[i].bucket))
    {
      DefaultsDistinct(ctx, i);
      InjectedDistinct(defs, i, Collected(records, defs[i].bucket));
    }
    r := Some(metadata);
  }

  /** Nothing is injected into a bucket that already has values or that is
      not one of the defaults. */
  lemma {:induction false} InjectedOnlyIntoEmptyDefaults(defs: seq<Default>, b: Bucket, collected: seq<string>)
    requires collected != [] || forall i :: 0 <= i < |defs| ==> defs[i].bucket != b
    ensures Injected(defs, b, collected) == []
    decreases |defs|
  {
    if defs != [] {
      InjectedOnlyIntoEmptyDefaults(defs[..|defs| - 1], b, collected);
    }
  }

  /** The eight default buckets are pairwise different. */
  lemma DefaultsDistinct(ctx: BookContext, i: nat)
    requires ctx.history != [] && i < |Defaults(ctx)|
    ensures forall j :: 0 <= j < |Defaults(ctx)| && j != i ==> Defaults(ctx)[j].bucket != Defaults(ctx)[i].bucket
  {
  }

  /** With pairwise different buckets, the i-th default is injected exactly
      when its bucket had no values. */
  lemma {:induction false} InjectedDistinct(defs: seq<Default>, i: nat, collected: seq<string>)
    requires i < |defs|
    requires forall j :: 0 <= j < |defs| && j != i ==> defs[j].bucket != defs[i].bucket
    ensures Injected(defs, defs[i].bucket, collected) == (if collected == [] then [defs[i].value] else [])
    decreases |defs|
  {
    var n := |defs| - 1;
    var init := defs[..n];
    if i < n {
      assert forall j :: 0 <= j < |init| ==> init[j] == defs[j];
      InjectedDistinct(init, i, collected);
      InjectedSkipsLast(defs, defs[i].bucket, collected);
    } else {
      InjectedIntoLast(defs, collected);
    }
  }

  /** A last default for another bucket injects nothing into `b`. */
  lemma InjectedSkipsLast(defs: seq<Default>, b: Bucket, collected: seq<string>)
    requires defs != [] && defs[|defs| - 1].bucket != b
    ensures Injected(defs, b, collected) == Injected(defs[..|defs| - 1], b, collected)
  {
  }

  /** The only default for its bucket, coming last, is injected exactly when
      nothing was collected for that bucket. */
  lemma InjectedIntoLast(defs: seq<Default>, collected: seq<string>)
    requires defs != []
    requires forall j :: 0 <= j < |defs| - 1 ==> defs[j].bucket != defs[|defs| - 1].bucket
    ensures Injected(defs, defs[|defs| - 1].bucket, collected) == (if collected == [] then [defs[|defs| - 1].value] else [])
  {
    var init := defs[..|defs| - 1];
    assert forall j :: 0 <= j < |init| ==> init[j] == defs[j];
    InjectedOnlyIntoEmptyDefaults(init, defs[|defs| - 1].bucket, collected);
  }
}
