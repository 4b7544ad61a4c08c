/** `exportBook` with the zip writer, the database and the file system
    taken out: from the `BookToc` rows in `order_by("-weight")` order, the
    `Info` records and the attachment files it computes the bookizip TOC,
    the spine, the metadata tree and the package entries. */
module BookExport {
  import opened Wrappers
  import opened Text
  import opened Toc
  import opened Metadata
  import opened Links
  import BookImport

  /** A `BookToc` row as the export loop reads it: a chapter (title, slug,
      stored content, and what lxml makes of that content) or a section
      (its name). */
  datatype ExportItem = ChapterItem(title: string, urlTitle: string, content: string, page: ParsedPage) | SectionItem(title: string)

  /** An entry of the bookizip package: ID, path, content and media type. */
  datatype PackageItem = PackageItem(id: string, path: string, content: string, mediaType: string)

  const HtmlType: string := "text/html"

  /** Why `exportBook` raises: `_fix_content` on the chapter at position
      `row`, or `MEDIATYPES[key]` for an attachment's extension. */
  datatype ExportError =
    | NoHistory
    | ContentError(row: nat, error: FixError)
    | UnknownExtension(key: Option<string>)

  // ---------------------------------------------------------------------
  // Chapter IDs
  // ---------------------------------------------------------------------

  /** `"ch%03d_%s" % (i, url_title)`. */
  function ChapterId(i: nat, urlTitle: string): string {
    "ch" + Pad3(i) + "_" + urlTitle
  }

  function ChapterFile(i: nat, urlTitle: string): string {
    ChapterId(i, urlTitle) + ".html"
  }

  /** The digits of an ID written as `prefix + '%03d' % i + '_' + rest` end
      at the first `_` after the prefix. */
  lemma NumberedIdParts(prefix: string, i: nat, rest: string)
    requires '_' !in prefix
    ensures var s := prefix + Pad3(i) + "_" + rest;
            && FindFrom(s, '_', 0) == |prefix| + |Pad3(i)|
            && s[|prefix|..|prefix| + |Pad3(i)|] == Pad3(i)
            && s[|prefix| + |Pad3(i)| + 1..] == rest
  {
    var s := prefix + Pad3(i) + "_" + rest;
    var d := Pad3(i);
    assert forall x :: 0 <= x < |prefix| ==> s[x] == prefix[x];
    assert forall x :: 0 <= x < |d| ==> s[|prefix| + x] == d[x] && IsDigit(d[x]);
    FindFromAt(s, '_', 0, |prefix| + |d|);
  }

  /** Two IDs of this form are equal only for equal numbers and equal rests. */
  lemma NumberedIdInjective(prefix: string, i: nat, u: string, j: nat, v: string)
    requires '_' !in prefix
    ensures prefix + Pad3(i) + "_" + u == prefix + Pad3(j) + "_" + v ==> i == j && u == v
  {
    if prefix + Pad3(i) + "_" + u == prefix + Pad3(j) + "_" + v {
      NumberedIdParts(prefix, i, u);
      NumberedIdParts(prefix, j, v);
      Pad3Injective(i, j);
    }
  }

  /** A chapter ID reads back as the position (the digits after `ch`, up
      to the first `_`) and the slug (everything after that `_`). */
  lemma ChapterIdParts(i: nat, urlTitle: string)
    ensures var r, u := ChapterId(i, urlTitle), FindFrom(ChapterId(i, urlTitle), '_', 0);
            && |r| >= 2 && r[..2] == "ch" && 2 <= u < |r|
            && AllDigits(r[2..u]) && Value(r[2..u]) == i && r[u + 1..] == urlTitle
  {
    NumberedIdParts("ch", i, urlTitle);
    Pad3Value(i);
  }

  /** Chapters at different positions get different IDs, whatever their slugs. */
  lemma ChapterIdInjective(i: nat, u: string, j: nat, v: string)
    ensures ChapterId(i, u) == ChapterId(j, v) ==> i == j && u == v
  {
    NumberedIdInjective("ch", i, u, j, v);
  }

  // ---------------------------------------------------------------------
  // The TOC as bookizip stores it
  // ---------------------------------------------------------------------

  /** `{"title": ..., "url": ..., "type": "chapter", "role": "text"}`. */
  function ChapterNode(title: string, url: string): TocNode {
    TocNode(Some(title), Some(url), Some(ChapterType), [])
  }

  /** `{"title": ..., "url": ..., "type": "booki-section", "children": ...}`. */
  function SectionNode(title: string, url: string, children: seq<TocNode>): TocNode {
    TocNode(Some(title), Some(url), Some(SectionType), children)
  }

  predicate IsChapterLeaf(n: TocNode) {
    n.title.Some? && n.url.Some? && n.kind == Some(ChapterType) && n.children == []
  }

  predicate IsSectionNode(n: TocNode) {
    n.title.Some? && n.url.Some? && n.kind == Some(SectionType)
    && forall t :: 0 <= t < |n.children| ==> IsChapterLeaf(n.children[t])
  }

  /** The shape `exportBook` builds: chapter leaves first, then sections,
      each holding chapter leaves only.  So sections are always top-level,
      the chapters before the first section are top-level, and every later
      chapter sits in a section. */
  predicate Shape(toc: seq<TocNode>) {
    (forall t :: 0 <= t < |toc| ==> IsChapterLeaf(toc[t]) || IsSectionNode(toc[t]))
    && (forall s, t :: 0 <= s < t < |toc| && IsSectionNode(toc[s]) ==> IsSectionNode(toc[t]))
  }

  /** The first chapter after item `i` among the first `k` items. */
  function NextChapter(items: seq<ExportItem>, i: nat, k: nat): (r: Option<nat>)
    requires i < k <= |items|
    ensures r.Some? ==> i < r.value < k && items[r.value].ChapterItem?
                        && forall j :: i < j < r.value ==> items[j].SectionItem?
    ensures r.None? ==> forall j :: i < j < k ==> items[j].SectionItem?
    decreases k - i
  {
    if i + 1 == k then None
    else if items[i + 1].ChapterItem? then Some(i + 1)
    else NextChapter(items, i + 1, k)
  }

  /** A section's url: the file of the first chapter after it, or `''`
      when no chapter follows it among the first `k` items. */
  function SectionUrl(items: seq<ExportItem>, i: nat, k: nat): string
    requires i < k <= |items|
  {
    match NextChapter(items, i, k)
    case None => ""
    case Some(j) => ChapterFile(j, items[j].urlTitle)
  }

  /** What `getChaptersFromTOC` reads back for item `i` once the first `k`
      items are exported. */
  function EntryFor(items: seq<ExportItem>, i: nat, k: nat): TocEntry
    requires i < k <= |items|
  {
    match items[i]
    case ChapterItem(title, urlTitle, _, _) => TocEntry(title, ChapterFile(i, urlTitle), false)
    case SectionItem(title) => TocEntry(title, SectionUrl(items, i, k), true)
  }

  /** One entry per exported item, in order. */
  function Expected(items: seq<ExportItem>, k: nat): (r: seq<TocEntry>)
    requires k <= |items|
    ensures |r| == k
  {
    seq(k, i requires 0 <= i < k => EntryFor(items, i, k))
  }

  /** How many sections end the first `k` items: those still waiting for a url. */
  function TrailingSections(items: seq<ExportItem>, k: nat): (r: nat)
    requires k <= |items|
    ensures r <= k
    ensures forall j :: k - r <= j < k ==> items[j].SectionItem?
    ensures r < k ==> items[k - r - 1].ChapterItem?
  {
    if k == 0 || items[k - 1].ChapterItem? then 0 else 1 + TrailingSections(items, k - 1)
  }

  /** The spine after `k` items: the IDs of the chapters among them. */
  function SpineOf(items: seq<ExportItem>, k: nat): seq<string>
    requires k <= |items|
  {
    if k == 0 then []
    else SpineOf(items, k - 1) + (if items[k - 1].ChapterItem? then [ChapterId(k - 1, items[k - 1].urlTitle)] else [])
  }

  /** The chapter entries of the package after `k` items. */
  function ChapterPackages(items: seq<ExportItem>, k: nat): seq<PackageItem>
    requires k <= |items|
  {
    if k == 0 then []
    else
      var it := items[k - 1];
      ChapterPackages(items, k - 1)
      + (if it.ChapterItem? then [PackageItem(ChapterId(k - 1, it.urlTitle), ChapterFile(k - 1, it.urlTitle), FixedContent(it.content), HtmlType)] else [])
  }

  // ---------------------------------------------------------------------
  // Lemmas for the TOC loop
  // ---------------------------------------------------------------------

  lemma LinearizeSnoc(toc: seq<TocNode>, n: TocNode)
    ensures Linearize(toc + [n]) == Linearize(toc) + [EntryOf(n)] + Linearize(n.children)
  {
    LinearizeAppend(toc, [n]);
    assert [n][1..] == [];
  }

  /** A list of leaves linearizes to their entries. */
  lemma {:induction false} LinearizeLeaves(w: seq<TocNode>)
    requires forall t :: 0 <= t < |w| ==> w[t].children == []
    ensures |Linearize(w)| == |w|
    ensures forall t :: 0 <= t < |w| ==> Linearize(w)[t] == EntryOf(w[t])
    decreases |w|
  {
    if w != [] {
      LinearizeLeaves(w[1..]);
      assert Linearize(w) == [EntryOf(w[0])] + Linearize(w[1..]);
    }
  }

  /** Adding an item changes no earlier chapter's first-chapter-after, unless
      there was none and the item is a chapter. */
  lemma {:induction false} NextChapterExtend(items: seq<ExportItem>, i: nat, k: nat)
    requires i < k < |items|
    ensures NextChapter(items, i, k + 1)
            == (if NextChapter(items, i, k).Some? then NextChapter(items, i, k)
                else if items[k].ChapterItem? then Some(k) else None)
    decreases k - i
  {
    if i + 1 < k && !items[i + 1].ChapterItem? {
      NextChapterExtend(items, i + 1, k);
    }
  }

  /** After a section, the earlier entries keep their urls and the new
      section has none yet. */
  lemma ExpectedAfterSection(items: seq<ExportItem>, k: nat)
    requires k < |items| && items[k].SectionItem?
    ensures Expected(items, k + 1) == Expected(items, k) + [TocEntry(items[k].title, "", true)]
  {
    var a, b := Expected(items, k + 1), Expected(items, k) + [TocEntry(items[k].title, "", true)];
    forall i | 0 <= i < k + 1
      ensures a[i] == b[i]
    {
      if i < k {
        NextChapterExtend(items, i, k);
        assert a[i] == EntryFor(items, i, k + 1);
      } else {
        assert NextChapter(items, k, k + 1).None?;
      }
    }
  }

  /** The last `m` entries of `s` with the url `f`: the sections that were
      waiting for a chapter. */
  function PatchUrls(s: seq<TocEntry>, m: nat, f: string): (r: seq<TocEntry>)
    requires m <= |s|
    ensures |r| == |s|
  {
    seq(|s|, i requires 0 <= i < |s| => if i >= |s| - m then s[i].(url := f) else s[i])
  }

  lemma PatchUrlsNone(s: seq<TocEntry>, f: string)
    ensures PatchUrls(s, 0, f) == s
  {
  }

  /** Patching the tail `w` of `a + w` is patching `w` alone. */
  lemma PatchUrlsTail(a: seq<TocEntry>, w: seq<TocEntry>, p: seq<TocEntry>, f: string)
    requires |p| == |w|
    requires forall t :: 0 <= t < |w| ==> p[t] == w[t].(url := f)
    ensures PatchUrls(a + w, |w|, f) == a + p
  {
    var r := PatchUrls(a + w, |w|, f);
    forall i | 0 <= i < |r|
      ensures r[i] == (a + p)[i]
    {
      if i >= |a| {
        assert (a + w)[i] == w[i - |a|];
      }
    }
  }

  /** After a chapter, the sections that were waiting (the trailing ones)
      take its file as url, every other entry is unchanged, and the
      chapter's own entry is appended. */
  lemma ExpectedAfterChapter(items: seq<ExportItem>, k: nat)
    requires k < |items| && items[k].ChapterItem?
    ensures var f := ChapterFile(k, items[k].urlTitle);
            Expected(items, k + 1) == PatchUrls(Expected(items, k), TrailingSections(items, k), f) + [TocEntry(items[k].title, f, false)]
  {
    var m := TrailingSections(items, k);
    var f := ChapterFile(k, items[k].urlTitle);
    var rhs := PatchUrls(Expected(items, k), m, f) + [TocEntry(items[k].title, f, false)];
    forall i | 0 <= i < k + 1
      ensures Expected(items, k + 1)[i] == rhs[i]
    {
      if i < k {
        NextChapterExtend(items, i, k);
        if items[i].SectionItem? && i < k - m {
          assert NextChapter(items, i, k).Some? by {
            assert items[k - m - 1].ChapterItem?;
          }
        }
      }
    }
  }

  /** The TOC after a chapter lands in the current section and the waiting
      sections (the last `m` top-level nodes) take its file as url. */
  function AddChapter(toc: seq<TocNode>, m: nat, f: string, node: TocNode): (r: seq<TocNode>)
    requires toc != [] && m <= |toc|
    ensures |r| == |toc|
  {
    seq(|toc|, t requires 0 <= t < |toc| =>
      var n := if t >= |toc| - m then toc[t].(url := Some(f)) else toc[t];
      if t == |toc| - 1 then n.(children := n.children + [node]) else n)
  }

  /** Linearizing the TOC after `AddChapter` when nothing was waiting: the
      chapter's entry is appended. */
  lemma LinearizeAddNoWaiting(toc: seq<TocNode>, f: string, node: TocNode)
    requires toc != [] && node.children == []
    ensures Linearize(AddChapter(toc, 0, f, node)) == Linearize(toc) + [EntryOf(node)]
  {
    var n := |toc| - 1;
    var last := toc[n];
    var r := AddChapter(toc, 0, f, node);
    assert toc == toc[..n] + [last];
    assert r == toc[..n] + [last.(children := last.children + [node])];
    LinearizeSnoc(toc[..n], last);
    LinearizeSnoc(toc[..n], last.(children := last.children + [node]));
    LinearizeAppend(last.children, [node]);
    LinearizeSnoc([], node);
  }

  /** The waiting leaves with the chapter's file as url. */
  function Patched(w: seq<TocNode>, f: string): (r: seq<TocNode>)
    ensures |r| == |w|
  {
    seq(|w|, t requires 0 <= t < |w| => w[t].(url := Some(f)))
  }

  /** Giving a last leaf a single leaf child appends that child's entry. */
  lemma LinearizeGrowLast(init: seq<TocNode>, x: TocNode, node: TocNode)
    requires x.children == [] && node.children == []
    ensures Linearize(init + [x.(children := [node])]) == Linearize(init + [x]) + [EntryOf(node)]
  {
    LinearizeSnoc(init, x);
    LinearizeSnoc(init, x.(children := [node]));
    LinearizeSnoc([], node);
  }

  /** With `m > 0` waiting leaves, `AddChapter` keeps the nodes before them,
      patches the leaves and hangs the chapter under the last one. */
  lemma AddChapterWaiting(toc: seq<TocNode>, m: nat, f: string, node: TocNode)
    requires 0 < m <= |toc|
    ensures var p := Patched(toc[|toc| - m..], f);
            AddChapter(toc, m, f, node) == toc[..|toc| - m] + (p[..m - 1] + [p[m - 1].(children := p[m - 1].children + [node])])
  {
    var a := toc[..|toc| - m];
    var w := toc[|toc| - m..];
    var p := Patched(w, f);
    var tail := p[..m - 1] + [p[m - 1].(children := p[m - 1].children + [node])];
    forall t | 0 <= t < |toc|
      ensures AddChapter(toc, m, f, node)[t] == (a + tail)[t]
    {
      if t >= |toc| - m {
        assert toc[t] == w[t - (|toc| - m)];
      }
    }
  }

  /** Linearizing the TOC after `AddChapter` with `m > 0` waiting leaves:
      the nodes before them, the patched leaves, then the chapter. */
  lemma LinearizeAddWaiting(toc: seq<TocNode>, m: nat, f: string, node: TocNode)
    requires 0 < m <= |toc| && node.children == []
    requires forall t :: |toc| - m <= t < |toc| ==> toc[t].children == []
    ensures Linearize(toc) == Linearize(toc[..|toc| - m]) + Linearize(toc[|toc| - m..])
    ensures Linearize(AddChapter(toc, m, f, node))
            == Linearize(toc[..|toc| - m]) + Linearize(Patched(toc[|toc| - m..], f)) + [EntryOf(node)]
  {
    var a := toc[..|toc| - m];
    var w := toc[|toc| - m..];
    var p := Patched(w, f);
    var tail := p[..m - 1] + [p[m - 1].(children := [node])];
    assert Linearize(toc) == Linearize(a) + Linearize(w) by {
      assert toc == a + w;
      LinearizeAppend(a, w);
    }
    assert AddChapter(toc, m, f, node) == a + tail by {
      AddChapterWaiting(toc, m, f, node);
      assert w[m - 1] == toc[|toc| - 1];
      assert p[m - 1].children + [node] == [node];
    }
    assert Linearize(a + tail) == Linearize(a) + Linearize(tail) by {
      LinearizeAppend(a, tail);
    }
    assert Linearize(tail) == Linearize(p) + [EntryOf(node)] by {
      assert p == p[..m - 1] + [p[m - 1]];
      LinearizeGrowLast(p[..m - 1], p[m - 1], node);
    }
  }

  /** `AddChapter` on a TOC of the export shape whose last node is a
      section keeps the shape. */
  lemma ShapeAddChapter(toc: seq<TocNode>, m: nat, f: string, node: TocNode)
    requires toc != [] && m <= |toc| && Shape(toc)
    requires IsSectionNode(toc[|toc| - 1]) && IsChapterLeaf(node)
    ensures Shape(AddChapter(toc, m, f, node))
  {
    var r := AddChapter(toc, m, f, node);
    assert forall t :: 0 <= t < |r| ==> r[t].kind == toc[t].kind;
    forall t | 0 <= t < |r|
      ensures IsChapterLeaf(r[t]) || IsSectionNode(r[t])
    {
      if t == |toc| - 1 {
        var c := r[t].children;
        assert forall x :: 0 <= x < |c| ==> IsChapterLeaf(c[x]) by {
          assert c == toc[t].children + [node];
        }
      }
    }
  }

  // ---------------------------------------------------------------------
  // The export loop over the TOC rows
  // ---------------------------------------------------------------------

  /** Whether a section is among the first `k` items. */
  predicate HasSection(items: seq<ExportItem>, k: nat)
    requires k <= |items|
  {
    k > 0 && (items[k - 1].SectionItem? || HasSection(items, k - 1))
  }

  lemma {:induction false} NoSectionAllChapters(items: seq<ExportItem>, k: nat)
    requires k <= |items| && !HasSection(items, k)
    ensures forall i :: 0 <= i < k ==> items[i].ChapterItem?
  {
    if k > 0 {
      NoSectionAllChapters(items, k - 1);
    }
  }

  /** The positions of the last `m` of `n` top-level nodes, in order. */
  function Waiting(n: nat, m: nat): (r: seq<nat>)
    requires m <= n
    ensures |r| == m
    ensures forall t :: t in r <==> n - m <= t < n
  {
    if m == 0 then [] else Waiting(n - 1, m - 1) + [n - 1]
  }

  /** What holds of the loop's variables after the first `k` rows. */
  predicate TocState(items: seq<ExportItem>, k: nat, toc: seq<TocNode>, inSection: bool, waiting: seq<nat>)
    requires k <= |items|
  {
    Shape(toc) && Linearize(toc) == Expected(items, k)
    && (inSection <==> HasSection(items, k))
    && (inSection <==> toc != [] && IsSectionNode(toc[|toc| - 1]))
    && TrailingSections(items, k) <= |toc|
    && waiting == Waiting(|toc|, TrailingSections(items, k))
    && forall t :: |toc| - TrailingSections(items, k) <= t < |toc| ==> toc[t].children == [] && IsSectionNode(toc[t])
  }

  /** `toc_current.append(node)`: to the top level before any section,
      otherwise to the last section's children. */
  function AppendToCurrent(toc: seq<TocNode>, inSection: bool, node: TocNode): seq<TocNode>
    requires inSection ==> toc != []
  {
    if inSection then toc[..|toc| - 1] + [toc[|toc| - 1].(children := toc[|toc| - 1].children + [node])]
    else toc + [node]
  }

  /** The `while waiting_for_url` loop: every waiting section takes the
      chapter's file as url, and no other node changes. */
  method LendUrl(toc: seq<TocNode>, waiting: seq<nat>, filename: string) returns (r: seq<TocNode>)
    requires forall w :: w in waiting ==> w < |toc|
    ensures |r| == |toc|
    ensures forall t :: 0 <= t < |r| ==> r[t] == (if t in waiting then toc[t].(url := Some(filename)) else toc[t])
  {
    r := toc;
    var rest := waiting;
    while rest != []
      invariant |r| == |toc|
      invariant |rest| <= |waiting| && rest == waiting[..|rest|]
      invariant forall t :: 0 <= t < |r| ==> r[t] == (if t in waiting[|rest|..] then toc[t].(url := Some(filename)) else toc[t])
    {
      var w := rest[|rest| - 1];
      assert w == waiting[|rest| - 1];
      assert w in waiting;
      assert waiting[|rest| - 1..] == [w] + waiting[|rest|..];
      rest := rest[..|rest| - 1];
      r := r[w := r[w].(url := Some(filename))];
    }
  }

  lemma SectionStep(items: seq<ExportItem>, k: nat, toc: seq<TocNode>, inSection: bool, waiting: seq<nat>)
    requires k < |items| && items[k].SectionItem?
    requires TocState(items, k, toc, inSection, waiting)
    ensures TocState(items, k + 1, toc + [SectionNode(items[k].title, "", [])], true, waiting + [|toc|])
  {
    var node := SectionNode(items[k].title, "", []);
    var toc' := toc + [node];
    assert Linearize(toc') == Expected(items, k + 1) by {
      ExpectedAfterSection(items, k);
      LinearizeSnoc(toc, node);
      assert Linearize(node.children) == [];
    }
    assert Shape(toc') by {
      SectionShape(toc, node);
    }
    assert TrailingSections(items, k + 1) == TrailingSections(items, k) + 1;
    assert waiting + [|toc|] == Waiting(|toc'|, TrailingSections(items, k + 1));
    assert forall t :: |toc'| - TrailingSections(items, k + 1) <= t < |toc'| ==> toc'[t].children == [] && IsSectionNode(toc'[t]) by {
      assert toc'[|toc|] == node;
      assert forall t :: 0 <= t < |toc| ==> toc'[t] == toc[t];
    }
  }

  /** A section appended to a TOC of the export shape keeps that shape. */
  lemma SectionShape(toc: seq<TocNode>, node: TocNode)
    requires Shape(toc) && IsSectionNode(node)
    ensures Shape(toc + [node])
  {
    assert forall t :: 0 <= t < |toc| ==> (toc + [node])[t] == toc[t];
  }

  /** A chapter row before any section: appended to the top level. */
  lemma TopChapterStep(items: seq<ExportItem>, k: nat, toc0: seq<TocNode>, toc: seq<TocNode>, node: TocNode)
    requires k < |items| && items[k].ChapterItem?
    requires node == ChapterNode(items[k].title, ChapterFile(k, items[k].urlTitle))
    requires TocState(items, k, toc0, false, [])
    requires toc == toc0 + [node]
    ensures TocState(items, k + 1, toc, false, [])
  {
    NoSectionAllChapters(items, k);
    ExpectedAfterChapter(items, k);
    PatchUrlsNone(Expected(items, k), ChapterFile(k, items[k].urlTitle));
    LinearizeSnoc(toc0, node);
  }

  /** A chapter row after a section: it joins the last section and the
      waiting sections take its file as url. */
  /** Patching the url of leaves patches the url of their entries. */
  lemma LinearizePatched(w: seq<TocNode>, f: string)
    requires forall t :: 0 <= t < |w| ==> w[t].children == []
    ensures |Linearize(Patched(w, f))| == |Linearize(w)| == |w|
    ensures forall t :: 0 <= t < |w| ==> Linearize(Patched(w, f))[t] == Linearize(w)[t].(url := f)
  {
    LinearizeLeaves(w);
    LinearizeLeaves(Patched(w, f));
  }

  /** Linearizing the TOC after a chapter step: the entries of the `m`
      waiting leaves take the url and the chapter's entry is appended. */
  lemma LinearizeAddChapter(toc: seq<TocNode>, m: nat, f: string, node: TocNode)
    requires toc != [] && m <= |toc| && node.children == []
    requires forall t :: |toc| - m <= t < |toc| ==> toc[t].children == []
    ensures m <= |Linearize(toc)|
    ensures Linearize(AddChapter(toc, m, f, node)) == PatchUrls(Linearize(toc), m, f) + [EntryOf(node)]
  {
    if m == 0 {
      LinearizeAddNoWaiting(toc, f, node);
      PatchUrlsNone(Linearize(toc), f);
    } else {
      var a, w := toc[..|toc| - m], toc[|toc| - m..];
      LinearizeAddWaiting(toc, m, f, node);
      LinearizePatched(w, f);
      PatchUrlsTail(Linearize(a), Linearize(w), Linearize(Patched(w, f)), f);
    }
  }

  /** Appending the chapter to the last section and lending its file to the
      `m` waiting sections is `AddChapter`. */
  lemma LentIsAddChapter(toc0: seq<TocNode>, m: nat, waiting: seq<nat>, f: string, node: TocNode, toc: seq<TocNode>)
    requires toc0 != [] && m <= |toc0| && waiting == Waiting(|toc0|, m)
    requires |toc| == |toc0|
    requires forall t :: 0 <= t < |toc| ==>
               toc[t] == (if t in waiting then AppendToCurrent(toc0, true, node)[t].(url := Some(f))
                          else AppendToCurrent(toc0, true, node)[t])
    ensures toc == AddChapter(toc0, m, f, node)
  {
    var a := AppendToCurrent(toc0, true, node);
    var r := AddChapter(toc0, m, f, node);
    forall t | 0 <= t < |toc|
      ensures toc[t] == r[t]
    {
      assert t in waiting <==> |toc0| - m <= t;
      if t < |toc0| - 1 {
        assert a[t] == toc0[t];
      }
    }
  }

  lemma SectionChapterStep(items: seq<ExportItem>, k: nat, toc0: seq<TocNode>, waiting: seq<nat>, toc: seq<TocNode>, node: TocNode)
    requires k < |items| && items[k].ChapterItem?
    requires node == ChapterNode(items[k].title, ChapterFile(k, items[k].urlTitle))
    requires TocState(items, k, toc0, true, waiting)
    requires |toc| == |toc0|
    requires forall t :: 0 <= t < |toc| ==>
               toc[t] == (if t in waiting then AppendToCurrent(toc0, true, node)[t].(url := Some(ChapterFile(k, items[k].urlTitle)))
                          else AppendToCurrent(toc0, true, node)[t])
    ensures TocState(items, k + 1, toc, true, [])
  {
    var m := TrailingSections(items, k);
    var f := ChapterFile(k, items[k].urlTitle);
    LentIsAddChapter(toc0, m, waiting, f, node, toc);
    ShapeAddChapter(toc0, m, f, node);
    LinearizeAddChapter(toc0, m, f, node);
    ExpectedAfterChapter(items, k);
    assert IsSectionNode(toc[|toc| - 1]) by {
      var c := toc[|toc| - 1].children;
      assert c == toc0[|toc0| - 1].children + [node];
      assert forall x :: 0 <= x < |c| ==> IsChapterLeaf(c[x]);
    }
  }

  /** The chapter branch of the loop: the chapter's node goes to
      `toc_current` and every section in `waiting_for_url` takes its file
      as url. */
  method AddChapterRow(items: seq<ExportItem>, k: nat, toc: seq<TocNode>, inSection: bool, waiting: seq<nat>, filename: string)
    returns (r: seq<TocNode>)
    requires k < |items| && items[k].ChapterItem? && filename == ChapterFile(k, items[k].urlTitle)
    requires TocState(items, k, toc, inSection, waiting)
    ensures TocState(items, k + 1, r, inSection, [])
  {
    var node := ChapterNode(items[k].title, filename);
    r := toc;
    if inSection {
      var last := r[|r| - 1];
      r := r[..|r| - 1] + [last.(children := last.children + [node])];
    } else {
      r := r + [node];
    }
    assert r == AppendToCurrent(toc, inSection, node);
    r := LendUrl(r, waiting, filename);
    if inSection {
      SectionChapterStep(items, k, toc, waiting, r, node);
    } else {
      TopChapterStep(items, k, toc, r, node);
    }
  }

  /** The section branch of the loop: a new section with no url yet goes
      to `toc_top`, becomes `toc_current` and waits for a chapter's file. */
  method AddSectionRow(items: seq<ExportItem>, k: nat, toc: seq<TocNode>, inSection: bool, waiting: seq<nat>)
    returns (r: seq<TocNode>, w: seq<nat>)
    requires k < |items| && items[k].SectionItem?
    requires TocState(items, k, toc, inSection, waiting)
    ensures TocState(items, k + 1, r, true, w)
  {
    var node := SectionNode(items[k].title, "", []);
    SectionStep(items, k, toc, inSection, waiting);
    r := toc + [node];
    w := waiting + [|toc|];
  }

  /** `_fix_content` does not raise on row `it` (a section is not fixed). */
  predicate Fixes(it: ExportItem) {
    it.SectionItem? || FixOutcome(it.content, it.page).Success?
  }

  /** No row before `k` makes `_fix_content` raise. */
  predicate FixesBefore(items: seq<ExportItem>, k: nat)
    requires k <= |items|
  {
    forall j :: 0 <= j < k ==> Fixes(items[j])
  }

  /** `e` is what `_fix_content` raises on the first row it cannot fix. */
  predicate FirstUnfixed(items: seq<ExportItem>, e: ExportError) {
    && e.ContentError? && e.row < |items| && items[e.row].ChapterItem?
    && FixOutcome(items[e.row].content, items[e.row].page) == Failure(e.error)
    && FixesBefore(items, e.row)
  }

  /** The body of the loop of `exportBook` for row `k`: a chapter whose
      content `_fix_content` cannot fix raises (`fault`); otherwise a
      chapter adds its node, its package entry and its spine ID, and a
      section adds a node that waits for the next chapter's file.  Each
      keeps the loop's state in step with the first `k + 1` rows. */
  method ExportRow(bookSlug: string, items: seq<ExportItem>, k: nat, toc: seq<TocNode>, inSection: bool, waiting: seq<nat>,
                   spine: seq<string>, package: seq<PackageItem>)
    returns (toc': seq<TocNode>, inSection': bool, waiting': seq<nat>, spine': seq<string>, package': seq<PackageItem>,
             fault: Option<FixError>)
    requires k < |items| && TocState(items, k, toc, inSection, waiting)
    requires spine == SpineOf(items, k) && package == ChapterPackages(items, k)
    ensures fault.Some? <==> !Fixes(items[k])
    ensures fault.Some? ==> FixOutcome(items[k].content, items[k].page) == Failure(fault.value)
    ensures fault.None? ==> TocState(items, k + 1, toc', inSection', waiting')
    ensures fault.None? ==> spine' == SpineOf(items, k + 1) && package' == ChapterPackages(items, k + 1)
  {
    toc', inSection', waiting', spine', package', fault := toc, inSection, waiting, spine, package, None;
    var item := items[k];
    if item.ChapterItem? {
      var fixed := FixContent(bookSlug, item.urlTitle, item.content, item.page);
      if fixed.Failure? {
        fault := Some(fixed.error);
        return;
      }
      var content := fixed.value;
      var id := ChapterId(k, item.urlTitle);
      var filename := ChapterFile(k, item.urlTitle);  // id + ".html"
      toc' := AddChapterRow(items, k, toc, inSection, waiting, filename);
      waiting' := [];
      package' := package + [PackageItem(id, filename, content, HtmlType)];
      spine' := spine + [id];
    } else {
      toc', waiting' := AddSectionRow(items, k, toc, inSection, waiting);
      inSection' := true;
    }
  }

  /** The loop of `exportBook` over the `BookToc` rows: `toc_top`, with
      `toc_current` standing for either `toc_top` or the children of its
      last section (`inSection`), the `waiting_for_url` sections as
      positions in `toc_top`, the spine and the chapters' package entries.
      The loop raises at the first chapter `_fix_content` cannot fix;
      otherwise the TOC linearizes to one entry per row, in row order, each
      section taking the file of the first chapter after it; it has the
      export shape; the spine lists the chapter IDs in row order. */
  method BuildToc(bookSlug: string, items: seq<ExportItem>)
    returns (toc: seq<TocNode>, spine: seq<string>, package: seq<PackageItem>, fault: Option<ExportError>)
    ensures fault.None? <==> FixesBefore(items, |items|)
    ensures fault.Some? ==> FirstUnfixed(items, fault.value)
    ensures fault.None? ==> Linearize(toc) == Expected(items, |items|)
    ensures fault.None? ==> Shape(toc)
    ensures fault.None? ==> spine == SpineOf(items, |items|)
    ensures fault.None? ==> package == ChapterPackages(items, |items|)
  {
    fault := None;
    toc := [];
    spine := [];
    package := [];
    var inSection := false;
    var waiting: seq<nat> := [];
    var k := 0;
    while k < |items|
      invariant 0 <= k <= |items|
      invariant TocState(items, k, toc, inSection, waiting)
      invariant spine == SpineOf(items, k)
      invariant package == ChapterPackages(items, k)
      invariant FixesBefore(items, k)
    {
      var f;
      toc, inSection, waiting, spine, package, f := ExportRow(bookSlug, items, k, toc, inSection, waiting, spine, package);
      if f.Some? {
        fault := Some(ContentError(k, f.value));
        return;
      }
      k := k + 1;
    }
  }

  // ---------------------------------------------------------------------
  // Chapter positions, spine and chapter package entries
  // ---------------------------------------------------------------------

  /** The positions of the chapters among the first `k` items, in order. */
  function ChapterPositions(items: seq<ExportItem>, k: nat): seq<nat>
    requires k <= |items|
  {
    if k == 0 then [] else ChapterPositions(items, k - 1) + (if items[k - 1].ChapterItem? then [k - 1] else [])
  }

  /** The chapter positions are, in increasing order, exactly the chapter
      rows among the first `k`. */
  lemma {:induction false} ChapterPositionsExact(items: seq<ExportItem>, k: nat)
    requires k <= |items|
    ensures var r := ChapterPositions(items, k);
            && (forall x :: 0 <= x < |r| ==> r[x] < k && items[r[x]].ChapterItem?)
            && (forall x, y :: 0 <= x < y < |r| ==> r[x] < r[y])
            && (forall j :: 0 <= j < k && items[j].ChapterItem? ==> j in r)
  {
    if k > 0 {
      ChapterPositionsExact(items, k - 1);
    }
  }

  /** The package entry of the chapter row at position `i`. */
  function ChapterPackage(i: nat, it: ExportItem): PackageItem
    requires it.ChapterItem?
  {
    PackageItem(ChapterId(i, it.urlTitle), ChapterFile(i, it.urlTitle), FixedContent(it.content), HtmlType)
  }

  /** What `ChapterRowAt` states of the first `k` rows. */
  predicate SpinedAt(items: seq<ExportItem>, k: nat, x: nat)
    requires k <= |items|
  {
    var pos := ChapterPositions(items, k);
    && |SpineOf(items, k)| == |pos| && |ChapterPackages(items, k)| == |pos|
    && (x < |pos| ==> pos[x] < |items| && items[pos[x]].ChapterItem?
                      && SpineOf(items, k)[x] == ChapterId(pos[x], items[pos[x]].urlTitle)
                      && ChapterPackages(items, k)[x] == ChapterPackage(pos[x], items[pos[x]]))
  }

  /** A chapter row adds its position, its ID to the spine and its entry to
      the package; a section row adds none of them. */
  lemma RowStep(items: seq<ExportItem>, k: nat)
    requires 0 < k <= |items|
    ensures var it := items[k - 1];
            if it.ChapterItem? then
              && ChapterPositions(items, k) == ChapterPositions(items, k - 1) + [k - 1]
              && SpineOf(items, k) == SpineOf(items, k - 1) + [ChapterId(k - 1, it.urlTitle)]
              && ChapterPackages(items, k) == ChapterPackages(items, k - 1) + [ChapterPackage(k - 1, it)]
            else
              && ChapterPositions(items, k) == ChapterPositions(items, k - 1)
              && SpineOf(items, k) == SpineOf(items, k - 1)
              && ChapterPackages(items, k) == ChapterPackages(items, k - 1)
  {
  }

  /** The `x`-th spine ID and the `x`-th chapter entry of the package belong
      to the `x`-th chapter row: its ID numbered by the row's position among
      all rows, its `.html` file, its fixed content and `text/html`.  There
      is one of each per chapter row. */
  lemma {:induction false} ChapterRowAt(items: seq<ExportItem>, k: nat, x: nat)
    requires k <= |items|
    ensures var pos := ChapterPositions(items, k);
            && |SpineOf(items, k)| == |pos| && |ChapterPackages(items, k)| == |pos|
            && (x < |pos| ==> pos[x] < |items| && items[pos[x]].ChapterItem?
                              && SpineOf(items, k)[x] == ChapterId(pos[x], items[pos[x]].urlTitle)
                              && ChapterPackages(items, k)[x]
                                 == PackageItem(ChapterId(pos[x], items[pos[x]].urlTitle), ChapterFile(pos[x], items[pos[x]].urlTitle),
                                                FixedContent(items[pos[x]].content), HtmlType))
  {
    if k > 0 {
      ChapterRowAt(items, k - 1, x);
      SpinedAfterRow(items, k, x);
    }
  }

  /** The step of `ChapterRowAt` over one more row. */
  lemma SpinedAfterRow(items: seq<ExportItem>, k: nat, x: nat)
    requires 0 < k <= |items| && SpinedAt(items, k - 1, x)
    ensures SpinedAt(items, k, x)
  {
    RowStep(items, k);
    if items[k - 1].ChapterItem? {
      var pos0, pos := ChapterPositions(items, k - 1), ChapterPositions(items, k);
      if x < |pos0| {
        assert pos[x] == pos0[x];
        assert SpineOf(items, k)[x] == SpineOf(items, k - 1)[x];
        assert ChapterPackages(items, k)[x] == ChapterPackages(items, k - 1)[x];
      } else if x == |pos0| {
        assert pos[x] == k - 1;
      }
    }
  }

  /** No chapter ID occurs twice in the spine. */
  lemma SpineDistinct(items: seq<ExportItem>)
    ensures forall x, y :: 0 <= x < y < |SpineOf(items, |items|)| ==> SpineOf(items, |items|)[x] != SpineOf(items, |items|)[y]
  {
    var pos := ChapterPositions(items, |items|);
    ChapterPositionsExact(items, |items|);
    ChapterRowAt(items, |items|, 0);
    forall x, y | 0 <= x < y < |pos|
      ensures SpineOf(items, |items|)[x] != SpineOf(items, |items|)[y]
    {
      ChapterRowAt(items, |items|, x);
      ChapterRowAt(items, |items|, y);
      ChapterIdInjective(pos[x], items[pos[x]].urlTitle, pos[y], items[pos[y]].urlTitle);
    }
  }

  // ---------------------------------------------------------------------
  // Attachments
  // ---------------------------------------------------------------------

  /** An `Attachment` row: the stored file's name, and its bytes, or `None`
      when opening or reading the file raises. */
  datatype StoredAttachment = StoredAttachment(name: string, blob: Option<string>)

  /** The `MEDIATYPES` table: a partial map from a lower-cased extension
      (or `None` for a name without one) to a media type. */
  type MediaTypes = map<Option<string>, string>

  /** `"att%03d_%s" % (i, fn)`, before the extension is split off. */
  function RawAttachmentId(i: nat, fn: string): string {
    "att" + Pad3(i) + "_" + fn
  }

  /** `ID.rsplit('.', 1)` with the extension lower-cased when `'.' in ID`,
      and the `MEDIATYPES` key `None` otherwise. */
  function SplitExtension(id: string): (string, Option<string>) {
    var d := RFind(id, '.');
    if d >= 0 then (id[..d], Some(AsciiLower(id[d + 1..]))) else (id, None)
  }

  /** A file name without its extension: up to the last `.`, or all of it. */
  function Stem(fn: string): string {
    var d := RFind(fn, '.');
    if d >= 0 then fn[..d] else fn
  }

  /** The extension key of a file name. */
  function ExtensionKey(fn: string): Option<string> {
    var d := RFind(fn, '.');
    if d >= 0 then Some(AsciiLower(fn[d + 1..])) else None
  }

  /** The `.` that `rsplit` finds is the basename's own: the numbered
      prefix has none.  So the ID is the prefix and the basename's stem,
      and the key is the basename's lower-cased extension. */
  lemma AttachmentIdParts(i: nat, fn: string)
    ensures SplitExtension(RawAttachmentId(i, fn)) == ("att" + Pad3(i) + "_" + Stem(fn), ExtensionKey(fn))
  {
    NoDotInAttachmentPrefix(i);
    SplitAfterPrefix("att" + Pad3(i) + "_", fn);
  }

  lemma NoDotInAttachmentPrefix(i: nat)
    ensures '.' !in "att" + Pad3(i) + "_"
  {
    assert '.' !in Pad3(i) by {
      assert AllDigits(Pad3(i));
    }
  }

  /** Splitting off the extension of a name behind a prefix without `.`. */
  lemma SplitAfterPrefix(pre: string, fn: string)
    requires '.' !in pre
    ensures SplitExtension(pre + fn) == (pre + Stem(fn), ExtensionKey(fn))
  {
    RFindAppend(pre, fn, '.');
    var d := RFind(fn, '.');
    if d >= 0 {
      assert (pre + fn)[..|pre| + d] == pre + fn[..d];
      assert (pre + fn)[|pre| + d + 1..] == fn[d + 1..];
    }
  }

  /** The package entry of attachment `i` with name `fn` and bytes `blob`,
      or the `MEDIATYPES` key that raises `KeyError`. */
  function AttachmentEntry(i: nat, fn: string, blob: string, mediaTypes: MediaTypes): Result<PackageItem, Option<string>> {
    var (id, key) := SplitExtension(RawAttachmentId(i, fn));
    if key in mediaTypes then Success(PackageItem(id, "static/" + fn, blob, mediaTypes[key])) else Failure(key)
  }

  /** The attachment loop over the first `k` attachments: unreadable files
      are skipped, but still use up their number; the first unknown
      extension aborts the export. */
  function AttachmentPackages(atts: seq<StoredAttachment>, mediaTypes: MediaTypes, k: nat): Result<seq<PackageItem>, Option<string>>
    requires k <= |atts|
  {
    if k == 0 then Success([])
    else
      match AttachmentPackages(atts, mediaTypes, k - 1)
      case Failure(e) => Failure(e)
      case Success(ps) =>
        match atts[k - 1].blob
        case None => Success(ps)
        case Some(blob) =>
          match AttachmentEntry(k - 1, Basename(atts[k - 1].name), blob, mediaTypes)
          case Failure(e) => Failure(e)
          case Success(p) => Success(ps + [p])
  }

  /** Once the loop has raised, later attachments change nothing. */
  lemma {:induction false} FailureSticks(atts: seq<StoredAttachment>, mediaTypes: MediaTypes, k: nat, n: nat)
    requires k <= n <= |atts| && AttachmentPackages(atts, mediaTypes, k).Failure?
    ensures AttachmentPackages(atts, mediaTypes, n) == AttachmentPackages(atts, mediaTypes, k)
    decreases n - k
  {
    if k < n {
      FailureSticks(atts, mediaTypes, k, n - 1);
    }
  }

  /** The attachment loop of `exportBook`. */
  method ExportAttachments(atts: seq<StoredAttachment>, mediaTypes: MediaTypes) returns (r: Result<seq<PackageItem>, Option<string>>)
    ensures r == AttachmentPackages(atts, mediaTypes, |atts|)
  {
    var package: seq<PackageItem> := [];
    for i := 0 to |atts|
      invariant AttachmentPackages(atts, mediaTypes, i) == Success(package)
    {
      var a := atts[i];
      if a.blob.None? {
        continue;
      }
      var fn := Basename(a.name);
      var (id, key) := SplitExtension(RawAttachmentId(i, fn));
      if key !in mediaTypes {
        FailureSticks(atts, mediaTypes, i + 1, |atts|);
        return Failure(key);
      }
      package := package + [PackageItem(id, "static/" + fn, a.blob.value, mediaTypes[key])];
    }
    r := Success(package);
  }

  /** The positions of the readable attachments among the first `k`. */
  function ReadablePositions(atts: seq<StoredAttachment>, k: nat): seq<nat>
    requires k <= |atts|
  {
    if k == 0 then [] else ReadablePositions(atts, k - 1) + (if atts[k - 1].blob.Some? then [k - 1] else [])
  }

  /** The readable positions are, in increasing order, exactly the
      attachments among the first `k` whose file could be read. */
  lemma {:induction false} ReadablePositionsExact(atts: seq<StoredAttachment>, k: nat)
    requires k <= |atts|
    ensures var r := ReadablePositions(atts, k);
            && (forall x :: 0 <= x < |r| ==> r[x] < k && atts[r[x]].blob.Some?)
            && (forall x, y :: 0 <= x < y < |r| ==> r[x] < r[y])
            && (forall j :: 0 <= j < k && atts[j].blob.Some? ==> j in r)
  {
    if k > 0 {
      ReadablePositionsExact(atts, k - 1);
    }
  }

  /** A readable attachment whose extension `MEDIATYPES` does not know. */
  predicate Unknown(a: StoredAttachment, mediaTypes: MediaTypes) {
    a.blob.Some? && ExtensionKey(Basename(a.name)) !in mediaTypes
  }

  /** The package entry that a readable attachment with a known extension
      becomes when it is the `j`-th attachment: the numbered prefix and the
      basename's stem as ID, `static/<basename>` as file name. */
  function AttachmentItem(j: nat, a: StoredAttachment, mediaTypes: MediaTypes): PackageItem
    requires a.blob.Some? && !Unknown(a, mediaTypes)
  {
    var fn := Basename(a.name);
    PackageItem("att" + Pad3(j) + "_" + Stem(fn), "static/" + fn, a.blob.value, mediaTypes[ExtensionKey(fn)])
  }

  /** One step of the loop, in terms of the basename's stem and extension. */
  lemma AttachmentEntryItem(j: nat, a: StoredAttachment, mediaTypes: MediaTypes)
    requires a.blob.Some?
    ensures AttachmentEntry(j, Basename(a.name), a.blob.value, mediaTypes)
            == if Unknown(a, mediaTypes) then Failure(ExtensionKey(Basename(a.name))) else Success(AttachmentItem(j, a, mediaTypes))
  {
    AttachmentIdParts(j, Basename(a.name));
  }

  /** One attachment of the loop, with the step written out by cases. */
  lemma AttachmentStep(atts: seq<StoredAttachment>, mediaTypes: MediaTypes, k: nat)
    requires 0 < k <= |atts|
    ensures var prev, a := AttachmentPackages(atts, mediaTypes, k - 1), atts[k - 1];
            AttachmentPackages(atts, mediaTypes, k)
            == if prev.Failure? || a.blob.None? then prev
               else if Unknown(a, mediaTypes) then Failure(ExtensionKey(Basename(a.name)))
               else Success(prev.value + [AttachmentItem(k - 1, a, mediaTypes)])
  {
    var prev, a := AttachmentPackages(atts, mediaTypes, k - 1), atts[k - 1];
    if prev.Success? && a.blob.Some? {
      AttachmentEntryItem(k - 1, a, mediaTypes);
      ReadOneAttachment(atts, mediaTypes, k);
    }
  }

  /** One stored file read after the earlier ones succeeded: its entry, or
      the failure of its extension. */
  lemma ReadOneAttachment(atts: seq<StoredAttachment>, mediaTypes: MediaTypes, k: nat)
    requires 0 < k <= |atts| && AttachmentPackages(atts, mediaTypes, k - 1).Success? && atts[k - 1].blob.Some?
    ensures var e := AttachmentEntry(k - 1, Basename(atts[k - 1].name), atts[k - 1].blob.value, mediaTypes);
            AttachmentPackages(atts, mediaTypes, k)
            == if e.Failure? then Failure(e.error) else Success(AttachmentPackages(atts, mediaTypes, k - 1).value + [e.value])
  {
  }

  /** A readable attachment after a loop that has not raised adds its
      entry and its position. */
  lemma ReadableStep(atts: seq<StoredAttachment>, mediaTypes: MediaTypes, k: nat)
    requires 0 < k <= |atts| && atts[k - 1].blob.Some? && AttachmentPackages(atts, mediaTypes, k).Success?
    ensures AttachmentPackages(atts, mediaTypes, k - 1).Success? && !Unknown(atts[k - 1], mediaTypes)
    ensures AttachmentPackages(atts, mediaTypes, k).value
            == AttachmentPackages(atts, mediaTypes, k - 1).value + [AttachmentItem(k - 1, atts[k - 1], mediaTypes)]
    ensures ReadablePositions(atts, k) == ReadablePositions(atts, k - 1) + [k - 1]
  {
    AttachmentStep(atts, mediaTypes, k);
  }

  /** An unreadable attachment changes neither the entries nor the positions. */
  lemma UnreadableStep(atts: seq<StoredAttachment>, mediaTypes: MediaTypes, k: nat)
    requires 0 < k <= |atts| && atts[k - 1].blob.None?
    ensures AttachmentPackages(atts, mediaTypes, k) == AttachmentPackages(atts, mediaTypes, k - 1)
    ensures ReadablePositions(atts, k) == ReadablePositions(atts, k - 1)
  {
    AttachmentStep(atts, mediaTypes, k);
  }

  /** What `AttachmentPackageAt` states of the first `k` attachments. */
  predicate PackedAt(atts: seq<StoredAttachment>, mediaTypes: MediaTypes, k: nat, x: nat)
    requires k <= |atts| && AttachmentPackages(atts, mediaTypes, k).Success?
  {
    var ps, pos := AttachmentPackages(atts, mediaTypes, k).value, ReadablePositions(atts, k);
    && |ps| == |pos|
    && (x < |pos| ==> pos[x] < |atts| && atts[pos[x]].blob.Some? && !Unknown(atts[pos[x]], mediaTypes)
                      && ps[x] == AttachmentItem(pos[x], atts[pos[x]], mediaTypes))
  }

  /** When the loop does not raise, its `x`-th entry is that of the `x`-th
      readable attachment, and there is one entry per readable attachment. */
  lemma {:induction false} AttachmentPackageAt(atts: seq<StoredAttachment>, mediaTypes: MediaTypes, k: nat, x: nat)
    requires k <= |atts| && AttachmentPackages(atts, mediaTypes, k).Success?
    ensures |AttachmentPackages(atts, mediaTypes, k).value| == |ReadablePositions(atts, k)|
    ensures var ps, pos := AttachmentPackages(atts, mediaTypes, k).value, ReadablePositions(atts, k);
            x < |pos| ==> pos[x] < |atts| && atts[pos[x]].blob.Some? && !Unknown(atts[pos[x]], mediaTypes)
                          && ps[x] == AttachmentItem(pos[x], atts[pos[x]], mediaTypes)
  {
    if k > 0 {
      EarlierSucceeded(atts, mediaTypes, k);
      AttachmentPackageAt(atts, mediaTypes, k - 1, x);
      PackedAfter(atts, mediaTypes, k, x);
    }
  }

  /** A loop that has not raised after `k` attachments had not raised before the last. */
  lemma EarlierSucceeded(atts: seq<StoredAttachment>, mediaTypes: MediaTypes, k: nat)
    requires 0 < k <= |atts| && AttachmentPackages(atts, mediaTypes, k).Success?
    ensures AttachmentPackages(atts, mediaTypes, k - 1).Success?
  {
  }

  /** The step of `AttachmentPackageAt` over one more attachment. */
  lemma PackedAfter(atts: seq<StoredAttachment>, mediaTypes: MediaTypes, k: nat, x: nat)
    requires 0 < k <= |atts| && AttachmentPackages(atts, mediaTypes, k).Success?
    requires AttachmentPackages(atts, mediaTypes, k - 1).Success? && PackedAt(atts, mediaTypes, k - 1, x)
    ensures PackedAt(atts, mediaTypes, k, x)
  {
    if atts[k - 1].blob.None? {
      UnreadableStep(atts, mediaTypes, k);
      return;
    }
    ReadableStep(atts, mediaTypes, k);
    var ps0, pos0 := AttachmentPackages(atts, mediaTypes, k - 1).value, ReadablePositions(atts, k - 1);
    var ps, pos := AttachmentPackages(atts, mediaTypes, k).value, ReadablePositions(atts, k);
    if x < |pos0| {
      assert ps[x] == ps0[x] && pos[x] == pos0[x];
    } else if x == |pos0| {
      assert ps[x] == AttachmentItem(k - 1, atts[k - 1], mediaTypes) && pos[x] == k - 1;
    }
  }

  /** The export raises only when some readable attachment's extension
      is not in `MEDIATYPES`. */
  lemma {:induction false} FailureHasUnknown(atts: seq<StoredAttachment>, mediaTypes: MediaTypes, k: nat)
    requires k <= |atts| && AttachmentPackages(atts, mediaTypes, k).Failure?
    ensures exists j :: 0 <= j < k && Unknown(atts[j], mediaTypes)
  {
    AttachmentStep(atts, mediaTypes, k);
    if AttachmentPackages(atts, mediaTypes, k - 1).Failure? {
      FailureHasUnknown(atts, mediaTypes, k - 1);
      var j :| 0 <= j < k - 1 && Unknown(atts[j], mediaTypes);
      assert 0 <= j < k;
    } else {
      assert Unknown(atts[k - 1], mediaTypes);
    }
  }

  /** An unknown extension on a readable attachment makes the export raise. */
  lemma {:induction false} UnknownFails(atts: seq<StoredAttachment>, mediaTypes: MediaTypes, k: nat, j: nat)
    requires j < k <= |atts| && Unknown(atts[j], mediaTypes)
    ensures AttachmentPackages(atts, mediaTypes, k).Failure?
  {
    if j < k - 1 {
      UnknownFails(atts, mediaTypes, k - 1, j);
      FailureSticks(atts, mediaTypes, k - 1, k);
    } else {
      UnknownStep(atts, mediaTypes, k);
    }
  }

  /** The step over a readable attachment with an unknown extension raises,
      unless the loop had raised already. */
  lemma UnknownStep(atts: seq<StoredAttachment>, mediaTypes: MediaTypes, k: nat)
    requires 0 < k <= |atts| && Unknown(atts[k - 1], mediaTypes)
    ensures AttachmentPackages(atts, mediaTypes, k).Failure?
  {
    AttachmentStep(atts, mediaTypes, k);
  }

  /** When the export raises, it is with the key of the first readable
      attachment whose extension `MEDIATYPES` does not know. */
  lemma {:induction false} AttachmentFailureKey(atts: seq<StoredAttachment>, mediaTypes: MediaTypes, k: nat, j: nat)
    requires j < k <= |atts|
    requires Unknown(atts[j], mediaTypes) && forall i :: 0 <= i < j ==> !Unknown(atts[i], mediaTypes)
    ensures AttachmentPackages(atts, mediaTypes, k) == Failure(ExtensionKey(Basename(atts[j].name)))
    decreases k
  {
    if j < k - 1 {
      AttachmentFailureKey(atts, mediaTypes, k - 1, j);
    } else {
      if AttachmentPackages(atts, mediaTypes, k - 1).Failure? {
        FailureHasUnknown(atts, mediaTypes, k - 1);
      }
      AttachmentStep(atts, mediaTypes, k);
    }
  }

  /** The ID of the `x`-th attachment entry. */
  lemma AttachmentIdAt(atts: seq<StoredAttachment>, mediaTypes: MediaTypes, x: nat)
    requires AttachmentPackages(atts, mediaTypes, |atts|).Success?
    requires x < |AttachmentPackages(atts, mediaTypes, |atts|).value|
    ensures var pos := ReadablePositions(atts, |atts|);
            && x < |pos| && pos[x] < |atts|
            && AttachmentPackages(atts, mediaTypes, |atts|).value[x].id == "att" + Pad3(pos[x]) + "_" + Stem(Basename(atts[pos[x]].name))
  {
    AttachmentPackageAt(atts, mediaTypes, |atts|, x);
  }

  /** Attachments at different positions get different IDs, whatever their
      stems. */
  lemma AttachmentIdInjective(i: nat, u: string, j: nat, v: string)
    ensures "att" + Pad3(i) + "_" + u == "att" + Pad3(j) + "_" + v ==> i == j && u == v
  {
    NumberedIdInjective("att", i, u, j, v);
  }

  /** Two readable attachments never share a package ID: the numbered
      prefix tells them apart even when their basenames' stems agree. */
  lemma AttachmentIdsDistinct(atts: seq<StoredAttachment>, mediaTypes: MediaTypes)
    requires AttachmentPackages(atts, mediaTypes, |atts|).Success?
    ensures var ps := AttachmentPackages(atts, mediaTypes, |atts|).value;
            forall x, y :: 0 <= x < y < |ps| ==> ps[x].id != ps[y].id
  {
    var ps, pos := AttachmentPackages(atts, mediaTypes, |atts|).value, ReadablePositions(atts, |atts|);
    ReadablePositionsExact(atts, |atts|);
    forall x, y | 0 <= x < y < |ps|
      ensures ps[x].id != ps[y].id
    {
      AttachmentIdAt(atts, mediaTypes, x);
      AttachmentIdAt(atts, mediaTypes, y);
      var i, j := pos[x], pos[y];
      AttachmentIdInjective(i, Stem(Basename(atts[i].name)), j, Stem(Basename(atts[j].name)));
    }
  }

  predicate IdsDistinct(ps: seq<PackageItem>) {
    forall x, y :: 0 <= x < y < |ps| ==> ps[x].id != ps[y].id
  }

  predicate IdsStartWith(ps: seq<PackageItem>, c: char) {
    forall x :: 0 <= x < |ps| ==> |ps[x].id| > 0 && ps[x].id[0] == c
  }

  lemma ConcatIdsDistinct(cs: seq<PackageItem>, as_: seq<PackageItem>, c: char, a: char)
    requires IdsDistinct(cs) && IdsDistinct(as_) && IdsStartWith(cs, c) && IdsStartWith(as_, a) && c != a
    ensures IdsDistinct(cs + as_)
  {
    var ps := cs + as_;
    forall x, y | 0 <= x < y < |ps|
      ensures ps[x].id != ps[y].id
    {
      if y < |cs| {
        assert ps[x] == cs[x] && ps[y] == cs[y];
      } else if x >= |cs| {
        assert ps[x] == as_[x - |cs|] && ps[y] == as_[y - |cs|];
      } else {
        assert ps[x] == cs[x] && ps[y] == as_[y - |cs|];
      }
    }
  }

  lemma ChapterIdsDistinct(items: seq<ExportItem>)
    ensures IdsDistinct(ChapterPackages(items, |items|)) && IdsStartWith(ChapterPackages(items, |items|), 'c')
  {
    var pos := ChapterPositions(items, |items|);
    var ps := ChapterPackages(items, |items|);
    ChapterPositionsExact(items, |items|);
    ChapterRowAt(items, |items|, 0);
    forall x, y | 0 <= x < y < |ps|
      ensures ps[x].id != ps[y].id
    {
      ChapterRowAt(items, |items|, x);
      ChapterRowAt(items, |items|, y);
      ChapterIdInjective(pos[x], items[pos[x]].urlTitle, pos[y], items[pos[y]].urlTitle);
    }
    forall x | 0 <= x < |ps|
      ensures |ps[x].id| > 0 && ps[x].id[0] == 'c'
    {
      ChapterRowAt(items, |items|, x);
      assert ps[x].id == "ch" + Pad3(pos[x]) + "_" + items[pos[x]].urlTitle;
    }
  }


  lemma AttachmentIdsStart(atts: seq<StoredAttachment>, mediaTypes: MediaTypes)
    requires AttachmentPackages(atts, mediaTypes, |atts|).Success?
    ensures IdsStartWith(AttachmentPackages(atts, mediaTypes, |atts|).value, 'a')
  {
    forall x | 0 <= x < |AttachmentPackages(atts, mediaTypes, |atts|).value|
      ensures var id := AttachmentPackages(atts, mediaTypes, |atts|).value[x].id; |id| > 0 && id[0] == 'a'
    {
      AttachmentIdAt(atts, mediaTypes, x);
    }
  }

  /** Every ID in the package is used once: chapter IDs begin with `c`,
      attachment IDs with `a`, and each kind is numbered by position. */
  lemma PackageIdsDistinct(items: seq<ExportItem>, atts: seq<StoredAttachment>, mediaTypes: MediaTypes)
    requires AttachmentPackages(atts, mediaTypes, |atts|).Success?
    ensures IdsDistinct(ChapterPackages(items, |items|) + AttachmentPackages(atts, mediaTypes, |atts|).value)
  {
    ChapterIdsDistinct(items);
    AttachmentIdsDistinct(atts, mediaTypes);
    AttachmentIdsStart(atts, mediaTypes);
    ConcatIdsDistinct(ChapterPackages(items, |items|), AttachmentPackages(atts, mediaTypes, |atts|).value, 'c', 'a');
  }

  /** The import saves an attachment under its manifest URL's basename, the
      storage files it under some directory, and the export writes it back
      as `static/<basename>`: a manifest URL directly under `static/` comes
      back unchanged. */
  lemma AttachmentPathRoundTrip(url: string, dir: string)
    requires StartsWith(url, "static/") && '/' !in url[7..]
    ensures "static/" + Basename(dir + "/" + Basename(url)) == url
  {
    RFindUnique(url, '/', 6);
    var name := Basename(url);
    assert name == url[7..];
    RFindUnique(dir + "/" + name, '/', |dir|);
    assert Basename(dir + "/" + name) == name;
    assert url == url[..7] + url[7..];
  }

  /** What `exportBook` puts in the bookizip: the TOC, the spine, the
      metadata tree and the package entries. */
  datatype ExportedBook = ExportedBook(toc: seq<TocNode>, spine: seq<string>, metadata: MetaTree, package: seq<PackageItem>)

  /** `exportBook(book_version)`: the TOC rows in order as `items`, the
      book's info records, its context (whose `urlTitle` is the book's
      slug), its attachments with their bytes (or `None` where reading
      fails) and the `MEDIATYPES` table.  It raises in `_format_metadata`
      when the book has no history row; otherwise at the first chapter
      `_fix_content` cannot fix; after all chapters, at the first readable
      attachment whose extension has no media type. */
  method ExportBook(items: seq<ExportItem>, records: seq<Info>, ctx: BookContext,
                    atts: seq<StoredAttachment>, mediaTypes: MediaTypes)
    returns (r: Result<ExportedBook, ExportError>)
    ensures r.Failure? <==> || ctx.history == []
                            || !FixesBefore(items, |items|)
                            || exists j :: 0 <= j < |atts| && Unknown(atts[j], mediaTypes)
    ensures ctx.history == [] ==> r == Failure(NoHistory)
    ensures ctx.history != [] && !FixesBefore(items, |items|) ==> r.Failure? && FirstUnfixed(items, r.error)
    ensures r.Failure? && ctx.history != [] && FixesBefore(items, |items|) ==>
              r.error.UnknownExtension? && AttachmentPackages(atts, mediaTypes, |atts|) == Failure(r.error.key)
    ensures r.Success? ==>
              && ctx.history != []
              && Linearize(r.value.toc) == Expected(items, |items|)
              && Shape(r.value.toc)
              && r.value.spine == SpineOf(items, |items|)
              && FormattedFrom(records, ctx, r.value.metadata)
              && AttachmentPackages(atts, mediaTypes, |atts|).Success?
              && r.value.package == ChapterPackages(items, |items|) + AttachmentPackages(atts, mediaTypes, |atts|).value
              && IdsDistinct(r.value.package)
  {
    var formatted := FormatMetadata(records, ctx);
    if formatted.None? {
      return Failure(NoHistory);
    }
    var metadata := formatted.value;
    var toc, spine, chapters, fault := BuildToc(ctx.urlTitle, items);
    if fault.Some? {
      return Failure(fault.value);
    }
    var attached := ExportAttachments(atts, mediaTypes);
    if attached.Failure? {
      FailureHasUnknown(atts, mediaTypes, |atts|);
      return Failure(UnknownExtension(attached.error));
    }
    forall j | 0 <= j < |atts| && Unknown(atts[j], mediaTypes)
      ensures false
    {
      UnknownFails(atts, mediaTypes, |atts|, j);
    }
    PackageIdsDistinct(items, atts, mediaTypes);
    r := Success(ExportedBook(toc, spine, metadata, chapters + attached.value));
  }
}
