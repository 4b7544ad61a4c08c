/** `importBookFromFile` with the zip archive, the database and the clock
    taken out: from the parsed `info.json` (metadata, manifest, TOC) and the
    archive's files it computes the book title, the chapter rows, the
    `BookToc` rows with their weights, the attachments and the `Info`
    metadata rows that the source saves. */
module BookImport {
  import opened Wrappers
  import opened Text
  import opened Toc
  import opened Titles
  import opened Metadata

  // ---------------------------------------------------------------------
  // The src rewrite: re.sub(r'\ssrc="(.*)"', r' src="../\1"', content)
  // ---------------------------------------------------------------------

  /** `\s` in a Python 2 byte-string pattern: space, tab, line feed,
      carriage return, form feed and vertical tab. */
  predicate IsSpace(c: char) {
    c == ' ' || c == '\t' || c == '\n' || c == '\r' || c == '\U{0C}' || c == '\U{0B}'
  }

  /** The five characters after the whitespace character. */
  const SrcOpen: string := "src=\""

  /** Whether `\s` and `src="` match at `i`. */
  predicate OpensSrc(s: string, i: nat) {
    i + 6 <= |s| && IsSpace(s[i]) && s[i + 1..i + 6] == SrcOpen
  }

  /** Where the pattern, tried at `i`, closes: the greedy `(.*)` runs to the
      first newline and backs off to the last `"` before it.  `None` when
      the opening does not match or no `"` follows on the same line. */
  function SrcMatch(s: string, i: nat): (r: Option<nat>)
    ensures r.Some? ==> OpensSrc(s, i)
    ensures OpensSrc(s, i) ==>
              var e := FindFrom(s, '\n', i + 6);
              && (r.None? <==> forall j :: i + 6 <= j < e ==> s[j] != '"')
              && (r.Some? ==> i + 6 <= r.value < e && s[r.value] == '"'
                              && forall j :: r.value < j < e ==> s[j] != '"')
  {
    if OpensSrc(s, i) then
      var e := FindFrom(s, '\n', i + 6);
      var q := RFind(s[i + 6..e], '"');
      assert forall j :: i + 6 <= j < e ==> s[j] == s[i + 6..e][j - (i + 6)];
      if q < 0 then None else Some(i + 6 + q)
    else None
  }

  /** `re.sub` from position `i` on: a match is replaced by ` src="../` + the
      group + `"` and the scan resumes after it; elsewhere one character is
      copied and the scan moves on by one. */
  function RewriteFrom(s: string, i: nat): (r: string)
    requires i <= |s|
    ensures |r| >= |s| - i && (|r| - (|s| - i)) % 3 == 0
    decreases |s| - i
  {
    if i == |s| then []
    else match SrcMatch(s, i)
      case Some(g) => " src=\"../" + s[i + 6..g] + "\"" + RewriteFrom(s, g + 1)
      case None => [s[i]] + RewriteFrom(s, i + 1)
  }

  /** The content of a chapter as saved: each `src="..."` gets `../` in
      front, and the whitespace character the pattern matched before it
      becomes a space, so each rewrite adds three characters. */
  function RewriteSrc(content: string): (r: string)
    ensures |r| >= |content| && (|r| - |content|) % 3 == 0
  {
    RewriteFrom(content, 0)
  }

  /** Content where the pattern matches nowhere is saved as it is. */
  lemma {:induction false} RewriteFromWithoutMatch(s: string, i: nat)
    requires i <= |s|
    requires forall j :: i <= j < |s| ==> SrcMatch(s, j).None?
    ensures RewriteFrom(s, i) == s[i..]
    decreases |s| - i
  {
    if i < |s| {
      RewriteFromWithoutMatch(s, i + 1);
      assert s[i..] == [s[i]] + s[i + 1..];
    }
  }

  lemma RewriteWithoutMatch(s: string)
    requires forall j :: 0 <= j < |s| ==> SrcMatch(s, j).None?
    ensures RewriteSrc(s) == s
  {
    RewriteFromWithoutMatch(s, 0);
  }

  /** One attribute on a line of its own, after any whitespace character
      `w`: `w` becomes a space and the value `p` gets `../` in front.  `p`
      may itself hold quotes: the group reaches the last quote, so in
      ` src="a" src="b"` only the first attribute is rewritten, and its
      value is taken to be `a" src="b`. */
  lemma RewriteSingle(w: char, p: string)
    requires IsSpace(w) && '\n' !in p
    ensures RewriteSrc([w] + SrcOpen + p + "\"") == " src=\"../" + p + "\""
  {
    var s := [w] + SrcOpen + p + "\"";
    assert s[0] == w && s[|s| - 1] == '"';
    assert s[1..6] == SrcOpen;
    assert '\n' !in s[6..];
    assert FindFrom(s, '\n', 6) == |s|;
    assert SrcMatch(s, 0) == Some(|s| - 1);
    assert s[6..|s| - 1] == p;
    assert RewriteFrom(s, |s|) == [];
  }

  /** A tab before the attribute is not kept: it becomes a space. */
  lemma RewriteReplacesTab()
    ensures RewriteSrc("\tsrc=\"x\"") == " src=\"../x\""
  {
    RewriteSingle('\t', "x");
    assert ['\t'] + SrcOpen + "x" + "\"" == "\tsrc=\"x\"";
  }

  /** The greedy group in action. */
  lemma RewriteTwoOnOneLine()
    ensures RewriteSrc(" src=\"a\" src=\"b\"") == " src=\"../a\" src=\"b\""
  {
    var p := "a\" src=\"b";
    RewriteSingle(' ', p);
    assert [' '] + SrcOpen + p + "\"" == " src=\"a\" src=\"b\"";
    assert " src=\"../" + p + "\"" == " src=\"../a\" src=\"b\"";
  }

  // ---------------------------------------------------------------------
  // Chapters and TOC rows
  // ---------------------------------------------------------------------

  /** A `Chapter` row. */
  datatype ChapterRecord = ChapterRecord(urlTitle: string, title: string, content: string)

  /** A `BookToc` row: `typeof` 1 with `chapter` the index of its chapter
      row, or `typeof` 2 with no chapter for a section. */
  datatype TocRecord = TocRecord(name: string, chapter: Option<nat>, weight: int, typeof: nat)

  const ChapterKind: nat := 1
  const SectionKind: nat := 2

  /** The number of chapter (non-section) entries among `entries`. */
  function ChapterCount(entries: seq<TocEntry>): (r: nat)
    ensures r <= |entries|
  {
    if entries == [] then 0
    else ChapterCount(entries[..|entries| - 1]) + (if entries[|entries| - 1].isSection then 0 else 1)
  }

  /** Every chapter entry's file is in the archive. */
  predicate ChapterFilesPresent(entries: seq<TocEntry>, files: map<string, string>) {
    forall k :: 0 <= k < |entries| && !entries[k].isSection ==> entries[k].url in files
  }

  /** Entry `k` is the first chapter entry whose file is missing: the
      `zf.read` that raises `KeyError` and ends the import. */
  predicate FirstMissingChapter(entries: seq<TocEntry>, files: map<string, string>, k: nat) {
    k < |entries| && !entries[k].isSection && entries[k].url !in files
    && ChapterFilesPresent(entries[..k], files)
  }

  /** The chapter rows: one per chapter entry, in entry order, with the
      slug of the title and the rewritten file content. */
  function ChapterPlan(entries: seq<TocEntry>, files: map<string, string>, slug: string -> string): (r: seq<ChapterRecord>)
    requires ChapterFilesPresent(entries, files)
    ensures |r| == ChapterCount(entries)
  {
    if entries == [] then []
    else
      var e := entries[|entries| - 1];
      var init := entries[..|entries| - 1];
      assert ChapterFilesPresent(init, files) by {
        assert forall k :: 0 <= k < |init| ==> init[k] == entries[k];
      }
      ChapterPlan(init, files, slug)
      + (if e.isSection then [] else [ChapterRecord(slug(e.title), e.title, RewriteSrc(files[e.url]))])
  }

  /** One more entry read: its file is present and it adds its chapter row. */
  lemma PlanStep(entries: seq<TocEntry>, files: map<string, string>, slug: string -> string, k: nat)
    requires k < |entries| && ChapterFilesPresent(entries[..k], files)
    requires !entries[k].isSection ==> entries[k].url in files
    ensures ChapterFilesPresent(entries[..k + 1], files)
    ensures ChapterPlan(entries[..k + 1], files, slug)
            == ChapterPlan(entries[..k], files, slug)
               + (if entries[k].isSection then []
                  else [ChapterRecord(slug(entries[k].title), entries[k].title, RewriteSrc(files[entries[k].url]))])
  {
    assert entries[..k + 1][..k] == entries[..k];
    assert entries[..k + 1][k] == entries[k];
  }

  /** The `BookToc` row of entry `k`: the weight counts down from
      `len(chapters) + 1`, and a chapter's row points at its chapter row. */
  function TocRow(entries: seq<TocEntry>, k: nat): TocRecord
    requires k < |entries|
  {
    var e := entries[k];
    if e.isSection then TocRecord(e.title, None, |entries| + 1 - k, SectionKind)
    else TocRecord(e.title, Some(ChapterCount(entries[..k])), |entries| + 1 - k, ChapterKind)
  }

  /** The `BookToc` rows made when `createTOC` is set: one per entry. */
  function TocPlan(entries: seq<TocEntry>): (r: seq<TocRecord>)
    ensures |r| == |entries|
  {
    seq(|entries|, k requires 0 <= k < |entries| => TocRow(entries, k))
  }

  lemma TocPlanSnoc(entries: seq<TocEntry>, k: nat)
    requires k < |entries|
    ensures TocPlan(entries)[..k + 1] == TocPlan(entries)[..k] + [TocRow(entries, k)]
  {
  }

  /** The TOC row of entry `k` points at the chapter row that follows the
      chapter rows of the entries before it. */
  lemma TocRowAt(entries: seq<TocEntry>, files: map<string, string>, slug: string -> string, k: nat)
    requires k < |entries| && ChapterFilesPresent(entries[..k], files)
    ensures TocRow(entries, k)
            == if entries[k].isSection then TocRecord(entries[k].title, None, |entries| + 1 - k, SectionKind)
               else TocRecord(entries[k].title, Some(|ChapterPlan(entries[..k], files, slug)|), |entries| + 1 - k, ChapterKind)
  {
  }

  /** The body of the chapter loop for entry `k`, whose file, for a chapter,
      is in the archive: a chapter adds its chapter row, and with
      `createTOC` every entry adds its TOC row with weight `n`, which then
      counts down. */
  method ImportEntry(entries: seq<TocEntry>, createTOC: bool, files: map<string, string>, slug: string -> string,
                     k: nat, chapters: seq<ChapterRecord>, toc: seq<TocRecord>, n: int)
    returns (chapters': seq<ChapterRecord>, toc': seq<TocRecord>, n': int)
    requires k < |entries| && ChapterFilesPresent(entries[..k], files)
    requires !entries[k].isSection ==> entries[k].url in files
    requires chapters == ChapterPlan(entries[..k], files, slug)
    requires createTOC ==> toc == TocPlan(entries)[..k] && n == |entries| + 1 - k
    requires !createTOC ==> toc == []
    ensures ChapterFilesPresent(entries[..k + 1], files)
    ensures chapters' == ChapterPlan(entries[..k + 1], files, slug)
    ensures createTOC ==> toc' == TocPlan(entries)[..k + 1] && n' == |entries| - k
    ensures !createTOC ==> toc' == []
  {
    chapters', toc', n' := chapters, toc, n;
    var e := entries[k];
    TocRowAt(entries, files, slug, k);
    PlanStep(entries, files, slug, k);
    TocPlanSnoc(entries, k);
    if e.isSection {
      if createTOC {
        toc' := toc' + [TocRecord(e.title, None, n', SectionKind)];
        n' := n' - 1;
      }
    } else {
      var content := RewriteSrc(files[e.url]);
      chapters' := chapters' + [ChapterRecord(slug(e.title), e.title, content)];
      if createTOC {
        toc' := toc' + [TocRecord(e.title, Some(|chapters'| - 1), n', ChapterKind)];
        n' := n' - 1;
      }
    }
  }

  /** A chapter entry whose file is missing, after entries whose files are
      all present, is the first missing one. */
  lemma MissingChapterFails(entries: seq<TocEntry>, files: map<string, string>, k: nat)
    requires k < |entries| && !entries[k].isSection && entries[k].url !in files
    requires ChapterFilesPresent(entries[..k], files)
    ensures FirstMissingChapter(entries, files, k) && !ChapterFilesPresent(entries, files)
  {
  }

  /** The loop of `importBookFromFile` over the linearized TOC.  It stops at
      the first chapter whose file is missing; otherwise it yields a chapter
      row per chapter entry and, with `createTOC`, a TOC row per entry whose
      weight is `n`, decremented after each row. */
  method PlanChapters(entries: seq<TocEntry>, createTOC: bool, files: map<string, string>, slug: string -> string)
    returns (r: Result<(seq<ChapterRecord>, seq<TocRecord>), string>)
    ensures r.Failure? <==> !ChapterFilesPresent(entries, files)
    ensures r.Failure? ==> exists k: nat :: FirstMissingChapter(entries, files, k) && r.error == entries[k].url
    ensures r.Success? ==> r.value.0 == ChapterPlan(entries, files, slug)
    ensures r.Success? ==> r.value.1 == (if createTOC then TocPlan(entries) else [])
  {
    var chapters: seq<ChapterRecord> := [];
    var toc: seq<TocRecord> := [];
    var n: int := |entries| + 1;
    var k := 0;
    while k < |entries|
      invariant 0 <= k <= |entries|
      invariant ChapterFilesPresent(entries[..k], files)
      invariant chapters == ChapterPlan(entries[..k], files, slug)
      invariant createTOC ==> toc == TocPlan(entries)[..k]
      invariant !createTOC ==> toc == []
      invariant createTOC ==> n == |entries| + 1 - k
    {
      var e := entries[k];
      if !e.isSection && e.url !in files {
        MissingChapterFails(entries, files, k);
        return Failure(e.url);
      }
      chapters, toc, n := ImportEntry(entries, createTOC, files, slug, k, chapters, toc, n);
      k := k + 1;
    }
    assert entries[..k] == entries && TocPlan(entries)[..k] == TocPlan(entries);
    return Success((chapters, toc));
  }

  /** Chapter entry `k` becomes the chapter row at the position that counts
      the chapter entries before it, and that row carries its title, its
      slug and its rewritten file. */
  lemma {:induction false} ChapterPlanAt(entries: seq<TocEntry>, files: map<string, string>, slug: string -> string, k: nat)
    requires ChapterFilesPresent(entries, files)
    requires k < |entries| && !entries[k].isSection
    ensures ChapterCount(entries[..k]) < |ChapterPlan(entries, files, slug)|
    ensures ChapterPlan(entries, files, slug)[ChapterCount(entries[..k])]
            == ChapterRecord(slug(entries[k].title), entries[k].title, RewriteSrc(files[entries[k].url]))
    decreases |entries|
  {
    var init := entries[..|entries| - 1];
    assert forall j :: 0 <= j < |init| ==> init[j] == entries[j];
    if k < |entries| - 1 {
      assert init[..k] == entries[..k];
      ChapterPlanAt(init, files, slug, k);
      ChapterCountPrefix(entries, k + 1);
    } else {
      assert init == entries[..k];
    }
  }

  /** Counting chapters over a longer prefix counts at least as many. */
  lemma {:induction false} ChapterCountPrefix(entries: seq<TocEntry>, k: nat)
    requires k <= |entries|
    ensures ChapterCount(entries[..k]) <= ChapterCount(entries)
    ensures k < |entries| && !entries[k].isSection ==> ChapterCount(entries[..k]) < ChapterCount(entries)
    decreases |entries|
  {
    if k < |entries| {
      var init := entries[..|entries| - 1];
      if k < |entries| - 1 {
        assert init[..k] == entries[..k];
        ChapterCountPrefix(init, k);
        ChapterCountPrefix(init, k);
      } else {
        assert init == entries[..k];
      }
    } else {
      assert entries[..k] == entries;
    }
  }

  /** Every chapter row comes from a chapter entry. */
  lemma {:induction false} ChapterPlanFrom(entries: seq<TocEntry>, files: map<string, string>, slug: string -> string, c: nat)
    requires ChapterFilesPresent(entries, files)
    requires c < |ChapterPlan(entries, files, slug)|
    ensures exists k :: 0 <= k < |entries| && !entries[k].isSection && ChapterCount(entries[..k]) == c
    decreases |entries|
  {
    var init := entries[..|entries| - 1];
    var last := |entries| - 1;
    assert ChapterFilesPresent(init, files) by {
      assert forall j :: 0 <= j < |init| ==> init[j] == entries[j];
    }
    if c < ChapterCount(init) {
      ChapterPlanFrom(init, files, slug, c);
      var k :| 0 <= k < |init| && !init[k].isSection && ChapterCount(init[..k]) == c;
      assert init[..k] == entries[..k];
      assert !entries[k].isSection;
    } else {
      assert init == entries[..last];
      assert !entries[last].isSection;
    }
  }

  /** With `createTOC`, weights fall by one per row from `len(chapters) + 1`
      down to 2, so they are pairwise different and strictly decreasing. */
  lemma TocPlanWeights(entries: seq<TocEntry>)
    ensures forall k :: 0 <= k < |entries| ==> TocPlan(entries)[k].weight == |entries| + 1 - k
    ensures forall k :: 0 <= k < |entries| ==> 2 <= TocPlan(entries)[k].weight <= |entries| + 1
    ensures StrictlyDecreasing(TocPlan(entries))
  {
  }

  /** A chapter's TOC row names its chapter row, and a section's row has
      none; the kinds are 1 and 2. */
  lemma TocPlanLinks(entries: seq<TocEntry>, files: map<string, string>, slug: string -> string, k: nat)
    requires ChapterFilesPresent(entries, files)
    requires k < |entries|
    ensures TocPlan(entries)[k].name == entries[k].title
    ensures entries[k].isSection <==> TocPlan(entries)[k].typeof == SectionKind
    ensures entries[k].isSection <==> TocPlan(entries)[k].chapter.None?
    ensures !entries[k].isSection ==>
              var c := TocPlan(entries)[k].chapter.value;
              c < |ChapterPlan(entries, files, slug)| && ChapterPlan(entries, files, slug)[c].title == entries[k].title
  {
    if !entries[k].isSection {
      ChapterPlanAt(entries, files, slug, k);
    }
  }

  /** Strictly decreasing weights, the order `importBookFromFile` writes. */
  predicate StrictlyDecreasing(rows: seq<TocRecord>) {
    forall i, j :: 0 <= i < j < |rows| ==> rows[i].weight > rows[j].weight
  }

  /** Any order the database may return for `order_by("-weight")`. */
  predicate ByDescendingWeight(rows: seq<TocRecord>) {
    forall i, j :: 0 <= i < j < |rows| ==> rows[i].weight >= rows[j].weight
  }

  /** Reading the TOC rows back ordered by descending weight gives them in
      the order they were written, that is in linearized TOC order: with
      pairwise different weights there is only one such order. */
  lemma {:induction false} OrderByWeightRestoresOrder(written: seq<TocRecord>, read: seq<TocRecord>)
    requires StrictlyDecreasing(written)
    requires multiset(read) == multiset(written)
    requires ByDescendingWeight(read)
    ensures read == written
    decreases |written|
  {
    if written == [] {
      assert |read| == |multiset(read)|;
    } else {
      SameFirstRow(written, read);
      SameOtherRows(written, read);
      OrderByWeightRestoresOrder(written[1..], read[1..]);
      assert read == [read[0]] + read[1..];
      assert written == [written[0]] + written[1..];
    }
  }

  /** The heaviest row comes first in both orders. */
  lemma SameFirstRow(written: seq<TocRecord>, read: seq<TocRecord>)
    requires written != []
    requires StrictlyDecreasing(written)
    requires multiset(read) == multiset(written)
    requires ByDescendingWeight(read)
    ensures |read| == |written| && read[0] == written[0]
  {
    assert |read| == |written| by {
      assert |read| == |multiset(read)| && |written| == |multiset(written)|;
    }
    assert read[0] in multiset(written);
    var j :| 0 <= j < |written| && written[j] == read[0];
    assert written[0] in multiset(read);
    var i :| 0 <= i < |read| && read[i] == written[0];
  }

  /** Taking the same first row off both leaves the same rows. */
  lemma SameOtherRows(written: seq<TocRecord>, read: seq<TocRecord>)
    requires written != [] && read != [] && read[0] == written[0]
    requires multiset(read) == multiset(written)
    ensures multiset(read[1..]) == multiset(written[1..])
  {
    assert read == [read[0]] + read[1..];
    assert written == [written[0]] + written[1..];
    assert multiset(read) == multiset{read[0]} + multiset(read[1..]);
    assert multiset(written) == multiset{written[0]} + multiset(written[1..]);
    assert multiset(read[1..]) == multiset(read) - multiset{read[0]};
    assert multiset(written[1..]) == multiset(written) - multiset{written[0]};
  }


  // ---------------------------------------------------------------------
  // Attachments
  // ---------------------------------------------------------------------

  /** A value of the manifest. */
  datatype ManifestItem = ManifestItem(url: string, mimetype: string)

  /** An `Attachment` row: the file name it is saved under and the bytes. */
  datatype AttachmentRecord = AttachmentRecord(name: string, data: string)

  /** The manifest items that become attachments. */
  predicate IsAttachment(item: ManifestItem) {
    item.mimetype != "text/html" && StartsWith(item.url, "static/")
  }

  predicate AttachmentFilesPresent(manifest: seq<ManifestItem>, files: map<string, string>) {
    forall i :: 0 <= i < |manifest| && IsAttachment(manifest[i]) ==> manifest[i].url in files
  }

  predicate FirstMissingAttachment(manifest: seq<ManifestItem>, files: map<string, string>, i: nat) {
    i < |manifest| && IsAttachment(manifest[i]) && manifest[i].url !in files
    && AttachmentFilesPresent(manifest[..i], files)
  }

  /** The attachment rows: one per selected item, in manifest order, saved
      under the item's basename. */
  function AttachmentPlan(manifest: seq<ManifestItem>, files: map<string, string>): seq<AttachmentRecord>
    requires AttachmentFilesPresent(manifest, files)
  {
    if manifest == [] then []
    else
      var item := manifest[|manifest| - 1];
      var init := manifest[..|manifest| - 1];
      assert AttachmentFilesPresent(init, files) by {
        assert forall k :: 0 <= k < |init| ==> init[k] == manifest[k];
      }
      AttachmentPlan(init, files)
      + (if IsAttachment(item) then [AttachmentRecord(Basename(item.url), files[item.url])] else [])
  }

  /** The manifest loop of `importBookFromFile`. */
  method PlanAttachments(manifest: seq<ManifestItem>, files: map<string, string>)
    returns (r: Result<seq<AttachmentRecord>, string>)
    ensures r.Failure? <==> !AttachmentFilesPresent(manifest, files)
    ensures r.Failure? ==> exists i: nat :: FirstMissingAttachment(manifest, files, i) && r.error == manifest[i].url
    ensures r.Success? ==> r.value == AttachmentPlan(manifest, files)
  {
    var atts: seq<AttachmentRecord> := [];
    var i := 0;
    while i < |manifest|
      invariant 0 <= i <= |manifest|
      invariant AttachmentFilesPresent(manifest[..i], files)
      invariant atts == AttachmentPlan(manifest[..i], files)
    {
      var item := manifest[i];
      assert manifest[..i + 1][..i] == manifest[..i];
      assert manifest[..i + 1][i] == item;
      if item.mimetype != "text/html" {
        var attachmentName := item.url;
        if StartsWith(attachmentName, "static/") {
          if attachmentName !in files {
            assert FirstMissingAttachment(manifest, files, i);
            return Failure(attachmentName);
          }
          atts := atts + [AttachmentRecord(Basename(attachmentName), files[attachmentName])];
        }
      }
      i := i + 1;
    }
    assert manifest[..i] == manifest;
    return Success(atts);
  }

  /** A row is in the plan exactly when a selected manifest item gives it:
      the item's basename and the archive's bytes for its url. */
  lemma {:induction false} AttachmentPlanMembers(manifest: seq<ManifestItem>, files: map<string, string>, a: AttachmentRecord)
    requires AttachmentFilesPresent(manifest, files)
    ensures a in AttachmentPlan(manifest, files) <==>
              exists i :: 0 <= i < |manifest| && IsAttachment(manifest[i])
                          && a == AttachmentRecord(Basename(manifest[i].url), files[manifest[i].url])
    decreases |manifest|
  {
    if manifest != [] {
      var n := |manifest| - 1;
      var init := manifest[..n];
      var item := manifest[n];
      assert forall k :: 0 <= k < |init| ==> init[k] == manifest[k];
      AttachmentPlanMembers(init, files, a);
      var last := if IsAttachment(item) then [AttachmentRecord(Basename(item.url), files[item.url])] else [];
      assert AttachmentPlan(manifest, files) == AttachmentPlan(init, files) + last;
      if a in AttachmentPlan(init, files) {
        var i :| 0 <= i < |init| && IsAttachment(init[i])
                 && a == AttachmentRecord(Basename(init[i].url), files[init[i].url]);
        assert manifest[i] == init[i];
      } else if a in last {
        assert 0 <= n < |manifest| && IsAttachment(manifest[n]);
      } else {
        forall i | 0 <= i < |manifest| && IsAttachment(manifest[i])
          ensures a != AttachmentRecord(Basename(manifest[i].url), files[manifest[i].url])
        {
          if i < n {
            assert manifest[i] == init[i];
          }
        }
      }
    }
  }

  /** The names attachments are saved under hold no `/`. */
  lemma {:induction false} AttachmentNamesFlat(manifest: seq<ManifestItem>, files: map<string, string>)
    requires AttachmentFilesPresent(manifest, files)
    ensures forall a :: a in AttachmentPlan(manifest, files) ==> '/' !in a.name
  {
    forall a | a in AttachmentPlan(manifest, files)
      ensures '/' !in a.name
    {
      AttachmentPlanMembers(manifest, files, a);
    }
  }

  // ---------------------------------------------------------------------
  // Metadata rows
  // ---------------------------------------------------------------------

  /** One scheme entry of `info.json`'s metadata with its values, in the
      order the nested dictionaries are walked. */
  datatype MetaSlot = MetaSlot(bucket: Bucket, values: seq<string>)

  /** The `Info` rows of one slot, one per value. */
  function SlotInfos(slot: MetaSlot): (r: seq<Info>)
    ensures |r| == |slot.values|
  {
    seq(|slot.values|, j requires 0 <= j < |slot.values| => MakeInfo(EncodeKey(slot.bucket), slot.values[j]))
  }

  /** The `Info` rows of all slots, slot after slot. */
  function ImportedInfos(slots: seq<MetaSlot>): seq<Info> {
    if slots == [] then [] else ImportedInfos(slots[..|slots| - 1]) + SlotInfos(slots[|slots| - 1])
  }

  /** The number of values over all slots. */
  function ValueCount(slots: seq<MetaSlot>): nat {
    if slots == [] then 0 else ValueCount(slots[..|slots| - 1]) + |slots[|slots| - 1].values|
  }

  /** The rows of one more slot follow those of the slots before it. */
  lemma ImportedInfosSnoc(slots: seq<MetaSlot>, k: nat)
    requires k < |slots|
    ensures ImportedInfos(slots[..k + 1]) == ImportedInfos(slots[..k]) + SlotInfos(slots[k])
  {
    assert slots[..k + 1][..k] == slots[..k];
  }

  /** The metadata loops of `importBookFromFile`. */
  method PlanMetadata(slots: seq<MetaSlot>) returns (infos: seq<Info>)
    ensures infos == ImportedInfos(slots)
  {
    infos := [];
    var k := 0;
    while k < |slots|
      invariant 0 <= k <= |slots|
      invariant infos == ImportedInfos(slots[..k])
    {
      var slot := slots[k];
      var key := EncodeKey(slot.bucket);
      var before := infos;
      var j := 0;
      while j < |slot.values|
        invariant 0 <= j <= |slot.values|
        invariant infos == before + SlotInfos(slot)[..j]
      {
        var v := slot.values[j];
        infos := infos + [MakeInfo(key, v)];
        assert SlotInfos(slot)[..j + 1] == SlotInfos(slot)[..j] + [MakeInfo(key, v)];
        j := j + 1;
      }
      assert SlotInfos(slot)[..j] == SlotInfos(slot);
      ImportedInfosSnoc(slots, k);
      k := k + 1;
    }
    assert slots[..k] == slots;
  }

  /** Exactly one row per value. */
  lemma {:induction false} ImportedInfosCount(slots: seq<MetaSlot>)
    ensures |ImportedInfos(slots)| == ValueCount(slots)
    decreases |slots|
  {
    if slots != [] {
      ImportedInfosCount(slots[..|slots| - 1]);
    }
  }

  /** Value `j` of slot `k` is the row after all values of earlier slots: its
      name is the slot's packed key and its kind follows its length. */
  lemma {:induction false} ImportedInfoAt(slots: seq<MetaSlot>, k: nat, j: nat)
    requires k < |slots| && j < |slots[k].values|
    ensures ValueCount(slots[..k]) + j < |ImportedInfos(slots)|
    ensures ImportedInfos(slots)[ValueCount(slots[..k]) + j] == MakeInfo(EncodeKey(slots[k].bucket), slots[k].values[j])
    decreases |slots|
  {
    var init := slots[..|slots| - 1];
    ImportedInfosCount(init);
    ImportedInfosCount(slots);
    if k < |slots| - 1 {
      assert init[..k] == slots[..k];
      ImportedInfoAt(init, k, j);
    } else {
      assert init == slots[..k];
    }
  }

  /** The bucket `_format_metadata` files a slot's values under. */
  function ExportedBucket(b: Bucket): Bucket {
    DecodeKey(EncodeKey(b))
  }

  lemma {:induction false} CollectedAppend(a: seq<Info>, c: seq<Info>, b: Bucket)
    ensures Collected(a + c, b) == Collected(a, b) + Collected(c, b)
    decreases |c|
  {
    if c == [] {
      assert a + c == a;
    } else {
      var n := |c| - 1;
      assert (a + c)[..|a + c| - 1] == a + c[..n];
      assert (a + c)[|a + c| - 1] == c[n];
      CollectedAppend(a, c[..n], b);
    }
  }

  /** `_format_metadata` files every row of a slot under the slot's exported bucket. */
  lemma {:induction false} CollectedSlot(slot: MetaSlot, b: Bucket, n: nat)
    requires n <= |slot.values|
    ensures Collected(SlotInfos(slot)[..n], b) == (if ExportedBucket(slot.bucket) == b then slot.values[..n] else [])
  {
    if n > 0 {
      var s := SlotInfos(slot)[..n];
      assert s[..n - 1] == SlotInfos(slot)[..n - 1];
      SlotInfoFiled(slot, n - 1);
      assert Collected(s, b) == Collected(s[..n - 1], b) + (if DecodeKey(s[n - 1].name) == b then [s[n - 1].value.s] else []);
      CollectedSlot(slot, b, n - 1);
      PrefixSnoc(slot.values, n);
    }
  }

  /** Row `j` of a slot carries the slot's value `j` under a name that
      decodes to the slot's exported bucket. */
  lemma SlotInfoFiled(slot: MetaSlot, j: nat)
    requires j < |slot.values|
    ensures DecodeKey(SlotInfos(slot)[j].name) == ExportedBucket(slot.bucket)
    ensures SlotInfos(slot)[j].value.s == slot.values[j]
  {
    assert SlotInfos(slot)[j] == MakeInfo(EncodeKey(slot.bucket), slot.values[j]);
  }


  lemma PrefixSnoc(vs: seq<string>, n: nat)
    requires 0 < n <= |vs|
    ensures vs[..n] == vs[..n - 1] + [vs[n - 1]]
  {
  }

  lemma SlotsSnoc(slots: seq<MetaSlot>)
    requires slots != []
    ensures slots == slots[..|slots| - 1] + [slots[|slots| - 1]]
  {
  }

  /** When nothing before the last slot is filed under `b`, `b` holds the
      last slot's values. */
  lemma CollectedOnlyLast(slots: seq<MetaSlot>, b: Bucket)
    requires slots != [] && ExportedBucket(slots[|slots| - 1].bucket) == b
    requires Collected(ImportedInfos(slots[..|slots| - 1]), b) == []
    ensures Collected(ImportedInfos(slots), b) == slots[|slots| - 1].values
  {
    CollectedLastSlot(slots, b);
    assert [] + slots[|slots| - 1].values == slots[|slots| - 1].values;
  }

  /** A last slot filed under another bucket adds nothing to `b`. */
  lemma CollectedOtherSlot(slots: seq<MetaSlot>, init: seq<MetaSlot>, last: MetaSlot, b: Bucket)
    requires slots == init + [last] && ExportedBucket(last.bucket) != b
    ensures Collected(ImportedInfos(slots), b) == Collected(ImportedInfos(init), b)
  {
    assert slots[..|slots| - 1] == init;
    CollectedLastSlot(slots, b);
    assert Collected(ImportedInfos(init), b) + [] == Collected(ImportedInfos(init), b);
  }

  /** The rows of the last slot are filed after those of the others. */
  lemma CollectedLastSlot(slots: seq<MetaSlot>, b: Bucket)
    requires slots != []
    ensures Collected(ImportedInfos(slots), b)
            == Collected(ImportedInfos(slots[..|slots| - 1]), b)
               + (if ExportedBucket(slots[|slots| - 1].bucket) == b then slots[|slots| - 1].values else [])
  {
    var init := slots[..|slots| - 1];
    var last := slots[|slots| - 1];
    assert ImportedInfos(slots) == ImportedInfos(init) + SlotInfos(last);
    CollectedAppend(ImportedInfos(init), SlotInfos(last), b);
    CollectedWholeSlot(last, b);
  }

  /** All rows of one slot are filed under the slot's exported bucket. */
  lemma CollectedWholeSlot(slot: MetaSlot, b: Bucket)
    ensures Collected(SlotInfos(slot), b) == if ExportedBucket(slot.bucket) == b then slot.values else []
  {
    CollectedSlot(slot, b, |slot.values|);
    assert SlotInfos(slot)[..|slot.values|] == SlotInfos(slot);
    assert slot.values[..|slot.values|] == slot.values;
  }


  /** Import then export: when no other slot lands in the same exported
      bucket, the values of slot `k` come back, in order, in the bucket
      `ExportedBucket(slots[k].bucket)` (which `KeyRoundTrip` spells out:
      same namespace, the scheme folded into the keyword). */
  lemma {:induction false} MetadataValuesSurvive(slots: seq<MetaSlot>, k: nat)
    requires k < |slots|
    requires forall i :: 0 <= i < |slots| && i != k ==> ExportedBucket(slots[i].bucket) != ExportedBucket(slots[k].bucket)
    ensures Collected(ImportedInfos(slots), ExportedBucket(slots[k].bucket)) == slots[k].values
    decreases |slots|, 1
  {
    if k < |slots| - 1 {
      SurvivesLaterSlot(slots, k);
    } else {
      SurvivesAsLastSlot(slots);
    }
  }

  /** The step of `MetadataValuesSurvive` when a later slot follows slot `k`. */
  lemma {:induction false} SurvivesLaterSlot(slots: seq<MetaSlot>, k: nat)
    requires k < |slots| - 1
    requires forall i :: 0 <= i < |slots| && i != k ==> ExportedBucket(slots[i].bucket) != ExportedBucket(slots[k].bucket)
    ensures Collected(ImportedInfos(slots), ExportedBucket(slots[k].bucket)) == slots[k].values
    decreases |slots|, 0
  {
    var b := ExportedBucket(slots[k].bucket);
    var n := |slots| - 1;
    var init := slots[..n];
    assert Collected(ImportedInfos(init), b) == slots[k].values by {
      assert forall i :: 0 <= i < |init| ==> init[i] == slots[i];
      MetadataValuesSurvive(init, k);
    }
    assert ExportedBucket(slots[n].bucket) != b;
    SlotsSnoc(slots);
    CollectedOtherSlot(slots, init, slots[n], b);
  }

  /** The step of `MetadataValuesSurvive` when slot `k` is the last one. */
  lemma SurvivesAsLastSlot(slots: seq<MetaSlot>)
    requires slots != []
    requires forall i :: 0 <= i < |slots| - 1 ==> ExportedBucket(slots[i].bucket) != ExportedBucket(slots[|slots| - 1].bucket)
    ensures Collected(ImportedInfos(slots), ExportedBucket(slots[|slots| - 1].bucket)) == slots[|slots| - 1].values
  {
    NoneBeforeLast(slots);
    CollectedOnlyLast(slots, ExportedBucket(slots[|slots| - 1].bucket));
  }

  lemma NoneBeforeLast(slots: seq<MetaSlot>)
    requires slots != []
    requires forall i :: 0 <= i < |slots| - 1 ==> ExportedBucket(slots[i].bucket) != ExportedBucket(slots[|slots| - 1].bucket)
    ensures Collected(ImportedInfos(slots[..|slots| - 1]), ExportedBucket(slots[|slots| - 1].bucket)) == []
  {
    var init := slots[..|slots| - 1];
    assert forall i :: 0 <= i < |init| ==> init[i] == slots[i];
    NoneCollected(init, ExportedBucket(slots[|slots| - 1].bucket));
  }


  /** Slots that all land elsewhere contribute nothing to `b`. */
  lemma {:induction false} NoneCollected(slots: seq<MetaSlot>, b: Bucket)
    requires forall i :: 0 <= i < |slots| ==> ExportedBucket(slots[i].bucket) != b
    ensures Collected(ImportedInfos(slots), b) == []
    decreases |slots|
  {
    if slots != [] {
      CollectedLastSlot(slots, b);
      NoneCollected(slots[..|slots| - 1], b);
      assert Collected(ImportedInfos(slots[..|slots| - 1]), b) + [] == [];
    }
  }

  // ---------------------------------------------------------------------
  // The whole import
  // ---------------------------------------------------------------------

  /** The values of the first slot for bucket `b`. */
  function SlotValues(slots: seq<MetaSlot>, b: Bucket): (r: Option<seq<string>>)
    ensures r.Some? <==> exists i :: 0 <= i < |slots| && slots[i].bucket == b
    ensures r.Some? ==> exists i :: 0 <= i < |slots| && slots[i].bucket == b && slots[i].values == r.value
  {
    if slots == [] then None
    else if slots[0].bucket == b then Some(slots[0].values)
    else
      var r := SlotValues(slots[1..], b);
      assert forall i :: 0 <= i < |slots| - 1 ==> slots[1..][i] == slots[i + 1];
      r
  }

  /** `get_metadata(metadata, 'title', ns=DC)[0]`: the first Dublin Core
      title, if there is one (`IndexError` otherwise). */
  function RequestedTitle(slots: seq<MetaSlot>): (r: Option<string>)
    ensures r.Some? ==> exists i :: 0 <= i < |slots| && slots[i].bucket == Bucket(DC, "title", "")
                                    && slots[i].values != [] && slots[i].values[0] == r.value
  {
    match SlotValues(slots, Bucket(DC, "title", ""))
    case None => None
    case Some(vs) => if vs == [] then None else Some(vs[0])
  }

  /** The parsed `info.json`. */
  datatype BookInfo = BookInfo(metadata: seq<MetaSlot>, manifest: seq<ManifestItem>, toc: seq<TocNode>)

  /** Why an import stops: no title, or a file the TOC or manifest names is
      not in the archive. */
  datatype ImportError = NoTitle | MissingFile(name: string)

  /** Everything `importBookFromFile` saves. */
  datatype ImportedBook = ImportedBook(
    title: string,
    chapters: seq<ChapterRecord>,
    toc: seq<TocRecord>,
    attachments: seq<AttachmentRecord>,
    infos: seq<Info>)

  /** `importBookFromFile(user, zname, createTOC)` on a parsed `info.json`,
      the archive's files `files`, the existing books `books` and Django's
      `slugify`. */
  method ImportBook(info: BookInfo, files: map<string, string>, books: TitleStore, createTOC: bool, slug: string -> string)
    returns (r: Result<ImportedBook, ImportError>)
    ensures RequestedTitle(info.metadata).None? ==> r == Failure(NoTitle)
    ensures RequestedTitle(info.metadata).Some? && r.Failure? ==> r.error.MissingFile?
    ensures RequestedTitle(info.metadata).Some? ==>
              (r.Success? <==> ChapterFilesPresent(Linearize(info.toc), files) && AttachmentFilesPresent(info.manifest, files))
    ensures r.Failure? && r.error.MissingFile? ==>
              (exists k: nat :: FirstMissingChapter(Linearize(info.toc), files, k) && r.error.name == Linearize(info.toc)[k].url)
              || (ChapterFilesPresent(Linearize(info.toc), files)
                  && exists i: nat :: FirstMissingAttachment(info.manifest, files, i) && r.error.name == info.manifest[i].url)
    ensures r.Success? ==>
              var requested := RequestedTitle(info.metadata).value;
              && (!GetSucceeds(books, requested) ==> r.value.title == requested)
              && (GetSucceeds(books, requested) ==> LowestFreeSuffix(books, requested, r.value.title))
              && !GetSucceeds(books, r.value.title)
              && r.value.chapters == ChapterPlan(Linearize(info.toc), files, slug)
              && r.value.toc == (if createTOC then TocPlan(Linearize(info.toc)) else [])
              && r.value.attachments == AttachmentPlan(info.manifest, files)
              && r.value.infos == ImportedInfos(info.metadata)
  {
    var requested := RequestedTitle(info.metadata);
    if requested.None? {
      return Failure(NoTitle);
    }
    var title := MakeTitleUnique(books, requested.value);
    var entries := Linearize(info.toc);
    var planned := PlanChapters(entries, createTOC, files, slug);
    if planned.Failure? {
      return Failure(MissingFile(planned.error));
    }
    var atts := PlanAttachments(info.manifest, files);
    if atts.Failure? {
      return Failure(MissingFile(atts.error));
    }
    var infos := PlanMetadata(info.metadata);
    return Success(ImportedBook(title, planned.value.0, planned.value.1, atts.value, infos));
  }
}
