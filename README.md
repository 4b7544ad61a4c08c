# Booktype bookizip import and export

This project models the logic of `lib/booki/editor/common.py` in Booktype,
the module that turns a bookizip archive into a book and a book back into a
bookizip archive. The zip file, the Django ORM and the network are taken out.
What is left is modelled as Dafny functions and methods over sequences, maps
and strings, with the properties the code relies on proved about them.

The modules follow the pieces of the file:

- `Toc` (`toc.dfy`): `getChaptersFromTOC`, the pre-order linearizer of the
  nested TOC.
- `Titles` (`titles.dfy`): `makeTitleUnique`, the probing loop over the
  book table.
- `Metadata` (`metadata.dfy`): the metadata codec. It covers the key
  `importBookFromFile` packs into an `Info` record name, the regular
  expression `key_re` that `_format_metadata` unpacks it with, the
  `add_metadata`/`get_metadata` tree, and `_format_metadata` with its eight
  Dublin Core defaults.
- `Links` (`links.dfy`): `flatten` inside `_fix_content`, the Python 2.7
  library functions it is built from, and `_fix_content`: its walk over the
  chapter's links, where it raises, and the value it returns.
- `BookImport` (`import.dfy`): `importBookFromFile` as a plan of the rows it
  saves:
  - the unique title;
  - the chapter rows, with the `src="..."` rewrite;
  - the `BookToc` rows and their weights;
  - the attachments;
  - one `Info` row per metadata value.
- `BookExport` (`export.dfy`): `exportBook`:
  - the TOC rebuilt from the weight-ordered rows, with sections lending the
    url of their first chapter;
  - the spine;
  - the chapter and attachment package entries with their `ch%03d_` and
    `att%03d_` IDs;
  - the metadata tree.
- `Text` (`text.dfy`) and `Wrappers` (`wrappers.dfy`): helpers. These are
  decimal formatting with `%d`/`%03d`, finding characters, `split`/`join`,
  `os.path.basename`, ASCII lower-casing, and `Option`/`Result`.

Where a loop of the source updates variables, the model has a method with
that loop. The method is proved against a specification function, and the
properties are proved about that function as lemmas.

Exceptions become `Failure` results:
- `zf.read` of a missing file during import;
- `KeyError` from `MEDIATYPES` during export;
- `IndexError` when the metadata has no Dublin Core title;
- `IndexError` in `_format_metadata` during export, for a book that has no
  `BookHistory` row to take the last-modified date from;
- during export, inside `_fix_content`: lxml's parser error for content in
  which it finds no document, and the `ValueError` that `urlsplit` raises
  inside `flatten` for a network location with an unmatched bracket.

Inputs the source gets from outside are parameters:
- the archive's files, as a map from name to content;
- the book table, as a count per title;
- `slugify`;
- `MEDIATYPES`;
- the stored attachment files, each either read or failing to read;
- what lxml makes of each chapter's content: whether it finds a document,
  and the `src` and `href` values of its elements in tree order;
- the timestamps, and the days of the book's `BookHistory` rows.

Where the source's own comments, or a natural reading of it, suggest
otherwise, the model follows the code:

- **Metadata keys do not round-trip.** `importBookFromFile` writes the
  scheme in braces (`{scheme}`), not in the `[scheme]` form that the
  comment above `key_re` (`lib/booki/editor/common.py:243`) describes.
  - `key_re`'s keyword group `(.+)` is greedy, so on a key without a
    newline the scheme group never captures.
  - So decoding an encoded key gives back the namespace, with the braced
    scheme left inside the keyword (`Metadata.KeyRoundTrip`).
- **`makeTitleUnique` continues only while `Book.objects.get` finds exactly
  one book.** Its docstring (`lib/booki/editor/common.py:55-58`) speaks of
  a title that exists; the code does not test that. The bare `except` also
  ends the loop when several books share a title.
- **`flatten` leaves a URL unchanged only when its scheme is non-empty.** A
  network location alone (`//host/x`) is resolved like a path.
- **`src` links use the prefix `static`, without the trailing slash.**
- **An attachment with an extension `MEDIATYPES` does not know aborts the
  export with `KeyError`.** There is no fallback media type.
- **`_fix_content` returns the content it was given, or raises.** The lxml
  edits and the `##AUTHORS##` expansion are computed and discarded. Empty
  content becomes the placeholder `<body><!--no content!--></body>`. It
  raises, and so aborts the export, when lxml finds no document in
  non-empty content or when `urlsplit` rejects one of the links.

## Model

| member | source | states |
|---|---|---|
| Toc.Linearize | lib/booki/editor/common.py:71-85 | the flat list has exactly one triple per node of the nested TOC |
| Toc.LinearizeAtIndex | lib/booki/editor/common.py:71-85 | the node reached by a path of sibling indices yields its triple at its pre-order position: after all nodes of earlier siblings' subtrees and after its ancestors |
| Toc.EntryAtIndex | lib/booki/editor/common.py:79-81 | a node's triple has its title or `'Missing title'`, its url or `'Missing URL'`, and is a section exactly when its type is `booki-section` |
| Toc.IndexBound | lib/booki/editor/common.py:71-85 | every node's pre-order position lies inside the flat list |
| Toc.PreorderRespected | lib/booki/editor/common.py:78-83 | an ancestor comes before its descendants, and an earlier sibling (with its subtree) before a later one |
| Toc.PrecedesTotal | lib/booki/editor/common.py:78-83 | of two different node paths, one comes before the other in pre-order |
| Toc.IndexInjective | lib/booki/editor/common.py:71-85 | different nodes land at different positions of the flat list |
| Toc.EveryEntryHasANode | lib/booki/editor/common.py:71-85 | every position of the flat list holds the triple of some node, so nodes and triples correspond one to one |
| Toc.LinearizeAppend | lib/booki/editor/common.py:78-83 | the triples of two consecutive sibling lists are those of the first followed by those of the second |
| Titles.NumberedDistinct | lib/booki/editor/common.py:65 | the candidates `<title> - n` differ from each other and from the requested title |
| Titles.MakeTitleUnique | lib/booki/editor/common.py:54-68 | a requested title that `get` does not find exactly once is returned unchanged; otherwise the result is `<title> - n` for the lowest n whose probe does not find exactly one book, every earlier candidate being found exactly once; the loop terminates on every finite table; when no two books share a title, no book has the result |
| Metadata.Add | lib/booki/editor/common.py:258 | `add_metadata` appends the value to its bucket and leaves every other bucket as it was |
| Metadata.MakeInfo | lib/booki/editor/common.py:186-193 | a value of 2500 or more characters is stored as text with kind 2, a shorter one as string with kind 0, under the given name |
| Metadata.EncodeKey | lib/booki/editor/common.py:179-185 | no contract of its own: `Metadata.KeyRoundTrip` decodes what it writes |
| Metadata.DecodeKey | lib/booki/editor/common.py:244-257 | a non-empty name never gives an empty keyword; a namespace comes only from a leading `{` and never holds `}` |
| Metadata.DecodeWithoutNewline | lib/booki/editor/common.py:244-257 | for a key without a newline the scheme is always `''`; the namespace is captured exactly when the key starts with `{...}` followed by at least one more character, and otherwise the whole key is the keyword |
| Metadata.SchemeOnlyAcrossNewline | lib/booki/editor/common.py:244-247 | across a newline the scheme group can capture: `a[x\ny]` decodes to keyword `a` and scheme `x\ny`, because `.` stops at the newline |
| Metadata.KeyRoundTrip | lib/booki/editor/common.py:244-257 | decoding the name `importBookFromFile` writes (lines 179-185) gives back the namespace, and the keyword followed by the braced scheme, with an empty scheme |
| Metadata.FileRecords | lib/booki/editor/common.py:249-258 | after the record loop each bucket holds the values of exactly the records whose names decode to it, in record order |
| Metadata.InjectDefaults | lib/booki/editor/common.py:267-278 | the default loop adds to each bucket what `Injected` says: a default only when its bucket is still empty at its turn |
| Metadata.InjectedOnlyIntoEmptyDefaults | lib/booki/editor/common.py:277-278 | a bucket that already has values, or that no default names, gets nothing |
| Metadata.InjectedDistinct | lib/booki/editor/common.py:267-278 | with pairwise different default buckets, an empty default bucket gets exactly its default and a non-empty one nothing |
| Metadata.DefaultsDistinct | lib/booki/editor/common.py:268-275 | the eight default buckets are pairwise different |
| Metadata.FormatMetadata | lib/booki/editor/common.py:240-281 | buckets with stored values keep exactly those values; buckets no default names hold exactly the stored values; each empty default bucket gets exactly its default; afterwards all eight default buckets are non-empty; a book without history rows gives `None`, where `[0]` on the empty `dates` query raises `IndexError` |
| Links.Flatten | lib/booki/editor/common.py:319-332 | `flatten` raises exactly when `urlsplit` does, with its error |
| Links.FlattenKeepsScheme | lib/booki/editor/common.py:320-322 | a url with a non-empty scheme is returned unchanged |
| Links.FlattenOutside | lib/booki/editor/common.py:323-328 | a relative url whose resolved path does not start with `/<book>/` + prefix is returned unchanged |
| Links.FlattenInside | lib/booki/editor/common.py:323-332 | a relative url whose resolved path starts with `/<book>/` + prefix becomes that path without `/<book>/`, followed by `?query` and `#fragment` when they are non-empty; read from `/<book>/` it names the same path, and it starts with the prefix |
| Links.SplitDotDot | lib/booki/editor/common.py:320 | `urlsplit` of `../p` without `?` or `#` has no scheme, no network location, query or fragment, and `../p` as path |
| Links.NormPathIdempotent | lib/booki/editor/common.py:323 | `normpath` of an absolute path is already normal: applying it again changes nothing |
| Links.ResolveDotDot | lib/booki/editor/common.py:323 | `normpath(join('/slug/chapter', '../p'))` is `/slug/p` for a normal relative `p` |
| Links.FlattenUndoesImportPrefix | lib/booki/editor/common.py:319-332 | `flatten('../p', prefix)` in any chapter is `p` when `p` starts with the prefix and the unchanged url otherwise, so it strips the `../` that import adds to `src` links |
| Links.FlattenKeepsHttp | lib/booki/editor/common.py:320-322 | a url with the `http` scheme is returned unchanged, unless `urlsplit` raises for an unmatched bracket |
| Links.FixedContent | lib/booki/editor/common.py:286-288 | what `_fix_content` returns without a raise is never empty: the content itself, or the fixed placeholder for empty content |
| Links.FixContent | lib/booki/editor/common.py:284-344 | the walk runs `flatten` on the links in tree order and stops at the first that raises; its result is `FixOutcome` |
| Links.FixOutcomeExact | lib/booki/editor/common.py:284-344 | `_fix_content` raises exactly when the content is non-empty and lxml finds no document or `urlsplit` rejects some link; the `ValueError` is that of the first rejected link; without a raise the result is the content, or the placeholder for empty content |
| BookImport.SrcMatch | lib/booki/editor/common.py:106 | the pattern matches at `i` exactly when whitespace and `src="` start there and a `"` follows on the same line; the match ends at the last such `"` before the newline |
| BookImport.RewriteSrc | lib/booki/editor/common.py:132 | each rewrite replaces the matched whitespace character by a space and adds the three characters `../`, so the saved content is longer by a multiple of three |
| BookImport.RewriteWithoutMatch | lib/booki/editor/common.py:132 | content where the pattern matches nowhere is saved unchanged |
| BookImport.RewriteSingle | lib/booki/editor/common.py:132 | a single `src="p"` on one line, after any whitespace character, becomes ` src="../p"`: the value gets `../` and the whitespace becomes a space |
| BookImport.RewriteReplacesTab | lib/booki/editor/common.py:132 | a tab before `src="x"` is not kept: the result is ` src="../x"` |
| BookImport.RewriteTwoOnOneLine | lib/booki/editor/common.py:106 | with two `src` attributes on one line the greedy group spans both, so only the first gets `../` |
| BookImport.PlanChapters | lib/booki/editor/common.py:111-152 | the chapter loop fails exactly when a chapter's file is missing, naming the first one; otherwise it yields one chapter row per chapter entry, and `BookToc` rows for every entry exactly when `createTOC` is set |
| BookImport.ImportEntry | lib/booki/editor/common.py:115-152 | one entry extends the chapter rows, the `BookToc` rows and the weight counter to what they are after one more entry |
| BookImport.ChapterPlanAt | lib/booki/editor/common.py:128-142 | the chapter entry at position k becomes the chapter row numbered by the count of chapters before it, with its title's slug and the rewritten file content |
| BookImport.ChapterPlanFrom | lib/booki/editor/common.py:128-142 | every chapter row comes from some chapter entry |
| BookImport.TocPlanWeights | lib/booki/editor/common.py:112-152 | the k-th `BookToc` row has weight `len(chapters)+1-k`, so weights lie in [2, len+1] and strictly decrease |
| BookImport.TocPlanLinks | lib/booki/editor/common.py:118-152 | each `BookToc` row carries its entry's title, is of the section kind with no chapter exactly for sections, and otherwise points at the chapter row with that title |
| BookImport.OrderByWeightRestoresOrder | lib/booki/editor/common.py:371 | reading the saved `BookToc` rows back in any descending-weight order gives them in the order they were written |
| BookImport.PlanAttachments | lib/booki/editor/common.py:158-172 | the attachment loop fails exactly when a selected file is missing, naming the first one; otherwise it yields the attachment plan |
| BookImport.AttachmentPlanMembers | lib/booki/editor/common.py:158-171 | an attachment is saved exactly when some non-HTML manifest item's url starts with `static/`; it is saved under that url's basename with that file's content |
| BookImport.AttachmentNamesFlat | lib/booki/editor/common.py:171 | no saved attachment name contains `/` |
| BookImport.PlanMetadata | lib/booki/editor/common.py:176-194 | the metadata loop saves the rows of `ImportedInfos`, slot after slot |
| BookImport.ImportedInfosCount | lib/booki/editor/common.py:186-194 | exactly one row is saved per metadata value |
| BookImport.ImportedInfoAt | lib/booki/editor/common.py:176-194 | the j-th value of the k-th slot is saved under the encoded key of its namespace, keyword and scheme, with the kind its length selects |
| BookImport.MetadataValuesSurvive | lib/booki/editor/common.py:185 | when no other slot's key decodes to the same bucket, exporting the imported rows puts exactly the slot's values back into the bucket its key decodes to |
| BookImport.RequestedTitle | lib/booki/editor/common.py:100 | a title, when there is one, is the first value of a Dublin Core `title` slot with an empty scheme |
| BookImport.ImportBook | lib/booki/editor/common.py:88-195 | without a title the import fails. Otherwise it succeeds exactly when every chapter file and every selected attachment file is present, and a failure names the first missing one. On success the title obeys `makeTitleUnique`, and the chapter, `BookToc`, attachment and `Info` rows are those of the plans |
| BookExport.ChapterId | lib/booki/editor/common.py:376 | no contract of its own: `BookExport.ChapterIdParts` reads it back |
| BookExport.ChapterIdParts | lib/booki/editor/common.py:376 | a chapter ID reads back as the row's position (the digits after `ch`, up to the first `_`) and its slug (the rest) |
| BookExport.ChapterIdInjective | lib/booki/editor/common.py:376 | two chapter IDs are equal only for the same position and slug |
| BookExport.NextChapter | lib/booki/editor/common.py:385-392 | a section's lender is the first chapter after it, with only sections in between; when there is none, only sections follow |
| BookExport.LendUrl | lib/booki/editor/common.py:390-392 | draining the waiting queue gives every waiting section the chapter's file as url and changes no other node |
| BookExport.ExpectedAfterSection | lib/booki/editor/common.py:397-410 | after a section row the read-back TOC gains one section entry with url `''` |
| BookExport.ExpectedAfterChapter | lib/booki/editor/common.py:371-392 | after a chapter row the sections waiting at the end take its file as url and a chapter entry with that file follows |
| BookExport.AddChapterRow | lib/booki/editor/common.py:372-392 | a chapter row keeps the loop invariant (the TOC shape, what `getChaptersFromTOC` reads back, the waiting queue) and empties the queue |
| BookExport.AddSectionRow | lib/booki/editor/common.py:397-410 | a section row keeps the loop invariant and queues the new top-level section |
| BookExport.ExportRow | lib/booki/editor/common.py:371-410 | one row raises exactly when it is a chapter `_fix_content` raises on, with that error; otherwise it keeps the TOC invariant and extends spine and package to what they are after one more row |
| BookExport.BuildToc | lib/booki/editor/common.py:356-410 | the loop raises exactly when `_fix_content` raises on some chapter, and then with the error of the first one. Otherwise `getChaptersFromTOC` of the rebuilt TOC gives one entry per row in row order. Chapters have their `ch%03d_` file; each section has the file of the first chapter after it, or `''`. Sections are top-level, chapters before the first section are top-level, and later chapters are children of the latest section. The spine and the chapter package entries are those of the rows |
| BookExport.ChapterPositionsExact | lib/booki/editor/common.py:371-372 | the chapter positions are, in increasing order, exactly the rows that have a chapter |
| BookExport.ChapterRowAt | lib/booki/editor/common.py:372-395 | there is one spine ID and one chapter package entry per chapter row; the x-th of each belongs to the x-th chapter row: the ID `ch%03d_<url_title>` numbered by the row's position among all rows, its `.html` file, its fixed content and `text/html` |
| BookExport.SpineDistinct | lib/booki/editor/common.py:376 | no chapter ID occurs twice in the spine |
| BookExport.ChapterIdsDistinct | lib/booki/editor/common.py:376 | the chapter package IDs are pairwise different and start with `c` |
| BookExport.AttachmentIdParts | lib/booki/editor/common.py:430-435 | splitting `att%03d_<basename>` at its last `.` gives the numbered prefix with the basename's stem, and the basename's lower-cased extension as key (`None` without one) |
| BookExport.ExportAttachments | lib/booki/editor/common.py:418-440 | the attachment loop computes `AttachmentPackages` |
| BookExport.FailureSticks | lib/booki/editor/common.py:433 | once the loop has raised, later attachments change nothing |
| BookExport.ReadablePositionsExact | lib/booki/editor/common.py:418-426 | the positions kept are, in increasing order, exactly those of the attachments that could be read |
| BookExport.AttachmentPackageAt | lib/booki/editor/common.py:418-440 | without a raise there is one entry per readable attachment, and the x-th entry is that of the x-th readable attachment: the ID `att%03d_` with its position and its basename's stem, the path `static/<basename>`, its bytes, and the media type of its extension |
| BookExport.FailureHasUnknown | lib/booki/editor/common.py:433-435 | the loop raises only if some readable attachment has an extension `MEDIATYPES` does not know |
| BookExport.UnknownFails | lib/booki/editor/common.py:433-435 | a readable attachment with an unknown extension makes the loop raise |
| BookExport.AttachmentFailureKey | lib/booki/editor/common.py:418-435 | the `KeyError` names the extension of the first readable attachment with an unknown one |
| BookExport.AttachmentIdsDistinct | lib/booki/editor/common.py:430-432 | attachment IDs are pairwise different, even when basenames share a stem |
| BookExport.PackageIdsDistinct | lib/booki/editor/common.py:371-440 | no ID occurs twice in the whole package, chapters and attachments together |
| BookExport.AttachmentPathRoundTrip | lib/booki/editor/common.py:438 | an attachment imported from `static/<name>` and stored under its basename in any directory is exported to the same `static/<name>` path |
| BookExport.ExportBook | lib/booki/editor/common.py:349-445 | the export fails exactly when the book has no history row, `_fix_content` raises on some chapter, or some readable attachment has an unknown extension. The missing history comes first, as `_format_metadata` runs before the chapter loop; then the error of the first chapter that fails; otherwise the `KeyError` of the first such attachment. Otherwise it yields the TOC of `BuildToc`, the spine, the metadata of `_format_metadata`, and a package of chapter then attachment entries with pairwise different IDs |

## Left out

- Zip reading and writing, `info.json` loading, `tempfile`, `BookiZip.add_to_package` and `finish`: archive I/O. The archive's files are a map and the package is a returned sequence.
- The Django ORM (`createBook`, `BookStatus`, saves and queries): rows are returned as sequences instead of saved. The rows `importBookFromFile` saves before an exception are not modelled: the model reports the failure only.
- `importBookFromURL` and `importBookFromUrl2`: network I/O around `importBookFromFile`.
- `parseJSON`: a thin wrapper around `json.loads`; `info.json` comes in already parsed. The order in which the metadata dictionaries and the `manifest` dictionary are walked is input order: a sequence of slots, and a sequence of manifest items. That order decides which missing attachment is reported first and the order of the attachment rows.
- `expand_authors`, the template engine and the lxml parser of `_fix_content`: foreign libraries whose results the source discards. What lxml makes of a chapter is an input: whether it finds a document, and the `src` and `href` values in tree order. `expand_authors` is taken not to raise.
- Toc.TocNode: a JSON `null` for `title`, `url` or `type` cannot be represented. A missing key and a `null` are both `None`, so the model gives the default where `elem.get(key, default)` would return Python's `None`.
- The `if 0:` block of `_fix_content`: dead code.
- `logWarning`, clock readings and `strftime` timestamps: logging, and timestamps taken as string inputs.
- UTF-8 encoding calls: strings are sequences of characters, and lengths count characters.
- `slugify`, `DC`, `THIS_BOOKI_SERVER`, `DEFAULT_PUBLISHER` and `MEDIATYPES`: parameters or constants. The `MEDIATYPES` table is a partial map, and its lookups are what the model shows.
- `bookizip.add_metadata` and `get_metadata`: not part of this model. They are taken to treat the tree as nested dictionaries whose leaves are lists of values.
- `Info.getValue()`: taken to return whichever of `value_string` and `value_text` the kind selects.
- The section ID `s%03d_<slug>` that `exportBook` computes and never uses, and the `"role": "text"` key of chapter nodes: neither reaches anything the model returns.
- Links.FlattenUndoesImportPrefix: stated for `../` followed by a normal relative path without `?` or `#`, the form the import rewrite gives `src` values, because resolving other paths needs `normpath` in general. `Links.FlattenKeepsScheme`, `Links.FlattenOutside` and `Links.FlattenInside` describe every url.
- Metadata.DecodeWithoutNewline: stated for keys without a newline. `Metadata.DecodeKey` models the whole pattern, newlines included, and `Metadata.SchemeOnlyAcrossNewline` shows a case where the scheme captures.
- Metadata.KeyRoundTrip: stated for a namespace without `}` and names without newlines, and a keyword that is non-empty and does not begin with `{`. Outside these the decoded bucket differs in other ways.
- BookImport.RewriteSingle: stated for one attribute on one line. `BookImport.RewriteSrc` models the whole substitution, and `BookImport.RewriteTwoOnOneLine` shows the greedy case.
- BookImport.RewriteSrc: its own contract gives only the length change. The value is stated for one attribute on one line (`BookImport.RewriteSingle`, `BookImport.RewriteReplacesTab`), for the greedy case (`BookImport.RewriteTwoOnOneLine`) and for content without a match (`BookImport.RewriteWithoutMatch`). That content split after a line end is rewritten part by part is not proved.
- BookExport.AttachmentPathRoundTrip: assumes that storage keeps the basename it is given. Django's storage may rename a file whose name is taken, and then the exported path differs.
- BookImport.PlanChapters: checks a chapter's file before writing that entry's rows, where the source reads it first. The rows and the failure are the same.
