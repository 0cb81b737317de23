# A model of the blog's three Pelican plugins

The blog is built by Pelican. Its own logic is three plugins, registered in the order
`validate_articles`, `hidden_articles`, `redirect_generator`:

- **validate_articles** walks the article list when the article generator is finalized.
  It aborts the build at the first article that is not a draft and has no date.
- **hidden_articles** runs at the same point. It splits the articles into visible and
  hidden ones, removes hidden articles from every tag list and drops tags left empty.
  It relinks `next_article`/`prev_article` over the visible articles only, makes the
  visible list the generator's article list and records the hidden ones. When the
  article writer is finalized, it asks the writer for one page per recorded hidden
  article.
- **redirect_generator** runs when the article writer is finalized. For each
  `REDIRECTS` entry `(source, destination)` it writes a small HTML page at
  `<output root>/<source stripped of slashes>/index.html` that forwards to the destination.

Modules:

- `Wrappers` holds `Option` and `Outcome`.
- `Content` holds the `Article` and `Generator` classes. An article's metadata is
  constant and its two links are mutable fields. The generator's article list, tag
  index and hidden record are fields that the methods reassign.
- `Output` holds the requests the plugins make of the writer and the file system:
  render a page, create a directory, write a file.
- `HiddenArticles` is imperative, like its source. `Partition`, `PruneTagIndex`,
  `Relink` and `WriteHiddenArticles` are methods with loops. `Publish` calls `Relink`
  and then assigns the generator's fields, and `HideArticles` chains `Partition`,
  `PruneTagIndex` and `Publish`. Each method is proved against specification functions
  (`Visible`, `Hidden`, `PruneTags`, `Linked`), and the lemmas state what those
  functions mean.
- `PosixPath` models `str.strip("/")`, two-component `posixpath.join` and
  `posixpath.dirname`.
- `RedirectGenerator` models the stub template and `str.format`, the stub's path, and
  the loop over the table, which emits requests.
- `ValidateArticles` models the validation scan as a recursive function returning `Pass`
  or the first offender.
- `Pipeline` is the build driver. It validates and then hides at "article generator
  finalized". At "article writer finalized" it issues the hidden pages and then the
  redirect stubs.
- `Scenarios` holds concrete scenarios, each proved by the verifier.

Two details of the code the model keeps:

- The stub page has a line break after `<!DOCTYPE html>`, `<html>`, `</head>`, `<body>`
  and `</body>`, as the template in the code does.
- A `hidden` value is compared after `str.lower()`, so only the case-insensitive
  spellings of `true` hide an article.

## Model

| member | source | states |
|---|---|---|
| HiddenArticles.LowerChar | plugins/hidden_articles.py:8 | `str.lower` on one character; `LowerCharIs` states that it maps a letter and its upper-case form, and nothing else, to that letter |
| HiddenArticles.Lower | plugins/hidden_articles.py:8 | `str.lower` applied character by character; its meaning for the hidden test is stated by `HiddenIffSpellsTrue` |
| HiddenArticles.IsHidden | plugins/hidden_articles.py:8 | the hidden test `getattr(article, "hidden", "").lower() == "true"`; `HiddenIffSpellsTrue` states which values pass it |
| HiddenArticles.HiddenIffSpellsTrue | plugins/hidden_articles.py:8 | an article is hidden exactly when its `hidden` value exists and is `true` in any mix of cases; a missing value never hides |
| HiddenArticles.Visible | plugins/hidden_articles.py:5-11 | the visible list holds only input articles that are not hidden, and holds every such input article |
| HiddenArticles.Hidden | plugins/hidden_articles.py:5-11 | the hidden list holds only hidden input articles, and holds every hidden input article |
| HiddenArticles.PartitionIsStable | plugins/hidden_articles.py:5-11 | both lists keep the input's relative order (each is a subsequence of the input) |
| HiddenArticles.PartitionKeepsEveryArticle | plugins/hidden_articles.py:5-11 | as multisets the two lists add up to the input: every article lands in exactly one of them, once per occurrence |
| HiddenArticles.VisibleIsDistinct | plugins/hidden_articles.py:5-11 | a list without repeats gives a visible list without repeats |
| HiddenArticles.Partition | plugins/hidden_articles.py:5-11 | the two appending loops build exactly `Hidden(articles)` and `Visible(articles)` |
| HiddenArticles.HiddenSet | plugins/hidden_articles.py:14 | `set(hidden)` holds exactly the input articles that are hidden |
| HiddenArticles.WithoutHidden | plugins/hidden_articles.py:16 | a filtered tag list holds exactly the original list's articles outside the hidden set |
| HiddenArticles.WithoutHiddenIsStable | plugins/hidden_articles.py:16 | filtering keeps the tag list's order |
| HiddenArticles.PruneTags | plugins/hidden_articles.py:14-17 | a tag survives exactly when its list held a non-hidden article, and its new list is that list filtered |
| HiddenArticles.NonEmptyTags | plugins/hidden_articles.py:17 | the comprehension that drops the tags whose list is empty; `PruneTagsOfFiltered` states that applied to the filtered index it gives `PruneTags` |
| HiddenArticles.PruneTagsOfFiltered | plugins/hidden_articles.py:15-17 | filtering every list in place and then dropping empty lists gives `PruneTags` |
| HiddenArticles.PrunedTagsAreClean | plugins/hidden_articles.py:14-17 | after pruning no list is empty, none holds a hidden article, and each is an order-preserving sublist of the tag's old list |
| HiddenArticles.PrunedTagsHoldVisibleArticles | plugins/hidden_articles.py:14-17 | when every tagged article is one of the generator's articles, every pruned tag list holds only visible articles |
| HiddenArticles.PruneTagIndex | plugins/hidden_articles.py:14-17 | the loop over the tags and the dictionary comprehension leave `g.tags == PruneTags(old tags, hidden set)` and change nothing else in the generator |
| HiddenArticles.Relink | plugins/hidden_articles.py:20-22 | afterwards `v[i].next_article` is `v[i-1]` (none at 0) and `v[i].prev_article` is `v[i+1]` (none at the end) |
| HiddenArticles.LinksStayInList | plugins/hidden_articles.py:20-22 | a linked list links only to its own articles, so no visible article links to a hidden one; with at most one article every link is none |
| HiddenArticles.FollowPrevFrom | plugins/hidden_articles.py:20-22 | following `prev_article` from position i visits the rest of the list in order |
| HiddenArticles.FollowNextFrom | plugins/hidden_articles.py:20-22 | following `next_article` from position i visits the list up to i backwards |
| HiddenArticles.NavigationWalksTheList | plugins/hidden_articles.py:20-22 | from the first article `prev_article` walks the whole list, and from the last `next_article` walks it backwards |
| HiddenArticles.Publish | plugins/hidden_articles.py:20-25 | the visible articles are linked and link only among themselves, the article list becomes the visible list and the record the hidden list, and the tag index is left alone |
| HiddenArticles.HideArticles | plugins/hidden_articles.py:4-25 | the article list becomes `Visible(old)` and the record is `Hidden(old)`; tags are pruned; visible articles are linked and link only among themselves; hidden articles' links are untouched |
| HiddenArticles.HiddenRecord | plugins/hidden_articles.py:29 | `getattr(generator, "_hidden_articles", [])`; `WriteHiddenArticles` states that it issues one page per entry, and none when nothing was recorded |
| HiddenArticles.HiddenPage | plugins/hidden_articles.py:30-37 | the `write_file` call for one article; `WriteHiddenArticles` states that it is issued once per recorded article, in record order |
| HiddenArticles.WriteHiddenArticles | plugins/hidden_articles.py:28-37 | one page request per recorded hidden article, in record order, at its `save_as` with the article template, its category and `blog=True`; none when nothing was recorded |
| PosixPath.LStripSlashes | plugins/redirect_generator.py:24 | the result is a suffix of the input that does not start with '/', and only slashes were removed |
| PosixPath.RStripSlashes | plugins/redirect_generator.py:24 | the result is a prefix of the input that does not end with '/', and only slashes were removed |
| PosixPath.Strip | plugins/redirect_generator.py:24 | the result neither starts nor ends with '/', however many slashes the input had at either end |
| PosixPath.StripStart | plugins/redirect_generator.py:24 | everything before the start of the stripped part is a slash |
| PosixPath.StripIsSlice | plugins/redirect_generator.py:24 | the stripped string is the contiguous slice of the input after the leading slashes, and only slashes follow it, so interior slashes are kept |
| PosixPath.StripOf | plugins/redirect_generator.py:24 | any run of slashes around a string with no end slashes strips back to that string |
| PosixPath.StripIsIdempotent | plugins/redirect_generator.py:24 | stripping twice is stripping once |
| PosixPath.Join | plugins/redirect_generator.py:25-28 | two-component `posixpath.join`; `JoinRelative`, `JoinAfterName`, `JoinThenName` and `JoinOntoEmpty` state its results for a relative second component |
| PosixPath.JoinRelative | plugins/redirect_generator.py:28 | joining a component that does not start with '/' keeps the directory as prefix and the component as suffix, with exactly one '/' between when the directory is non-empty and does not end in '/' |
| PosixPath.JoinAfterName | plugins/redirect_generator.py:25 | joining a relative component onto a directory that does not end with '/' inserts exactly one '/' |
| PosixPath.JoinThenName | plugins/redirect_generator.py:28 | joining `b/f` onto a directory is joining `b` and then appending `/f`, and the joined directory does not end with '/' |
| PosixPath.JoinOntoEmpty | plugins/redirect_generator.py:28 | joining onto an empty directory gives the component unchanged |
| PosixPath.RFind | plugins/redirect_generator.py:29 | the index of the last occurrence of the character, or -1 when it does not occur |
| PosixPath.Dirname | plugins/redirect_generator.py:29 | `posixpath.dirname`; `DirnameOfFile` and `DirnameOfBareName` state its result for a file path and a bare name |
| PosixPath.DirnameOfFile | plugins/redirect_generator.py:29 | the directory of `d/f`, for a file name `f` and a `d` not ending in '/', is `d` |
| PosixPath.DirnameOfBareName | plugins/redirect_generator.py:29 | a name without '/' has an empty directory |
| RedirectGenerator.TemplateHasFourFields | plugins/redirect_generator.py:5-16 | `REDIRECT_TEMPLATE`, the literal cut into nine pieces at its fields, has exactly four `{destination}` fields |
| RedirectGenerator.Format | plugins/redirect_generator.py:26 | `str.format` with the single `destination` field; `FormatLength` and `FormatDeterminesDestination` state its length and that it determines the destination |
| RedirectGenerator.RedirectHtml | plugins/redirect_generator.py:26 | the filled stub template; `RedirectHtmlShape` states its length and that different destinations give different pages |
| RedirectGenerator.FormatLength | plugins/redirect_generator.py:26 | a filled template is its text plus one copy of the destination per field |
| RedirectGenerator.FormatInjectiveSameLength | plugins/redirect_generator.py:26 | with a field, two equally long destinations that fill the template alike are equal |
| RedirectGenerator.FormatDeterminesDestination | plugins/redirect_generator.py:26 | with a field, two destinations give the same text exactly when they are equal |
| RedirectGenerator.RedirectHtmlShape | plugins/redirect_generator.py:5-16 | the stub page is the template text plus four copies of the destination, and different destinations give different pages |
| RedirectGenerator.RelativeStubPath | plugins/redirect_generator.py:24-25 | the source stripped of slashes joined with `index.html`; `RelativeStubPathShape` and `StubPathsCollideIffSameSource` state its form and when two sources collide |
| RedirectGenerator.StubPath | plugins/redirect_generator.py:28 | the output root joined with the relative stub path; `StubPathUnderRoot` states that the root is its prefix |
| RedirectGenerator.RelativeStubPathShape | plugins/redirect_generator.py:25 | the relative path is `<stripped>/index.html`, or `index.html` when nothing is left after stripping; it never starts with '/' |
| RedirectGenerator.StubPathsCollideIffSameSource | plugins/redirect_generator.py:24-25 | two sources get the same stub path exactly when they strip to the same string |
| RedirectGenerator.StubPathUnderRoot | plugins/redirect_generator.py:28 | the output root is a prefix of the stub's path and the relative path its suffix, with at most one '/' between |
| RedirectGenerator.StubDirectory | plugins/redirect_generator.py:29 | when the source does not strip to nothing, the created directory is the output root joined with the stripped source |
| RedirectGenerator.StubRequests | plugins/redirect_generator.py:29-31 | the directory request and the file write of one entry; `StubDirectory` and `StubRequestsOfStripped` state the directory and the file for a non-empty stripped source |
| RedirectGenerator.StubRequestsOfStripped | plugins/redirect_generator.py:24-31 | an entry whose source strips to a non-empty `inner` asks for directory `root/inner` and writes the filled page at `root/inner/index.html` |
| RedirectGenerator.RedirectRequests | plugins/redirect_generator.py:21-31 | the requests of every table entry in table order; `RedirectRequestsLength`, `RedirectRequestsAt` and `RedirectRequestsOfOne` state their number and which entry each comes from |
| RedirectGenerator.RedirectRequestsLength | plugins/redirect_generator.py:21-31 | two requests per table entry |
| RedirectGenerator.RedirectRequestsOfOne | plugins/redirect_generator.py:21-31 | a one-entry table gives exactly that entry's directory request and stub write |
| RedirectGenerator.RedirectRequestsAt | plugins/redirect_generator.py:21-31 | requests 2k and 2k+1 are exactly those of entry k |
| RedirectGenerator.GenerateRedirects | plugins/redirect_generator.py:19-31 | the loop issues `RedirectRequests` of the table in table order, and nothing when the setting is absent |
| RedirectGenerator.StubOfSurrounded | plugins/redirect_generator.py:24-25 | `/x/` with `x` non-empty and without end slashes gets stub `x/index.html` |
| RedirectGenerator.ExpensiveImportsStub | plugins/redirect_generator.py:22-25 | `/2021/07/19/expensive-imports-in-GUIs/` gets stub `2021/07/19/expensive-imports-in-GUIs/index.html` |
| RedirectGenerator.OldPathStub | plugins/redirect_generator.py:24-31 | with an empty root, `/old/path/` creates `old/path` and writes `old/path/index.html` |
| ValidateArticles.Message | plugins/validate_articles.py:9-12 | the exception's text; `MessageIdentifiesArticle` and `FailureMessageNamesFirstOffender` state that it quotes the offending path and tells paths apart |
| ValidateArticles.MessageIdentifiesArticle | plugins/validate_articles.py:9-12 | two messages are equal exactly when they name the same path |
| ValidateArticles.FailureMessageNamesFirstOffender | plugins/validate_articles.py:4-12 | when validation fails, the exception's text is the fixed head, the source path of the first offending article in list order, then the fixed advice |
| ValidateArticles.IsDraft | plugins/validate_articles.py:6 | `article.status == "draft"`, compared exactly; `CapitalisedDraftFails` states that `Draft` does not count |
| ValidateArticles.LacksDate | plugins/validate_articles.py:8 | the article has no `date` or a `date` of `None`; `Validate` states that only such non-draft articles fail |
| ValidateArticles.Offends | plugins/validate_articles.py:6-8 | not a draft and lacking a date; `Validate` states that the build fails exactly when some article offends |
| ValidateArticles.Validate | plugins/validate_articles.py:4-12 | validation passes exactly when no non-draft article lacks a date; a failure names the first such article in list order |
| ValidateArticles.NonDrafts | plugins/validate_articles.py:6-7 | the non-draft articles of a list, none missing and no draft among them |
| ValidateArticles.DraftsAreIgnored | plugins/validate_articles.py:6-7 | removing the drafts changes no validation outcome, so a draft never causes a failure whatever its date |
| ValidateArticles.ValidateConcat | plugins/validate_articles.py:5-12 | fail-fast, left to right: over `first + rest` the outcome is that of `first` when it fails, otherwise that of `rest` |
| ValidateArticles.CapitalisedDraftFails | plugins/validate_articles.py:6 | the draft test is case-sensitive: status `Draft` without a date fails |
| Pipeline.ArticleGeneratorFinalized | pelicanconf.py:60 | validation sees the full list before hiding; on failure nothing changes, on success the generator is in the state `HideArticles` promises |
| Pipeline.ArticleWriterFinalized | pelicanconf.py:60 | the hidden pages in record order, then the redirect requests |
| Pipeline.Build | pelicanconf.py:60 | a failed validation issues no request; a passed one requests a page for each hidden article of the original list, in order, then two requests per redirect entry |
| Scenarios.PartitionOfThree | plugins/hidden_articles.py:5-11 | of `[A, B, C]` with only B hidden, the visible list is `[A, C]` and the hidden one `[B]` |
| Scenarios.ThreeArticles | plugins/hidden_articles.py:4-25 | after hiding: articles `[A, C]`, record `[B]`, `A.next` none, `A.prev` C, `C.next` A, `C.prev` none |
| Scenarios.UndatedArticleStopsBuild | plugins/validate_articles.py:4-12 | an undated draft is skipped and the undated published article stops the build, naming `undated.md`; nothing is written |
| Scenarios.UndatedDraftBuilds | plugins/validate_articles.py:6-7 | a build whose only undated article is a draft passes |
| Scenarios.OldPathRedirect | plugins/redirect_generator.py:19-31 | the table `{"/old/path/": "/new-path/"}` with an empty root creates `old/path` and writes the filled page at `old/path/index.html` |

## Left out

- The `register()` functions and Pelican's signal dispatch are left out. `Pipeline`
  replaces them with explicit calls, in the order `pelicanconf.py:60` registers the plugins.
- `Pipeline` assumes that Pelican calls the handlers of a signal in the order they were
  registered. The order in which Pelican's signal library actually calls them is not modelled.
- `os.path.join` and `os.path.dirname` are modelled by their `posixpath` forms, so the
  build is taken to run on a POSIX system. On Windows, `ntpath` would insert `\`.
- `writer.write_file`, `generator.get_template`, Jinja rendering and `generator.context`
  are foreign calls. A page is an abstract `RenderPage` request that carries the path,
  template name, article, category and `blog` flag. The context is not represented.
- `os.makedirs`, `open` and `write` are modelled as `MakeDirs` and `WriteText` requests.
  File system errors are not modelled. One of them is `os.makedirs("")` failing: this
  happens when both the output root and the stripped source are empty.
- The exception raised by the validator is modelled as a `Fail` outcome. `Pipeline`
  stops the build on it.
- HiddenArticles.LowerChar: `str.lower` is modelled on ASCII letters only. Python's
  Unicode lower-casing of other characters is not modelled. The difference cannot change
  the hidden test: no non-ASCII character lower-cases to a letter of `true` in Python.
  `'İ'` gives `i` followed by U+0307, and the Kelvin sign gives `k`.
- HiddenArticles.Lower: built on `LowerChar`, so it is ASCII-only for the same reason.
- HiddenArticles.IsHidden: uses `Lower`, so by the reasoning above it agrees with
  Python's `.lower() == "true"` on every string.
- A `hidden` value that is not a string is not modelled. Python would raise on `.lower()`.
  The model's attribute is an optional string.
- Article identity is object identity. It stands in for Python's hashing of articles
  in `set(hidden)`.
- HiddenArticles.HideArticles requires the article list to hold each article once.
  Pelican parses each file into one article object. With a repeated article, its later
  position would overwrite the links set at its earlier one.
- The `REDIRECTS` dictionary is modelled as a sequence of pairs in insertion order.
  Duplicate keys, which a dictionary cannot hold, are not excluded.
- The `pelicanconf.py` table is not proved entry by entry. Its first entry is covered by
  `ExpensiveImportsStub`, and `StubOfSurrounded` covers every entry of the form `/x/`.
- RedirectGenerator.RedirectHtmlShape: the stub page is not compared character by
  character with the template literal. The model's template is that literal cut at its
  four fields, and the lemmas state its length and that it determines the destination.
- Markdown, webassets, feeds and theme settings are configuration for external tools,
  so they are not modelled.
