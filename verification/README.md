# Practical Jobs-to-be-Done book site — a verified model of its core

The site publishes a book as MDX chapters in two editions. The web reader
shows one chapter at a time. It has a sidebar that groups the chapters by
part and can be searched, and an "On this page" list of the chapter's
section headings. The print edition puts every chapter on one page, and a
server route turns that page into a downloadable PDF through a headless
browser.

This project models, in Dafny:

- **the chapter catalog** (`lib/content.ts`, module `Content`): the chapter
  records built from the `.mdx` files of the content directory, their sort
  by `order`, lookup by slug, the chapters of one part, and the list of
  parts;
- **the sidebar** (`src/components/TableOfContents.tsx`, module
  `TableOfContents`): grouping the chapters by part with a `reduce` that
  mutates a dictionary (an imperative method with a loop), the
  case-insensitive search filter, and the items with their links and their
  active flag;
- **the "On this page" list** (`src/components/OnThisPage.tsx`, module
  `OnThisPage`): the loop that walks the heading elements. It writes a
  unique `id` back to each element in place; the elements are a class with
  a mutable `id` field. It also covers the slug generated from a heading's
  text, the counter loops that make ids unique, and the caption;
- **code blocks** (`src/components/CodeBlock.tsx`, module `CodeBlock`): how
  the language is found and mapped through the alias table, the badge, and
  the trimmed text that is shown and copied;
- **the MDX element overrides** (`src/components/mdx.tsx`, module `Mdx`):
  links, images, fenced versus inline code, `pre`, and how caller-supplied
  components override the defaults;
- **the print edition** (`src/app/print/full-book/page.tsx`, module
  `PrintBook`): the cover, the numbered table of contents, one page per
  chapter that has content, the closing page, the print image and the
  print overrides;
- **the PDF route** (`src/app/api/generate-pdf/route.ts`, module
  `GeneratePdf`): the `GET` handler's `try` block as imperative methods,
  the `catch` block that closes the browser, the responses, and how each
  image of the page settles.

Shared modules:

- `Wrappers`: `Option` and an `Outcome` that works with `:-` to model an
  `await` that may throw.
- `Text`: the JavaScript string operations used: `startsWith`, `endsWith`,
  `includes`/`indexOf`, `toLowerCase`, `trim`, a first-match `replace`, and
  `String(n)`.
- `Seqs`: `filter`, subsequences, and the deduplication done by
  `[...new Set(xs)]`.
- `JsObject`: property lookup on an object literal, which also finds the
  members every object inherits from `Object.prototype`.

I/O is an input to the model. The content directory is a sequence of files,
each with its name, its parsed frontmatter and its body. The heading
elements are objects. The browser's answers are an environment value: which
steps throw and what they throw, the PDF bytes, the outcome of each
`close()`, and the first event each image receives.

Two behaviours of the code worth knowing:

- **Sort ties.** Chapters with equal `order` keep their directory order,
  because `Array.prototype.sort` is stable (`Content.SortStable`).
- **Closing the browser.** A success-path `browser.close()` that throws
  leaves `browser` set, so the `catch` block closes it a second time.
  `GeneratePdf.CloseCount` proves the count: at least one close whenever
  the browser was launched, never more than two, and exactly two precisely
  in that case.

## Model

| member | source | states |
|---|---|---|
| Content.StripExtension | lib/content.ts:36 | a name ending in `.mdx` loses exactly that suffix (slug + ".mdx" gives the name back); any other name is unchanged |
| Content.WithSlug | lib/content.ts:34-37 | the record keeps title, description, order, part and tags from the frontmatter, and its slug is the given one, whatever the frontmatter said |
| Content.Records | lib/content.ts:26-38 | one record per `.mdx` file; RecordsSpec states which |
| Content.RecordsSpec | lib/content.ts:26-38 | exactly the `.mdx` files yield records, one each; every record comes from such a file and its slug plus ".mdx" is that file's name |
| Content.SortByOrder | lib/content.ts:39 | the stable sort by `order` keeps the length; SortSpec and SortStable state that it is a sorted, stable permutation |
| Content.SortSpec | lib/content.ts:39 | the sort yields a permutation (same multiset) of its input, non-decreasing by `order` |
| Content.InsertSorted | lib/content.ts:39 | inserting into a sorted list keeps it sorted (the step the sort is built from) |
| Content.SortStable | lib/content.ts:39 | for every `order` value, the records with that value appear in the same relative order as in the input |
| Content.GetAllChapters | lib/content.ts:25-42 | one chapter per `.mdx` file; GetAllChaptersSpec states the order and contents |
| Content.GetAllChaptersSpec | lib/content.ts:25-42 | `getAllChapters` is sorted, is a permutation of the `.mdx` records, has one entry per `.mdx` file, keeps ties in directory order, and each entry's slug names its file |
| Content.FindFile | lib/content.ts:46-47 | finds a file with the given name exactly when one exists (both directions), and the one found has that name |
| Content.GetChapterBySlug | lib/content.ts:44-60 | for a slug that is a plain file-name stem, returns null exactly when no file is named `<slug>.mdx`; otherwise the chapter holds that file's body and frontmatter, with the requested slug |
| Content.CatalogChaptersResolve | lib/content.ts:25-60 | every chapter listed by `getAllChapters` can be loaded by its slug |
| Content.CatalogRoundTrip | lib/content.ts:25-60 | loading a listed chapter by its slug gives back exactly the listed metadata |
| Content.GetPartChapters | lib/content.ts:62-64 | never longer than the catalog, and every chapter it returns has the requested part; PartChaptersSpec states completeness and order |
| Content.PartChaptersSpec | lib/content.ts:62-64 | `getPartChapters(p)` is the subsequence of the catalog whose part is `p`: it holds every such chapter, nothing else, and stays sorted |
| Content.GetAllParts | lib/content.ts:66-70 | no listed part is empty; AllPartsSpec states which parts are listed and in what order |
| Content.AllPartsSpec | lib/content.ts:66-70 | `getAllParts` lists each non-empty part of the catalog once, in order of first appearance, and nothing that is not some chapter's part |
| Content.AllPartsOrdered | lib/content.ts:68-69 | the listed parts are pairwise distinct, and a part listed earlier first appears in the catalog earlier |
| Content.AllPartsSound | lib/content.ts:68-69 | every listed part is non-empty and is the part of some chapter (`filter(Boolean)` drops undefined and "") |
| Content.AllPartsComplete | lib/content.ts:68-69 | every non-empty part of a chapter is listed |
| Seqs.DedupSpec | lib/content.ts:68 | `[...new Set(xs)]` holds exactly the elements of `xs`, each once, ordered by their first appearance in `xs` |
| TableOfContents.PartKey | src/components/TableOfContents.tsx:60 | a chapter is filed under its part when that is a non-empty string, otherwise under "Other"; the key is never empty |
| TableOfContents.AddChapter | src/components/TableOfContents.tsx:61-64 | adding a chapter appends it to the group of its key, or starts that group; every other group is unchanged |
| TableOfContents.Grouped | src/components/TableOfContents.tsx:59-66 | the intended grouping: its keys are the chapters' keys, and every chapter in a group has that group's key |
| TableOfContents.GroupedSnoc | src/components/TableOfContents.tsx:59-66 | grouping the chapters plus one more is adding that chapter to the grouping of the rest |
| TableOfContents.GroupFoldIsGrouped | src/components/TableOfContents.tsx:59-66 | adding the chapters one at a time yields the grouping by key, each group in input order |
| TableOfContents.GroupChapters | src/components/TableOfContents.tsx:59-66 | the mutating loop over a dictionary ends with exactly the grouping by key, each group in input order |
| TableOfContents.GroupedSpec | src/components/TableOfContents.tsx:59-66 | every chapter sits in the group of its key and in no other; each group is a non-empty subsequence of the input |
| TableOfContents.GroupAsWritten | src/components/TableOfContents.tsx:59-66 | the `reduce` as written, which may throw; when it does not, every group is non-empty and holds only chapters of its key |
| TableOfContents.GroupAsWrittenAgrees | src/components/TableOfContents.tsx:59-66 | when no part is named after a member of `Object.prototype`, the `reduce` as written produces that grouping |
| TableOfContents.GroupAsWrittenFolds | src/components/TableOfContents.tsx:59-66 | under the same condition, each step of the `reduce` as written adds one chapter |
| TableOfContents.ConstructorPartThrows | src/components/TableOfContents.tsx:60-64 | a chapter whose part is "constructor" makes the `reduce` as written throw, while the intended grouping files it under "constructor" |
| TableOfContents.Matches | src/components/TableOfContents.tsx:69-73 | the search test; a chapter with no title, no description and no tags never matches |
| TableOfContents.MatchesIgnoresCase | src/components/TableOfContents.tsx:69-73 | the search result does not depend on the case of the query |
| TableOfContents.EmptyQueryKeeps | src/components/TableOfContents.tsx:69-73 | the empty query keeps a chapter exactly when it has a title, a description or at least one tag |
| TableOfContents.FilterGroups | src/components/TableOfContents.tsx:68-78 | a group survives the search exactly when some chapter in it matches, and then holds exactly its matching chapters |
| TableOfContents.FilterGroupsSpec | src/components/TableOfContents.tsx:68-78 | after filtering, a chapter is listed under a part exactly when it was there before and matches; surviving groups are non-empty and keep their order |
| TableOfContents.SidebarShowsMatches | src/components/TableOfContents.tsx:59-126 | a chapter of the catalog is shown in the sidebar, under its part's key, exactly when it matches the query |
| TableOfContents.Href | src/components/TableOfContents.tsx:116 | the link is "/book/" followed by the slug |
| TableOfContents.ItemOf | src/components/TableOfContents.tsx:111-121 | an item is active exactly when its slug is the current slug; it links to its chapter and shows its title |
| TableOfContents.ItemsDistinct | src/components/TableOfContents.tsx:112-117 | chapters with different slugs get different links and are never both active; with no current slug none is active |
| OnThisPage.CollapseRuns | src/components/OnThisPage.tsx:41-42 | after `replace(/x+/g, '-')` every character is a hyphen or a character of the input outside the run class, and when `-` is in the class no two hyphens are adjacent |
| OnThisPage.CollapseRunsKeeps | src/components/OnThisPage.tsx:41-42 | collapsing runs of characters that a class rejects into a character it also rejects leaves the characters of that class unchanged |
| OnThisPage.Slugify | src/components/OnThisPage.tsx:39-43 | a generated id holds only `a-z`, `0-9` and `-`, and never two hyphens in a row |
| OnThisPage.SlugKeepsAlnum | src/components/OnThisPage.tsx:39-43 | the id keeps exactly the ASCII letters and digits of the lower-cased text, in order |
| OnThisPage.SlugIsCollapsed | src/components/OnThisPage.tsx:43 | the final `trim()` removes nothing, since no white space survives the replacements |
| OnThisPage.Suffixed | src/components/OnThisPage.tsx:49 | `${base}-${counter}` starts with the base followed by a hyphen |
| OnThisPage.SuffixedInjective | src/components/OnThisPage.tsx:49 | different counters give different ids |
| OnThisPage.TriedSize | src/components/OnThisPage.tsx:47-51 | the ids tried before counter k are k-1 distinct strings, so the used set cannot hold all of them for ever and the loop ends |
| OnThisPage.FreeCounter | src/components/OnThisPage.tsx:47-51 | the counter the loop stops at is the first whose id is free: every smaller one is taken |
| OnThisPage.FreshId | src/components/OnThisPage.tsx:46-51 | the loop's id is never in use; it is the base itself when that is free, otherwise the first free `base-k` |
| OnThisPage.UniqueId | src/components/OnThisPage.tsx:46-51 | the counting loop returns the first free id of that sequence |
| OnThisPage.ChooseId | src/components/OnThisPage.tsx:36-65 | the id a heading gets is unused; an unused own id is kept, and a heading without an id gets its slug when that is unused |
| OnThisPage.Step | src/components/OnThisPage.tsx:29-68 | one iteration: a level-1 element changes nothing but records its own id; any other element gets the id ChooseId picks (its own id if unused, else its slug if unused, else the first free suffix), which is not yet used, is added to the used set and is pushed with its text and level |
| OnThisPage.Run | src/components/OnThisPage.tsx:29-69 | the `forEach` over the elements records one final id per element; its meaning is stated by RunSpec |
| OnThisPage.RunSpec | src/components/OnThisPage.tsx:29-69 | one list entry per element that is not level 1, in document order, with its text and level; entry ids are pairwise distinct and are exactly the used ids; the entry of each such element carries the id that element ends with, which is the one ChooseId picks against the ids used by the elements before it; level-1 elements keep their id |
| OnThisPage.RunFollowsSections | src/components/OnThisPage.tsx:33-34 | the list has one entry per element that is not level 1, in order, with that element's text and level |
| OnThisPage.RunIdsUnique | src/components/OnThisPage.tsx:45-67 | no two entries share an id, and the used set is exactly the set of entry ids |
| OnThisPage.RunFinalIds | src/components/OnThisPage.tsx:33-65 | a level-1 element keeps its id; every other element ends with an id that is in the used set |
| OnThisPage.RunHeadingOfElement | src/components/OnThisPage.tsx:36-68 | the element that is the k-th below the title produces list entry k, and that entry's id is the id written back to the element |
| OnThisPage.RunIdsChosen | src/components/OnThisPage.tsx:36-67 | the id each element below the title ends with is ChooseId of that element against the ids used by the elements before it |
| OnThisPage.Visit | src/components/OnThisPage.tsx:29-68 | one pass of the `forEach` body on the element object: a level-1 element is left alone; any other gets ChooseId's id written back, added to the used set and listed |
| OnThisPage.AssignId | src/components/OnThisPage.tsx:36-65 | the element's `id` is overwritten with the chosen unique id, which is also returned |
| OnThisPage.CollectHeadings | src/components/OnThisPage.tsx:25-69 | the loop over the elements returns the list the specification function computes and writes each element's final id back to it |
| OnThisPage.SectionCount | src/components/OnThisPage.tsx:142-187 | no headings show the empty-state text; otherwise the caption is the count followed by " sections" |
| OnThisPage.TitleOnlyPage | src/components/OnThisPage.tsx:33-34 | a page whose only heading is its h1 title shows the empty state |
| OnThisPage.RepeatedHeading | src/components/OnThisPage.tsx:36-68 | two id-less headings with the same text get `slug` and `slug-1` |
| Text.RemoveFirst | src/components/CodeBlock.tsx:44 | without an occurrence the string is unchanged; otherwise exactly the first occurrence is cut out, leaving what precedes and what follows it |
| CodeBlock.Lang | src/components/CodeBlock.tsx:44 | a non-empty `language` prop wins; otherwise the class name with its first "language-" removed; "text" if that is empty; never empty |
| CodeBlock.LangFromClassName | src/components/CodeBlock.tsx:44 | the class "language-x" names the language x when no language prop is given |
| CodeBlock.MappedLanguage | src/components/CodeBlock.tsx:47-65 | corrected lookup: always one of the supported languages; any name that is not an alias, lower-cased, maps to "text" |
| CodeBlock.MappedLanguageAliases | src/components/CodeBlock.tsx:47-65 | the lookup ignores case; py, js, ts, shell and yml resolve to python, javascript, typescript, bash and yaml |
| CodeBlock.MappedLanguageAsWritten | src/components/CodeBlock.tsx:65 | the lookup as written: a result that is a string is a supported language (an inherited member of the object is the other outcome) |
| CodeBlock.ConstructorTagEscapesLanguageMap | src/components/CodeBlock.tsx:44-65 | the class "language-constructor" gives an inherited member as written, where the corrected lookup gives "text" |
| CodeBlock.AsWrittenAgreesOffPrototype | src/components/CodeBlock.tsx:65 | for every language that does not lower-case to an inherited member name, the two lookups agree |
| CodeBlock.Badge | src/components/CodeBlock.tsx:97 | the badge shows "R" for r and the mapped language otherwise |
| CodeBlock.Render | src/components/CodeBlock.tsx:15-133 | the highlighted language is exactly the mapped language of the `language` prop or class name, and so a supported one; the badge is that language's badge; shown and copied text are both the trimmed children; a title bar appears exactly for a non-empty title and shows that title; line numbers default to on |
| CodeBlock.RenderedTextIsTrimmed | src/components/CodeBlock.tsx:69-128 | the shown text neither starts nor ends with white space, and trimming it again changes nothing |
| CodeBlock.RCodeBlock | src/components/CodeBlock.tsx:136-154 | an R block passes language "r", its children, the title (default "R Code") and the line-number switch (default on) |
| CodeBlock.RCodeBlockRendersR | src/components/CodeBlock.tsx:136-154 | an R block is highlighted as r with the badge "R", titled "R Code" and numbered unless told otherwise |
| Text.TrimIsCore | src/components/CodeBlock.tsx:128 | `trim()` returns the slice left after removing white space from both ends, and it neither starts nor ends with white space |
| Text.TrimIdempotent | src/components/CodeBlock.tsx:69 | trimming twice is trimming once |
| Mdx.RenderLink | src/components/mdx.tsx:10-19 | a link keeps its href and children; it opens in a new tab with `noopener noreferrer` exactly when the href starts with "http" |
| Mdx.LinkTargets | src/components/mdx.tsx:14-15 | http and https addresses open in a new tab; site paths, anchors and a missing href do not |
| Mdx.TagIndex | src/components/mdx.tsx:25 | finds the first position where `/language-(\w+)/` matches, or reports that there is none |
| Mdx.HasLanguageTagIff | src/components/mdx.tsx:25 | the regular expression matches exactly when some position holds "language-" followed by a word character |
| Mdx.StripTrailingNewline | src/components/mdx.tsx:28 | one final line feed is removed if present; otherwise the text is unchanged |
| Mdx.StripTrailingNewlineInverse | src/components/mdx.tsx:28 | removing undoes appending one line feed, and removes only one |
| Mdx.RenderCode | src/components/mdx.tsx:24-35 | code is handed to the code block exactly when its class has a language tag, with the final line feed removed; otherwise it stays inline and unchanged |
| Mdx.FencedCodeHighlighted | src/components/mdx.tsx:24-29 | a fence tagged with a language name renders the same under the `code` override of `useMDXComponents` and under the print edition's: highlighted as the mapped language with its badge, line numbers on, no title, and the trimmed body |
| Mdx.RenderPre | src/components/mdx.tsx:36 | `pre` renders only its children |
| Mdx.RenderImg | src/components/mdx.tsx:21 | an image passes all its props to the book image |
| Mdx.UseMdxComponents | src/components/mdx.tsx:7-43 | the table has the default keys (the `Defaults` table of lines 9-38) plus the caller's; a caller's entry wins, and otherwise the default stands |
| Mdx.UseMdxComponentsOverride | src/components/mdx.tsx:41 | with no caller entries the defaults stand; supplying one element replaces only that element |
| PrintBook.EntryFor | src/app/print/full-book/page.tsx:107-122 | the idx-th contents line is numbered idx+1, shows the chapter's title, is bold for section overviews and indented for numbered chapters |
| PrintBook.TocEntries | src/app/print/full-book/page.tsx:107 | one contents line per titled chapter, in catalog order |
| PrintBook.TocEntriesSpec | src/app/print/full-book/page.tsx:107-124 | the lines are numbered 1, 2, …; every titled chapter has a line, and every line is for a titled chapter |
| PrintBook.ChaptersWithContent | src/app/print/full-book/page.tsx:63-66 | the loaded chapters are never more than the catalog |
| PrintBook.ChaptersWithContentAllResolve | src/app/print/full-book/page.tsx:63-66 | when every slug resolves, the i-th loaded chapter is the one for the i-th catalog entry |
| PrintBook.ChaptersWithContentResolved | src/app/print/full-book/page.tsx:63-66 | every loaded chapter is what some catalog entry's slug resolves to; unreadable ones are skipped |
| PrintBook.ChaptersWithContentDropsUnresolved | src/app/print/full-book/page.tsx:63-66 | loading the catalog gives the same chapters as loading only its entries whose slug resolves: exactly the null results are dropped |
| PrintBook.ChaptersWithContentSpec | src/app/print/full-book/page.tsx:63-66 | the loaded chapters are, in catalog order, one per entry whose slug resolves, each the chapter that slug loads; an entry is among those exactly when its slug resolves |
| PrintBook.ShownDescription | src/app/print/full-book/page.tsx:163-172 | the description line appears exactly for a non-empty description |
| PrintBook.ChapterPageOf | src/app/print/full-book/page.tsx:129-225 | a chapter page breaks before and shows the chapter's part, title, optional description and body |
| PrintBook.ChapterPages | src/app/print/full-book/page.tsx:129 | one page per loaded chapter, in order |
| PrintBook.Assemble | src/app/print/full-book/page.tsx:68-241 | the document is the cover, then the contents, then the chapter pages, then the closing page |
| PrintBook.PrintFullBookPage | src/app/print/full-book/page.tsx:59-242 | the print edition of the content directory has three pages more than the catalog has chapters |
| PrintBook.FullBookSpec | src/app/print/full-book/page.tsx:59-242 | the print edition has three more pages than the catalog has chapters; page i+2 shows the slug, title and part of catalog chapter i |
| PrintBook.EmptyBook | src/app/print/full-book/page.tsx:59-242 | with no chapters the document is the cover, an empty contents page and the closing page |
| PrintBook.ContentsMatchPages | src/app/print/full-book/page.tsx:107-131 | when every chapter has a title, contents line k names the chapter printed on page k+2 |
| PrintBook.PrintBookImage | src/app/print/full-book/page.tsx:10-52 | the print image keeps src and alt, defaults to 600 by 400, loads eagerly and has a caption exactly when one is given |
| PrintBook.PrintBookImageDefaults | src/app/print/full-book/page.tsx:14-15 | an image without a size prints at 600 by 400; one with a size keeps it |
| PrintBook.PrintLink | src/app/print/full-book/page.tsx:191-201 | a print link keeps its href and children and never opens a new tab |
| PrintBook.PrintComponentsVersusDefaults | src/app/print/full-book/page.tsx:185-222 | the print edition's table (`PrintComponents`) has the keys of `useMDXComponents`' defaults except `img`; its `a` and `BookImage` are its own, its `code` is a separate override rendering with the print presentation where the default renders with the standard one, and `pre` and the shared components are the same |
| PrintBook.PrintCodeMatchesDefaults | src/app/print/full-book/page.tsx:202-220 | each table's `code` entry, rendering with its own presentation, makes the same highlighting decision and passes the same `CodeBlock` props; inline code shows the same text, styled differently |
| JsObject.Get | src/components/CodeBlock.tsx:65 | `obj[key]` finds an own property exactly when the key is one, an inherited member exactly when the key is not own but names one, and nothing otherwise |
| GeneratePdf.StepOutcome | src/app/api/generate-pdf/route.ts:18-118 | a step throws exactly when the environment says so, except the render delay, which never throws |
| GeneratePdf.Details | src/app/api/generate-pdf/route.ts:154 | an Error contributes its message; any other thrown value gives "Unknown error" |
| GeneratePdf.ErrorResponse | src/app/api/generate-pdf/route.ts:151-157 | the catch response is status 500 with "Failed to generate PDF" and the details |
| GeneratePdf.PdfResponse | src/app/api/generate-pdf/route.ts:126-139 | the success response is status 200 with the PDF bytes and exactly the six headers: PDF type, attachment name, the byte count as the length, and three no-cache headers |
| GeneratePdf.DispositionIsAttachment | src/app/api/generate-pdf/route.ts:133 | the download is an attachment with a quoted `.pdf` file name |
| GeneratePdf.StartBrowser | src/app/api/generate-pdf/route.ts:12-28 | the URL is parsed and the browser launched, stopping at the first throw |
| GeneratePdf.OpenPage | src/app/api/generate-pdf/route.ts:30-45 | new page, viewport, print emulation, in that order, stopping at the first throw |
| GeneratePdf.LoadPage | src/app/api/generate-pdf/route.ts:48-95 | navigation, fonts, images and the delay, in that order, stopping at the first throw |
| GeneratePdf.PrintPage | src/app/api/generate-pdf/route.ts:100-118 | the page is printed to PDF or the print throws |
| GeneratePdf.TryBlock | src/app/api/generate-pdf/route.ts:10-139 | the try block makes the calls up to the first throw; the handle is set exactly after a successful launch and cleared only after the success-path close; on success it holds the printed bytes |
| GeneratePdf.Get | src/app/api/generate-pdf/route.ts:7-159 | the handler's calls and response are those of the try block, followed, if it threw, by the catch block |
| GeneratePdf.TryThenCatch | src/app/api/generate-pdf/route.ts:140-158 | the catch adds one close exactly when the handle is still set, and answers 500 with what the try block threw |
| GeneratePdf.CloseCount | src/app/api/generate-pdf/route.ts:122-149 | the browser is closed at least once exactly when it was launched, never more than twice, and exactly twice when nothing else threw but the success-path close did |
| GeneratePdf.LaunchFailureClosesNothing | src/app/api/generate-pdf/route.ts:8-28 | if the launch throws, nothing is closed and the response is the 500 for the launch error |
| GeneratePdf.TraceShape | src/app/api/generate-pdf/route.ts:10-149 | the calls are the steps in source order up to some point, followed only by closes |
| GeneratePdf.EmulateBeforeGoto | src/app/api/generate-pdf/route.ts:43-54 | whenever the page is navigated, the call just before is the print-media emulation |
| GeneratePdf.ResponseSpec | src/app/api/generate-pdf/route.ts:129-157 | the status is 200 exactly when nothing threw (the success-path close included), and then the response is the PDF response; otherwise it is a 500 with a JSON body |
| GeneratePdf.CloseErrorIgnored | src/app/api/generate-pdf/route.ts:144-148 | whatever the catch block's close throws, the response is the same |
| GeneratePdf.Classify | src/app/api/generate-pdf/route.ts:69-85 | an image is already loaded exactly when it is complete with a non-zero natural height; otherwise its first event (load, error or none before the timer) decides |
| GeneratePdf.SrcPrefix | src/app/api/generate-pdf/route.ts:74 | at most the first 50 characters of the source, all of it when shorter |
| GeneratePdf.SettleMessage | src/app/api/generate-pdf/route.ts:68-86 | each image's result starts with "Image n: " for its index |
| GeneratePdf.SettleMessageNamesOutcome | src/app/api/generate-pdf/route.ts:69-84 | the word after the head identifies the outcome (already loaded, loaded, error, timeout) in both directions, and error and timeout results quote the start of the src |
| GeneratePdf.SettleAll | src/app/api/generate-pdf/route.ts:68-88 | one result per image, in image order |

## Left out

- Strings are sequences of Unicode scalar values, not of UTF-16 code units. A lone surrogate cannot occur, and a character outside the Basic Multilingual Plane counts as one element where JavaScript counts two, so lengths and `GeneratePdf.SrcPrefix`'s `substring(0, 50)` differ from the source on such strings.
- `toLowerCase` is ASCII only. Non-ASCII letters, such as the Kelvin sign, are not case-mapped.
- A frontmatter `order` that is missing or not a number is not modelled; `order` is an integer. With NaN the comparator is inconsistent and the resulting order is not specified.
- Frontmatter values whose type differs from the declared one are not modelled. Examples are a numeric `title` or a non-array `tags`.
- File-system and YAML parse errors in `getAllChapters` are not modelled; the directory is a list of already-parsed files. A missing file in `getChapterBySlug` is modelled as `null`.
- Content.CatalogRoundTrip, PrintBook.FullBookSpec and PrintBook.ContentsMatchPages: they assume that a directory listing names each file once.
- Content.GetChapterBySlug: slugs are taken to be plain file-name stems. `path.join` resolves `.` and `..` segments, so a slug such as `./intro` loads `intro.mdx` in the source; that path resolution is not modelled. A read or YAML error, which the `catch` also turns into `null`, is not modelled either.
- The `.main-content-area` lookup and its early return are not modelled. The heading list starts from the elements inside that area.
- The `IntersectionObserver` that tracks the active heading is not modelled. Nor is the auto-scrolling of both sidebars, which depends on element geometry and timers.
- The order in which `Object.entries` lists the sidebar's groups is not modelled; groups are a map.
- The download link, `handleDownloadPDF` and the sidebar toggles have no logic beyond fixed markup and are not modelled.
- In `CodeBlock`, the dark-mode observer, the copy button's `copied` state and the clipboard write are not modelled, nor is the syntax highlighter itself. What they receive is modelled.
- `BookImage`, `ROutput` and `DownloadLink` belong to other components and are not part of this model. They appear only as entries of the components tables.
- MDX compilation and the math plugins are not modelled. A chapter body is an opaque string.
- The print `a` override's `{...props}` pass-through is not modelled: extra props are assumed not to include `target`. The extra props (`{...props}`) of the `code` override, in `useMDXComponents` and in print alike, are not modelled either.
- `src/app/book/[slug]/page.tsx` is not part of this model. It renders a chapter with its own components table rather than with `useMDXComponents`; the comparison drawn here is between `useMDXComponents`' defaults and the print edition's table.
- GeneratePdf: Puppeteer is foreign code. Its calls are abstract steps whose outcomes come from the environment, and the options passed to them are not modelled: launch arguments, timeouts, the viewport size, `networkidle2`, the PDF format and margins.
- GeneratePdf: `setDefaultTimeout` and `setDefaultNavigationTimeout` are synchronous setters and are treated as never throwing. The console logging is left out.
- GeneratePdf: the JSON error response's `Content-Type` header, which `NextResponse.json` adds, is not modelled. Only its status and body are.
- GeneratePdf.Classify: the race between an image's `load`/`error` event and the 15-second timer is not modelled as timing. The first event to arrive is an input.

## Findings

| source | as written | input that shows it | evidently intended | confidence | as-written member | corrected member |
|---|---|---|---|---|---|---|
| src/components/CodeBlock.tsx:65 | the lookup `languageMap[lang.toLowerCase()]`, with 'text' as its fallback, also finds members that the object literal inherits from `Object.prototype` | a fenced block tagged `constructor`, i.e. class "language-constructor": the lookup yields the `Object` function, which is truthy, so the highlighter and the badge receive a function instead of a language name | unknown names, including inherited member names, fall back to "text" | not executed | CodeBlock.ConstructorTagEscapesLanguageMap | CodeBlock.MappedLanguage |
| src/components/TableOfContents.tsx:61-64 | `if (!acc[part]) acc[part] = []; acc[part].push(chapter)` on a `{}` accumulator | a chapter whose frontmatter part is "constructor" (or "toString", …): `acc[part]` is an inherited function, so no array is created and `push` throws a TypeError, and the sidebar fails to render | the chapter is filed under its part like any other | not executed | TableOfContents.ConstructorPartThrows | TableOfContents.GroupChapters |
