/** The print edition of src/app/print/full-book/page.tsx: the pages it
    assembles from the catalog (cover, table of contents, one page per chapter,
    closing page), the table-of-contents entries, the print image component and
    the components table handed to the MDX renderer. Styling is left out;
    what is kept is each page's break rule and the values it displays. */
module PrintBook {
  import opened Wrappers
  import opened Text
  import opened Seqs
  import opened Content
  import Mdx
  import CodeBlock

  /** The CSS class on a page's wrapper: `page-break-after` or `page-break-before`. */
  datatype PageBreak = BreakAfter | BreakBefore

  /** One line of the printed table of contents. */
  datatype TocEntry = TocEntry(number: nat, slug: string, title: string, indentPx: nat, fontWeight: nat)

  /** What a page displays. */
  datatype Section =
    | Cover(imageSrc: string, alt: string)
    | Contents(heading: string, entries: seq<TocEntry>)
    | ChapterPage(slug: string, part: Option<string>, title: Option<string>, description: Option<string>, body: string)
    | Closing(lines: seq<string>)

  datatype Page = Page(pageBreak: PageBreak, section: Section)

  const CoverImage: string := "/images/book/Introduction/JTBDODIBookCover.png"
  const CoverAlt: string := "Practical Jobs-to-be-Done Book Cover"
  const ClosingLines: seq<string> := ["End of Book", "Practical Jobs-to-be-Done by Braden Buchanan"]

  /** `ch => ch.title`: the chapter has a non-empty title. */
  predicate IsTitled(c: ChapterMetadata) {
    IsTruthy(c.title)
  }

  /** Overview pages of a section are printed bold. */
  predicate IsSectionTitle(title: string) {
    Contains(title, "Section") && Contains(title, "Overview")
  }

  /** Numbered chapters are indented under their section. */
  predicate IsChapterTitle(title: string) {
    StartsWith(title, "Chapter")
  }

  /** The list item for the `idx`-th titled chapter (counting from 0). */
  function EntryFor(c: ChapterMetadata, idx: nat): (e: TocEntry)
    requires IsTitled(c)
    ensures e.number == idx + 1 && e.slug == c.slug && e.title == c.title.value
    ensures e.fontWeight == (if IsSectionTitle(e.title) then 600 else 400)
    ensures e.indentPx == (if IsChapterTitle(e.title) then 24 else 0)
  {
    var title := c.title.value;
    TocEntry(idx + 1, c.slug, title,
             if IsChapterTitle(title) then 24 else 0,
             if IsSectionTitle(title) then 600 else 400)
  }

  /** `allChapters.filter(ch => ch.title).map((chapter, idx) => ...)` */
  function TocEntries(catalog: seq<ChapterMetadata>): (es: seq<TocEntry>)
    ensures |es| == |Filter(catalog, IsTitled)|
    ensures forall i :: 0 <= i < |es| ==> es[i] == EntryFor(Filter(catalog, IsTitled)[i], i)
  {
    var titled := Filter(catalog, IsTitled);
    seq(|titled|, i requires 0 <= i < |titled| => EntryFor(titled[i], i))
  }

  /** The printed contents list every titled chapter, numbered 1, 2, ... in
      catalog order, and nothing else. */
  lemma TocEntriesSpec(catalog: seq<ChapterMetadata>)
    ensures forall i :: 0 <= i < |TocEntries(catalog)| ==> TocEntries(catalog)[i].number == i + 1
    ensures forall c :: c in catalog && IsTitled(c) ==>
              exists i :: 0 <= i < |TocEntries(catalog)| &&
                TocEntries(catalog)[i].slug == c.slug && TocEntries(catalog)[i].title == c.title.value
    ensures forall e :: e in TocEntries(catalog) ==>
              exists c :: c in catalog && IsTitled(c) && e.slug == c.slug && e.title == c.title.value
  {
    var titled := Filter(catalog, IsTitled);
    var es := TocEntries(catalog);
    FilterMembers(catalog, IsTitled);
    forall c | c in catalog && IsTitled(c)
      ensures exists i :: 0 <= i < |es| && es[i].slug == c.slug && es[i].title == c.title.value
    {
      var i :| 0 <= i < |titled| && titled[i] == c;
      assert es[i] == EntryFor(c, i);
    }
    forall e | e in es
      ensures exists c :: c in catalog && IsTitled(c) && e.slug == c.slug && e.title == c.title.value
    {
      var i :| 0 <= i < |es| && es[i] == e;
      assert titled[i] in titled;
    }
  }

  /** `allChapters.map(m => getChapterBySlug(m.slug)).filter(Boolean)`: the
      chapters whose file can be read, in catalog order. */
  function ChaptersWithContent(files: seq<ContentFile>, catalog: seq<ChapterMetadata>): (cs: seq<Chapter>)
    ensures |cs| <= |catalog|
    decreases |catalog|
  {
    if catalog == [] then []
    else match GetChapterBySlug(files, catalog[0].slug)
      case Some(ch) => [ch] + ChaptersWithContent(files, catalog[1..])
      case None => ChaptersWithContent(files, catalog[1..])
  }

  /** When every catalog entry resolves, each one yields its chapter, in order. */
  lemma {:induction false} ChaptersWithContentAllResolve(files: seq<ContentFile>, catalog: seq<ChapterMetadata>)
    requires forall c :: c in catalog ==> GetChapterBySlug(files, c.slug).Some?
    ensures |ChaptersWithContent(files, catalog)| == |catalog|
    ensures forall i :: 0 <= i < |catalog| ==>
              ChaptersWithContent(files, catalog)[i] == GetChapterBySlug(files, catalog[i].slug).value
    decreases |catalog|
  {
    if catalog != [] {
      var rest := catalog[1..];
      assert forall c :: c in rest ==> GetChapterBySlug(files, c.slug).Some? by {
        assert forall c :: c in rest ==> c in catalog;
      }
      ChaptersWithContentAllResolve(files, rest);
      var head := GetChapterBySlug(files, catalog[0].slug);
      assert head.Some? by {
        assert catalog[0] in catalog;
      }
      var cs := ChaptersWithContent(files, catalog);
      assert cs == [head.value] + ChaptersWithContent(files, rest);
      forall i | 0 <= i < |catalog| ensures cs[i] == GetChapterBySlug(files, catalog[i].slug).value {
        if i > 0 {
          assert catalog[i] == rest[i - 1];
        }
      }
    }
  }

  /** An entry whose file cannot be read is skipped, not printed empty. */
  lemma {:induction false} ChaptersWithContentResolved(files: seq<ContentFile>, catalog: seq<ChapterMetadata>)
    ensures forall ch :: ch in ChaptersWithContent(files, catalog) ==>
              exists c :: c in catalog && GetChapterBySlug(files, c.slug) == Some(ch)
    decreases |catalog|
  {
    if catalog != [] {
      ChaptersWithContentResolved(files, catalog[1..]);
      assert forall c :: c in catalog[1..] ==> c in catalog;
      assert catalog[0] in catalog;
    }
  }

  /** The catalog entries whose slug loads, in catalog order. */
  function Resolving(files: seq<ContentFile>, catalog: seq<ChapterMetadata>): seq<ChapterMetadata> {
    Filter(catalog, (c: ChapterMetadata) => GetChapterBySlug(files, c.slug).Some?)
  }

  /** Loading drops exactly the entries whose slug gives null and nothing else. */
  lemma {:induction false} ChaptersWithContentDropsUnresolved(files: seq<ContentFile>, catalog: seq<ChapterMetadata>)
    ensures ChaptersWithContent(files, catalog) == ChaptersWithContent(files, Resolving(files, catalog))
    decreases |catalog|
  {
    if catalog != [] {
      var rest := catalog[1..];
      ChaptersWithContentDropsUnresolved(files, rest);
      if GetChapterBySlug(files, catalog[0].slug).Some? {
        var r := Resolving(files, catalog);
        assert r == [catalog[0]] + Resolving(files, rest);
        assert r[0] == catalog[0] && r[1..] == Resolving(files, rest);
      }
    }
  }

  /** The loaded chapters are, in catalog order, the chapters of exactly the
      entries whose slug loads. */
  lemma ChaptersWithContentSpec(files: seq<ContentFile>, catalog: seq<ChapterMetadata>)
    ensures |ChaptersWithContent(files, catalog)| == |Resolving(files, catalog)|
    ensures forall i :: 0 <= i < |Resolving(files, catalog)| ==>
              ChaptersWithContent(files, catalog)[i] == GetChapterBySlug(files, Resolving(files, catalog)[i].slug).value
    ensures forall c :: c in catalog && GetChapterBySlug(files, c.slug).Some? <==> c in Resolving(files, catalog)
  {
    var r := Resolving(files, catalog);
    ChaptersWithContentDropsUnresolved(files, catalog);
    FilterMembers(catalog, (c: ChapterMetadata) => GetChapterBySlug(files, c.slug).Some?);
    assert forall c :: c in r ==> GetChapterBySlug(files, c.slug).Some?;
    ChaptersWithContentAllResolve(files, r);
  }

  /** The description line appears only for a non-empty description. */
  function ShownDescription(description: Option<string>): (d: Option<string>)
    ensures d.Some? <==> IsTruthy(description)
    ensures d.Some? ==> d == description
  {
    if IsTruthy(description) then description else None
  }

  /** The page of one chapter: its part, title, optional description and body. */
  function ChapterPageOf(ch: Chapter): (p: Page)
    ensures p.pageBreak == BreakBefore && p.section.ChapterPage?
    ensures p.section.slug == ch.metadata.slug && p.section.body == ch.content
    ensures p.section.part == ch.metadata.part && p.section.title == ch.metadata.title
    ensures p.section.description == ShownDescription(ch.metadata.description)
  {
    Page(BreakBefore, ChapterPage(ch.metadata.slug, ch.metadata.part, ch.metadata.title,
                                  ShownDescription(ch.metadata.description), ch.content))
  }

  /** The chapter pages, one per chapter with content. */
  function ChapterPages(chapters: seq<Chapter>): (ps: seq<Page>)
    ensures |ps| == |chapters|
    ensures forall i :: 0 <= i < |chapters| ==> ps[i] == ChapterPageOf(chapters[i])
  {
    seq(|chapters|, i requires 0 <= i < |chapters| => ChapterPageOf(chapters[i]))
  }

  /** The whole document for a catalog: cover and contents, each followed by a
      page break, then every chapter with content and the closing page, each
      preceded by one. */
  function Assemble(files: seq<ContentFile>, catalog: seq<ChapterMetadata>): (pages: seq<Page>)
    ensures |pages| == |ChaptersWithContent(files, catalog)| + 3
    ensures pages[0] == Page(BreakAfter, Cover(CoverImage, CoverAlt))
    ensures pages[1] == Page(BreakAfter, Contents("Table of Contents", TocEntries(catalog)))
    ensures forall i :: 2 <= i < |pages| - 1 ==>
              pages[i] == ChapterPageOf(ChaptersWithContent(files, catalog)[i - 2])
    ensures pages[|pages| - 1] == Page(BreakBefore, Closing(ClosingLines))
  {
    [Page(BreakAfter, Cover(CoverImage, CoverAlt)),
     Page(BreakAfter, Contents("Table of Contents", TocEntries(catalog)))]
    + ChapterPages(ChaptersWithContent(files, catalog))
    + [Page(BreakBefore, Closing(ClosingLines))]
  }

  /** `PrintFullBookPage()` */
  function PrintFullBookPage(files: seq<ContentFile>): (pages: seq<Page>)
    ensures |pages| == |GetAllChapters(files)| + 3
  {
    CatalogChaptersResolve(files);
    ChaptersWithContentAllResolve(files, GetAllChapters(files));
    Assemble(files, GetAllChapters(files))
  }

  /** The print edition holds every chapter of the catalog exactly once, in
      catalog order, each page showing that chapter's own metadata. */
  lemma FullBookSpec(files: seq<ContentFile>)
    requires DistinctNames(files)
    ensures |PrintFullBookPage(files)| == |GetAllChapters(files)| + 3
    ensures forall i :: 0 <= i < |GetAllChapters(files)| ==>
              PrintFullBookPage(files)[i + 2].section.slug == GetAllChapters(files)[i].slug
    ensures forall i :: 0 <= i < |GetAllChapters(files)| ==>
              PrintFullBookPage(files)[i + 2].section.title == GetAllChapters(files)[i].title
    ensures forall i :: 0 <= i < |GetAllChapters(files)| ==>
              PrintFullBookPage(files)[i + 2].section.part == GetAllChapters(files)[i].part
  {
    var catalog := GetAllChapters(files);
    CatalogChaptersResolve(files);
    ChaptersWithContentAllResolve(files, catalog);
    var cs := ChaptersWithContent(files, catalog);
    forall i | 0 <= i < |catalog| ensures cs[i].metadata == catalog[i] {
      CatalogRoundTrip(files, catalog[i]);
    }
  }

  /** With no chapter files the document is cover, an empty contents page and
      the closing page. */
  lemma EmptyBook()
    ensures PrintFullBookPage([]) == [Page(BreakAfter, Cover(CoverImage, CoverAlt)),
                                     Page(BreakAfter, Contents("Table of Contents", [])),
                                     Page(BreakBefore, Closing(ClosingLines))]
  {
    assert Filter([], IsMdx) == [];
  }

  /** When every chapter is titled, contents line `k` names the chapter on
      printed chapter page `k`. */
  lemma ContentsMatchPages(files: seq<ContentFile>)
    requires DistinctNames(files)
    requires forall c :: c in GetAllChapters(files) ==> IsTitled(c)
    ensures forall i :: 0 <= i < |GetAllChapters(files)| ==>
              i < |TocEntries(GetAllChapters(files))| && i + 2 < |PrintFullBookPage(files)| &&
              PrintFullBookPage(files)[i + 2].section.ChapterPage? &&
              TocEntries(GetAllChapters(files))[i].slug == PrintFullBookPage(files)[i + 2].section.slug
  {
    var catalog := GetAllChapters(files);
    FilterAll(catalog, IsTitled);
    FullBookSpec(files);
  }

  /** What `PrintBookImage` renders: an eagerly loaded image and an optional caption. */
  datatype PrintImageView = PrintImageView(
    src: string, alt: string, width: int, height: int, loading: string, caption: Option<string>)

  /** `PrintBookImage(props)`: width 600 and height 400 unless given; the
      caption only when non-empty; `standalone` and `zoomable` are ignored. */
  function PrintBookImage(image: Mdx.ImageProps): (v: PrintImageView)
    ensures v.src == image.src && v.alt == image.alt
    ensures v.width == image.width.GetOr(600) && v.height == image.height.GetOr(400)
    ensures v.loading == "eager"
    ensures v.caption.Some? <==> IsTruthy(image.caption)
    ensures v.caption.Some? ==> v.caption == image.caption
  {
    PrintImageView(image.src, image.alt, image.width.GetOr(600), image.height.GetOr(400), "eager",
                   if IsTruthy(image.caption) then image.caption else None)
  }

  /** An image given its own size keeps it; one without prints at 600 by 400. */
  lemma PrintBookImageDefaults(src: string, alt: string, w: int, h: int)
    ensures PrintBookImage(Mdx.ImageProps(src, alt, None, None, None)) ==
            PrintImageView(src, alt, 600, 400, "eager", None)
    ensures PrintBookImage(Mdx.ImageProps(src, alt, Some(""), Some(w), Some(h))) ==
            PrintImageView(src, alt, w, h, "eager", None)
  {
  }

  /** The `a` override of the print edition: the href is kept, nothing opens a new tab. */
  function PrintLink(href: Option<string>, children: string): (r: Mdx.Rendered)
    ensures r.Anchor? && r.href == href && r.children == children
    ensures r.target.None? && r.rel.None?
  {
    Mdx.Anchor(href, None, None, children)
  }

  /** The components table the print edition hands to the MDX renderer. */
  const PrintComponents: map<string, Mdx.Component> := map[
    "BookImage" := Mdx.PrintBookImageComponent,
    "CodeBlock" := Mdx.CodeBlockComponent,
    "RCodeBlock" := Mdx.RCodeBlockComponent,
    "ROutput" := Mdx.ROutputComponent,
    "DownloadLink" := Mdx.DownloadLinkComponent,
    "a" := Mdx.PrintLinkOverride,
    "code" := Mdx.CodeOverride(Mdx.Print),
    "pre" := Mdx.PreOverride
  ]

  /** The print table shares the `pre` and shared-component entries of
      `useMDXComponents`' defaults; it swaps in its own image and link
      components, has no `img` override, and its `code` override differs from
      the default one only in how inline code is styled. */
  lemma PrintComponentsVersusDefaults()
    ensures PrintComponents.Keys == Mdx.Defaults.Keys - {"img"}
    ensures forall k :: k in PrintComponents && k != "a" && k != "BookImage" && k != "code" ==>
              PrintComponents[k] == Mdx.Defaults[k]
    ensures PrintComponents["BookImage"] != Mdx.Defaults["BookImage"]
    ensures PrintComponents["a"] != Mdx.Defaults["a"]
    ensures Mdx.Defaults["code"] == Mdx.CodeOverride(Mdx.Standard)
    ensures PrintComponents["code"] == Mdx.CodeOverride(Mdx.Print)
  {
  }

  /** The two `code` entries, each rendering with its own presentation, make
      the same highlighting decision: a fenced block yields the same
      `CodeBlock` props, and inline code shows the same text, styled apart. */
  lemma PrintCodeMatchesDefaults(className: Option<string>, children: string)
    ensures var printed := Mdx.RenderCode(PrintComponents["code"].presentation, className, children);
            var standard := Mdx.RenderCode(Mdx.Defaults["code"].presentation, className, children);
            (printed.Highlighted? <==> standard.Highlighted?) &&
            (printed.Highlighted? ==> printed == standard) &&
            (printed.InlineCode? ==> printed.code == standard.code && printed.presentation != standard.presentation)
  {
  }
}
