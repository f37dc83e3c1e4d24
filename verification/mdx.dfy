/** The element overrides of src/components/mdx.tsx: how links, images, code
    and `pre` elements of a chapter are rendered, and how the caller's own
    components are merged over the defaults. */
module Mdx {
  import opened Wrappers
  import opened Text
  import CodeBlock

  /** Whose `code` override renders an element: the default table built
      here, or the print edition's own table. The two differ only in the
      styling of inline code. */
  datatype Presentation = Standard | Print

  /** The props an image element carries. An omitted prop is `None`. */
  datatype ImageProps = ImageProps(
    src: string,
    alt: string,
    caption: Option<string>,
    width: Option<int>,
    height: Option<int>)

  /** What an override renders, reduced to the values it computes. */
  datatype Rendered =
    | Anchor(href: Option<string>, target: Option<string>, rel: Option<string>, children: string)
    | BookImageView(image: ImageProps)
    | Highlighted(block: CodeBlock.CodeBlockProps)
    | InlineCode(presentation: Presentation, code: string)
    | Fragment(children: string)

  /** The links that open in a new tab: those whose href starts with "http". */
  predicate IsExternal(href: Option<string>) {
    href.Some? && StartsWith(href.value, "http")
  }

  /** The `a` override: external links get `target="_blank"` and
      `rel="noopener noreferrer"`, all others neither. */
  function RenderLink(href: Option<string>, children: string): (r: Rendered)
    ensures r.Anchor? && r.href == href && r.children == children
    ensures r.target.Some? <==> IsExternal(href)
    ensures r.rel.Some? <==> IsExternal(href)
    ensures r.target.Some? ==> r.target.value == "_blank"
    ensures r.rel.Some? ==> r.rel.value == "noopener noreferrer"
  {
    if IsExternal(href) then Anchor(href, Some("_blank"), Some("noopener noreferrer"), children)
    else Anchor(href, None, None, children)
  }

  /** Absolute web addresses open in a new tab; site-relative paths, anchors and
      missing hrefs stay in the reader. */
  lemma LinkTargets(href: string)
    ensures (StartsWith(href, "https://") || StartsWith(href, "http://")) ==>
              RenderLink(Some(href), "").target == Some("_blank")
    ensures |href| > 0 && (href[0] == '/' || href[0] == '#') ==>
              RenderLink(Some(href), "").target.None?
    ensures RenderLink(None, "").target.None? && RenderLink(None, "").rel.None?
  {
    if StartsWith(href, "https://") {
      assert href[..4] == href[..8][..4];
    } else if StartsWith(href, "http://") {
      assert href[..4] == href[..7][..4];
    }
    if |href| > 0 && (href[0] == '/' || href[0] == '#') && |href| >= 4 {
      assert href[..4][0] == href[0];
    }
  }

  /** The characters `\w` matches. */
  predicate IsWordChar(c: char) {
    ('a' <= c <= 'z') || ('A' <= c <= 'Z') || ('0' <= c <= '9') || c == '_'
  }

  /** `/language-(\w+)/` matches at position `i`: the prefix followed by at
      least one word character. */
  predicate TagAt(s: string, i: int) {
    OccursAt(s, CodeBlock.ClassPrefix, i) && i + |CodeBlock.ClassPrefix| < |s|
    && IsWordChar(s[i + |CodeBlock.ClassPrefix|])
  }

  /** A match after the first position is a match in the tail. */
  lemma TagAtTail(s: string)
    requires |s| > 0
    ensures forall k :: 1 <= k ==> (TagAt(s, k) <==> TagAt(s[1..], k - 1))
  {
    OccursAtTail(s, CodeBlock.ClassPrefix);
  }

  /** The index of the first match of `/language-(\w+)/`, or -1. */
  function TagIndex(s: string): (i: int)
    ensures i == -1 || TagAt(s, i)
    ensures forall k :: 0 <= k && (i < 0 || k < i) ==> !TagAt(s, k)
    decreases |s|
  {
    if |s| == 0 then -1
    else if TagAt(s, 0) then 0
    else
      var j := TagIndex(s[1..]);
      TagAtTail(s);
      if j < 0 then -1 else j + 1
  }

  /** `/language-(\w+)/.exec(className || '')` succeeds. */
  predicate HasLanguageTag(className: Option<string>) {
    TagIndex(className.GetOr("")) >= 0
  }

  /** The regular expression matches exactly when some position holds the
      prefix followed by a word character. */
  lemma HasLanguageTagIff(className: Option<string>)
    ensures HasLanguageTag(className) <==> exists i :: TagAt(className.GetOr(""), i)
  {
    var s := className.GetOr("");
    if TagIndex(s) >= 0 {
      assert TagAt(s, TagIndex(s));
    }
  }

  /** `String(children).replace(/\n$/, '')`: at most one final line feed is removed. */
  function StripTrailingNewline(s: string): (r: string)
    ensures EndsWith(s, "\n") ==> r + "\n" == s
    ensures !EndsWith(s, "\n") ==> r == s
  {
    if EndsWith(s, "\n") then s[..|s| - 1] else s
  }

  /** Stripping undoes appending one line feed, and only one. */
  lemma StripTrailingNewlineInverse(t: string)
    ensures StripTrailingNewline(t + "\n") == t
    ensures StripTrailingNewline(t + "\n\n") == t + "\n"
  {
    assert EndsWith(t + "\n", "\n");
    assert EndsWith(t + "\n\n", "\n");
    assert (t + "\n\n")[..|t| + 1] == t + "\n";
  }

  /** The `code` override (in this table and in print alike): a language-tagged
      element becomes a highlighted `CodeBlock` without its final line feed;
      anything else stays inline code with its children untouched. */
  function RenderCode(presentation: Presentation, className: Option<string>, children: string): (r: Rendered)
    ensures r.Highlighted? <==> HasLanguageTag(className)
    ensures r.Highlighted? ==>
              r.block == CodeBlock.CodeBlockProps(StripTrailingNewline(children), className, None, None, None)
    ensures r.InlineCode? <==> !HasLanguageTag(className)
    ensures r.InlineCode? ==> r.presentation == presentation && r.code == children
  {
    if HasLanguageTag(className) then
      Highlighted(CodeBlock.CodeBlockProps(StripTrailingNewline(children), className, None, None, None))
    else InlineCode(presentation, children)
  }

  /** A fenced block tagged with a language name is highlighted as that
      language, shows exactly the fence's text (trimmed) and renders the same
      under this table's override and under the print edition's. */
  lemma FencedCodeHighlighted(presentation: Presentation, lang: string, body: string)
    requires |lang| > 0 && IsWordChar(lang[0])
    ensures RenderCode(presentation, Some(CodeBlock.ClassPrefix + lang), body + "\n")
         == RenderCode(Standard, Some(CodeBlock.ClassPrefix + lang), body + "\n")
    ensures RenderCode(presentation, Some(CodeBlock.ClassPrefix + lang), body + "\n").Highlighted?
    ensures CodeBlock.Render(RenderCode(presentation, Some(CodeBlock.ClassPrefix + lang), body + "\n").block)
         == CodeBlock.CodeBlockView(None, CodeBlock.Badge(CodeBlock.MappedLanguage(lang)),
                                    CodeBlock.MappedLanguage(lang), true, Trim(body), Trim(body))
  {
    var cls := CodeBlock.ClassPrefix + lang;
    assert OccursAt(cls, CodeBlock.ClassPrefix, 0) by {
      assert cls[..|CodeBlock.ClassPrefix|] == CodeBlock.ClassPrefix;
    }
    assert TagAt(cls, 0);
    StripTrailingNewlineInverse(body);
    CodeBlock.LangFromClassName(None, lang);
  }

  /** `pre` renders its children alone, so a highlighted block is not nested
      in a second preformatted box. */
  function RenderPre(children: string): (r: Rendered)
    ensures r.Fragment? && r.children == children
  {
    Fragment(children)
  }

  /** `img` hands all its props to `BookImage`. */
  function RenderImg(image: ImageProps): (r: Rendered)
    ensures r.BookImageView? && r.image == image
  {
    BookImageView(image)
  }

  /** The entries of a components table: the overrides above, the shared
      components, and whatever a caller supplies. */
  datatype Component =
    | LinkOverride
    | ImgOverride
    | BookImageComponent
    | CodeOverride(presentation: Presentation)
    | PreOverride
    | CodeBlockComponent
    | RCodeBlockComponent
    | ROutputComponent
    | DownloadLinkComponent
    | PrintLinkOverride
    | PrintBookImageComponent
    | Supplied(name: string)

  /** The table `useMDXComponents` builds before the caller's entries. */
  const Defaults: map<string, Component> := map[
    "a" := LinkOverride,
    "img" := ImgOverride,
    "BookImage" := BookImageComponent,
    "code" := CodeOverride(Standard),
    "pre" := PreOverride,
    "CodeBlock" := CodeBlockComponent,
    "RCodeBlock" := RCodeBlockComponent,
    "ROutput" := ROutputComponent,
    "DownloadLink" := DownloadLinkComponent
  ]

  /** `useMDXComponents(components)`: the defaults, with the caller's entries
      spread last so that they win. */
  function UseMdxComponents(components: map<string, Component>): (table: map<string, Component>)
    ensures table.Keys == Defaults.Keys + components.Keys
    ensures forall k :: k in components ==> table[k] == components[k]
    ensures forall k :: k in Defaults && k !in components ==> table[k] == Defaults[k]
  {
    Defaults + components
  }

  /** With nothing supplied the defaults stand; supplying an element replaces
      only that element's entry. */
  lemma UseMdxComponentsOverride(name: string, c: Component)
    ensures UseMdxComponents(map[]) == Defaults
    ensures UseMdxComponents(map[name := c])[name] == c
    ensures forall k :: k in Defaults && k != name ==> UseMdxComponents(map[name := c])[k] == Defaults[k]
  {
    assert UseMdxComponents(map[]) == Defaults;
  }
}
