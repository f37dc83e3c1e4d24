/** Language resolution and the rendered view of src/components/CodeBlock.tsx.
    The copy button's `copied` flag, the dark-mode observer and the syntax
    highlighter itself are left out; only the values handed to them are modelled. */
module CodeBlock {
  import opened Wrappers
  import opened Text
  import JsObject

  /** The props of `CodeBlock`. A prop the caller omits is `None`. */
  datatype CodeBlockProps = CodeBlockProps(
    children: string,
    className: Option<string>,
    language: Option<string>,
    showLineNumbers: Option<bool>,
    title: Option<string>)

  /** What `CodeBlock` renders: the title bar (if any), the language badge, the
      language handed to the highlighter, the line-number switch, the
      highlighted text and the text the copy button writes to the clipboard. */
  datatype CodeBlockView = CodeBlockView(
    titleBar: Option<string>,
    badge: string,
    language: string,
    lineNumbers: bool,
    text: string,
    copyText: string)

  const ClassPrefix: string := "language-"

  /** `language || className.replace(/language-/, '') || 'text'` */
  function Lang(language: Option<string>, className: string): (lang: string)
    ensures lang != ""
    ensures IsTruthy(language) ==> lang == language.value
    ensures !IsTruthy(language) ==>
              lang == (if RemoveFirst(className, ClassPrefix) != "" then RemoveFirst(className, ClassPrefix) else "text")
  {
    if IsTruthy(language) then language.value
    else
      var stripped := RemoveFirst(className, ClassPrefix);
      if stripped != "" then stripped else "text"
  }

  /** A class `language-x` names the language `x` when no `language` prop is given. */
  lemma LangFromClassName(language: Option<string>, x: string)
    requires !IsTruthy(language) && x != ""
    ensures Lang(language, ClassPrefix + x) == x
  {
    var cls := ClassPrefix + x;
    assert StartsWith(cls, ClassPrefix);
    assert IndexOf(cls, ClassPrefix) == 0;
    assert cls[|ClassPrefix|..] == x;
  }

  /** `languageMap`: the aliases the highlighter understands. */
  const LanguageMap: map<string, string> := map[
    "r" := "r", "R" := "r",
    "python" := "python", "py" := "python",
    "javascript" := "javascript", "js" := "javascript",
    "typescript" := "typescript", "ts" := "typescript",
    "sql" := "sql",
    "bash" := "bash", "shell" := "bash",
    "json" := "json",
    "yaml" := "yaml", "yml" := "yaml",
    "csv" := "csv"
  ]

  /** The languages a code block can be highlighted as. */
  const KnownLanguages: set<string> :=
    {"r", "python", "javascript", "typescript", "sql", "bash", "json", "yaml", "csv", "text"}

  /** `languageMap[lang.toLowerCase()] || 'text'`, with the lookup restricted
      to the table's own entries, as the table evidently intends. */
  function MappedLanguage(lang: string): (mapped: string)
    ensures mapped in KnownLanguages
    ensures ToLower(lang) !in LanguageMap ==> mapped == "text"
  {
    var key := ToLower(lang);
    if key in LanguageMap then LanguageMap[key] else "text"
  }

  /** The lookup ignores case, and the aliases resolve to their languages. */
  lemma MappedLanguageAliases(lang: string)
    ensures MappedLanguage(lang) == MappedLanguage(ToLower(lang))
    ensures ToLower(lang) == "py" ==> MappedLanguage(lang) == "python"
    ensures ToLower(lang) == "js" ==> MappedLanguage(lang) == "javascript"
    ensures ToLower(lang) == "ts" ==> MappedLanguage(lang) == "typescript"
    ensures ToLower(lang) == "shell" ==> MappedLanguage(lang) == "bash"
    ensures ToLower(lang) == "yml" ==> MappedLanguage(lang) == "yaml"
  {
    ToLowerIdempotent(lang);
  }

  /** What the source's lookup yields: a language name, or an inherited
      member of `Object.prototype`, which is truthy and so is kept. */
  datatype LookupResult = Language(name: string) | PrototypeMember(member: string)

  /** `languageMap[lang.toLowerCase()] || 'text'` as written: the lookup also
      finds the members every object literal inherits. */
  function MappedLanguageAsWritten(lang: string): (r: LookupResult)
    ensures r.Language? ==> r.name in KnownLanguages
  {
    match JsObject.Get(LanguageMap, ToLower(lang))
    case Own(v) => Language(v)
    case Inherited(m) => PrototypeMember(m)
    case Missing => Language("text")
  }

  /** A code fence tagged `constructor` does not resolve to a language: the
      highlighter and the badge receive the `Object` constructor function. */
  lemma ConstructorTagEscapesLanguageMap()
    ensures MappedLanguageAsWritten(Lang(None, "language-constructor")) == PrototypeMember("constructor")
    ensures MappedLanguage(Lang(None, "language-constructor")) == "text"
  {
    assert Lang(None, "language-constructor") == "constructor" by {
      assert ClassPrefix + "constructor" == "language-constructor";
      LangFromClassName(None, "constructor");
    }
    ConstructorIsLowerCase();
    ConstructorIsInherited();
  }

  lemma ConstructorIsLowerCase()
    ensures ToLower("constructor") == "constructor"
  {
    var key: string := "constructor";
    assert key == ['c', 'o', 'n', 's', 't', 'r', 'u', 'c', 't', 'o', 'r'];
    ToLowerOfLower(key);
  }

  lemma ConstructorIsInherited()
    ensures JsObject.Get(LanguageMap, "constructor") == JsObject.Inherited("constructor")
  {
    assert "constructor" !in LanguageMap;
    assert JsObject.IsInherited("constructor");
  }

  /** The two lookups agree on every language name that is not an inherited member. */
  lemma AsWrittenAgreesOffPrototype(lang: string)
    requires !JsObject.IsInherited(ToLower(lang))
    ensures MappedLanguageAsWritten(lang) == Language(MappedLanguage(lang))
  {
  }

  /** The badge text: "R" for R, the resolved name otherwise. */
  function Badge(mapped: string): (badge: string)
    ensures mapped == "r" ==> badge == "R"
    ensures mapped != "r" ==> badge == mapped
  {
    if mapped == "r" then "R" else mapped
  }

  /** `CodeBlock(props)` */
  function Render(props: CodeBlockProps): (v: CodeBlockView)
    ensures v.language in KnownLanguages
    ensures v.text == v.copyText == Trim(props.children)
    ensures v.language == MappedLanguage(Lang(props.language, props.className.GetOr("")))
    ensures v.titleBar.Some? <==> IsTruthy(props.title)
    ensures IsTruthy(props.title) ==> v.titleBar == props.title
    ensures v.lineNumbers == props.showLineNumbers.GetOr(true)
    ensures v.badge == Badge(v.language)
  {
    var mapped := MappedLanguage(Lang(props.language, props.className.GetOr("")));
    CodeBlockView(
      if IsTruthy(props.title) then Some(props.title.value) else None,
      Badge(mapped),
      mapped,
      props.showLineNumbers.GetOr(true),
      Trim(props.children),
      Trim(props.children))
  }

  /** The displayed text and the copied text carry no surrounding white space
      and are stable under a second trim. */
  lemma RenderedTextIsTrimmed(props: CodeBlockProps)
    ensures |Render(props).text| > 0 ==>
              !IsJsSpace(Render(props).text[0]) && !IsJsSpace(Render(props).text[|Render(props).text| - 1])
    ensures Trim(Render(props).copyText) == Render(props).copyText
  {
    TrimIsCore(props.children);
    TrimIdempotent(props.children);
  }

  /** `RCodeBlock(props)`: the props it hands to `CodeBlock`. */
  function RCodeBlock(children: string, title: Option<string>, showLineNumbers: Option<bool>): (p: CodeBlockProps)
    ensures p.language == Some("r") && p.children == children
    ensures p.title == Some(title.GetOr("R Code"))
    ensures p.showLineNumbers == Some(showLineNumbers.GetOr(true))
  {
    CodeBlockProps(children, None, Some("r"), Some(showLineNumbers.GetOr(true)), Some(title.GetOr("R Code")))
  }

  /** An R block is always highlighted as R with an "R" badge, titled
      "R Code" with line numbers unless the caller says otherwise. */
  lemma RCodeBlockRendersR(children: string, title: Option<string>, showLineNumbers: Option<bool>)
    ensures Render(RCodeBlock(children, title, showLineNumbers)).language == "r"
    ensures Render(RCodeBlock(children, title, showLineNumbers)).badge == "R"
    ensures title.None? ==> Render(RCodeBlock(children, title, showLineNumbers)).titleBar == Some("R Code")
    ensures showLineNumbers.None? ==> Render(RCodeBlock(children, title, showLineNumbers)).lineNumbers
  {
    var key := ToLower("r");
    assert key == "r" by {
      assert |key| == 1 && key[0] == 'r';
    }
    assert LanguageMap[key] == "r";
  }
}
