/** The sidebar of src/components/TableOfContents.tsx: chapters grouped by
    part, the search filter over the groups, and the link and highlight of
    each item. Scrolling the active item into view is left out. */
module TableOfContents {
  import opened Wrappers
  import opened Text
  import opened Seqs
  import opened Content
  import JsObject

  /** A group of the sidebar: part label to chapters. Key order is not modelled. */
  type Groups = map<string, seq<ChapterMetadata>>

  /** `chapter.part || 'Other'` */
  function PartKey(c: ChapterMetadata): (key: string)
    ensures IsTruthy(c.part) ==> key == c.part.value
    ensures !IsTruthy(c.part) ==> key == "Other"
    ensures key != ""
  {
    if IsTruthy(c.part) then c.part.value else "Other"
  }

  /** Selects the chapters filed under `key`. */
  function HasKey(key: string): ChapterMetadata -> bool {
    (c: ChapterMetadata) => PartKey(c) == key
  }

  /** The keys the chapters are filed under. */
  function PartKeys(chapters: seq<ChapterMetadata>): set<string> {
    set c | c in chapters :: PartKey(c)
  }

  /** The grouping `reduce` describes: each key holds its chapters in input order. */
  function Grouped(chapters: seq<ChapterMetadata>): (g: Groups)
    ensures g.Keys == PartKeys(chapters)
    ensures forall key, i :: key in g && 0 <= i < |g[key]| ==> PartKey(g[key][i]) == key
  {
    map key | key in PartKeys(chapters) :: Filter(chapters, HasKey(key))
  }

  /** Appending a chapter adds its key to the keys. */
  lemma PartKeysSnoc(p: seq<ChapterMetadata>, c: ChapterMetadata)
    ensures PartKeys(p + [c]) == PartKeys(p) + {PartKey(c)}
  {
    forall k | k in PartKeys(p + [c]) ensures k in PartKeys(p) + {PartKey(c)} {
      var x :| x in p + [c] && PartKey(x) == k;
      if x != c {
        assert x in p;
      }
    }
    forall k | k in PartKeys(p) ensures k in PartKeys(p + [c]) {
      var x :| x in p && PartKey(x) == k;
      assert x in p + [c];
    }
    assert c in p + [c];
  }

  /** `if (!acc[part]) acc[part] = []; acc[part].push(chapter)` on a map: the
      chapter is appended to the group of its key, created if needed, and
      every other group is left as it was. */
  function AddChapter(groups: Groups, c: ChapterMetadata): (added: Groups)
    ensures added.Keys == groups.Keys + {PartKey(c)}
    ensures PartKey(c) in groups ==> added[PartKey(c)] == groups[PartKey(c)] + [c]
    ensures PartKey(c) !in groups ==> added[PartKey(c)] == [c]
    ensures forall k :: k in groups && k != PartKey(c) ==> added[k] == groups[k]
  {
    var key := PartKey(c);
    groups[key := if key in groups then groups[key] + [c] else [c]]
  }

  /** The `reduce` itself: the chapters added one after the other. */
  function GroupFold(chapters: seq<ChapterMetadata>): Groups
    decreases |chapters|
  {
    if chapters == [] then map[]
    else AddChapter(GroupFold(chapters[..|chapters| - 1]), chapters[|chapters| - 1])
  }

  /** Appending a chapter to the input adds it to the grouping. */
  lemma GroupedSnoc(p: seq<ChapterMetadata>, c: ChapterMetadata)
    ensures Grouped(p + [c]) == AddChapter(Grouped(p), c)
  {
    var lhs, rhs := Grouped(p + [c]), AddChapter(Grouped(p), c);
    assert lhs.Keys == rhs.Keys by {
      PartKeysSnoc(p, c);
    }
    forall k | k in lhs.Keys ensures lhs[k] == rhs[k] {
      GroupedSnocAt(p, c, k);
    }
  }

  /** The group of one key after appending a chapter. */
  lemma GroupedSnocAt(p: seq<ChapterMetadata>, c: ChapterMetadata, k: string)
    requires k in PartKeys(p) + {PartKey(c)}
    ensures k in Grouped(p + [c]) && k in AddChapter(Grouped(p), c)
    ensures Grouped(p + [c])[k] == AddChapter(Grouped(p), c)[k]
  {
    PartKeysSnoc(p, c);
    var g := Grouped(p);
    var mine := Filter([c], HasKey(k));
    assert Grouped(p + [c])[k] == Filter(p, HasKey(k)) + mine by {
      FilterAppend(p, [c], HasKey(k));
    }
    assert mine == if PartKey(c) == k then [c] else [];
    if k in g {
      assert g[k] == Filter(p, HasKey(k));
      if k == PartKey(c) {
        assert AddChapter(g, c)[k] == g[k] + mine;
      } else {
        assert AddChapter(g, c)[k] == g[k] + mine;
      }
    } else {
      assert Filter(p, HasKey(k)) == [] by {
        assert forall i :: 0 <= i < |p| ==> p[i] in p && !HasKey(k)(p[i]);
        FilterNone(p, HasKey(k));
      }
      assert AddChapter(g, c)[k] == [] + mine;
    }
  }

  /** Folding the chapters one at a time builds the grouping. */
  lemma {:induction false} GroupFoldIsGrouped(chapters: seq<ChapterMetadata>)
    ensures GroupFold(chapters) == Grouped(chapters)
    decreases |chapters|
  {
    if chapters == [] {
      assert PartKeys(chapters) == {};
      assert Grouped(chapters).Keys == {};
    } else {
      var p, c := chapters[..|chapters| - 1], chapters[|chapters| - 1];
      calc {
        GroupFold(chapters);
        AddChapter(GroupFold(p), c);
        { GroupFoldIsGrouped(p); }
        AddChapter(Grouped(p), c);
        { GroupedSnoc(p, c); }
        Grouped(p + [c]);
        { assert chapters == p + [c]; }
        Grouped(chapters);
      }
    }
  }

  /** Creating the group when it is missing and then pushing onto it is
      one AddChapter step. */
  lemma PushIsAddChapter(groups: Groups, c: ChapterMetadata)
    ensures var key := PartKey(c);
            var created := if key !in groups then groups[key := []] else groups;
            created[key := created[key] + [c]] == AddChapter(groups, c)
  {
    assert [] + [c] == [c];
  }

  /** One more chapter of the input is one more step of the fold. */
  lemma GroupFoldExtends(chapters: seq<ChapterMetadata>, i: nat)
    requires i < |chapters|
    ensures GroupFold(chapters[..i + 1]) == AddChapter(GroupFold(chapters[..i]), chapters[i])
  {
    assert chapters[..i + 1][..i] == chapters[..i];
  }

  /** The grouping `reduce` over `chapters`, with `acc[part] = []` and
      `acc[part].push(chapter)` on a map. */
  method GroupChapters(chapters: seq<ChapterMetadata>) returns (groups: Groups)
    ensures groups == Grouped(chapters)
  {
    groups := map[];
    var i := 0;
    while i < |chapters|
      invariant 0 <= i <= |chapters|
      invariant groups == GroupFold(chapters[..i])
    {
      ghost var before := groups;
      var chapter := chapters[i];
      var part := PartKey(chapter);
      if part !in groups {
        groups := groups[part := []];
      }
      groups := groups[part := groups[part] + [chapter]];
      PushIsAddChapter(before, chapter);
      GroupFoldExtends(chapters, i);
      i := i + 1;
    }
    assert chapters[..|chapters|] == chapters;
    GroupFoldIsGrouped(chapters);
  }

  /** Every chapter sits in exactly one group, the one of its part (or
      "Other"); each group keeps its chapters in input order and is never empty. */
  lemma GroupedSpec(chapters: seq<ChapterMetadata>)
    ensures forall c :: c in chapters ==> PartKey(c) in Grouped(chapters) && c in Grouped(chapters)[PartKey(c)]
    ensures forall k, c :: k in Grouped(chapters) && c in Grouped(chapters)[k] ==> c in chapters && PartKey(c) == k
    ensures forall k :: k in Grouped(chapters) ==> IsSubsequence(Grouped(chapters)[k], chapters)
    ensures forall k :: k in Grouped(chapters) ==> |Grouped(chapters)[k]| > 0
  {
    var g := Grouped(chapters);
    forall c | c in chapters ensures PartKey(c) in g && c in g[PartKey(c)] {
      FilterMembers(chapters, HasKey(PartKey(c)));
    }
    forall k, c | k in g && c in g[k] ensures c in chapters && PartKey(c) == k {
      FilterMembers(chapters, HasKey(k));
    }
    forall k | k in g ensures IsSubsequence(g[k], chapters) && |g[k]| > 0 {
      FilterIsSubsequence(chapters, HasKey(k));
      var c :| c in chapters && PartKey(c) == k;
      FilterMembers(chapters, HasKey(k));
    }
  }

  /** The grouping `reduce` as written: `acc[part]` also finds the members
      every object inherits, and for those `acc[part].push` throws a TypeError
      (modelled as `None`). */
  function GroupAsWritten(chapters: seq<ChapterMetadata>): (r: Option<Groups>)
    ensures r.Some? ==> forall key :: key in r.value ==> |r.value[key]| > 0
    ensures r.Some? ==> forall key, i :: key in r.value && 0 <= i < |r.value[key]| ==> PartKey(r.value[key][i]) == key
    decreases |chapters|
  {
    if chapters == [] then Some(map[])
    else
      match GroupAsWritten(chapters[..|chapters| - 1])
      case None => None
      case Some(acc) =>
        var c := chapters[|chapters| - 1];
        var part := PartKey(c);
        match JsObject.Get(acc, part)
        case Inherited(_) => None
        case Own(v) => Some(acc[part := v + [c]])
        case Missing => Some(acc[part := [c]])
  }

  /** As long as no part is named after an inherited member, the source's
      grouping is the intended one. */
  lemma GroupAsWrittenAgrees(chapters: seq<ChapterMetadata>)
    requires forall c :: c in chapters ==> !JsObject.IsInherited(PartKey(c))
    ensures GroupAsWritten(chapters) == Some(Grouped(chapters))
  {
    GroupAsWrittenFolds(chapters);
    GroupFoldIsGrouped(chapters);
  }

  /** Off the inherited names, each step of the source's `reduce` adds the chapter. */
  lemma {:induction false} GroupAsWrittenFolds(chapters: seq<ChapterMetadata>)
    requires forall c :: c in chapters ==> !JsObject.IsInherited(PartKey(c))
    ensures GroupAsWritten(chapters) == Some(GroupFold(chapters))
    decreases |chapters|
  {
    if chapters != [] {
      var p, c := chapters[..|chapters| - 1], chapters[|chapters| - 1];
      assert GroupAsWritten(p) == Some(GroupFold(p)) by {
        assert forall x :: x in p ==> x in chapters;
        GroupAsWrittenFolds(p);
      }
      assert !JsObject.IsInherited(PartKey(c)) by {
        assert c in chapters;
      }
    }
  }

  /** A chapter filed under the part "constructor" makes the sidebar throw. */
  lemma ConstructorPartThrows(c: ChapterMetadata)
    requires c.part == Some("constructor")
    ensures GroupAsWritten([c]) == None
    ensures Grouped([c]) == map["constructor" := [c]]
  {
    assert [c][..0] == [];
    assert PartKey(c) == "constructor";
    PartKeysSnoc([], c);
    assert [] + [c] == [c];
    assert PartKeys([c]) == {"constructor"};
    assert Filter([c], HasKey("constructor")) == [c];
  }

  /** The search: the lower-cased query occurs in the lower-cased title,
      description or one of the tags; a missing field never matches. */
  predicate Matches(c: ChapterMetadata, query: string): (b: bool)
    ensures b ==> c.title.Some? || c.description.Some? || c.tags.Some?
  {
    var q := ToLower(query);
    (c.title.Some? && Contains(ToLower(c.title.value), q))
    || (c.description.Some? && Contains(ToLower(c.description.value), q))
    || (c.tags.Some? && exists t :: t in c.tags.value && Contains(ToLower(t), q))
  }

  function MatchesQuery(query: string): ChapterMetadata -> bool {
    (c: ChapterMetadata) => Matches(c, query)
  }

  /** The search ignores the case of the query. */
  lemma MatchesIgnoresCase(c: ChapterMetadata, query: string)
    ensures Matches(c, query) == Matches(c, ToLower(query))
  {
    ToLowerIdempotent(query);
  }

  /** The empty query keeps every chapter with a title, a description or a tag. */
  lemma EmptyQueryKeeps(c: ChapterMetadata)
    ensures Matches(c, "") <==> c.title.Some? || c.description.Some? || (c.tags.Some? && |c.tags.value| > 0)
  {
    assert ToLower("") == "";
    if c.title.Some? {
      ContainsEmpty(ToLower(c.title.value));
    }
    if c.description.Some? {
      ContainsEmpty(ToLower(c.description.value));
    }
    if c.tags.Some? && |c.tags.value| > 0 {
      ContainsEmpty(ToLower(c.tags.value[0]));
      assert c.tags.value[0] in c.tags.value;
    }
  }

  /** The `filteredChapters` reduce: each group keeps its matching chapters,
      and a group with none is dropped. */
  function FilterGroups(groups: Groups, query: string): (filtered: Groups)
    ensures filtered.Keys <= groups.Keys
    ensures forall k :: k in groups ==> (k in filtered <==> |Filter(groups[k], MatchesQuery(query))| > 0)
    ensures forall k :: k in filtered ==> filtered[k] == Filter(groups[k], MatchesQuery(query))
  {
    map k | k in groups && |Filter(groups[k], MatchesQuery(query))| > 0 :: Filter(groups[k], MatchesQuery(query))
  }

  /** A chapter is listed after filtering iff it matches and was listed before;
      every listed group is a non-empty subsequence of its unfiltered group. */
  lemma FilterGroupsSpec(groups: Groups, query: string)
    ensures forall k, c :: k in FilterGroups(groups, query) && c in FilterGroups(groups, query)[k] ==>
              c in groups[k] && Matches(c, query)
    ensures forall k, c :: k in groups && c in groups[k] && Matches(c, query) ==>
              k in FilterGroups(groups, query) && c in FilterGroups(groups, query)[k]
    ensures forall k :: k in FilterGroups(groups, query) ==>
              |FilterGroups(groups, query)[k]| > 0 && IsSubsequence(FilterGroups(groups, query)[k], groups[k])
  {
    var f := FilterGroups(groups, query);
    forall k, c | k in f && c in f[k] ensures c in groups[k] && Matches(c, query) {
      FilterMembers(groups[k], MatchesQuery(query));
    }
    forall k, c | k in groups && c in groups[k] && Matches(c, query)
      ensures k in f && c in f[k]
    {
      FilterMembers(groups[k], MatchesQuery(query));
    }
    forall k | k in f ensures |f[k]| > 0 && IsSubsequence(f[k], groups[k]) {
      FilterIsSubsequence(groups[k], MatchesQuery(query));
    }
  }

  /** The sidebar for a catalog and a query: a chapter is shown iff it
      matches, under its own part. */
  lemma SidebarShowsMatches(chapters: seq<ChapterMetadata>, query: string, c: ChapterMetadata)
    requires c in chapters
    ensures Matches(c, query) <==>
              PartKey(c) in FilterGroups(Grouped(chapters), query) &&
              c in FilterGroups(Grouped(chapters), query)[PartKey(c)]
  {
    GroupedSpec(chapters);
    FilterGroupsSpec(Grouped(chapters), query);
  }

  /** One item of the sidebar. */
  datatype Item = Item(href: string, title: Option<string>, active: bool)

  /** `/book/${chapter.slug}` */
  function Href(c: ChapterMetadata): (href: string)
    ensures StartsWith(href, "/book/") && href[|"/book/"|..] == c.slug
  {
    "/book/" + c.slug
  }

  /** The item of a chapter: active iff it is the page being read. */
  function ItemOf(c: ChapterMetadata, currentSlug: Option<string>): (item: Item)
    ensures item.active <==> currentSlug == Some(c.slug)
    ensures item.href == Href(c) && item.title == c.title
  {
    Item(Href(c), c.title, currentSlug == Some(c.slug))
  }

  /** Two chapters with different slugs have different links, and on a page
      with no current slug no item is active. */
  lemma ItemsDistinct(a: ChapterMetadata, b: ChapterMetadata, currentSlug: Option<string>)
    ensures a.slug != b.slug ==> Href(a) != Href(b)
    ensures a.slug != b.slug ==> !(ItemOf(a, currentSlug).active && ItemOf(b, currentSlug).active)
    ensures !ItemOf(a, None).active
  {
  }
}
