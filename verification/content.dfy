/** The chapter catalog of lib/content.ts. The content directory, whose
    files the source reads with `fs` and parses with gray-matter, is an input:
    a sequence of files, each with its name, its parsed frontmatter and its body. */
module Content {
  import opened Wrappers
  import opened Text
  import opened Seqs

  /** The frontmatter fields the core reads. A field the file leaves out is `None`. */
  datatype Frontmatter = Frontmatter(
    title: Option<string>,
    description: Option<string>,
    order: int,
    part: Option<string>,
    tags: Option<seq<string>>,
    slug: Option<string>)

  /** `ChapterMetadata`: the frontmatter with the slug fixed by the file name. */
  datatype ChapterMetadata = ChapterMetadata(
    title: Option<string>,
    description: Option<string>,
    order: int,
    part: Option<string>,
    tags: Option<seq<string>>,
    slug: string)

  /** `Chapter`: metadata plus the MDX body. */
  datatype Chapter = Chapter(metadata: ChapterMetadata, content: string)

  /** One file of the content directory, in `readdirSync` order. */
  datatype ContentFile = ContentFile(name: string, data: Frontmatter, content: string)

  const Extension: string := ".mdx"

  /** `name.replace(/\.mdx$/, '')`: a final `.mdx` is dropped, nothing else. */
  function StripExtension(name: string): (slug: string)
    ensures EndsWith(name, Extension) ==> slug + Extension == name
    ensures !EndsWith(name, Extension) ==> slug == name
  {
    if EndsWith(name, Extension) then name[..|name| - |Extension|] else name
  }

  /** `{ ...data, slug }`: every frontmatter field is kept, and the given slug
      replaces any `slug` the frontmatter declared. */
  function WithSlug(data: Frontmatter, slug: string): (m: ChapterMetadata)
    ensures m.slug == slug
    ensures m.title == data.title && m.description == data.description && m.order == data.order
    ensures m.part == data.part && m.tags == data.tags
  {
    ChapterMetadata(data.title, data.description, data.order, data.part, data.tags, slug)
  }

  predicate IsMdx(f: ContentFile) {
    EndsWith(f.name, Extension)
  }

  /** The record one chapter file yields. */
  function RecordOf(f: ContentFile): ChapterMetadata {
    WithSlug(f.data, StripExtension(f.name))
  }

  /** `.map(...)` over the chapter files. */
  function MapRecords(fs: seq<ContentFile>): (rs: seq<ChapterMetadata>)
    ensures |rs| == |fs|
  {
    seq(|fs|, i requires 0 <= i < |fs| => RecordOf(fs[i]))
  }

  /** `fileNames.filter(name => name.endsWith('.mdx')).map(...)`, before sorting. */
  function Records(files: seq<ContentFile>): (rs: seq<ChapterMetadata>)
    ensures |rs| == |Filter(files, IsMdx)|
  {
    MapRecords(Filter(files, IsMdx))
  }

  /** Exactly the `.mdx` files yield records, one each; each record is built
      from such a file, and its slug is that file's name without the extension. */
  lemma RecordsSpec(files: seq<ContentFile>)
    ensures |Records(files)| == |Filter(files, IsMdx)|
    ensures forall c :: c in Records(files) ==>
              exists f :: f in files && IsMdx(f) && c == RecordOf(f) && c.slug + Extension == f.name
    ensures forall f :: f in files && IsMdx(f) ==> RecordOf(f) in Records(files)
  {
    var fs := Filter(files, IsMdx);
    FilterMembers(files, IsMdx);
    forall c | c in Records(files)
      ensures exists f :: f in files && IsMdx(f) && c == RecordOf(f) && c.slug + Extension == f.name
    {
      var i :| 0 <= i < |fs| && Records(files)[i] == c;
      assert fs[i] in fs;
    }
    forall f | f in files && IsMdx(f) ensures RecordOf(f) in Records(files) {
      var i :| 0 <= i < |fs| && fs[i] == f;
      assert Records(files)[i] == RecordOf(f);
    }
  }

  /** Non-decreasing by `order`. */
  ghost predicate SortedByOrder(s: seq<ChapterMetadata>) {
    forall i, j :: 0 <= i < j < |s| ==> s[i].order <= s[j].order
  }

  /** Places `c` before the first element whose order is not smaller, hence
      before every element with the same order. */
  function Insert(c: ChapterMetadata, sorted: seq<ChapterMetadata>): (r: seq<ChapterMetadata>)
    ensures |r| == |sorted| + 1
    decreases |sorted|
  {
    if sorted == [] || c.order <= sorted[0].order then [c] + sorted
    else [sorted[0]] + Insert(c, sorted[1..])
  }

  /** `.sort((a, b) => a.order - b.order)`. `Array.prototype.sort` is stable,
      so this is a stable insertion sort. */
  function SortByOrder(s: seq<ChapterMetadata>): (r: seq<ChapterMetadata>)
    ensures |r| == |s|
    decreases |s|
  {
    if s == [] then [] else Insert(s[0], SortByOrder(s[1..]))
  }

  lemma {:induction false} InsertPerm(c: ChapterMetadata, t: seq<ChapterMetadata>)
    ensures multiset(Insert(c, t)) == multiset(t) + multiset{c}
    decreases |t|
  {
    if t != [] && c.order > t[0].order {
      InsertPerm(c, t[1..]);
      assert t == [t[0]] + t[1..];
    }
  }

  lemma {:induction false} InsertSorted(c: ChapterMetadata, t: seq<ChapterMetadata>)
    requires SortedByOrder(t)
    ensures SortedByOrder(Insert(c, t))
    decreases |t|
  {
    if t != [] && c.order > t[0].order {
      InsertSorted(c, t[1..]);
      InsertPerm(c, t[1..]);
      var r := Insert(c, t);
      var rest := Insert(c, t[1..]);
      assert r == [t[0]] + rest;
      assert forall j :: 0 <= j < |rest| ==> t[0].order <= rest[j].order by {
        forall j | 0 <= j < |rest| ensures t[0].order <= rest[j].order {
          var x := rest[j];
          assert x in multiset(t[1..]) + multiset{c} by {
            assert x in multiset(rest);
          }
          if x != c {
            var k :| 0 <= k < |t[1..]| && t[1..][k] == x;
            assert x == t[k + 1];
          }
        }
      }
      forall i, j | 0 <= i < j < |r| ensures r[i].order <= r[j].order {
        assert r[j] == rest[j - 1];
        if i > 0 {
          assert r[i] == rest[i - 1];
        }
      }
    }
  }

  /** The sort yields a non-decreasing permutation of its input. */
  lemma {:induction false} SortSpec(s: seq<ChapterMetadata>)
    ensures SortedByOrder(SortByOrder(s))
    ensures multiset(SortByOrder(s)) == multiset(s)
    decreases |s|
  {
    if s != [] {
      SortSpec(s[1..]);
      InsertSorted(s[0], SortByOrder(s[1..]));
      InsertPerm(s[0], SortByOrder(s[1..]));
      assert s == [s[0]] + s[1..];
    }
  }

  /** Selects the records with a given `order`. */
  function OfOrder(k: int): ChapterMetadata -> bool {
    (c: ChapterMetadata) => c.order == k
  }

  lemma {:induction false} InsertStable(c: ChapterMetadata, t: seq<ChapterMetadata>, k: int)
    requires SortedByOrder(t)
    ensures Filter(Insert(c, t), OfOrder(k)) ==
            if c.order == k then [c] + Filter(t, OfOrder(k)) else Filter(t, OfOrder(k))
    decreases |t|
  {
    if t == [] || c.order <= t[0].order {
      assert ([c] + t)[1..] == t;
    } else {
      InsertStable(c, t[1..], k);
      assert ([t[0]] + Insert(c, t[1..]))[1..] == Insert(c, t[1..]);
    }
  }

  /** Stability: records with equal `order` keep their input order. */
  lemma {:induction false} SortStable(s: seq<ChapterMetadata>, k: int)
    ensures Filter(SortByOrder(s), OfOrder(k)) == Filter(s, OfOrder(k))
    decreases |s|
  {
    if s != [] {
      SortStable(s[1..], k);
      SortSpec(s[1..]);
      InsertStable(s[0], SortByOrder(s[1..]), k);
    }
  }

  /** `getAllChapters()` */
  function GetAllChapters(files: seq<ContentFile>): (cs: seq<ChapterMetadata>)
    ensures |cs| == |Filter(files, IsMdx)|
  {
    SortByOrder(Records(files))
  }

  /** `getAllChapters` returns the records of the `.mdx` files, sorted
      non-decreasing by `order`, ties kept in directory order. */
  lemma GetAllChaptersSpec(files: seq<ContentFile>)
    ensures SortedByOrder(GetAllChapters(files))
    ensures multiset(GetAllChapters(files)) == multiset(Records(files))
    ensures |GetAllChapters(files)| == |Filter(files, IsMdx)|
    ensures forall k :: Filter(GetAllChapters(files), OfOrder(k)) == Filter(Records(files), OfOrder(k))
    ensures forall c :: c in GetAllChapters(files) ==>
              exists f :: f in files && IsMdx(f) && c == RecordOf(f) && c.slug + Extension == f.name
  {
    SortSpec(Records(files));
    RecordsSpec(files);
    forall k ensures Filter(GetAllChapters(files), OfOrder(k)) == Filter(Records(files), OfOrder(k)) {
      SortStable(Records(files), k);
    }
    assert |multiset(GetAllChapters(files))| == |multiset(Records(files))|;
    forall c | c in GetAllChapters(files)
      ensures exists f :: f in files && IsMdx(f) && c == RecordOf(f) && c.slug + Extension == f.name
    {
      assert c in multiset(GetAllChapters(files));
      assert c in Records(files);
    }
  }

  /** The first file with the given name, as `readFileSync` finds it. */
  function FindFile(files: seq<ContentFile>, name: string): (r: Option<ContentFile>)
    ensures r.None? <==> forall f :: f in files ==> f.name != name
    ensures r.Some? ==> r.value in files && r.value.name == name
    decreases |files|
  {
    if files == [] then None
    else if files[0].name == name then Some(files[0])
    else FindFile(files[1..], name)
  }

  /** `getChapterBySlug(slug)`: reads `<slug>.mdx`; `null` when there is no such file. */
  function GetChapterBySlug(files: seq<ContentFile>, slug: string): (r: Option<Chapter>)
    ensures r.None? <==> forall f :: f in files ==> f.name != slug + Extension
    ensures r.Some? ==> r.value.metadata.slug == slug
    ensures r.Some? ==> exists f :: f in files && f.name == slug + Extension &&
                                    r.value == Chapter(WithSlug(f.data, slug), f.content)
  {
    match FindFile(files, slug + Extension)
    case None => None
    case Some(f) => Some(Chapter(WithSlug(f.data, slug), f.content))
  }

  /** Every chapter the catalog lists can be looked up by its slug. */
  lemma CatalogChaptersResolve(files: seq<ContentFile>)
    ensures forall c :: c in GetAllChapters(files) ==> GetChapterBySlug(files, c.slug).Some?
  {
    GetAllChaptersSpec(files);
  }

  /** A directory listing names each file once. */
  ghost predicate DistinctNames(files: seq<ContentFile>) {
    forall i, j :: 0 <= i < j < |files| ==> files[i].name != files[j].name
  }

  /** Looking a catalog entry up by its slug gives back that very entry. */
  lemma CatalogRoundTrip(files: seq<ContentFile>, c: ChapterMetadata)
    requires DistinctNames(files)
    requires c in GetAllChapters(files)
    ensures GetChapterBySlug(files, c.slug).Some?
    ensures GetChapterBySlug(files, c.slug).value.metadata == c
  {
    GetAllChaptersSpec(files);
    var f :| f in files && IsMdx(f) && c == RecordOf(f) && c.slug + Extension == f.name;
    var r := GetChapterBySlug(files, c.slug);
    var g :| g in files && g.name == c.slug + Extension && r.value == Chapter(WithSlug(g.data, c.slug), g.content);
    var i :| 0 <= i < |files| && files[i] == f;
    var j :| 0 <= j < |files| && files[j] == g;
    assert i == j;
  }

  /** Selects the records of one part. */
  function InPart(part: string): ChapterMetadata -> bool {
    (c: ChapterMetadata) => c.part == Some(part)
  }

  /** `getPartChapters(part)` */
  function GetPartChapters(files: seq<ContentFile>, part: string): (cs: seq<ChapterMetadata>)
    ensures |cs| <= |GetAllChapters(files)|
    ensures forall i :: 0 <= i < |cs| ==> cs[i].part == Some(part)
  {
    Filter(GetAllChapters(files), InPart(part))
  }

  /** `getPartChapters(p)` is the subsequence of `getAllChapters()` whose part is `p`. */
  lemma PartChaptersSpec(files: seq<ContentFile>, part: string)
    ensures IsSubsequence(GetPartChapters(files, part), GetAllChapters(files))
    ensures forall c :: c in GetPartChapters(files, part) ==> c in GetAllChapters(files) && c.part == Some(part)
    ensures forall c :: c in GetAllChapters(files) && c.part == Some(part) ==> c in GetPartChapters(files, part)
    ensures SortedByOrder(GetPartChapters(files, part))
  {
    var all := GetAllChapters(files);
    FilterIsSubsequence(all, InPart(part));
    FilterMembers(all, InPart(part));
    GetAllChaptersSpec(files);
    var le := (a: ChapterMetadata, b: ChapterMetadata) => a.order <= b.order;
    assert Pairwise(all, le);
    FilterPairwise(all, InPart(part), le);
    assert Pairwise(GetPartChapters(files, part), le);
  }

  /** The `part` of each chapter, in order. */
  function PartsOf(cs: seq<ChapterMetadata>): (ps: seq<Option<string>>)
    ensures |ps| == |cs|
    ensures forall i :: 0 <= i < |cs| ==> ps[i] == cs[i].part
  {
    seq(|cs|, i requires 0 <= i < |cs| => cs[i].part)
  }

  /** The label strings of a sequence of defined parts. */
  function Labels(os: seq<Option<string>>): (ls: seq<string>)
    requires forall i :: 0 <= i < |os| ==> os[i].Some?
    ensures |ls| == |os|
    ensures forall i :: 0 <= i < |os| ==> os[i] == Some(ls[i])
  {
    seq(|os|, i requires 0 <= i < |os| => os[i].value)
  }

  /** `getAllParts()`: `[...new Set(parts)].filter(Boolean)`. */
  function GetAllParts(files: seq<ContentFile>): (ps: seq<string>)
    ensures forall i :: 0 <= i < |ps| ==> ps[i] != ""
  {
    Labels(Filter(Dedup(PartsOf(GetAllChapters(files))), IsTruthy))
  }

  /** `getAllParts` lists every non-empty part once, in order of first
      appearance among the sorted chapters, and nothing else. */
  lemma AllPartsSpec(files: seq<ContentFile>)
    ensures forall i, j :: 0 <= i < j < |GetAllParts(files)| ==> GetAllParts(files)[i] != GetAllParts(files)[j]
    ensures forall p :: p in GetAllParts(files) ==> p != ""
    ensures forall p :: p in GetAllParts(files) ==>
              exists c :: c in GetAllChapters(files) && c.part == Some(p)
    ensures forall c :: c in GetAllChapters(files) && IsTruthy(c.part) ==> c.part.value in GetAllParts(files)
    ensures forall i, j :: 0 <= i < j < |GetAllParts(files)| ==>
              var ps := PartsOf(GetAllChapters(files));
              Some(GetAllParts(files)[i]) in ps && Some(GetAllParts(files)[j]) in ps &&
              FirstIndex(ps, Some(GetAllParts(files)[i])) < FirstIndex(ps, Some(GetAllParts(files)[j]))
  {
    AllPartsOrdered(files);
    AllPartsSound(files);
    AllPartsComplete(files);
  }

  /** The parts are distinct and listed in order of first appearance. */
  lemma AllPartsOrdered(files: seq<ContentFile>)
    ensures forall i, j :: 0 <= i < j < |GetAllParts(files)| ==> GetAllParts(files)[i] != GetAllParts(files)[j]
    ensures forall i, j :: 0 <= i < j < |GetAllParts(files)| ==>
              var ps := PartsOf(GetAllChapters(files));
              Some(GetAllParts(files)[i]) in ps && Some(GetAllParts(files)[j]) in ps &&
              FirstIndex(ps, Some(GetAllParts(files)[i])) < FirstIndex(ps, Some(GetAllParts(files)[j]))
  {
    var ps := PartsOf(GetAllChapters(files));
    var d := Dedup(ps);
    var f := Filter(d, IsTruthy);
    var r := GetAllParts(files);
    var ne := (a: Option<string>, b: Option<string>) => a != b;
    var first := (a: Option<string>, b: Option<string>) =>
      a in ps && b in ps && FirstIndex(ps, a) < FirstIndex(ps, b);
    assert Pairwise(d, ne) && Pairwise(d, first) by {
      DedupSpec(ps);
      forall i, j | 0 <= i < j < |d| ensures first(d[i], d[j]) {
        assert d[i] in d && d[j] in d;
      }
    }
    FilterPairwise(d, IsTruthy, ne);
    FilterPairwise(d, IsTruthy, first);
    forall i, j | 0 <= i < j < |r| ensures r[i] != r[j] && first(Some(r[i]), Some(r[j])) {
      assert f[i] == Some(r[i]) && f[j] == Some(r[j]);
      assert ne(f[i], f[j]) && first(f[i], f[j]);
    }
  }

  /** Every listed part is non-empty and is the part of some chapter. */
  lemma AllPartsSound(files: seq<ContentFile>)
    ensures forall p :: p in GetAllParts(files) ==> p != ""
    ensures forall p :: p in GetAllParts(files) ==>
              exists c :: c in GetAllChapters(files) && c.part == Some(p)
  {
    var cs := GetAllChapters(files);
    var ps := PartsOf(cs);
    var d := Dedup(ps);
    var f := Filter(d, IsTruthy);
    var r := GetAllParts(files);
    DedupSpec(ps);
    FilterMembers(d, IsTruthy);
    forall p | p in r ensures p != "" && exists c :: c in cs && c.part == Some(p) {
      var i :| 0 <= i < |r| && r[i] == p;
      assert f[i] == Some(p) && f[i] in f;
      var k :| 0 <= k < |ps| && ps[k] == Some(p);
      assert cs[k] in cs;
    }
  }

  /** Every non-empty part of a chapter is listed. */
  lemma AllPartsComplete(files: seq<ContentFile>)
    ensures forall c :: c in GetAllChapters(files) && IsTruthy(c.part) ==> c.part.value in GetAllParts(files)
  {
    var cs := GetAllChapters(files);
    var ps := PartsOf(cs);
    var d := Dedup(ps);
    var f := Filter(d, IsTruthy);
    var r := GetAllParts(files);
    DedupSpec(ps);
    FilterMembers(d, IsTruthy);
    forall c | c in cs && IsTruthy(c.part) ensures c.part.value in r {
      var k :| 0 <= k < |cs| && cs[k] == c;
      assert ps[k] == c.part && c.part in ps;
      assert c.part in f;
      var i :| 0 <= i < |f| && f[i] == c.part;
      assert r[i] == c.part.value;
    }
  }
}
