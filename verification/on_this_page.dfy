/** The heading collection of src/components/OnThisPage.tsx: every heading of
    the chapter body except the title gets a unique `id`, generated from its
    text when it has none, and the sidebar lists the headings in document order. */
module OnThisPage {
  import opened Text
  import opened Seqs

  // ---------------------------------------------------------------------------
  // The slug of a heading's text

  /** `[a-z0-9 -]`: what survives the first replacement. */
  predicate IsKeptChar(c: char) {
    ('a' <= c <= 'z') || ('0' <= c <= '9') || c == ' ' || c == '-'
  }

  /** The characters a generated id is made of. */
  predicate IsIdChar(c: char) {
    ('a' <= c <= 'z') || ('0' <= c <= '9') || c == '-'
  }

  /** Lower-case letters and digits: what a slug keeps of its text. */
  predicate IsAlnum(c: char) {
    ('a' <= c <= 'z') || ('0' <= c <= '9')
  }

  predicate IsHyphen(c: char) {
    c == '-'
  }

  /** The suffix of `s` that starts at its first character outside `run`. */
  function DropWhile(s: string, run: char -> bool): (r: string)
    ensures |r| <= |s| && r == s[|s| - |r|..]
    ensures |r| > 0 ==> !run(r[0])
    ensures forall k :: 0 <= k < |s| - |r| ==> run(s[k])
    decreases |s|
  {
    if |s| > 0 && run(s[0]) then
      var r := DropWhile(s[1..], run);
      assert s[1..][|s[1..]| - |r|..] == s[|s| - |r|..];
      assert forall k :: 1 <= k < |s| - |r| ==> s[k] == s[1..][k - 1];
      r
    else s
  }

  /** `s.replace(/x+/g, rep)` where `x` matches the characters of `run`: every
      maximal run of them becomes the single character `rep`. */
  function CollapseRuns(s: string, run: char -> bool, rep: char): (r: string)
    ensures forall i :: 0 <= i < |r| ==> r[i] == rep || (r[i] in s && !run(r[i]))
    ensures |s| > 0 && !run(s[0]) ==> |r| > 0 && r[0] == s[0]
    ensures run(rep) ==> forall i :: 0 <= i < |r| - 1 ==> !(r[i] == rep && r[i + 1] == rep)
    decreases |s|
  {
    if |s| == 0 then ""
    else if run(s[0]) then
      var rest := DropWhile(s, run);
      [rep] + CollapseRuns(rest, run, rep)
    else [s[0]] + CollapseRuns(s[1..], run, rep)
  }

  /** Collapsing runs of characters that `keep` rejects, into a character it
      also rejects, leaves the kept characters as they were. */
  lemma {:induction false} CollapseRunsKeeps(s: string, run: char -> bool, rep: char, keep: char -> bool)
    requires !keep(rep)
    requires forall i :: 0 <= i < |s| && run(s[i]) ==> !keep(s[i])
    ensures Filter(CollapseRuns(s, run, rep), keep) == Filter(s, keep)
    decreases |s|
  {
    if |s| > 0 {
      if run(s[0]) {
        var rest := DropWhile(s, run);
        DropWhileKeeps(s, run, keep);
        CollapseRunsKeeps(rest, run, rep, keep);
        FilterAppend([rep], CollapseRuns(rest, run, rep), keep);
      } else {
        assert Filter(s, keep) == Filter([s[0]], keep) + Filter(s[1..], keep) by {
          assert s == [s[0]] + s[1..];
          FilterAppend([s[0]], s[1..], keep);
        }
        assert forall i :: 0 <= i < |s[1..]| ==> s[1..][i] == s[i + 1];
        CollapseRunsKeeps(s[1..], run, rep, keep);
        FilterAppend([s[0]], CollapseRuns(s[1..], run, rep), keep);
      }
    }
  }

  /** Dropping a leading run of characters that `keep` rejects changes
      nothing that `keep` sees. */
  lemma DropWhileKeeps(s: string, run: char -> bool, keep: char -> bool)
    requires forall i :: 0 <= i < |s| && run(s[i]) ==> !keep(s[i])
    ensures Filter(DropWhile(s, run), keep) == Filter(s, keep)
    ensures forall i :: 0 <= i < |DropWhile(s, run)| && run(DropWhile(s, run)[i]) ==> !keep(DropWhile(s, run)[i])
  {
    var rest := DropWhile(s, run);
    var m := |s| - |rest|;
    assert rest == s[m..];
    DroppedKeepsNothing(s, m, run, keep);
    SplitFilter(s, m, keep);
    SuffixKeepsExclusion(s, m, run, keep);
  }

  /** A prefix made only of `run` characters contributes nothing kept. */
  lemma DroppedKeepsNothing(s: string, m: nat, run: char -> bool, keep: char -> bool)
    requires m <= |s|
    requires forall i :: 0 <= i < m ==> run(s[i])
    requires forall i :: 0 <= i < |s| && run(s[i]) ==> !keep(s[i])
    ensures Filter(s[..m], keep) == []
  {
    var p := s[..m];
    forall i | 0 <= i < |p| ensures !keep(p[i]) {
      assert p[i] == s[i];
    }
    FilterNone(p, keep);
  }

  /** Filtering a string filters its two halves. */
  lemma SplitFilter(s: string, m: nat, keep: char -> bool)
    requires m <= |s|
    ensures Filter(s, keep) == Filter(s[..m], keep) + Filter(s[m..], keep)
  {
    assert s == s[..m] + s[m..];
    FilterAppend(s[..m], s[m..], keep);
  }

  /** A suffix inherits the exclusion between `run` and `keep`. */
  lemma SuffixKeepsExclusion(s: string, m: nat, run: char -> bool, keep: char -> bool)
    requires m <= |s|
    requires forall i :: 0 <= i < |s| && run(s[i]) ==> !keep(s[i])
    ensures forall i :: 0 <= i < |s[m..]| && run(s[m..][i]) ==> !keep(s[m..][i])
  {
    forall i | 0 <= i < |s[m..]| && run(s[m..][i]) ensures !keep(s[m..][i]) {
      assert s[m..][i] == s[m + i];
    }
  }

  /** A string without white space is its own trim. */
  lemma TrimNoSpace(s: string)
    requires forall i :: 0 <= i < |s| ==> !IsJsSpace(s[i])
    ensures Trim(s) == s
  {
    assert TrimStart(s) == s;
    assert TrimEnd(s) == s;
  }

  /** `text.toLowerCase().replace(/[^a-z0-9 -]/g, '').replace(/\s+/g, '-')
      .replace(/-+/g, '-').trim()` */
  function Slugify(text: string): (slug: string)
    ensures forall i :: 0 <= i < |slug| ==> IsIdChar(slug[i])
    ensures forall i :: 0 <= i < |slug| - 1 ==> !(slug[i] == '-' && slug[i + 1] == '-')
  {
    var collapsed := CollapseRuns(CollapseRuns(Filter(ToLower(text), IsKeptChar), IsJsSpace, '-'), IsHyphen, '-');
    CollapsedIdChars(text);
    TrimNoSpace(collapsed);
    Trim(collapsed)
  }

  /** After both collapses only id characters are left. */
  lemma CollapsedIdChars(text: string)
    ensures forall i :: 0 <= i < |CollapseRuns(CollapseRuns(Filter(ToLower(text), IsKeptChar), IsJsSpace, '-'), IsHyphen, '-')| ==>
              IsIdChar(CollapseRuns(CollapseRuns(Filter(ToLower(text), IsKeptChar), IsJsSpace, '-'), IsHyphen, '-')[i])
  {
    var kept := Filter(ToLower(text), IsKeptChar);
    assert forall i :: 0 <= i < |kept| && !IsJsSpace(kept[i]) ==> IsIdChar(kept[i]) by {
      FilterMembers(ToLower(text), IsKeptChar);
    }
    CollapseStaysWithin(kept, IsJsSpace, '-', IsIdChar);
    CollapseStaysWithin(CollapseRuns(kept, IsJsSpace, '-'), IsHyphen, '-', IsIdChar);
  }

  /** Collapsing runs keeps every character within a class that holds the
      replacement and every character outside the runs. */
  lemma CollapseStaysWithin(s: string, run: char -> bool, rep: char, within: char -> bool)
    requires within(rep)
    requires forall i :: 0 <= i < |s| && !run(s[i]) ==> within(s[i])
    ensures forall i :: 0 <= i < |CollapseRuns(s, run, rep)| ==> within(CollapseRuns(s, run, rep)[i])
  {
    var r := CollapseRuns(s, run, rep);
    forall i | 0 <= i < |r| ensures within(r[i]) {
      if r[i] != rep {
        var j :| 0 <= j < |s| && s[j] == r[i];
      }
    }
  }

  /** A slug keeps exactly the letters and digits of the lower-cased text, in order. */
  lemma SlugKeepsAlnum(text: string)
    ensures Filter(Slugify(text), IsAlnum) == Filter(ToLower(text), IsAlnum)
  {
    var lower := ToLower(text);
    var kept := Filter(lower, IsKeptChar);
    var spaced := CollapseRuns(kept, IsJsSpace, '-');
    SlugIsCollapsed(text);
    CollapseKeepsAlnum(spaced, IsHyphen);
    CollapseKeepsAlnum(kept, IsJsSpace);
    FilterFilter(lower, IsKeptChar, IsAlnum);
  }

  /** The final trim removes nothing: the collapsed text has no white space left. */
  lemma SlugIsCollapsed(text: string)
    ensures Slugify(text) == CollapseRuns(CollapseRuns(Filter(ToLower(text), IsKeptChar), IsJsSpace, '-'), IsHyphen, '-')
  {
    var collapsed := CollapseRuns(CollapseRuns(Filter(ToLower(text), IsKeptChar), IsJsSpace, '-'), IsHyphen, '-');
    CollapsedIdChars(text);
    TrimNoSpace(collapsed);
  }

  /** Collapsing runs of white space or of hyphens into a hyphen keeps the
      letters and digits as they were. */
  lemma CollapseKeepsAlnum(s: string, run: char -> bool)
    requires forall c :: run(c) ==> !IsAlnum(c)
    ensures Filter(CollapseRuns(s, run, '-'), IsAlnum) == Filter(s, IsAlnum)
  {
    CollapseRunsKeeps(s, run, '-', IsAlnum);
  }

  // ---------------------------------------------------------------------------
  // Unique ids

  /** `` `${baseId}-${counter}` `` */
  function Suffixed(base: string, k: nat): (id: string)
    ensures |id| > |base| && id[..|base|] == base && id[|base|] == '-'
  {
    base + "-" + NatStr(k)
  }

  /** Different counters give different ids. */
  lemma SuffixedInjective(base: string, a: nat, b: nat)
    requires Suffixed(base, a) == Suffixed(base, b)
    ensures a == b
  {
    var n := |base| + 1;
    assert NatStr(a) == Suffixed(base, a)[n..];
    assert NatStr(b) == Suffixed(base, b)[n..];
    NatStrInjective(a, b);
  }

  /** The ids tried before counter `k`: `base-1`, ..., `base-(k-1)`. */
  function Tried(base: string, k: nat): set<string> {
    set j: nat | 1 <= j < k :: Suffixed(base, j)
  }

  /** The ids tried are all different, so there are `k - 1` of them. */
  lemma {:induction false} TriedSize(base: string, k: nat)
    requires k >= 1
    ensures |Tried(base, k)| == k - 1
    decreases k
  {
    if k > 1 {
      TriedSize(base, k - 1);
      TriedGrows(base, k - 1);
    } else {
      assert Tried(base, k) == {};
    }
  }

  /** Counter `k` adds one id not tried before. */
  lemma TriedGrows(base: string, k: nat)
    requires k >= 1
    ensures Tried(base, k + 1) == Tried(base, k) + {Suffixed(base, k)}
    ensures Suffixed(base, k) !in Tried(base, k)
  {
    if Suffixed(base, k) in Tried(base, k) {
      var j: nat :| 1 <= j < k && Suffixed(base, j) == Suffixed(base, k);
      SuffixedInjective(base, j, k);
    }
  }

  /** A subset is no larger than its superset. */
  lemma SubsetSize<T>(a: set<T>, b: set<T>)
    requires a <= b
    ensures |a| <= |b|
  {
    assert b == a + (b - a);
  }

  /** The smallest counter from `k` on whose id is free. It exists because
      `used` is finite and the candidate ids are all different. */
  function FreeCounter(base: string, used: set<string>, k: nat): (n: nat)
    requires k >= 1 && Tried(base, k) <= used
    ensures n >= k && Suffixed(base, n) !in used
    ensures forall j :: k <= j < n ==> Suffixed(base, j) in used
    decreases |used| - k + 1
  {
    if Suffixed(base, k) !in used then k
    else
      assert Tried(base, k + 1) == Tried(base, k) + {Suffixed(base, k)};
      TriedSize(base, k + 1);
      SubsetSize(Tried(base, k + 1), used);
      FreeCounter(base, used, k + 1)
  }

  /** The id the suffix loop settles on: `base` if it is free, otherwise
      `base-k` for the smallest free counter `k >= 1`. */
  function FreshId(base: string, used: set<string>): (id: string)
    ensures id !in used
    ensures base !in used ==> id == base
    ensures base in used ==>
              exists k: nat :: (1 <= k && id == Suffixed(base, k) &&
                                forall j :: 1 <= j < k ==> Suffixed(base, j) in used)
  {
    if base !in used then base
    else
      assert Tried(base, 1) == {};
      Suffixed(base, FreeCounter(base, used, 1))
  }

  /** `id = base; counter = 1; while (usedIds.has(id)) { id = `${base}-${counter}`; counter++ }` */
  method UniqueId(base: string, used: set<string>) returns (id: string)
    ensures id == FreshId(base, used)
  {
    id := base;
    var counter: nat := 1;
    assert Tried(base, 1) == {};
    while id in used
      invariant counter >= 1
      invariant counter == 1 ==> id == base
      invariant counter > 1 ==> base in used && id == Suffixed(base, counter - 1)
      invariant counter > 1 ==> Tried(base, counter - 1) <= used
      decreases |used| + 2 - counter
    {
      if counter > 1 {
        assert Tried(base, counter) == Tried(base, counter - 1) + {id};
      } else {
        assert Tried(base, counter) == {};
      }
      TriedSize(base, counter);
      SubsetSize(Tried(base, counter), used);
      id := Suffixed(base, counter);
      counter := counter + 1;
    }
    if counter > 1 {
      assert Tried(base, 1) == {};
      ghost var n := FreeCounter(base, used, 1);
    }
  }

  // ---------------------------------------------------------------------------
  // Collecting the headings

  /** `Heading`: one line of the "On this page" list. */
  datatype Heading = Heading(id: string, text: string, level: nat)

  /** A heading element of the chapter body: `h1` ... `h6`. Its `id` attribute
      may be empty and is rewritten by the collection. */
  class HeadingElement {
    var id: string
    const text: string
    const level: nat

    constructor (id: string, text: string, level: nat)
      ensures this.id == id && this.text == text && this.level == level
    {
      this.id := id;
      this.text := text;
      this.level := level;
    }
  }

  /** What the collection reads from one element before it runs. */
  datatype HeadingInput = HeadingInput(id: string, text: string, level: nat)

  /** The state of the loop: `headingData`, `usedIds`, and the `id` each
      element visited so far ends up with. */
  datatype Collected = Collected(headings: seq<Heading>, used: set<string>, ids: seq<string>)

  /** The id a heading gets: its own id, or the slug of its text if it has
      none, made unique against the ids already used. */
  function ChooseId(e: HeadingInput, used: set<string>): (id: string)
    ensures id !in used
    ensures e.id != "" && e.id !in used ==> id == e.id
    ensures e.id == "" && Slugify(e.text) !in used ==> id == Slugify(e.text)
  {
    FreshId(if e.id != "" then e.id else Slugify(e.text), used)
  }

  predicate IsSection(e: HeadingInput) {
    e.level != 1
  }

  /** One iteration of the `forEach`: level-1 headings are skipped. */
  function Step(st: Collected, e: HeadingInput): (next: Collected)
    ensures |next.ids| == |st.ids| + 1 && next.ids[..|st.ids|] == st.ids
    ensures !IsSection(e) ==> next.headings == st.headings && next.used == st.used && next.ids[|st.ids|] == e.id
    ensures IsSection(e) ==> next.ids[|st.ids|] == ChooseId(e, st.used)
    ensures IsSection(e) ==> next.ids[|st.ids|] !in st.used && next.used == st.used + {next.ids[|st.ids|]}
    ensures IsSection(e) ==> next.headings == st.headings + [Heading(next.ids[|st.ids|], e.text, e.level)]
  {
    if e.level == 1 then Collected(st.headings, st.used, st.ids + [e.id])
    else
      var id := ChooseId(e, st.used);
      Collected(st.headings + [Heading(id, e.text, e.level)], st.used + {id}, st.ids + [id])
  }

  /** The loop over a prefix of the elements. */
  function Run(inputs: seq<HeadingInput>): (st: Collected)
    ensures |st.ids| == |inputs|
    decreases |inputs|
  {
    if inputs == [] then Collected([], {}, [])
    else Step(Run(inputs[..|inputs| - 1]), inputs[|inputs| - 1])
  }

  /** The list holds one heading per element that is not level 1, in document
      order and with its text and level; their ids are pairwise distinct and
      are exactly the used ids; the heading of each such element carries the
      id that element ends with, which is the one ChooseId picks against the
      ids used before it; level-1 elements keep theirs. */
  lemma RunSpec(inputs: seq<HeadingInput>)
    ensures |Run(inputs).headings| == |Filter(inputs, IsSection)|
    ensures forall k :: 0 <= k < |Run(inputs).headings| ==>
              Run(inputs).headings[k].text == Filter(inputs, IsSection)[k].text &&
              Run(inputs).headings[k].level == Filter(inputs, IsSection)[k].level
    ensures forall k, l :: 0 <= k < l < |Run(inputs).headings| ==>
              Run(inputs).headings[k].id != Run(inputs).headings[l].id
    ensures forall k :: 0 <= k < |Run(inputs).headings| ==> Run(inputs).headings[k].id in Run(inputs).used
    ensures forall x :: x in Run(inputs).used ==>
              exists k :: 0 <= k < |Run(inputs).headings| && Run(inputs).headings[k].id == x
    ensures forall i :: 0 <= i < |inputs| && inputs[i].level == 1 ==> Run(inputs).ids[i] == inputs[i].id
    ensures forall i :: 0 <= i < |inputs| && inputs[i].level != 1 ==> Run(inputs).ids[i] in Run(inputs).used
    ensures forall i :: 0 <= i < |inputs| && inputs[i].level != 1 ==>
              |Filter(inputs[..i], IsSection)| < |Run(inputs).headings| &&
              Run(inputs).headings[|Filter(inputs[..i], IsSection)|].id == Run(inputs).ids[i]
    ensures forall i :: 0 <= i < |inputs| && IsSection(inputs[i]) ==>
              Run(inputs).ids[i] == ChooseId(inputs[i], Run(inputs[..i]).used)
  {
    RunFollowsSections(inputs);
    RunIdsUnique(inputs);
    RunFinalIds(inputs);
    RunHeadingOfElement(inputs);
    RunIdsChosen(inputs);
  }

  /** One heading per element that is not level 1, in order, with its text and level. */
  lemma {:induction false} RunFollowsSections(inputs: seq<HeadingInput>)
    ensures |Run(inputs).headings| == |Filter(inputs, IsSection)|
    ensures forall k :: 0 <= k < |Run(inputs).headings| ==>
              Run(inputs).headings[k].text == Filter(inputs, IsSection)[k].text &&
              Run(inputs).headings[k].level == Filter(inputs, IsSection)[k].level
    decreases |inputs|
  {
    if inputs != [] {
      var n := |inputs|;
      var p, e := inputs[..n - 1], inputs[n - 1];
      RunFollowsSections(p);
      assert inputs == p + [e];
      FilterAppend(p, [e], IsSection);
    }
  }

  /** The heading ids are pairwise distinct and are exactly the used ids. */
  lemma {:induction false} RunIdsUnique(inputs: seq<HeadingInput>)
    ensures forall k, l :: 0 <= k < l < |Run(inputs).headings| ==>
              Run(inputs).headings[k].id != Run(inputs).headings[l].id
    ensures forall k :: 0 <= k < |Run(inputs).headings| ==> Run(inputs).headings[k].id in Run(inputs).used
    ensures forall x :: x in Run(inputs).used ==>
              exists k :: 0 <= k < |Run(inputs).headings| && Run(inputs).headings[k].id == x
    decreases |inputs|
  {
    if inputs != [] {
      var n := |inputs|;
      var p, e := inputs[..n - 1], inputs[n - 1];
      RunIdsUnique(p);
      var st := Run(p);
      var r := Run(inputs);
      if e.level != 1 {
        var id := ChooseId(e, st.used);
        assert r.headings == st.headings + [Heading(id, e.text, e.level)];
        assert r.used == st.used + {id};
        forall x | x in r.used
          ensures exists k :: 0 <= k < |r.headings| && r.headings[k].id == x
        {
          if x != id {
            var k :| 0 <= k < |st.headings| && st.headings[k].id == x;
            assert r.headings[k].id == x;
          } else {
            assert r.headings[|st.headings|].id == x;
          }
        }
      }
    }
  }

  /** Each element ends with the id the loop gave it; level-1 elements keep theirs. */
  lemma {:induction false} RunFinalIds(inputs: seq<HeadingInput>)
    ensures forall i :: 0 <= i < |inputs| && inputs[i].level == 1 ==> Run(inputs).ids[i] == inputs[i].id
    ensures forall i :: 0 <= i < |inputs| && inputs[i].level != 1 ==> Run(inputs).ids[i] in Run(inputs).used
    decreases |inputs|
  {
    if inputs != [] {
      var n := |inputs|;
      var p, e := inputs[..n - 1], inputs[n - 1];
      RunFinalIds(p);
      var st := Run(p);
      var r := Run(inputs);
      assert r.ids == st.ids + [if e.level == 1 then e.id else ChooseId(e, st.used)];
      assert st.used <= r.used;
      forall i | 0 <= i < n && inputs[i].level == 1 ensures r.ids[i] == inputs[i].id {
        if i < n - 1 {
          assert inputs[i] == p[i] && r.ids[i] == st.ids[i];
        }
      }
      forall i | 0 <= i < n && inputs[i].level != 1 ensures r.ids[i] in r.used {
        if i < n - 1 {
          assert inputs[i] == p[i] && r.ids[i] == st.ids[i];
        }
      }
    }
  }

  /** The heading an element below the title produces is the one at its rank
      among such elements, and its id is the id the element ends with. */
  lemma {:induction false} RunHeadingOfElement(inputs: seq<HeadingInput>)
    ensures forall i :: 0 <= i < |inputs| && inputs[i].level != 1 ==>
              |Filter(inputs[..i], IsSection)| < |Run(inputs).headings| &&
              Run(inputs).headings[|Filter(inputs[..i], IsSection)|].id == Run(inputs).ids[i]
    decreases |inputs|
  {
    if inputs != [] {
      var n := |inputs|;
      var p, e := inputs[..n - 1], inputs[n - 1];
      RunHeadingOfElement(p);
      RunFollowsSections(p);
      var st := Run(p);
      var r := Step(st, e);
      assert Run(inputs) == r;
      assert st.headings <= r.headings;
      forall i | 0 <= i < n && inputs[i].level != 1
        ensures |Filter(inputs[..i], IsSection)| < |r.headings|
        ensures r.headings[|Filter(inputs[..i], IsSection)|].id == r.ids[i]
      {
        if i < n - 1 {
          assert inputs[..i] == p[..i];
          assert inputs[i] == p[i] && r.ids[i] == st.ids[i];
        } else {
          assert inputs[..i] == p;
        }
      }
    }
  }

  /** Each element below the title gets the id ChooseId picks against the
      ids used by the elements before it. */
  lemma {:induction false} RunIdsChosen(inputs: seq<HeadingInput>)
    ensures forall i :: 0 <= i < |inputs| && IsSection(inputs[i]) ==>
              Run(inputs).ids[i] == ChooseId(inputs[i], Run(inputs[..i]).used)
    decreases |inputs|
  {
    if inputs != [] {
      var n := |inputs|;
      var p, e := inputs[..n - 1], inputs[n - 1];
      RunIdsChosen(p);
      var st := Run(p);
      var r := Step(st, e);
      assert Run(inputs) == r;
      forall i | 0 <= i < n && IsSection(inputs[i])
        ensures r.ids[i] == ChooseId(inputs[i], Run(inputs[..i]).used)
      {
        if i < n - 1 {
          assert inputs[..i] == p[..i];
          assert inputs[i] == p[i] && r.ids[i] == st.ids[i];
        } else {
          assert inputs[..i] == p;
        }
      }
    }
  }

  /** What the elements say before the collection runs. */
  function Snapshot(elements: seq<HeadingElement>): (inputs: seq<HeadingInput>)
    reads set e | e in elements
    ensures |inputs| == |elements|
    ensures forall i :: 0 <= i < |elements| ==>
              inputs[i] == HeadingInput(elements[i].id, elements[i].text, elements[i].level)
  {
    seq(|elements|, i reads set e | e in elements requires 0 <= i < |elements| =>
      HeadingInput(elements[i].id, elements[i].text, elements[i].level))
  }

  /** One more element extends the loop's state by one step. */
  lemma RunExtends(inputs: seq<HeadingInput>, i: nat)
    requires i < |inputs|
    ensures Run(inputs[..i + 1]).ids == Run(inputs[..i]).ids + [Run(inputs[..i + 1]).ids[i]]
    ensures !IsSection(inputs[i]) ==>
              Run(inputs[..i + 1]).ids[i] == inputs[i].id &&
              Run(inputs[..i + 1]).used == Run(inputs[..i]).used &&
              Run(inputs[..i + 1]).headings == Run(inputs[..i]).headings
    ensures IsSection(inputs[i]) ==>
              Run(inputs[..i + 1]).ids[i] == ChooseId(inputs[i], Run(inputs[..i]).used) &&
              Run(inputs[..i + 1]).used == Run(inputs[..i]).used + {Run(inputs[..i + 1]).ids[i]} &&
              Run(inputs[..i + 1]).headings ==
                Run(inputs[..i]).headings + [Heading(Run(inputs[..i + 1]).ids[i], inputs[i].text, inputs[i].level)]
  {
    assert inputs[..i + 1][..i] == inputs[..i];
    assert Run(inputs[..i + 1]) == Step(Run(inputs[..i]), inputs[i]);
  }

  /** One pass of the `forEach` body: a level-1 element is skipped; any other
      gets its unique id written back, recorded as used and listed. */
  method Visit(element: HeadingElement, ghost input: HeadingInput, usedIds: set<string>, headingData: seq<Heading>)
    returns (used': set<string>, headings': seq<Heading>)
    requires input == HeadingInput(element.id, element.text, element.level)
    modifies element
    ensures !IsSection(input) ==> element.id == input.id && used' == usedIds && headings' == headingData
    ensures IsSection(input) ==>
              element.id == ChooseId(input, usedIds) && used' == usedIds + {element.id} &&
              headings' == headingData + [Heading(element.id, input.text, input.level)]
  {
    used', headings' := usedIds, headingData;
    var text := element.text;
    var level := element.level;
    if level != 1 {
      var id := AssignId(element, usedIds);
      used' := usedIds + {id};
      headings' := headingData + [Heading(id, text, level)];
    }
  }

  /** The body of the loop for a heading below the title: keep or generate
      its id, make it unique, and write it back to the element. */
  method AssignId(element: HeadingElement, usedIds: set<string>) returns (id: string)
    modifies element
    ensures id == ChooseId(HeadingInput(old(element.id), element.text, element.level), usedIds)
    ensures element.id == id
  {
    id := element.id;
    if id == "" {
      var baseId := Slugify(element.text);
      id := UniqueId(baseId, usedIds);
      element.id := id;
    }
    if id in usedIds {
      var baseId := id;
      id := UniqueId(baseId, usedIds);
      element.id := id;
    }
  }

  /** The heading loop of the first effect: assigns every element its final
      id and returns `headingData`. */
  method CollectHeadings(elements: seq<HeadingElement>) returns (headingData: seq<Heading>)
    requires forall i, j :: 0 <= i < j < |elements| ==> elements[i] != elements[j]
    modifies set e | e in elements
    ensures headingData == Run(old(Snapshot(elements))).headings
    ensures forall i :: 0 <= i < |elements| ==> elements[i].id == Run(old(Snapshot(elements))).ids[i]
  {
    ghost var inputs := Snapshot(elements);
    headingData := [];
    var usedIds: set<string> := {};
    var i := 0;
    while i < |elements|
      invariant 0 <= i <= |elements|
      invariant Run(inputs[..i]).headings == headingData
      invariant Run(inputs[..i]).used == usedIds
      invariant forall j :: 0 <= j < i ==> elements[j].id == Run(inputs[..i]).ids[j]
      invariant forall j :: i <= j < |elements| ==> elements[j].id == inputs[j].id
    {
      RunExtends(inputs, i);
      var element := elements[i];
      usedIds, headingData := Visit(element, inputs[i], usedIds, headingData);
      forall j | 0 <= j < i + 1 ensures elements[j].id == Run(inputs[..i + 1]).ids[j] {
        if j < i {
          assert elements[j] != element;
        }
      }
      i := i + 1;
    }
    assert inputs[..|elements|] == inputs;
  }

  /** The number shown as "N sections": one per collected heading. */
  function SectionCount(headings: seq<Heading>): (caption: string)
    ensures |headings| == 0 ==> caption == "This page has no section headings."
    ensures |headings| > 0 ==> caption == NatStr(|headings|) + " sections"
  {
    if |headings| == 0 then "This page has no section headings."
    else NatStr(|headings|) + " sections"
  }

  /** A page whose only heading is its title lists nothing. */
  lemma TitleOnlyPage(title: string, id: string)
    ensures Run([HeadingInput(id, title, 1)]).headings == []
    ensures SectionCount(Run([HeadingInput(id, title, 1)]).headings) == "This page has no section headings."
  {
    assert [HeadingInput(id, title, 1)][..0] == [];
  }

  /** Two headings with the same text and no ids get `x` and `x-1`. */
  lemma RepeatedHeading(text: string)
    ensures Run([HeadingInput("", text, 2), HeadingInput("", text, 2)]).headings ==
            [Heading(Slugify(text), text, 2), Heading(Suffixed(Slugify(text), 1), text, 2)]
  {
    var a := HeadingInput("", text, 2);
    var s := Slugify(text);
    var st := Run([a]);
    assert st == Collected([Heading(s, text, 2)], {s}, [s]) by {
      assert [a][..0] == [];
      assert Run([a]) == Step(Collected([], {}, []), a);
      assert ChooseId(a, {}) == s;
      assert [] + [Heading(s, text, 2)] == [Heading(s, text, 2)];
      assert {} + {s} == {s};
      assert [] + [s] == [s];
    }
    assert Run([a, a]) == Step(st, a) by {
      assert [a, a][..1] == [a];
    }
    assert ChooseId(a, {s}) == Suffixed(s, 1) by {
      assert Tried(s, 1) == {};
      assert |Suffixed(s, 1)| > |s|;
      assert FreeCounter(s, {s}, 1) == 1;
    }
  }
}
