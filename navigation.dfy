/**
 * The navigation list built by `readPagesList` (js/app.js:20-59): the manifest is
 * filtered to `.md` entries, sorted, and folded into section headers, subsection
 * headers and one link per page.
 */
module Navigation {
  import opened Wrappers
  import opened JsString
  import opened LexOrder
  import opened PathSplitter

  /** One `<li>` of the navigation list: `class="section"`, `class="subsection"`,
      or a link with `data-index` and the class `sub` or none. */
  datatype NavEntry =
    | SectionHeader(name: string)
    | SubsectionHeader(name: string)
    | Leaf(index: nat, page: string, isSub: bool)

  /** `pages.filter((page) => page.endsWith(".md"))`. */
  function FilterMarkdown(manifest: seq<string>): (r: seq<string>)
    ensures forall p :: multiset(r)[p] == if EndsWith(p, ".md") then multiset(manifest)[p] else 0
  {
    if manifest == [] then []
    else
      assert manifest == [manifest[0]] + manifest[1..];
      (if EndsWith(manifest[0], ".md") then [manifest[0]] else []) + FilterMarkdown(manifest[1..])
  }

  /** The `pages` list after `filter` and `sort`. */
  function Pages(manifest: seq<string>): seq<string> {
    SortStrings(FilterMarkdown(manifest))
  }

  /** The pages are sorted, all end in `.md`, and are the `.md` entries of the manifest
      with their multiplicity. */
  lemma PagesSpec(manifest: seq<string>)
    ensures Sorted(Pages(manifest))
    ensures forall p :: multiset(Pages(manifest))[p] == if EndsWith(p, ".md") then multiset(manifest)[p] else 0
    ensures forall i :: 0 <= i < |Pages(manifest)| ==> EndsWith(Pages(manifest)[i], ".md")
  {
    var r := Pages(manifest);
    forall i | 0 <= i < |r| ensures EndsWith(r[i], ".md") {
      assert r[i] in multiset(r);
    }
  }

  /** JavaScript truthiness of a string that may be `null` or `undefined`. */
  predicate Truthy(o: Option<string>) {
    o.Some? && o.value != ""
  }

  /** `previousSection`: `""` for the first entry, otherwise the predecessor's section. */
  function PrevSection(pages: seq<string>, i: nat): Option<string>
    requires i < |pages|
  {
    if i == 0 then Some("") else SplitPath(pages[i - 1]).section
  }

  /** `previousSubSection`: `""` for the first entry, otherwise the predecessor's subsection. */
  function PrevSubSection(pages: seq<string>, i: nat): Option<string>
    requires i < |pages|
  {
    if i == 0 then Some("") else SplitPath(pages[i - 1]).subSection
  }

  /** `section.replace(...)` throws a TypeError at entry `i`: its section is `undefined`
      while the predecessor's is not. */
  predicate ThrowsAt(pages: seq<string>, i: nat)
    requires i < |pages|
  {
    SplitPath(pages[i]).section.None? && PrevSection(pages, i).Some?
  }

  predicate SectionChanged(pages: seq<string>, i: nat)
    requires i < |pages|
  {
    SplitPath(pages[i]).section != PrevSection(pages, i)
  }

  predicate SubsectionChanged(pages: seq<string>, i: nat)
    requires i < |pages|
  {
    var sub := SplitPath(pages[i]).subSection;
    Truthy(sub) && sub != PrevSubSection(pages, i)
  }

  /** The headers that go right before the link of entry `i`: a section header when the
      section differs from the predecessor's, then a subsection header when the subsection
      is truthy and differs from the predecessor's.  (A change to an undefined section
      throws instead; see `ThrowsAt`.) */
  function HeadersFor(pages: seq<string>, i: nat): (h: seq<NavEntry>)
    requires i < |pages|
    ensures forall k :: 0 <= k < |h| ==> !h[k].Leaf?
  {
    var parts := SplitPath(pages[i]);
    (if SectionChanged(pages, i) && parts.section.Some?
     then [SectionHeader(StripMd(parts.section.value))] else [])
    + (if SubsectionChanged(pages, i) then [SubsectionHeader(parts.subSection.value)] else [])
  }

  /** The link of entry `i`: its index, its page name, and the class `sub` when its
      subsection is truthy. */
  function LeafFor(pages: seq<string>, i: nat): NavEntry
    requires i < |pages|
  {
    var parts := SplitPath(pages[i]);
    Leaf(i, parts.page, Truthy(parts.subSection))
  }

  /** The `reduce` over the first `n` entries; `Err(i)` when entry `i` throws. */
  function NavPrefix(pages: seq<string>, n: nat): Result<seq<NavEntry>, nat>
    requires n <= |pages|
  {
    if n == 0 then Ok([])
    else
      match NavPrefix(pages, n - 1)
      case Err(e) => Err(e)
      case Ok(out) =>
        if ThrowsAt(pages, n - 1) then Err(n - 1)
        else Ok(out + HeadersFor(pages, n - 1) + [LeafFor(pages, n - 1)])
  }

  function BuildNav(pages: seq<string>): Result<seq<NavEntry>, nat> {
    NavPrefix(pages, |pages|)
  }

  /** The fold fails exactly when some entry throws, and reports the first such entry. */
  lemma {:induction false} NavPrefixFails(pages: seq<string>, n: nat)
    requires n <= |pages|
    ensures NavPrefix(pages, n).Ok? <==> forall i :: 0 <= i < n ==> !ThrowsAt(pages, i)
    ensures NavPrefix(pages, n).Err? ==>
              var e := NavPrefix(pages, n).error;
              e < n && ThrowsAt(pages, e) && forall i :: 0 <= i < e ==> !ThrowsAt(pages, i)
  {
    if n > 0 {
      NavPrefixFails(pages, n - 1);
      var prev := NavPrefix(pages, n - 1);
      if prev.Err? {
        assert NavPrefix(pages, n) == prev;
      } else if ThrowsAt(pages, n - 1) {
        assert NavPrefix(pages, n) == Err(n - 1);
      } else {
        assert NavPrefix(pages, n).Ok?;
      }
    }
  }

  lemma BuildNavFails(pages: seq<string>)
    ensures BuildNav(pages).Ok? <==> forall i :: 0 <= i < |pages| ==> !ThrowsAt(pages, i)
    ensures BuildNav(pages).Err? ==>
              var e := BuildNav(pages).error;
              e < |pages| && ThrowsAt(pages, e) && forall i :: 0 <= i < e ==> !ThrowsAt(pages, i)
  {
    NavPrefixFails(pages, |pages|);
  }

  /** A first entry without `/` always throws, since its section is compared with `""`. */
  lemma FirstWithoutFolderThrows(pages: seq<string>)
    requires |pages| > 0 && '/' !in pages[0]
    ensures BuildNav(pages) == Err(0)
  {
    BuildNavFails(pages);
    assert ThrowsAt(pages, 0);
  }

  /** The positions of the links in a navigation list, in increasing order. */
  function LeafPositions(out: seq<NavEntry>): (lp: seq<nat>)
    ensures forall i :: 0 <= i < |lp| ==> lp[i] < |out|
    ensures forall i :: 0 < i < |lp| ==> lp[i - 1] < lp[i]
  {
    if out == [] then []
    else
      var init := LeafPositions(out[..|out| - 1]);
      init + (if out[|out| - 1].Leaf? then [|out| - 1] else [])
  }

  lemma {:induction false} LeafPositionsNoLeaf(out: seq<NavEntry>, h: seq<NavEntry>)
    requires forall k :: 0 <= k < |h| ==> !h[k].Leaf?
    ensures LeafPositions(out + h) == LeafPositions(out)
  {
    if h != [] {
      assert (out + h)[..|out + h| - 1] == out + h[..|h| - 1];
      LeafPositionsNoLeaf(out, h[..|h| - 1]);
    } else {
      assert out + h == out;
    }
  }

  /** Appending headers and one link adds exactly one link position, at the end. */
  lemma AppendGroupPositions(prev: seq<NavEntry>, h: seq<NavEntry>, leaf: NavEntry)
    requires forall k :: 0 <= k < |h| ==> !h[k].Leaf?
    requires leaf.Leaf?
    ensures LeafPositions(prev + h + [leaf]) == LeafPositions(prev) + [|prev| + |h|]
  {
    var out := prev + h + [leaf];
    LeafPositionsNoLeaf(prev, h);
    assert out[..|out| - 1] == prev + h;
  }

  /** `out` consists of the groups `groups[i] + [leaves[i]]` one after the other: link `i`
      is `leaves[i]`, the entries between link `i - 1` (or the start) and link `i` are
      `groups[i]`, and nothing follows the last link. */
  ghost predicate Layout(out: seq<NavEntry>, leaves: seq<NavEntry>, groups: seq<seq<NavEntry>>) {
    var lp := LeafPositions(out);
    |lp| == |leaves| == |groups|
    && (forall i :: 0 <= i < |lp| ==> out[lp[i]] == leaves[i])
    && (forall i :: 0 <= i < |lp| ==> out[(if i == 0 then 0 else lp[i - 1] + 1)..lp[i]] == groups[i])
    && (|lp| == 0 ==> out == [])
    && (|lp| > 0 ==> lp[|lp| - 1] == |out| - 1)
  }

  lemma LayoutAppend(out: seq<NavEntry>, leaves: seq<NavEntry>, groups: seq<seq<NavEntry>>,
                     h: seq<NavEntry>, leaf: NavEntry)
    requires Layout(out, leaves, groups)
    requires forall k :: 0 <= k < |h| ==> !h[k].Leaf?
    requires leaf.Leaf?
    ensures Layout(out + h + [leaf], leaves + [leaf], groups + [h])
  {
    AppendGroupPositions(out, h, leaf);
    AppendedLinks(out, leaves, groups, h, leaf);
    AppendedGroups(out, leaves, groups, h, leaf);
  }

  lemma AppendedLinks(out: seq<NavEntry>, leaves: seq<NavEntry>, groups: seq<seq<NavEntry>>,
                      h: seq<NavEntry>, leaf: NavEntry)
    requires Layout(out, leaves, groups)
    requires LeafPositions(out + h + [leaf]) == LeafPositions(out) + [|out| + |h|]
    ensures var out', lp := out + h + [leaf], LeafPositions(out + h + [leaf]);
      forall i :: 0 <= i < |lp| ==> out'[lp[i]] == (leaves + [leaf])[i]
  {
    var out' := out + h + [leaf];
    var lp0 := LeafPositions(out);
    var lp := LeafPositions(out');
    forall i | 0 <= i < |lp| ensures out'[lp[i]] == (leaves + [leaf])[i] {
      if i < |lp| - 1 { assert out'[lp[i]] == out[lp0[i]]; }
    }
  }

  lemma AppendedGroups(out: seq<NavEntry>, leaves: seq<NavEntry>, groups: seq<seq<NavEntry>>,
                       h: seq<NavEntry>, leaf: NavEntry)
    requires Layout(out, leaves, groups)
    requires LeafPositions(out + h + [leaf]) == LeafPositions(out) + [|out| + |h|]
    ensures var out', lp := out + h + [leaf], LeafPositions(out + h + [leaf]);
      forall i :: 0 <= i < |lp| ==> out'[(if i == 0 then 0 else lp[i - 1] + 1)..lp[i]] == (groups + [h])[i]
  {
    var out' := out + h + [leaf];
    var lp0 := LeafPositions(out);
    var lp := LeafPositions(out');
    forall i | 0 <= i < |lp|
      ensures out'[(if i == 0 then 0 else lp[i - 1] + 1)..lp[i]] == (groups + [h])[i]
    {
      var lo := if i == 0 then 0 else lp[i - 1] + 1;
      if i < |lp| - 1 {
        SliceOfPrefix(out, h + [leaf], lo, lp0[i]);
        assert out + h + [leaf] == out + (h + [leaf]);
      } else {
        SliceAfterPrefix(out, h, leaf);
      }
    }
  }

  lemma SliceOfPrefix(a: seq<NavEntry>, b: seq<NavEntry>, lo: nat, hi: nat)
    requires lo <= hi <= |a|
    ensures (a + b)[lo..hi] == a[lo..hi]
  {
  }

  lemma SliceAfterPrefix(a: seq<NavEntry>, h: seq<NavEntry>, leaf: NavEntry)
    ensures (a + h + [leaf])[|a|..|a| + |h|] == h
  {
  }

  /** The links of the first `n` entries. */
  function Leaves(pages: seq<string>, n: nat): (r: seq<NavEntry>)
    requires n <= |pages|
    ensures |r| == n
  {
    if n == 0 then [] else Leaves(pages, n - 1) + [LeafFor(pages, n - 1)]
  }

  /** The headers that precede each of the first `n` links. */
  function Groups(pages: seq<string>, n: nat): (r: seq<seq<NavEntry>>)
    requires n <= |pages|
    ensures |r| == n
  {
    if n == 0 then [] else Groups(pages, n - 1) + [HeadersFor(pages, n - 1)]
  }

  /** Link `i` of `Leaves` is entry `i`'s link. */
  lemma {:induction false} LeavesAt(pages: seq<string>, n: nat)
    requires n <= |pages|
    ensures forall i :: 0 <= i < n ==> Leaves(pages, n)[i] == LeafFor(pages, i)
  {
    if n > 0 {
      LeavesAt(pages, n - 1);
      ExtendAt(Leaves(pages, n - 1), LeafFor(pages, n - 1));
    }
  }

  /** Group `i` of `Groups` is the headers of entry `i`. */
  lemma {:induction false} GroupsAt(pages: seq<string>, n: nat)
    requires n <= |pages|
    ensures forall i :: 0 <= i < n ==> Groups(pages, n)[i] == HeadersFor(pages, i)
  {
    if n > 0 {
      GroupsAt(pages, n - 1);
      ExtendAt(Groups(pages, n - 1), HeadersFor(pages, n - 1));
    }
  }

  lemma ExtendAt<T>(s: seq<T>, x: T)
    ensures forall i :: 0 <= i < |s| ==> (s + [x])[i] == s[i]
    ensures (s + [x])[|s|] == x
  {
  }

  lemma {:induction false} NavPrefixLayout(pages: seq<string>, n: nat)
    requires n <= |pages| && NavPrefix(pages, n).Ok?
    ensures Layout(NavPrefix(pages, n).value, Leaves(pages, n), Groups(pages, n))
  {
    if n > 0 {
      NavPrefixFails(pages, n - 1);
      NavPrefixLayout(pages, n - 1);
      LayoutAppend(NavPrefix(pages, n - 1).value, Leaves(pages, n - 1), Groups(pages, n - 1),
                   HeadersFor(pages, n - 1), LeafFor(pages, n - 1));
    }
  }

  /** The shape of the navigation list: no entry throws, and the list is laid out as
      `Layout` says with link `i` being `LeafFor(pages, i)` (index `i`, its page name, the
      `sub` class iff its subsection is truthy) and group `i` being `HeadersFor(pages, i)`
      (the headers demanded by the comparison with the immediate predecessor). */
  lemma NavLayout(pages: seq<string>)
    requires BuildNav(pages).Ok?
    ensures forall i :: 0 <= i < |pages| ==> !ThrowsAt(pages, i)
    ensures Layout(BuildNav(pages).value, Leaves(pages, |pages|), Groups(pages, |pages|))
    ensures forall i :: 0 <= i < |pages| ==> Leaves(pages, |pages|)[i] == LeafFor(pages, i)
    ensures forall i :: 0 <= i < |pages| ==> Groups(pages, |pages|)[i] == HeadersFor(pages, i)
  {
    BuildNavFails(pages);
    NavPrefixLayout(pages, |pages|);
    LeavesAt(pages, |pages|);
    GroupsAt(pages, |pages|);
  }

  /** One step of the fold: the headers and the link of entry `n - 1` are appended. */
  lemma NavStep(pages: seq<string>, n: nat, prev: seq<NavEntry>)
    requires 0 < n <= |pages| && NavPrefix(pages, n - 1) == Ok(prev) && !ThrowsAt(pages, n - 1)
    ensures NavPrefix(pages, n) == Ok(prev + HeadersFor(pages, n - 1) + [LeafFor(pages, n - 1)])
  {
  }

  /** Two pages of one folder followed by a page directly under the root: the root-level
      file is its own section, so its header is its name without `.md`. */
  lemma NavSectionsExample(root: string, sec: string, a: string, b: string, c: string)
    requires '/' !in root && '/' !in sec && '/' !in a && '/' !in b && '/' !in c
    requires '.' !in sec && '.' !in a && '.' !in b && '.' !in c && sec != ""
    ensures BuildNav([root + "/" + sec + "/" + a + ".md", root + "/" + sec + "/" + b + ".md",
                      root + "/" + c + ".md"])
         == Ok([SectionHeader(sec), Leaf(0, a, false), Leaf(1, b, false),
                SectionHeader(c), Leaf(2, c, false)])
  {
    var pages := [root + "/" + sec + "/" + a + ".md", root + "/" + sec + "/" + b + ".md",
                  root + "/" + c + ".md"];
    SplitPathSectionPage(root, sec, a);
    SplitPathSectionPage(root, sec, b);
    SplitPathFileAsSection(root, c);
    StripMdNoDot(sec);
    StripMdOfFileName(c);
    assert '.' in c + ".md";
    var h0, h1, h2 := HeadersFor(pages, 0), HeadersFor(pages, 1), HeadersFor(pages, 2);
    assert h0 == [SectionHeader(sec)];
    assert h1 == [];
    assert h2 == [SectionHeader(c)];
    var o1 := [] + h0 + [LeafFor(pages, 0)];
    var o2 := o1 + h1 + [LeafFor(pages, 1)];
    var o3 := o2 + h2 + [LeafFor(pages, 2)];
    NavStep(pages, 1, []);
    NavStep(pages, 2, o1);
    NavStep(pages, 3, o2);
    assert LeafFor(pages, 0) == Leaf(0, a, false);
    assert LeafFor(pages, 1) == Leaf(1, b, false);
    assert LeafFor(pages, 2) == Leaf(2, c, false);
    Assemble3(SectionHeader(sec), SectionHeader(c), LeafFor(pages, 0), LeafFor(pages, 1), LeafFor(pages, 2), h0, h1, h2);
    assert BuildNav(pages) == NavPrefix(pages, 3);
  }

  lemma Assemble3(x: NavEntry, y: NavEntry, l0: NavEntry, l1: NavEntry, l2: NavEntry,
                  h0: seq<NavEntry>, h1: seq<NavEntry>, h2: seq<NavEntry>)
    requires h0 == [x] && h1 == [] && h2 == [y]
    ensures [] + h0 + [l0] + h1 + [l1] + h2 + [l2] == [x, l0, l1, y, l2]
  {
  }

  lemma Assemble2(x: NavEntry, y: NavEntry, l0: NavEntry, l1: NavEntry,
                  h0: seq<NavEntry>, h1: seq<NavEntry>)
    requires h0 == [x, y] && h1 == []
    ensures [] + h0 + [l0] + h1 + [l1] == [x, y, l0, l1]
  {
  }

  /** Two pages of one subfolder: one section header, one subsection header, and both
      links with the class `sub`. */
  lemma NavSubsectionExample(root: string, sec: string, sub: string, a: string, b: string)
    requires '/' !in root && '/' !in sec && '/' !in sub && '/' !in a && '/' !in b
    requires '.' !in sec && '.' !in a && '.' !in b && sec != "" && sub != ""
    ensures BuildNav([root + "/" + sec + "/" + sub + "/" + a + ".md",
                      root + "/" + sec + "/" + sub + "/" + b + ".md"])
         == Ok([SectionHeader(sec), SubsectionHeader(sub), Leaf(0, a, true), Leaf(1, b, true)])
  {
    var pages := [root + "/" + sec + "/" + sub + "/" + a + ".md",
                  root + "/" + sec + "/" + sub + "/" + b + ".md"];
    SplitPathSubsectionPage(root, sec, sub, a);
    SplitPathSubsectionPage(root, sec, sub, b);
    StripMdNoDot(sec);
    var h0, h1 := HeadersFor(pages, 0), HeadersFor(pages, 1);
    assert h0 == [SectionHeader(sec), SubsectionHeader(sub)];
    assert h1 == [];
    var o1 := [] + h0 + [LeafFor(pages, 0)];
    var o2 := o1 + h1 + [LeafFor(pages, 1)];
    NavStep(pages, 1, []);
    NavStep(pages, 2, o1);
    assert LeafFor(pages, 0) == Leaf(0, a, true);
    assert LeafFor(pages, 1) == Leaf(1, b, true);
    Assemble2(SectionHeader(sec), SubsectionHeader(sub), LeafFor(pages, 0), LeafFor(pages, 1), h0, h1);
    assert BuildNav(pages) == NavPrefix(pages, 2);
  }
}
