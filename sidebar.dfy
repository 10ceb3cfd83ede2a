/**
 * The heading sidebar of `loadHeadings` (js/app.js:99-108): a left fold over the
 * extracted headings that writes one list item per heading, with the class
 * `level-N` and a link to the heading's identifier.
 */
module Sidebar {
  import opened JsString
  import opened Headings
  import opened Slugs

  /** `<li class="{levelClass}"><a href="{href}">{text}</a></li>`. */
  datatype SidebarItem = SidebarItem(levelClass: string, href: string, text: string)

  /** The item the fold appends for one heading. */
  function ItemFor(h: Heading): SidebarItem {
    SidebarItem("level-" + Decimal(h.level), "#" + HeadingId(h.text), h.text)
  }

  /** `headings.reduce((accumulator, heading) => accumulator + item, "")`. */
  function LoadHeadings(hs: seq<Heading>): seq<SidebarItem> {
    if hs == [] then [] else LoadHeadings(hs[..|hs| - 1]) + [ItemFor(hs[|hs| - 1])]
  }

  /** The fold is a map: one item per heading, in order. */
  lemma {:induction false} LoadHeadingsIsMap(hs: seq<Heading>)
    ensures |LoadHeadings(hs)| == |hs|
    ensures forall k :: 0 <= k < |hs| ==> LoadHeadings(hs)[k] == ItemFor(hs[k])
  {
    if hs != [] {
      var init := hs[..|hs| - 1];
      LoadHeadingsIsMap(init);
      assert forall k :: 0 <= k < |init| ==> hs[k] == init[k];
    }
  }

  /** An item links to the identifier the heading renderer puts on the heading, keeps
      the heading's text, and carries its level as the decimal number after `level-`. */
  lemma ItemForSpec(h: Heading)
    ensures ItemFor(h).href == "#" + RenderHeading(h.text, h.level).id
    ensures ItemFor(h).text == h.text
    ensures |ItemFor(h).levelClass| > 6 && ItemFor(h).levelClass[..6] == "level-"
    ensures ParseInt(ItemFor(h).levelClass[6..]) == Number(h.level)
  {
    assert ItemFor(h).levelClass[6..] == Decimal(h.level);
    ParseDecimal(h.level);
  }

  /** The fold over a concatenation is the concatenation of the folds. */
  lemma {:induction false} LoadHeadingsAppend(a: seq<Heading>, b: seq<Heading>)
    ensures LoadHeadings(a + b) == LoadHeadings(a) + LoadHeadings(b)
    decreases |b|
  {
    if b == [] {
      assert a + b == a;
    } else {
      var b' := b[..|b| - 1];
      assert (a + b)[..|a + b| - 1] == a + b';
      assert (a + b)[|a + b| - 1] == b[|b| - 1];
      LoadHeadingsAppend(a, b');
    }
  }

  /** The sidebar of a page: the items of the headings its markdown holds. */
  function PageSidebar(content: string): seq<SidebarItem> {
    LoadHeadings(ExtractHeadings(content))
  }

  /** The link of an item: `#` followed by `[a-z0-9_-]` only, with no `--` and no
      trailing `-`. */
  predicate AnchorShaped(href: string) {
    && |href| >= 1 && href[0] == '#'
    && (forall i :: 1 <= i < |href| ==> ('a' <= href[i] <= 'z') || IsDigit(href[i]) || href[i] == '_' || href[i] == '-')
    && (forall i :: 1 <= i < |href| - 1 ==> !(href[i] == '-' && href[i + 1] == '-'))
    && (|href| > 1 ==> href[|href| - 1] != '-')
  }

  lemma ItemAnchor(h: Heading)
    ensures AnchorShaped(ItemFor(h).href)
  {
    var id := HeadingId(h.text);
    HeadingIdSpec(h.text);
    assert forall i :: 1 <= i < |ItemFor(h).href| ==> ItemFor(h).href[i] == id[i - 1];
  }

  /** Every sidebar link of a page targets a heading identifier. */
  lemma PageSidebarLinks(content: string)
    ensures forall k :: 0 <= k < |PageSidebar(content)| ==> AnchorShaped(PageSidebar(content)[k].href)
  {
    var hs := ExtractHeadings(content);
    LoadHeadingsIsMap(hs);
    forall k | 0 <= k < |hs| ensures AnchorShaped(ItemFor(hs[k]).href) {
      ItemAnchor(hs[k]);
    }
  }
}
