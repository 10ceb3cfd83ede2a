# tiny-wiki viewer, modelled in Dafny

tiny-wiki is a single-page markdown viewer. Its script `js/app.js` works in four steps:

- It reads a manifest of markdown paths, keeps the `.md` entries and sorts them.
- It builds a navigation list from them: one section header for each change of the folder
  under the root folder (a file right under the root counts as a section of its own), a
  subsection header for each change of the folder below that, and one link per page.
- On a click it fetches the page and hands `# <page>` plus the page's body to the markdown
  renderer. It then fills a sidebar with the page's headings, each a link to the identifier
  the renderer puts on that heading, and writes `#p=<index>` into the location fragment.
- A light/dark theme is read from local storage or from the system preference, and a switch
  flips it.

This project models that core:
- the values it computes: path splitting, the navigation fold, heading extraction, the
  identifier slug, the image and heading hooks, the sidebar fold, the fragment, the error
  messages and the theme;
- the state it writes: the class `PageLoader.Viewer` for the page list, the navigation list,
  the title, the content, the sidebar and the fragment, and the class `Theme.ThemeManager`
  for the theme attribute and its stored copy.

Each of the three regular expressions of `extractHeadings` is written out as string
functions (`Headings.StripFences`, `Headings.MatchAt`/`Headings.Scan`,
`Headings.RewriteLink`). For each, what is proved includes that it finds the match a
backtracking engine reports.

Modules, one per file:
- `Wrappers` (`wrappers.dfy`): `Option` and `Result`.
- `JsString` (`jsstrings.dfy`): the JavaScript string built-ins the script uses: `split`,
  `replace` with a string pattern and the substring search inside it, `endsWith`,
  `toLowerCase`, `parseInt`, `` `${n}` ``, and the character classes `\s` and `\w`.
- `LexOrder` (`lexorder.dfy`): `Array.prototype.sort` on strings.
- `PathSplitter` (`paths.dfy`): `splitPath`.
- `Navigation` (`navigation.dfy`): the filter, the sort and the `reduce` of `readPagesList`.
- `Headings` and `HeadingExamples` (`headings.dfy`, `heading_examples.dfy`): `extractHeadings`.
- `Slugs` (`slugs.dfy`): `headingId` and the renderer hooks.
- `Sidebar` (`sidebar.dfy`): `loadHeadings`.
- `Theme` (`theme.dfy`): `loadTheme` and the theme switch.
- `Fragment` (`fragment.dfy`): writing and reading `#p=<index>`.
- `PageLoader` (`loader.dfy`): `readPagesList`, `loadPage` and `initialLoad` over the
  viewer's state, and the two error messages.

Points where the code behaves differently from what a reader might expect:

- **Root-level files.** `splitPath` takes path segment 1 as the section. A file right under
  the root folder (`root/intro.md`) therefore becomes a section of its own, named `intro`;
  no header is ever shown for `root` itself.
  - The manifest `root/intro.md`, `root/guide/setup.md`, `root/guide/advanced.md` sorts to
    `guide/advanced`, `guide/setup`, `intro`.
  - It gives a `guide` section header, two links, an `intro` section header and one link
    (`Navigation.NavSectionsExample`).
  - A `guide` subsection header, one `root` header, or `intro` first are not what the code
    produces.
- **Unreadable fragment.** An index that does not parse gives `NaN`, not `0`
  (`Fragment.EmptyIndexIsNaN`). `loadPage(NaN)` then throws in `splitPath(undefined)`, and
  nothing is loaded (`PageLoader.Viewer.InitialLoad`). A fragment without `=` falls back to `0`.
- **Error message with a subsection.** The catch branch of `loadPage` names a page with a
  subsection as `section//subpage` (`PageLoader.FetchErrorDoubleSlash`). The 404 branch writes
  `section/sub/page`. Both are modelled as written.
- **Throwing fold.** A manifest entry without `/` has an `undefined` section. When that
  differs from the previous entry's section, `section.replace` throws. The navigation is then
  not written, and `initialLoad` rejects before any page is loaded. This is `Err(index)` in
  `Navigation.BuildNav` and `None` in `PageLoader.Viewer.InitialLoad`.
- **Headings and code.** The heading pattern's `\s+` crosses line breaks, so a lone `#` line
  takes the next line as its text (`HeadingExamples.HashLineTakesNextLine`). A fence without a
  partner is kept, and so are the headings after it (`Headings.UnmatchedFenceKept`). Only the
  first link of a heading is rewritten, and `.+` runs to the last `)` of the line
  (`Headings.RewriteLinkGreedy`).
- **The second match.** The second `match` of each heading (js/app.js:115) always succeeds and
  gives back the first match's level and text (`Headings.SecondMatchAgrees`). The outline
  therefore takes them from the first match.

## Model

| member | source | states |
|---|---|---|
| PathSplitter.StripMd | js/app.js:12 | `replace(".md", "")`: defined by its body; characterised by `StripMdOfFileName`, `StripMdNoDot` and `StripMdRemovesFirstOnly` |
| PathSplitter.SplitPath | js/app.js:10-18 | the section is undefined exactly when the path has no `/`; a subsection only comes with a section; no part contains `/` |
| PathSplitter.SplitPathOfSegments | js/app.js:10-18 | for segments joined by `/`: the page is the last segment less its first `.md`, the section is segment 1 when there are two or more segments, the subsection is segment 2 when there are more than three |
| PathSplitter.StripMdOfFileName | js/app.js:12 | `name.md` with a dot-free stem gives `name` |
| PathSplitter.StripMdNoDot | js/app.js:42-45 | a name without a dot is left unchanged by `.replace(".md", "")` |
| PathSplitter.StripMdRemovesFirstOnly | js/app.js:12 | only the first `.md` is removed: `x.mdx.md` gives `xx.md` |
| PathSplitter.SplitPathSectionPage | js/app.js:10-18 | `root/section/name.md` gives page `name`, section `section`, no subsection |
| PathSplitter.SplitPathSubsectionPage | js/app.js:10-18 | `root/section/sub/name.md` gives page `name`, section `section`, subsection `sub` |
| PathSplitter.SplitPathFileAsSection | js/app.js:14 | `root/name.md` has `name.md` as its section |
| PathSplitter.SplitPathBareFile | js/app.js:14-15 | a path without `/` has an undefined section and no subsection |
| JsString.Split | js/app.js:11 | `split` gives at least one part and no part holds the separator |
| JsString.JoinSplit | js/app.js:11 | joining the parts of a split gives back the string |
| JsString.SplitJoin | js/app.js:11 | splitting a join of separator-free parts gives back the parts |
| JsString.SplitNoSeparator | js/app.js:202 | a string without the separator splits into itself |
| JsString.SplitSingle | js/app.js:15 | a string splits into one part exactly when it holds no separator |
| JsString.SplitAfterPrefix | js/app.js:202 | `a + sep + b`, with `a` free of the separator, splits into `a` followed by the parts of `b` |
| JsString.FindFrom | js/app.js:112 | the position found is at or after the start and holds an occurrence |
| JsString.FindFromIsFirst | js/app.js:112 | no occurrence lies before the one found, and none at all when none is found |
| JsString.ReplaceFirst | js/app.js:12 | `replace` with a string pattern: defined by its body; characterised by `ReplaceFirstAbsent`, `ReplaceFirstOccurrence`, `ReplaceFirstAt` and `ReplaceFirstChars` |
| JsString.ReplaceFirstAbsent | js/app.js:12 | without an occurrence `replace` changes nothing |
| JsString.ReplaceFirstOccurrence | js/app.js:12 | the first occurrence, and only it, is replaced |
| JsString.ReplaceFirstAt | js/app.js:202 | when the pattern's first character is absent before `i`, the occurrence at `i` is the one replaced |
| JsString.ReplaceFirstChars | js/app.js:12 | a character of the result comes from the string or from the replacement |
| JsString.Decimal | js/app.js:81 | for the page indices and heading levels the viewer writes, `${n}` is a non-empty run of decimal digits without a leading zero |
| JsString.ParseInt | js/app.js:201-203 | `parseInt` is `NaN` exactly when the text does not start with a digit |
| JsString.LeadingDigits | js/app.js:201-203 | the prefix `parseInt` reads is the longest run of leading digits |
| JsString.DecimalValue | js/app.js:81 | the digits of `${n}` denote `n` |
| JsString.ParseDecimal | js/app.js:201-203 | `parseInt` of `${n}` is `n` |
| JsString.Lower | js/app.js:124 | `toLowerCase` keeps the length and lower-cases each character |
| JsString.ToLowerAscii | js/app.js:124 | the lower-cased character is not upper-case and is a word character exactly when the original is |
| JsString.Run | js/app.js:113 | a greedy repetition stops inside the text, at a character outside its class |
| JsString.RunChars | js/app.js:113 | every character a greedy repetition takes is in its class |
| JsString.RunUnique | js/app.js:113 | a greedy repetition is determined by where it stops |
| JsString.LastIn | js/app.js:113 | the position backtracking settles on lies in the range and is in the class |
| JsString.LastInIsLast | js/app.js:113 | no character of the class lies after the position found, and none in the range when none is found |
| Headings.HashRunChars | js/app.js:113 | every character `#+` takes is a hash sign |
| Headings.WhiteSpaceRunChars | js/app.js:113 | every character `\s+` takes is white space |
| Headings.LineRunChars | js/app.js:113 | every character `.+` takes is on the same line |
| JsString.NonWhiteSpaceOnLine | js/app.js:113 | a character outside `\s` is not a line terminator |
| LexOrder.LexLeReflexive | js/app.js:25 | the string order is reflexive |
| LexOrder.LexLeAntisymmetric | js/app.js:25 | the string order is antisymmetric |
| LexOrder.LexLeTransitive | js/app.js:25 | the string order is transitive |
| LexOrder.LexLeTotal | js/app.js:25 | any two strings are ordered one way or the other |
| LexOrder.Insert | js/app.js:25 | inserting adds exactly one copy of the element and keeps a sorted list sorted |
| LexOrder.SortStrings | js/app.js:25 | `sort()` returns a sorted permutation of its input |
| LexOrder.SortedUnique | js/app.js:25 | two sorted lists with the same elements are equal |
| LexOrder.SortIsTheSortedPermutation | js/app.js:25 | every sorted permutation of the input is the result of the sort |
| Navigation.Pages | js/app.js:23-25 | the page list: defined by its body; characterised by `PagesSpec` |
| Navigation.FilterMarkdown | js/app.js:24 | each string is kept as often as it occurs when it ends in `.md`, and dropped otherwise |
| Navigation.PagesSpec | js/app.js:23-25 | the page list is sorted, every entry ends in `.md`, and it holds the manifest's `.md` entries with their multiplicity |
| Navigation.HeadersFor | js/app.js:41-49 | the headers before an entry's link are never links |
| Navigation.LeafFor | js/app.js:51-53 | the link of entry `i`: defined by its body; characterised by `LeavesAt` and `NavLayout` |
| Navigation.NavPrefix | js/app.js:27-56 | the fold over the first `n` entries: defined by its body; characterised by `NavPrefixFails` and `NavPrefixLayout` |
| Navigation.BuildNav | js/app.js:27-56 | the navigation `reduce`: defined by its body; characterised by `BuildNavFails` and `NavLayout` |
| Navigation.NavPrefixFails | js/app.js:27-56 | the fold over a prefix fails exactly when an entry of it throws, and reports the first such entry |
| Navigation.BuildNavFails | js/app.js:27-56 | the navigation fold fails exactly when some entry throws, and reports the first one |
| Navigation.FirstWithoutFolderThrows | js/app.js:32-45 | a first entry without `/` makes the fold throw at index 0 |
| Navigation.LeafPositions | js/app.js:51-53 | the link positions lie in the list and increase |
| Navigation.LeafPositionsNoLeaf | js/app.js:41-49 | appending headers adds no link position |
| Navigation.AppendGroupPositions | js/app.js:51-53 | appending headers and a link adds exactly the new link's position |
| Navigation.LayoutAppend | js/app.js:51-53 | appending an entry's headers and link to a laid-out list keeps it laid out with one more group and link |
| Navigation.LeavesAt | js/app.js:51-53 | link `i` of the layout is entry `i`'s link |
| Navigation.GroupsAt | js/app.js:41-49 | group `i` of the layout is entry `i`'s headers |
| Navigation.NavPrefixLayout | js/app.js:27-56 | a successful fold over a prefix is laid out as its entries' headers and links |
| Navigation.NavLayout | js/app.js:27-56 | a successful fold throws nowhere. The list is, in order and with nothing else, each entry's headers followed by its link. The link carries the index, the page name, and the `sub` class iff the subsection is truthy. The headers are a section header when the section differs from the predecessor's, and a subsection header when the subsection is truthy and differs. |
| Navigation.NavSectionsExample | js/app.js:27-56 | two pages of one folder and a root-level page give the folder's header, two links, the root-level page's own section header and its link |
| Navigation.NavSubsectionExample | js/app.js:27-56 | two pages of one subfolder give one section header, one subsection header and two links with the class `sub` |
| Headings.StripFences | js/app.js:112 | the fence deletion: defined by its body; characterised by `StripFencesLeavesNoBlock`, `FencedBlockRemoved`, `UnmatchedFenceKept` and `StripFencesNoFence` |
| Headings.FencePair | js/app.js:112 | the two fences found do not overlap and lie in the text |
| Headings.StripFencesLeavesNoBlock | js/app.js:112 | after the code blocks are deleted, no two non-overlapping fences are left |
| Headings.FencedBlockRemoved | js/app.js:112 | a code block is deleted with its fences and everything in it |
| Headings.UnmatchedFenceKept | js/app.js:112 | a fence with no partner stays, with everything after it |
| Headings.StripFencesNoFence | js/app.js:112 | text without a backtick is unchanged |
| Headings.CodeBlockIgnored | js/app.js:111-113 | a page with a code block has the headings of the page without it |
| Headings.MatchAt | js/app.js:113 | a match at `p` starts there, has at least one hash sign, and its text is non-empty and follows the white space |
| Headings.TextMatch | js/app.js:113 | when text follows the white space, the match captures from there to the end of the line |
| Headings.GivenBack | js/app.js:113 | when the white space runs to the end, the match found has the level and a text after the first white-space character |
| Headings.MatchAtShape | js/app.js:113 | the match found is a way for `(#+)\s+(.+)$` to match |
| Headings.MatchAtIsFirstChoice | js/app.js:113 | whenever the pattern can match at `p`, a match is found with all the hash signs and the most white space |
| Headings.Step | js/app.js:113 | one step of the global search: it always moves forward and stays within the text, so the search ends; how it takes a heading line is stated by `HeadingLine` |
| Headings.Scan | js/app.js:113 | the global `match`: defined by its body; characterised by `ScanSound`, `ScanOrdered`, `ScanComplete` and `ScanEmpty` |
| Headings.ScanSound | js/app.js:113 | every match reported is the match at a line start |
| Headings.ScanOrdered | js/app.js:113 | the matches come in document order without overlap |
| Headings.ScanComplete | js/app.js:113 | every line start with a match lies within some reported match |
| Headings.ScanEmpty | js/app.js:113-114 | the scan finds nothing exactly when no line start has a match |
| Headings.HeadingLine | js/app.js:113 | a heading line ending at a line terminator is one match, and the scan goes on at the next line |
| Headings.HeadingLineMatch | js/app.js:113 | hash signs, white space and text up to the end of the line are the match at that line's start |
| Headings.NoMatchAtTerminator | js/app.js:113 | no match starts at a line terminator |
| Headings.Recapture | js/app.js:115 | a match of the whole heading has at least one hash sign and a non-empty text that ends the string |
| Headings.RecaptureShape | js/app.js:115 | what the anchored match finds is a way for the pattern to match the whole string |
| Headings.SecondMatchAgrees | js/app.js:113-115 | matching a reported heading again gives the same level and text |
| Headings.LinkAt | js/app.js:117 | a link match at `a` has a non-empty label and a target before its closing parenthesis |
| Headings.LinkAtShape | js/app.js:117 | what `LinkAt` finds is a way for `\[([^\]]+)\]\(.+\)` to match |
| Headings.LinkAtIsFirstChoice | js/app.js:117 | whenever the link pattern can match at `a`, it is found, with the farthest `)` |
| Headings.FirstLink | js/app.js:117 | the link found is the leftmost one, and none is found only when there is none |
| Headings.FirstLinkIs | js/app.js:117 | the first link from `b` is the one at `a` when no link starts in between |
| Headings.RewriteLinkAt | js/app.js:117 | the first `[` that starts a link, with no `)` after its closing one, is replaced by the label |
| Headings.LinkAtIs | js/app.js:117 | with no `)` after the one at `c`, the link matched at `a` closes at `c` |
| Headings.NoLinkBefore | js/app.js:117 | no link match starts before the first `[` |
| Headings.RewriteLink | js/app.js:117 | the link `replace`: defined by its body; characterised by `RewriteLinkAt`, `RewriteLinkNoBracket`, `RewriteLinkLabel`, `RewriteLinkGreedy` and `RewriteLinkNonEmpty` |
| Headings.RewriteLinkNoBracket | js/app.js:117 | text without `[` is unchanged |
| Headings.RewriteLinkLabel | js/app.js:117 | a link with a plain label and a one-line target is replaced by its label, with the text around it kept |
| Headings.RewriteLinkGreedy | js/app.js:117 | the target runs to the last `)` of the text, so what lies between is dropped |
| Headings.RewriteLinkNonEmpty | js/app.js:117 | rewriting never empties a non-empty text |
| Headings.Outline | js/app.js:114-119 | one entry per match, with the match's level |
| Headings.OutlineEntry | js/app.js:114-119 | entry `k` has match `k`'s level and its text with the link rewritten |
| Headings.ExtractHeadings | js/app.js:110-120 | every heading has a level of at least 1 and a non-empty text |
| Headings.ExtractHeadingsFromMatches | js/app.js:110-120 | the outline is the matches of the page without code blocks, in document order, each a match at a line start, its level the number of hash signs and its text the capture with the link rewritten |
| Headings.ExtractHeadingsEmpty | js/app.js:113-114 | the outline is empty exactly when no line outside the code blocks starts a match |
| HeadingExamples.HeadingLineOf | js/app.js:113 | a line written as hash signs, white space, text and a newline is one match |
| HeadingExamples.PageOutline | js/app.js:110-120 | two headings, the second with a link, then a code block with a `#` line, give the two headings with the link reduced to its label |
| HeadingExamples.HashLineTakesNextLine | js/app.js:113 | a lone `#` line takes the next line as its text, and that line is no heading of its own |
| Slugs.CollapseNonWord | js/app.js:125 | `replace(/[^\w]+/g, "-")`: defined by its body; characterised by `CollapseSpec`, `CollapseWordsThen`, `CollapseRunThen` and `CollapseOfSlug` |
| Slugs.NonWordRun | js/app.js:125 | the run of non-word characters at the start, stopping at a word character |
| Slugs.CollapseSpec | js/app.js:125 | collapsing keeps every word character in order and adds only `-`, never two in a row (where each `-` goes is stated by `CollapseRunThen`). An empty text stays empty, and the first and last characters are `-` exactly when the text's are not word characters. |
| Slugs.CollapseWordsThen | js/app.js:125 | a run of word characters is kept as it is, in its place, and collapsing goes on after it |
| Slugs.CollapseRunThen | js/app.js:125 | a maximal run of non-word characters becomes exactly one `-` in its place, and collapsing goes on after it; with `CollapseWordsThen` this determines the collapse of every text |
| Slugs.CollapseOfSlug | js/app.js:125 | collapsing a collapsed text changes nothing |
| Slugs.ImageSlug | js/app.js:147-148 | lower-case, then collapse: defined by its body; characterised by `HeadingIdVersusImageSlug` |
| Slugs.StripTrailingDash | js/app.js:126 | `replace(/-$/, "")`: defined by its body; characterised by `HeadingIdVersusImageSlug` |
| Slugs.HeadingId | js/app.js:122-127 | `headingId`: defined by its body; characterised by `HeadingIdSpec`, `HeadingIdRunBetween`, `HeadingIdIdempotent` and `HeadingIdTwoWords` |
| Slugs.HeadingIdSpec | js/app.js:122-127 | the identifier uses only `[a-z0-9_-]`, has no `--`, does not end with `-`, and keeps the word characters of the lower-cased text in order |
| Slugs.HeadingIdRunBetween | js/app.js:122-127 | a run of non-word characters between two words becomes one `-` between the lower-cased words |
| Slugs.HeadingIdIdempotent | js/app.js:122-127 | `headingId(headingId(t)) == headingId(t)` |
| Slugs.HeadingIdTwoWords | js/app.js:122-127 | two words with a space and a trailing `!` give the lower-cased words joined by `-` |
| Slugs.HeadingIdFooBar | js/app.js:122-127 | `headingId("Foo Bar!") == "foo-bar"` |
| Slugs.HeadingIdVersusImageSlug | js/app.js:147 | the image slug is the identifier plus `-` when the text ends in a non-word character, and the identifier otherwise |
| Slugs.RenderImage | js/app.js:146-155 | a video exactly for `.mp4`, `.webm` and `.ogg`; otherwise an image with the source, slugged `alt` and `title`, and `""` for a missing title |
| Slugs.RenderHeading | js/app.js:156-158 | the heading element has the level, the text, and `headingId(text)` as its id |
| Sidebar.ItemFor | js/app.js:102-104 | the item for one heading: defined by its body; characterised by `ItemForSpec` and `ItemAnchor` |
| Sidebar.LoadHeadings | js/app.js:99-108 | the sidebar `reduce`: defined by its body; characterised by `LoadHeadingsIsMap` and `LoadHeadingsAppend` |
| Sidebar.LoadHeadingsIsMap | js/app.js:99-108 | the sidebar has one item per heading, item `k` made from heading `k` |
| Sidebar.LoadHeadingsAppend | js/app.js:100-107 | the fold over two lists in a row is the two folds in a row |
| Sidebar.ItemForSpec | js/app.js:102-104 | an item links to `#` plus the id the heading hook puts on the heading. It keeps the heading's text, and its class is `level-` followed by digits that parse back to the level. |
| Sidebar.ItemAnchor | js/app.js:102-104 | an item's link is `#` followed by `[a-z0-9_-]`, with no `--` and no trailing `-` |
| Sidebar.PageSidebarLinks | js/app.js:77 | every sidebar link of a page has that shape |
| Theme.ResolveMode | js/app.js:129-143 | the mode is `dark` or `light`. A non-empty stored value decides, `dark` exactly when it is `"dark"`. Otherwise the system preference decides. |
| Theme.Toggled | js/app.js:164-171 | the switch gives `dark` exactly when the mode was not `dark` |
| Theme.ToggleTwice | js/app.js:164-171 | two presses restore a mode that `loadTheme` can write |
| Theme.ToggleSurvivesReload | js/app.js:139-141 | after a press, loading the theme again gives the mode the press stored, whatever the system preference |
| Theme.ThemeManager.constructor | js/app.js:131 | the stored value is the given one and no theme is set yet |
| Theme.ThemeManager.LoadTheme | js/app.js:129-143 | the theme attribute becomes the resolved mode, and the stored value is untouched |
| Theme.ThemeManager.Toggle | js/app.js:164-171 | the theme attribute is flipped and the new mode is stored |
| Theme.LoadToggleTwiceReload | js/app.js:129-171 | load, two presses and a new load end in the mode first loaded |
| Fragment.WriteHash | js/app.js:81 | `#p=${pageIndex}`: defined by its body; characterised by `ParseWrittenHash` |
| Fragment.ParseHash | js/app.js:201-203 | the fragment parse: defined by its body; characterised by `ParseWrittenHash`, `NoHashIsZero`, `NoEqualsIsZero`, `KeyIgnored` and `EmptyIndexIsNaN` |
| Fragment.ParseWrittenHash | js/app.js:201-203 | reading back `#p=<i>` gives `i` |
| Fragment.DropHash | js/app.js:202 | `replace("#", "")` removes the leading `#` |
| Fragment.NoHashIsZero | js/app.js:201-203 | without a fragment, the index is 0 |
| Fragment.NoEqualsIsZero | js/app.js:201-203 | a fragment without `=` gives index 0 |
| Fragment.KeyIgnored | js/app.js:201-203 | the key before `=` is not looked at: `#key=value` gives `parseInt(value)` |
| Fragment.EmptyIndexIsNaN | js/app.js:201-203 | `#p=` gives `NaN` |
| PageLoader.NotFoundMessage | js/app.js:83-87 | the 404 message: defined by its body; characterised by `NotFoundNamesPath` and `MessagesAgreeWithoutSubsection` |
| PageLoader.FetchErrorMessage | js/app.js:90-95 | the catch message: defined by its body; characterised by `FetchErrorDoubleSlash` and `MessagesAgreeWithoutSubsection` |
| PageLoader.NotFoundNamesPath | js/app.js:83-87 | for `root/section/sub/name.md` the 404 message names `section/sub/name` |
| PageLoader.FetchErrorDoubleSlash | js/app.js:90-95 | for the same path the catch message names `section//subname` |
| PageLoader.MessagesAgreeWithoutSubsection | js/app.js:83-95 | without a subsection both messages name `section/page` |
| PageLoader.Viewer.constructor | js/app.js:8 | the viewer starts with no pages, no navigation, and empty title, content and sidebar. It holds the given fragment and a fresh theme with the given stored value. |
| PageLoader.Viewer.ReadPagesList | js/app.js:20-59 | the page list becomes the manifest's sorted `.md` entries. The navigation becomes the fold's result, and is unchanged with the throwing index reported when the fold throws. Nothing else changes. |
| PageLoader.Viewer.LoadPage | js/app.js:61-97 | with no page at the index, nothing changes. An `ok` response sets the title to the page name, the content to `# page` and the body, and the sidebar to the body's headings, and writes `#p=index`, which reads back as the index. A failed response writes the 404 message and a rejection the catch message, each leaving the title, sidebar and fragment as they were. |
| PageLoader.Viewer.InitialLoad | js/app.js:161-205 | the theme is loaded and the page list read. A throwing fold stops before any page, with the navigation, title, content, sidebar and fragment kept. Otherwise the navigation is written. A `NaN` or out-of-range index loads nothing and keeps the page state. A page the fragment names is shown with its title, content, sidebar and fragment, or gets the 404 or catch message with title, sidebar and fragment kept. |
| PageLoader.ReloadShowsSamePage | js/app.js:199-204 | starting again from the fragment a load wrote shows the same title, content, sidebar and fragment |

## Left out

- The network and promises: `fetch`, `Promise.all`, `await` and `response.json()`/`text()`. Each fetch is an input: the manifest as a list of strings, and a page as a `FetchResult`. The manifest's own fetch failing, and entries that are not strings, are not modelled.
- The cache mark `Date.now()` and the `?v=` query, and the `md/` prefix of page URLs. They only shape URLs that are never compared.
- `marked.parse`: the content pane holds the markdown handed to the renderer. The renderer hooks are modelled on their own (`Slugs.RenderImage`, `Slugs.RenderHeading`) and are not applied to that markdown.
- The HTML text of the navigation and sidebar lists. They are modelled as lists of entries with the same fields; the source escapes nothing in them either.
- `window.scrollTo`, the asides toggler (js/app.js:180-195, styles only) and the click delegation of the navigation list. The click is a call of `LoadPage` with the link's index.
- `localStorage` and `matchMedia`. They become the stored value and the `prefersDark` flag; a missing `matchMedia` is `prefersDark == false`.
- Concurrency: overlapping loads racing to write the page, and the unhandled rejection when an entry throws in the fold.
- JsString.Lower: lower-cases the ASCII letters only, because non-ASCII case mapping is a Unicode table outside the model.
- JsString.Decimal: writes every `nat` as positional digits. JavaScript writes numbers from 1e21 up in exponent form, which no page index or heading level reaches.
- JsString.ParseInt: reads leading decimal digits only. Leading white space, a sign and the `0x` prefix are not modelled; the fragment the viewer writes has none of them, but a fragment typed or bookmarked by hand can. For `#p=+2` the code loads page 2 where the model gives `NaN`, and for `#p=0x1` the code loads page 1 where the model gives page 0.
- Strings are sequences of code points, while JavaScript sorts and matches UTF-16 code units. The two agree on text without characters outside the Basic Multilingual Plane.
- `Slugs.RenderHeading` takes the heading text as given. What the renderer passes for a heading with inline markup may differ from the text `extractHeadings` reports.
