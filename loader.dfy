/**
 * The page loader: `readPagesList` (js/app.js:20-59), `loadPage` (js/app.js:61-97)
 * and `initialLoad` (js/app.js:161-205), over the values they write into the page.
 * The network, the markdown renderer and the document are outside the model: a fetch
 * is an input (`FetchResult`), and the markdown handed to the renderer is stored as it
 * is.
 */
module PageLoader {
  import opened Wrappers
  import opened JsString
  import opened LexOrder
  import opened PathSplitter
  import opened Navigation
  import opened Sidebar
  import opened Fragment
  import opened Theme

  /** `${x}` for a value that may be `undefined`. */
  function Interpolate(o: Option<string>): string {
    if o.Some? then o.value else "undefined"
  }

  /** The markdown of the not-found branch: `section/sub/page`, the `sub/` part only for a
      truthy subsection. */
  function NotFoundMessage(parts: PathParts): string {
    "# Error loading page '" + Interpolate(parts.section) + "/"
      + (if Truthy(parts.subSection) then parts.subSection.value + "/" else "")
      + parts.page + "': 404"
  }

  /** The markdown of the catch branch: `section/`, then `/sub` for a truthy subsection,
      then the page, then the error's text. */
  function FetchErrorMessage(parts: PathParts, error: string): string {
    "# Error loading '" + Interpolate(parts.section) + "/"
      + (if Truthy(parts.subSection) then "/" + parts.subSection.value else "")
      + parts.page + "': " + error
  }

  /** For `root/section/sub/name.md` the not-found message names `section/sub/name`. */
  lemma NotFoundNamesPath(root: string, section: string, sub: string, name: string)
    requires '/' !in root && '/' !in section && '/' !in sub && '/' !in name && '.' !in name
    requires sub != ""
    ensures NotFoundMessage(SplitPath(root + "/" + section + "/" + sub + "/" + name + ".md"))
      == "# Error loading page '" + section + "/" + sub + "/" + name + "': 404"
  {
    SplitPathSubsectionPage(root, section, sub, name);
  }

  /** For the same path the catch branch writes `section//subname`: the separator after
      the subsection is put before it instead. */
  lemma FetchErrorDoubleSlash(root: string, section: string, sub: string, name: string, error: string)
    requires '/' !in root && '/' !in section && '/' !in sub && '/' !in name && '.' !in name
    requires sub != ""
    ensures FetchErrorMessage(SplitPath(root + "/" + section + "/" + sub + "/" + name + ".md"), error)
      == "# Error loading '" + section + "//" + sub + name + "': " + error
  {
    SplitPathSubsectionPage(root, section, sub, name);
    assert section + "/" + ("/" + sub) == section + "//" + sub;
  }

  /** Without a subsection both branches name the page as `section/page`. */
  lemma MessagesAgreeWithoutSubsection(parts: PathParts, error: string)
    requires !Truthy(parts.subSection)
    ensures var path := Interpolate(parts.section) + "/" + parts.page;
      && NotFoundMessage(parts) == "# Error loading page '" + path + "': 404"
      && FetchErrorMessage(parts, error) == "# Error loading '" + path + "': " + error
  {
    var sec := Interpolate(parts.section);
    assert sec + "/" + "" + parts.page == sec + "/" + parts.page;
  }

  /** What the fetch of a page gives: the body of an `ok` response, a response that is not
      `ok`, or a rejection (of the fetch or of reading the body) with its text. */
  datatype FetchResult = Loaded(body: string) | NotOk | Failed(error: string)

  /** How a call of `loadPage` ends. `NoSuchPage`: the index names no page, so
      `splitPath(undefined)` throws before anything is fetched. */
  datatype LoadOutcome = Shown | NotFound | FetchFailed | NoSuchPage

  /** The state the viewer keeps and writes: the page list, the navigation list, the
      document title, the markdown handed to the renderer for the content pane, the
      heading sidebar, the location fragment, and the theme. */
  class Viewer {
    var pages: seq<string>
    var navigation: seq<NavEntry>
    var title: string
    var content: string
    var sidebar: seq<SidebarItem>
    var hash: string
    const theme: ThemeManager

    constructor (stored: Option<string>, hash: string)
      ensures pages == [] && navigation == [] && title == "" && content == "" && sidebar == []
      ensures this.hash == hash
      ensures fresh(theme) && theme.stored == stored
    {
      pages := [];
      navigation := [];
      title := "";
      content := "";
      sidebar := [];
      this.hash := hash;
      theme := new ThemeManager(stored);
    }

    /** `readPagesList` on the manifest the fetch returned: `pages` is reassigned to the
        manifest, its `.md` entries and their sorted order; then the navigation list is
        written, unless the fold throws at some entry, whose index is returned. */
    method ReadPagesList(manifest: seq<string>) returns (thrown: Option<nat>)
      modifies this
      ensures pages == Pages(manifest)
      ensures thrown.None? <==> BuildNav(pages).Ok?
      ensures thrown.Some? ==> BuildNav(pages) == Err(thrown.value) && navigation == old(navigation)
      ensures thrown.None? ==> navigation == BuildNav(pages).value
      ensures title == old(title) && content == old(content) && sidebar == old(sidebar) && hash == old(hash)
    {
      pages := manifest;
      pages := FilterMarkdown(pages);
      pages := SortStrings(pages);
      var nav := BuildNav(pages);
      if nav.Ok? {
        navigation := nav.value;
        thrown := None;
      } else {
        thrown := Some(nav.error);
      }
    }

    /** `loadPage(index)` once the fetch of the page's file has given `response`.  An
        `ok` response sets the title to the page name, hands `# page` and the body to the
        renderer, fills the sidebar from the body's headings and writes `#p=index` to the
        fragment, so that reading the fragment back gives `index`. */
    method LoadPage(index: nat, response: FetchResult) returns (outcome: LoadOutcome)
      modifies this
      ensures pages == old(pages) && navigation == old(navigation)
      ensures index >= |pages| ==>
        && outcome == NoSuchPage
        && title == old(title) && content == old(content) && sidebar == old(sidebar) && hash == old(hash)
      ensures index < |pages| && response.Loaded? ==>
        var parts := SplitPath(pages[index]);
        && outcome == Shown
        && title == parts.page
        && content == "# " + parts.page + "\n" + response.body
        && sidebar == PageSidebar(response.body)
        && hash == WriteHash(index)
        && ParseHash(hash) == Number(index)
      ensures index < |pages| && response.NotOk? ==>
        && outcome == NotFound
        && content == NotFoundMessage(SplitPath(pages[index]))
        && title == old(title) && sidebar == old(sidebar) && hash == old(hash)
      ensures index < |pages| && response.Failed? ==>
        && outcome == FetchFailed
        && content == FetchErrorMessage(SplitPath(pages[index]), response.error)
        && title == old(title) && sidebar == old(sidebar) && hash == old(hash)
    {
      if index >= |pages| {
        return NoSuchPage;
      }
      var parts := SplitPath(pages[index]);
      match response
      case Loaded(body) =>
        title := parts.page;
        content := "# " + parts.page + "\n" + body;
        sidebar := PageSidebar(body);
        hash := WriteHash(index);
        ParseWrittenHash(index);
        outcome := Shown;
      case NotOk =>
        content := NotFoundMessage(parts);
        outcome := NotFound;
      case Failed(error) =>
        content := FetchErrorMessage(parts, error);
        outcome := FetchFailed;
    }

    /** `initialLoad`: load the theme, read the page list, then load the page the
        fragment names.  When the navigation fold throws, the start-up stops before the
        navigation or any page is written (`None`); a fragment index that is `NaN` or past
        the list names no page, and nothing more is written. */
    method InitialLoad(prefersDark: bool, manifest: seq<string>, response: FetchResult)
      returns (outcome: Option<LoadOutcome>)
      modifies this, theme
      ensures theme.theme == ResolveMode(old(theme.stored), prefersDark) && theme.stored == old(theme.stored)
      ensures pages == Pages(manifest)
      ensures outcome.None? <==> BuildNav(pages).Err?
      ensures outcome.None? ==>
        && navigation == old(navigation)
        && title == old(title) && content == old(content) && sidebar == old(sidebar) && hash == old(hash)
      ensures outcome.Some? ==> navigation == BuildNav(pages).value
      ensures outcome.Some? && (ParseHash(old(hash)).NaN? || ParseHash(old(hash)).n >= |pages|) ==>
        && outcome == Some(NoSuchPage)
        && title == old(title) && content == old(content) && sidebar == old(sidebar) && hash == old(hash)
      ensures outcome.Some? && ParseHash(old(hash)).Number? && ParseHash(old(hash)).n < |pages| && response.Loaded? ==>
        var i := ParseHash(old(hash)).n;
        && outcome == Some(Shown)
        && title == SplitPath(pages[i]).page
        && content == "# " + SplitPath(pages[i]).page + "\n" + response.body
        && sidebar == PageSidebar(response.body)
        && hash == WriteHash(i)
      ensures outcome.Some? && ParseHash(old(hash)).Number? && ParseHash(old(hash)).n < |pages| && response.NotOk? ==>
        var i := ParseHash(old(hash)).n;
        && outcome == Some(NotFound)
        && content == NotFoundMessage(SplitPath(pages[i]))
        && title == old(title) && sidebar == old(sidebar) && hash == old(hash)
      ensures outcome.Some? && ParseHash(old(hash)).Number? && ParseHash(old(hash)).n < |pages| && response.Failed? ==>
        var i := ParseHash(old(hash)).n;
        && outcome == Some(FetchFailed)
        && content == FetchErrorMessage(SplitPath(pages[i]), response.error)
        && title == old(title) && sidebar == old(sidebar) && hash == old(hash)
    {
      theme.LoadTheme(prefersDark);
      var thrown := ReadPagesList(manifest);
      if thrown.Some? {
        return None;
      }
      var page := ParseHash(hash);
      match page
      case NaN =>
        outcome := Some(NoSuchPage);
      case Number(i) =>
        var r := LoadPage(i, response);
        outcome := Some(r);
    }
  }

  /** A page shown after clicking its link comes back after a reload: starting with the
      fragment the load wrote shows the same page again. */
  method ReloadShowsSamePage(manifest: seq<string>, index: nat, body: string, prefersDark: bool)
    returns (first: LoadOutcome, again: Option<LoadOutcome>, v: Viewer, w: Viewer)
    ensures (v.pages == Pages(manifest) && index < |v.pages| && BuildNav(v.pages).Ok?) ==>
      && first == Shown
      && again == Some(Shown)
      && w.title == v.title && w.content == v.content && w.sidebar == v.sidebar && w.hash == v.hash
  {
    v := new Viewer(None, "");
    var thrown := v.ReadPagesList(manifest);
    first := v.LoadPage(index, Loaded(body));
    w := new Viewer(None, v.hash);
    again := w.InitialLoad(prefersDark, manifest, Loaded(body));
    if v.pages == Pages(manifest) && index < |v.pages| && BuildNav(v.pages).Ok? {
      assert ParseHash(v.hash) == Number(index);
    }
  }
}
