/** `splitPath` (js/app.js:10-18): a manifest path into page name, section and subsection. */
module PathSplitter {
  import opened Wrappers
  import opened JsString

  /** The triple `[page, section, subSection]`; `section` is `None` when the path has no
      second segment (JavaScript `undefined`), `subSection` is `None` for `null`. */
  datatype PathParts = PathParts(page: string, section: Option<string>, subSection: Option<string>)

  /** `x.replace(".md", "")`: the first `.md` anywhere in `x` is removed. */
  function StripMd(x: string): string {
    ReplaceFirst(x, ".md", "")
  }

  function SplitPath(path: string): (p: PathParts)
    ensures p.section.None? <==> '/' !in path
    ensures p.subSection.Some? ==> p.section.Some?
    ensures '/' !in p.page
    ensures p.section.Some? ==> '/' !in p.section.value
    ensures p.subSection.Some? ==> '/' !in p.subSection.value
  {
    var fragments := Split(path, '/');
    SplitSingle(path, '/');
    var last := fragments[|fragments| - 1];
    var page := StripMd(last);
    assert '/' !in page by {
      if '/' in page { ReplaceFirstChars(last, ".md", "", '/'); }
    }
    PathParts(page,
              if |fragments| > 1 then Some(fragments[1]) else None,
              if |fragments| > 3 then Some(fragments[2]) else None)
  }

  /** For a path made of the segments `segs`: the page is the last segment with its first
      `.md` removed, the section is segment 1, and the subsection is segment 2 exactly when
      there are more than three segments. */
  lemma SplitPathOfSegments(segs: seq<string>)
    requires |segs| >= 1
    requires forall k :: 0 <= k < |segs| ==> '/' !in segs[k]
    ensures SplitPath(Join(segs, '/')) ==
              PathParts(StripMd(segs[|segs| - 1]),
                        if |segs| > 1 then Some(segs[1]) else None,
                        if |segs| > 3 then Some(segs[2]) else None)
  {
    SplitJoin(segs, '/');
  }

  /** A file name `name.md` whose stem has no dot gives the page `name`. */
  lemma StripMdOfFileName(name: string)
    requires '.' !in name
    ensures StripMd(name + ".md") == name
  {
    var s := name + ".md";
    assert s[..|name|] == name;
    assert s[|name|..] == ".md";
    ReplaceFirstAt(s, ".md", "", |name|);
    assert s[|name| + 3..] == [];
  }

  /** A name without a dot has no `.md` to remove. */
  lemma StripMdNoDot(name: string)
    requires '.' !in name
    ensures StripMd(name) == name
  {
    forall j: nat ensures !OccursAt(name, ".md", j) {
      if j + 3 <= |name| {
        assert name[j] in name;
      }
    }
    ReplaceFirstAbsent(name, ".md", "");
  }

  /** Only the first `.md` goes, wherever it is: `x.mdx.md` gives the page `xx.md`. */
  lemma StripMdRemovesFirstOnly()
    ensures StripMd("x.mdx.md") == "xx.md"
  {
    var s := "x.mdx.md";
    assert s[..1] == "x";
    assert s[4..] == "x.md";
    assert OccursAt(s, ".md", 1);
    ReplaceFirstAt(s, ".md", "", 1);
  }

  /** `root/section/name.md`: a section and no subsection. */
  lemma SplitPathSectionPage(root: string, section: string, name: string)
    requires '/' !in root && '/' !in section && '/' !in name && '.' !in name
    ensures SplitPath(root + "/" + section + "/" + name + ".md") == PathParts(name, Some(section), None)
  {
    var segs := [root, section, name + ".md"];
    assert segs[1..] == [section, name + ".md"];
    assert Join(segs[1..], '/') == section + "/" + (name + ".md");
    assert Join(segs, '/') == root + "/" + (section + "/" + (name + ".md"));
    assert Join(segs, '/') == root + "/" + section + "/" + name + ".md";
    SplitPathOfSegments(segs);
    StripMdOfFileName(name);
  }

  /** `root/section/sub/name.md`: a section and a subsection. */
  lemma SplitPathSubsectionPage(root: string, section: string, sub: string, name: string)
    requires '/' !in root && '/' !in section && '/' !in sub && '/' !in name && '.' !in name
    ensures SplitPath(root + "/" + section + "/" + sub + "/" + name + ".md") == PathParts(name, Some(section), Some(sub))
  {
    var segs := [root, section, sub, name + ".md"];
    assert segs[1..] == [section, sub, name + ".md"];
    assert segs[1..][1..] == [sub, name + ".md"];
    assert Join(segs[1..][1..], '/') == sub + "/" + (name + ".md");
    assert Join(segs[1..], '/') == section + "/" + (sub + "/" + (name + ".md"));
    assert Join(segs, '/') == root + "/" + (section + "/" + (sub + "/" + (name + ".md")));
    assert Join(segs, '/') == root + "/" + section + "/" + sub + "/" + name + ".md";
    SplitPathOfSegments(segs);
    StripMdOfFileName(name);
  }

  /** `root/name.md`: segment 1 is the file itself, so it is also the section. */
  lemma SplitPathFileAsSection(root: string, name: string)
    requires '/' !in root && '/' !in name && '.' !in name
    ensures SplitPath(root + "/" + name + ".md") == PathParts(name, Some(name + ".md"), None)
  {
    var segs := [root, name + ".md"];
    assert Join(segs, '/') == root + "/" + name + ".md";
    SplitPathOfSegments(segs);
    StripMdOfFileName(name);
  }

  /** Without a `/` there is no section: JavaScript's `undefined`. */
  lemma SplitPathBareFile(name: string)
    requires '/' !in name && '.' !in name
    ensures SplitPath(name + ".md") == PathParts(name, None, None)
  {
    var segs := [name + ".md"];
    assert Join(segs, '/') == name + ".md";
    SplitPathOfSegments(segs);
    StripMdOfFileName(name);
  }
}
