/**
 * Whole pages through `extractHeadings`: a page with a link in a heading and a code
 * block, a heading whose white space crosses a line break, and the scan of one
 * heading line in general.
 */
module HeadingExamples {
  import opened JsString
  import opened Headings

  /** A non-empty run of `\w` characters. */
  ghost predicate Word(x: string) {
    |x| >= 1 && forall i :: 0 <= i < |x| ==> IsWordChar(x[i])
  }

  /** `HeadingLine` for a page `s` written as `pre`, the hash signs, the white space,
      the text, a newline and the rest; `p`, `h`, `w` and `e` are the positions and
      lengths `HeadingLine` takes. */
  lemma HeadingLineOf(s: string, pre: string, hashes: string, ws: string, txt: string, rest: string,
                      p: nat, h: nat, w: nat, e: nat)
    requires s == pre + hashes + ws + txt + "\n" + rest
    requires p == |pre| && h == |hashes| && w == |ws| && e == p + h + w + |txt|
    requires |pre| == 0 || IsLineTerminator(pre[|pre| - 1])
    requires |hashes| >= 1 && forall i :: 0 <= i < |hashes| ==> hashes[i] == '#'
    requires |ws| >= 1 && forall i :: 0 <= i < |ws| ==> IsWhiteSpace(ws[i])
    requires |txt| >= 1 && !IsWhiteSpace(txt[0])
    requires forall i :: 0 <= i < |txt| ==> !IsLineTerminator(txt[i])
    ensures e < |s| && ScanStep(s, p, HeadingMatch(p, h, p + h + w, e), e + 1)
    ensures s[p + h + w..e] == txt
  {
    LineChars(s, pre, hashes, ws, txt, rest, p, h, w, e);
    HeadingLine(s, p, h, w, e);
  }

  lemma LineChars(s: string, pre: string, hashes: string, ws: string, txt: string, rest: string,
                  p: nat, h: nat, w: nat, e: nat)
    requires s == pre + hashes + ws + txt + "\n" + rest
    requires p == |pre| && h == |hashes| && w == |ws| && e == p + h + w + |txt|
    requires |pre| == 0 || IsLineTerminator(pre[|pre| - 1])
    requires |hashes| >= 1 && forall i :: 0 <= i < |hashes| ==> hashes[i] == '#'
    requires |ws| >= 1 && forall i :: 0 <= i < |ws| ==> IsWhiteSpace(ws[i])
    requires |txt| >= 1 && !IsWhiteSpace(txt[0])
    requires forall i :: 0 <= i < |txt| ==> !IsLineTerminator(txt[i])
    ensures p + h + w < e < |s| && h >= 1 && w >= 1 && AtLineStart(s, p)
    ensures forall i :: p <= i < p + h ==> s[i] == '#'
    ensures forall i :: p + h <= i < p + h + w ==> IsWhiteSpace(s[i])
    ensures !IsWhiteSpace(s[p + h + w])
    ensures forall i :: p + h + w <= i < e ==> !IsLineTerminator(s[i])
    ensures IsLineTerminator(s[e]) && txt == s[p + h + w..e]
  {
    forall i | p <= i < p + h ensures s[i] == '#' {
      assert s[i] == hashes[i - p];
    }
    forall i | p + h <= i < p + h + w ensures IsWhiteSpace(s[i]) {
      assert s[i] == ws[i - p - h];
    }
    forall i | p + h + w <= i < e ensures !IsLineTerminator(s[i]) {
      assert s[i] == txt[i - p - h - w];
    }
    assert s[p + h + w] == txt[0];
    assert s[e] == '\n';
    if p > 0 {
      assert s[p - 1] == pre[p - 1];
    }
    assert s[p + h + w..e] == txt by {
      forall i | 0 <= i < |txt| ensures s[p + h + w..e][i] == txt[i] {
        assert s[p + h + w + i] == txt[i];
      }
    }
  }

  /** Two heading lines, the second with a link, then a code block holding a `#`
      line: the outline has the two headings, the link reduced to its label, and
      nothing from the code block. */
  lemma PageOutline(a: string, b: string, c: string, d: string, e: string)
    requires Word(a) && Word(b) && Word(c)
    requires |d| >= 1 && forall i :: 0 <= i < |d| ==> !IsLineTerminator(d[i]) && d[i] != '`'
    requires '`' !in e
    ensures ExtractHeadings("# " + a + "\n## " + b + " [" + c + "](" + d + ")\n" + Fence + "\n# " + e + "\n" + Fence)
      == [Heading(1, a), Heading(2, b + " " + c)]
  {
    var x := "# " + a + "\n## " + b + " [" + c + "](" + d + ")\n";
    var t := b + " " + "[" + c + "](" + d + ")" + "";
    var first := "# " + a + "\n";
    LinkLineChars(b, c, d);
    assert x == "" + "#" + " " + a + "\n" + ("##" + " " + t + "\n" + "");
    assert x == first + "##" + " " + t + "\n" + "";
    assert StripFences("# " + a + "\n## " + b + " [" + c + "](" + d + ")\n" + Fence + "\n# " + e + "\n" + Fence) == x by {
      NoFenceInPage(a, b, c, d);
      assert "# " + a + "\n## " + b + " [" + c + "](" + d + ")\n" + Fence + "\n# " + e + "\n" + Fence
        == x + Fence + ("\n# " + e + "\n") + Fence + "";
      FencedBlockRemoved(x, "\n# " + e + "\n", "");
      StripFencesNoFence("");
    }
    var e1, p2 := 2 + |a|, 3 + |a|;
    var e2 := p2 + 3 + |t|;
    var m1 := HeadingMatch(0, 1, 0 + 1 + 1, e1);
    var m2 := HeadingMatch(p2, 2, p2 + 2 + 1, e2);
    HeadingLineOf(x, "", "#", " ", a, "##" + " " + t + "\n" + "", 0, 1, 1, e1);
    HeadingLineOf(x, first, "##", " ", t, "", p2, 2, 1, e2);
    ScanPair(x, m1, e1 + 1, m2, e2 + 1);
    ExtractHeadingsOf("# " + a + "\n## " + b + " [" + c + "](" + d + ")\n" + Fence + "\n# " + e + "\n" + Fence, x, [m1, m2]);
    OutlinePair(x, m1, m2);
    RewriteLinkNoBracket(a);
    RewriteLinkLabel(b + " ", c, d, "");
    assert b + " " + c + "" == b + " " + c;
  }

  lemma LinkLineChars(b: string, c: string, d: string)
    requires Word(b) && Word(c)
    requires |d| >= 1 && forall i :: 0 <= i < |d| ==> !IsLineTerminator(d[i])
    ensures var t := b + " " + "[" + c + "](" + d + ")" + "";
      && |t| >= 1 && !IsWhiteSpace(t[0])
      && (forall i :: 0 <= i < |t| ==> !IsLineTerminator(t[i]))
      && '[' !in b + " " && ']' !in c
  {
    var t := b + " " + "[" + c + "](" + d + ")" + "";
    assert t[0] == b[0];
    forall i | 0 <= i < |t| ensures !IsLineTerminator(t[i]) {
      if i < |b| {
        assert t[i] == b[i];
      } else if |b| + 2 <= i < |b| + 2 + |c| {
        assert t[i] == c[i - |b| - 2];
      } else if |b| + |c| + 4 <= i < |b| + |c| + 4 + |d| {
        assert t[i] == d[i - |b| - |c| - 4];
      }
    }
  }

  lemma NoFenceInPage(a: string, b: string, c: string, d: string)
    requires Word(a) && Word(b) && Word(c)
    requires forall i :: 0 <= i < |d| ==> d[i] != '`'
    ensures '`' !in "# " + a + "\n## " + b + " [" + c + "](" + d + ")\n"
  {
  }

  lemma HashLineChars(a: string)
    requires Word(a)
    ensures '`' !in "#\n# " + a + "\n"
    ensures "#\n# " + a + "\n" == "" + "#" + "\n" + ("# " + a) + "\n" + ""
    ensures ("# " + a)[0] == '#' && forall i :: 0 <= i < |"# " + a| ==> !IsLineTerminator(("# " + a)[i])
  {
    var txt := "# " + a;
    forall i | 0 <= i < |txt| ensures !IsLineTerminator(txt[i]) {
      if i >= 2 {
        assert txt[i] == a[i - 2];
      }
    }
  }

  /** `\s+` crosses a line break: a lone `#` line takes the next line as its text,
      hash sign included, and that line is not a heading of its own. */
  lemma HashLineTakesNextLine(a: string)
    requires Word(a)
    ensures ExtractHeadings("#\n# " + a + "\n") == [Heading(1, "# " + a)]
  {
    var s := "#\n# " + a + "\n";
    var txt := "# " + a;
    HashLineChars(a);
    var e1 := 4 + |a|;
    var m := HeadingMatch(0, 1, 0 + 1 + 1, e1);
    HeadingLineOf(s, "", "#", "\n", txt, "", 0, 1, 1, e1);
    ScanSingle(s, m, e1 + 1);
    StripFencesNoFence(s);
    ExtractHeadingsOf(s, s, [m]);
    OutlineSingle(s, m);
    RewriteLinkNoBracket(txt);
  }
}
