/**
 * Slugs: `headingId` (js/app.js:122-127) and the renderer hooks for images and
 * headings (js/app.js:145-159).  A slug lower-cases the text and turns every run
 * of non-word characters into one `-`.
 */
module Slugs {
  import opened Wrappers
  import opened JsString

  /** The number of non-word characters at the start of `s`. */
  function NonWordRun(s: string): (n: nat)
    ensures n <= |s|
    ensures forall k :: 0 <= k < n ==> !IsWordChar(s[k])
    ensures n < |s| ==> IsWordChar(s[n])
  {
    if s != [] && !IsWordChar(s[0]) then 1 + NonWordRun(s[1..]) else 0
  }

  /** `.replace(/[^\w]+/g, "-")`. */
  function CollapseNonWord(s: string): string
    decreases |s|
  {
    if s == [] then []
    else if IsWordChar(s[0]) then [s[0]] + CollapseNonWord(s[1..])
    else "-" + CollapseNonWord(s[NonWordRun(s)..])
  }

  /** The shape of a collapsed text: word characters and `-`, and every `-` is last or
      followed by a word character. */
  predicate SlugShaped(r: string) {
    forall i :: 0 <= i < |r| ==>
      (IsWordChar(r[i]) || r[i] == '-') && (r[i] == '-' && i + 1 < |r| ==> IsWordChar(r[i + 1]))
  }

  /** The word characters of a text, in order. */
  function WordChars(s: string): (w: string)
    ensures forall k :: 0 <= k < |w| ==> IsWordChar(w[k])
  {
    if s == [] then [] else (if IsWordChar(s[0]) then [s[0]] else []) + WordChars(s[1..])
  }

  lemma {:induction false} WordCharsOfNonWordRun(s: string, n: nat)
    requires n <= |s| && forall k :: 0 <= k < n ==> !IsWordChar(s[k])
    ensures WordChars(s) == WordChars(s[n..])
  {
    if n > 0 {
      assert s[1..][n - 1..] == s[n..];
      WordCharsOfNonWordRun(s[1..], n - 1);
    }
  }

  /** Collapsing keeps every word character in order, adds only `-` between runs of them,
      and leaves text that is already collapsed as it is. */
  lemma CollapseSpec(s: string)
    ensures var r := CollapseNonWord(s);
      SlugShaped(r)
      && WordChars(r) == WordChars(s)
      && (r == [] <==> s == [])
      && (r != [] ==> (r[0] == '-' <==> !IsWordChar(s[0])))
      && (r != [] ==> (r[|r| - 1] == '-' <==> !IsWordChar(s[|s| - 1])))
  {
    CollapseShaped(s);
    CollapseWordChars(s);
    CollapseHead(s);
    CollapseLast(s);
  }

  /** The first character of a collapsed text: the text's own when it is a word
      character, `-` otherwise. */
  lemma CollapseHead(s: string)
    ensures var r := CollapseNonWord(s);
      && (r == [] <==> s == [])
      && (r != [] && IsWordChar(s[0]) ==> r[0] == s[0])
      && (r != [] && !IsWordChar(s[0]) ==> r[0] == '-')
  {
  }

  lemma {:induction false} CollapseLast(s: string)
    ensures var r := CollapseNonWord(s);
      r != [] ==> (r[|r| - 1] == '-' <==> !IsWordChar(s[|s| - 1]))
    decreases |s|
  {
    if s != [] {
      var r := CollapseNonWord(s);
      if IsWordChar(s[0]) {
        var t := CollapseNonWord(s[1..]);
        CollapseLast(s[1..]);
        CollapseHead(s[1..]);
        assert r == [s[0]] + t;
        if t != [] {
          assert s[|s| - 1] == s[1..][|s[1..]| - 1];
        }
      } else {
        var n := NonWordRun(s);
        var t := CollapseNonWord(s[n..]);
        CollapseLast(s[n..]);
        CollapseHead(s[n..]);
        assert r == "-" + t;
        if t != [] {
          assert s[|s| - 1] == s[n..][|s[n..]| - 1];
        }
      }
    }
  }

  lemma {:induction false} CollapseShaped(s: string)
    ensures SlugShaped(CollapseNonWord(s))
    decreases |s|
  {
    if s != [] {
      if IsWordChar(s[0]) {
        CollapseShaped(s[1..]);
        ShapedCons(s[0], CollapseNonWord(s[1..]));
      } else {
        var n := NonWordRun(s);
        CollapseShaped(s[n..]);
        CollapseHead(s[n..]);
        ShapedDash(CollapseNonWord(s[n..]));
      }
    }
  }

  lemma ShapedCons(c: char, t: string)
    requires IsWordChar(c) && SlugShaped(t)
    ensures SlugShaped([c] + t)
  {
    var r := [c] + t;
    forall i | 0 <= i < |r| ensures (IsWordChar(r[i]) || r[i] == '-') && (r[i] == '-' && i + 1 < |r| ==> IsWordChar(r[i + 1])) {
      if i > 0 { assert r[i] == t[i - 1]; }
      if i + 1 < |r| { assert r[i + 1] == t[i]; }
    }
  }

  lemma ShapedDash(t: string)
    requires SlugShaped(t) && (t == [] || IsWordChar(t[0]))
    ensures SlugShaped("-" + t)
  {
    var r := "-" + t;
    forall i | 0 <= i < |r| ensures (IsWordChar(r[i]) || r[i] == '-') && (r[i] == '-' && i + 1 < |r| ==> IsWordChar(r[i + 1])) {
      if i > 0 { assert r[i] == t[i - 1]; }
      if i + 1 < |r| { assert r[i + 1] == t[i]; }
    }
  }

  lemma {:induction false} CollapseWordChars(s: string)
    ensures WordChars(CollapseNonWord(s)) == WordChars(s)
    decreases |s|
  {
    if s != [] {
      if IsWordChar(s[0]) {
        CollapseWordChars(s[1..]);
        WordCharsCons(s[0], CollapseNonWord(s[1..]));
      } else {
        var n := NonWordRun(s);
        CollapseWordChars(s[n..]);
        WordCharsCons('-', CollapseNonWord(s[n..]));
        WordCharsOfNonWordRun(s, n);
      }
    }
  }

  lemma WordCharsCons(c: char, t: string)
    ensures WordChars([c] + t) == (if IsWordChar(c) then [c] else []) + WordChars(t)
  {
    assert ([c] + t)[1..] == t;
  }

  lemma {:induction false} CollapseOfSlug(r: string)
    requires SlugShaped(r)
    ensures CollapseNonWord(r) == r
  {
    if r != [] {
      assert SlugShaped(r[1..]) by {
        forall i | 0 <= i < |r[1..]| ensures
          (IsWordChar(r[1..][i]) || r[1..][i] == '-') && (r[1..][i] == '-' && i + 1 < |r[1..]| ==> IsWordChar(r[1..][i + 1]))
        {
          assert r[1..][i] == r[i + 1];
          if i + 1 < |r[1..]| { assert r[1..][i + 1] == r[i + 2]; }
        }
      }
      CollapseOfSlug(r[1..]);
      if !IsWordChar(r[0]) {
        assert NonWordRun(r) == 1 by {
          if |r| > 1 { assert IsWordChar(r[1]); }
        }
        assert r == "-" + r[1..];
      } else {
        assert r == [r[0]] + r[1..];
      }
    }
  }

  /** The `alt`/`title` slug of the image hook: lower-case, then collapse. */
  function ImageSlug(t: string): string {
    CollapseNonWord(Lower(t))
  }

  /** `.replace(/-$/, "")`: one trailing `-` goes. */
  function StripTrailingDash(x: string): string {
    if x != [] && x[|x| - 1] == '-' then x[..|x| - 1] else x
  }

  /** `headingId`: lower-case, collapse, strip one trailing `-`. */
  function HeadingId(t: string): string {
    StripTrailingDash(ImageSlug(t))
  }

  /** The identifier uses only `[a-z0-9_-]`, never holds two `-` in a row, never ends
      with `-`, and keeps every word character of the lower-cased text in order. */
  lemma HeadingIdSpec(t: string)
    ensures var r := HeadingId(t);
      && (forall i :: 0 <= i < |r| ==> ('a' <= r[i] <= 'z') || IsDigit(r[i]) || r[i] == '_' || r[i] == '-')
      && (forall i :: 0 <= i < |r| - 1 ==> !(r[i] == '-' && r[i + 1] == '-'))
      && (r != [] ==> r[|r| - 1] != '-')
      && WordChars(r) == WordChars(Lower(t))
  {
    var x := ImageSlug(t);
    CollapseShaped(Lower(t));
    CollapseWordChars(Lower(t));
    ImageSlugChars(t);
    StripDashChars(x);
    StripDashShaped(x);
    StripDashWordChars(x);
  }

  /** Stripping keeps only characters of the slug. */
  lemma StripDashChars(x: string)
    requires forall i :: 0 <= i < |x| ==> ('a' <= x[i] <= 'z') || IsDigit(x[i]) || x[i] == '_' || x[i] == '-'
    ensures var r := StripTrailingDash(x);
      forall i :: 0 <= i < |r| ==> ('a' <= r[i] <= 'z') || IsDigit(r[i]) || r[i] == '_' || r[i] == '-'
  {
    var r := StripTrailingDash(x);
    assert forall i :: 0 <= i < |r| ==> r[i] == x[i];
  }

  /** A stripped slug holds no `--` and does not end with `-`. */
  lemma StripDashShaped(x: string)
    requires SlugShaped(x)
    ensures var r := StripTrailingDash(x);
      && (forall i :: 0 <= i < |r| - 1 ==> !(r[i] == '-' && r[i + 1] == '-'))
      && (r != [] ==> r[|r| - 1] != '-')
  {
    var r := StripTrailingDash(x);
    assert forall i :: 0 <= i < |r| ==> r[i] == x[i];
  }

  lemma StripDashWordChars(x: string)
    ensures WordChars(StripTrailingDash(x)) == WordChars(x)
  {
    var r := StripTrailingDash(x);
    if r != x { WordCharsOfDash(r); assert x == r + "-"; }
  }

  lemma {:induction false} WordCharsOfDash(r: string)
    ensures WordChars(r + "-") == WordChars(r)
  {
    if r != [] {
      assert (r + "-")[1..] == r[1..] + "-";
      WordCharsOfDash(r[1..]);
    } else {
      assert WordChars("-") == [] + WordChars([]);
    }
  }

  lemma ImageSlugChars(t: string)
    ensures forall i :: 0 <= i < |ImageSlug(t)| ==>
      var c := ImageSlug(t)[i];
      ('a' <= c <= 'z') || IsDigit(c) || c == '_' || c == '-'
  {
    var l := Lower(t);
    CollapseSpec(l);
    var x := ImageSlug(t);
    forall i | 0 <= i < |x| ensures ('a' <= x[i] <= 'z') || IsDigit(x[i]) || x[i] == '_' || x[i] == '-' {
      if x[i] != '-' {
        CollapseChars(l, x[i]);
      }
    }
  }

  /** Collapsing invents no character but `-`. */
  lemma {:induction false} CollapseChars(s: string, c: char)
    requires c in CollapseNonWord(s) && c != '-'
    ensures c in s
  {
    var r := CollapseNonWord(s);
    if IsWordChar(s[0]) {
      if c != s[0] {
        assert r == [s[0]] + CollapseNonWord(s[1..]);
        CollapseChars(s[1..], c);
      }
    } else {
      var n := NonWordRun(s);
      assert r == "-" + CollapseNonWord(s[n..]);
      CollapseChars(s[n..], c);
    }
  }

  /** `headingId(t)` is `imageSlug(t)` less one `-`, which is there exactly when the
      text ends with a non-word character. */
  lemma HeadingIdVersusImageSlug(t: string)
    ensures t != [] && !IsWordChar(t[|t| - 1]) ==> ImageSlug(t) == HeadingId(t) + "-"
    ensures t == [] || IsWordChar(t[|t| - 1]) ==> ImageSlug(t) == HeadingId(t)
  {
    CollapseSpec(Lower(t));
    var x := ImageSlug(t);
    if x != [] && x[|x| - 1] == '-' {
      assert x == x[..|x| - 1] + "-";
    }
  }

  /** `headingId` is idempotent. */
  lemma HeadingIdIdempotent(t: string)
    ensures HeadingId(HeadingId(t)) == HeadingId(t)
  {
    var r := HeadingId(t);
    HeadingIdSpec(t);
    assert Lower(r) == r;
    assert SlugShaped(r);
    CollapseOfSlug(r);
  }

  /** Lower-casing keeps each character's word-character status. */
  lemma LowerKeepsWordChars(s: string)
    ensures forall k :: 0 <= k < |s| ==> (IsWordChar(Lower(s)[k]) <==> IsWordChar(s[k]))
  {
  }

  /** Lower-casing works character by character, so it distributes over concatenation. */
  lemma LowerAppend(a: string, b: string)
    ensures Lower(a + b) == Lower(a) + Lower(b)
  {
    assert forall i :: 0 <= i < |a + b| ==> Lower(a + b)[i] == (Lower(a) + Lower(b))[i];
  }

  /** A run of non-word characters between two words becomes exactly one `-` in the
      identifier, in its place: `headingId(w + x + rest)` is the lower-cased `w`, `-`,
      and the identifier of `rest`. */
  lemma HeadingIdRunBetween(w: string, x: string, rest: string)
    requires forall k :: 0 <= k < |w| ==> IsWordChar(w[k])
    requires x != [] && forall k :: 0 <= k < |x| ==> !IsWordChar(x[k])
    requires rest != [] && IsWordChar(rest[0])
    ensures HeadingId(w + x + rest) == Lower(w) + "-" + HeadingId(rest)
  {
    var lw, lx, lr := Lower(w), Lower(x), Lower(rest);
    LowerAppend(w + x, rest);
    LowerAppend(w, x);
    assert Lower(w + x + rest) == lw + (lx + lr);
    LowerKeepsWordChars(w);
    LowerKeepsWordChars(x);
    LowerKeepsWordChars(rest);
    CollapseWordsThen(lw, lx + lr);
    CollapseRunThen(lx, lr);
    var c := CollapseNonWord(lr);
    CollapseHead(lr);
    assert CollapseNonWord(lw + (lx + lr)) == (lw + "-") + c;
    StripDashAfter(lw + "-", c);
  }

  /** Only the last character of the whole text can be the `-` that is stripped. */
  lemma StripDashAfter(y: string, c: string)
    requires c != []
    ensures StripTrailingDash(y + c) == y + StripTrailingDash(c)
  {
    if c[|c| - 1] == '-' {
      assert (y + c)[..|y + c| - 1] == y + c[..|c| - 1];
    }
  }

  /** Two words joined by a space and followed by `!`: `headingId("Foo Bar!") == "foo-bar"`. */
  lemma HeadingIdTwoWords(w1: string, w2: string)
    requires w1 != [] && w2 != []
    requires forall k :: 0 <= k < |w1| ==> IsWordChar(w1[k])
    requires forall k :: 0 <= k < |w2| ==> IsWordChar(w2[k])
    ensures HeadingId(w1 + " " + w2 + "!") == Lower(w1) + "-" + Lower(w2)
  {
    var l1, l2 := Lower(w1), Lower(w2);
    LowerKeepsWordChars(w1);
    LowerKeepsWordChars(w2);
    LowerTwoWords(w1, w2);
    CollapseTwoWords(l1, l2);
    StripOneDash(l1 + "-" + l2);
  }

  lemma LowerTwoWords(w1: string, w2: string)
    ensures Lower(w1 + " " + w2 + "!") == Lower(w1) + ([' '] + (Lower(w2) + "!"))
  {
  }

  lemma CollapseTwoWords(l1: string, l2: string)
    requires l2 != []
    requires forall k :: 0 <= k < |l1| ==> IsWordChar(l1[k])
    requires forall k :: 0 <= k < |l2| ==> IsWordChar(l2[k])
    ensures CollapseNonWord(l1 + ([' '] + (l2 + "!"))) == l1 + "-" + l2 + "-"
  {
    var r2 := l2 + "!";
    assert r2[0] == l2[0];
    CollapseWordsThen(l2, "!");
    CollapseBang();
    CollapseOneNonWord(' ', r2);
    CollapseWordsThen(l1, [' '] + r2);
    Regroup(l1, l2);
  }

  lemma CollapseBang()
    ensures CollapseNonWord("!") == "-"
  {
    assert NonWordRun("!") == 1;
  }

  lemma Regroup(l1: string, l2: string)
    ensures l1 + ("-" + (l2 + "-")) == l1 + "-" + l2 + "-"
  {
  }

  lemma CollapseOneNonWord(c: char, rest: string)
    requires !IsWordChar(c) && rest != [] && IsWordChar(rest[0])
    ensures CollapseNonWord([c] + rest) == "-" + CollapseNonWord(rest)
  {
    assert NonWordRun([c] + rest) == 1 by {
      assert ([c] + rest)[1..] == rest;
    }
    assert ([c] + rest)[1..] == rest;
  }

  /** A non-empty run of non-word characters followed by a word character, or by the end
      of the text, becomes one `-`. */
  lemma CollapseRunThen(x: string, rest: string)
    requires x != [] && forall k :: 0 <= k < |x| ==> !IsWordChar(x[k])
    requires rest == [] || IsWordChar(rest[0])
    ensures CollapseNonWord(x + rest) == "-" + CollapseNonWord(rest)
  {
    var t := x + rest;
    assert t[0] == x[0];
    assert forall k :: 0 <= k < |x| ==> t[k] == x[k];
    RunOfNonWord(t, |x|);
    assert t[|x|..] == rest;
  }

  /** The non-word run is exactly the prefix of non-word characters that stops at a
      word character or at the end. */
  lemma {:induction false} RunOfNonWord(t: string, n: nat)
    requires n <= |t| && forall k :: 0 <= k < n ==> !IsWordChar(t[k])
    requires n == |t| || IsWordChar(t[n])
    ensures NonWordRun(t) == n
  {
    if n > 0 {
      assert t[1..][n - 1..] == t[n..];
      RunOfNonWord(t[1..], n - 1);
    }
  }

  lemma StripOneDash(y: string)
    ensures StripTrailingDash(y + "-") == y
  {
    assert (y + "-")[..|y|] == y;
  }

  lemma {:induction false} CollapseWordsThen(w: string, rest: string)
    requires forall k :: 0 <= k < |w| ==> IsWordChar(w[k])
    ensures CollapseNonWord(w + rest) == w + CollapseNonWord(rest)
  {
    if w != [] {
      assert (w + rest)[1..] == w[1..] + rest;
      CollapseWordsThen(w[1..], rest);
      assert (w + rest)[0] == w[0] && IsWordChar(w[0]);
      assert CollapseNonWord(w + rest) == [w[0]] + CollapseNonWord(w[1..] + rest);
      assert w == [w[0]] + w[1..];
    } else {
      assert w + rest == rest;
    }
  }

  lemma HeadingIdFooBar()
    ensures HeadingId("Foo Bar!") == "foo-bar"
  {
    LowerFooBar();
    HeadingIdTwoWords("Foo", "Bar");
    FooBarLiterals();
  }

  lemma FooBarLiterals()
    ensures "Foo" + " " + "Bar" + "!" == "Foo Bar!"
    ensures "foo" + "-" + "bar" == "foo-bar"
  {
  }

  lemma LowerFooBar()
    ensures forall k :: 0 <= k < |"Foo"| ==> IsWordChar("Foo"[k])
    ensures forall k :: 0 <= k < |"Bar"| ==> IsWordChar("Bar"[k])
    ensures Lower("Foo") == "foo" && Lower("Bar") == "bar"
  {
    LowerWordOf3('F', 'o', 'o');
    LowerWordOf3('B', 'a', 'r');
  }

  lemma LowerWordOf3(a: char, b: char, c: char)
    requires IsWordChar(a) && IsWordChar(b) && IsWordChar(c)
    ensures forall k :: 0 <= k < |[a, b, c]| ==> IsWordChar([a, b, c][k])
    ensures Lower([a, b, c]) == [ToLowerAscii(a), ToLowerAscii(b), ToLowerAscii(c)]
  {
  }

  /** What the image hook writes: a `<video>` with the source, or a lazy `<img>` with the
      source and slugged `title` and `alt`. */
  datatype Media = Video(src: string) | Image(src: string, title: string, alt: string)

  /** `href.match(/\.mp4$|\.webm$|\.ogg$/)`. */
  predicate IsVideoHref(href: string) {
    EndsWith(href, ".mp4") || EndsWith(href, ".webm") || EndsWith(href, ".ogg")
  }

  /** `renderer.image(href, title, text)`: a video exactly for the three video extensions;
      otherwise an image whose `alt` and `title` are slugs without the trailing-`-` strip,
      a missing title giving `""`. */
  function RenderImage(href: string, title: Option<string>, text: string): (m: Media)
    ensures m.src == href
    ensures m.Video? <==> IsVideoHref(href)
    ensures m.Image? ==> m.alt == ImageSlug(text)
    ensures m.Image? && title.None? ==> m.title == ""
    ensures m.Image? && title.Some? ==> m.title == ImageSlug(title.value)
  {
    var escapedText := ImageSlug(text);
    var escapedTitle := ImageSlug(if title.Some? then title.value else "");
    if IsVideoHref(href) then Video(href) else Image(href, escapedTitle, escapedText)
  }

  /** What the heading hook writes: `<h{level} id="{id}">{text}</h{level}>`. */
  datatype HeadingElement = HeadingElement(level: nat, id: string, text: string)

  /** `renderer.heading(text, level)`: the element carries `headingId(text)` as its id. */
  function RenderHeading(text: string, level: nat): (h: HeadingElement)
    ensures h.id == HeadingId(text) && h.level == level && h.text == text
  {
    HeadingElement(level, HeadingId(text), text)
  }
}
