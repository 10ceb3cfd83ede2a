/**
 * `extractHeadings` (js/app.js:110-120): fenced code is deleted, the heading lines
 * are found with `/^(#+)\s+(.+)$/gm`, and a markdown link in a heading keeps only
 * its label.  Each regular expression is written out as string functions.
 */
module Headings {
  import opened Wrappers
  import opened JsString

  const Fence: string := "```"

  /** `pageContent.replace(/```[\s\S]*?```/g, "")`: from the first fence, delete up to
      and including the next fence, and go on after it; a fence with no partner after
      it stays, and so does everything after it. */
  function StripFences(s: string): string
    decreases |s|
  {
    match FencePair(s)
    case None => s
    case Some((i, j)) => s[..i] + StripFences(s[j + 3..])
  }

  /** The first fence and the next one that does not overlap it, when there are two. */
  function FencePair(s: string): (r: Option<(nat, nat)>)
    ensures r.Some? ==> r.value.0 + 3 <= r.value.1 && r.value.1 + 3 <= |s|
  {
    match FindFrom(s, Fence, 0)
    case None => None
    case Some(i) =>
      match FindFrom(s, Fence, i + 3)
      case None => None
      case Some(j) => Some((i, j))
  }

  /** No two fences are left that could pair up. */
  ghost predicate NoCompleteFence(r: string) {
    forall i: nat, j: nat :: i + 3 <= j && OccursAt(r, Fence, i) ==> !OccursAt(r, Fence, j)
  }

  /** A fence is three backticks in a row. */
  lemma FenceChars(s: string, x: nat)
    ensures OccursAt(s, Fence, x) <==> x + 3 <= |s| && s[x] == '`' && s[x + 1] == '`' && s[x + 2] == '`'
  {
    if x + 3 <= |s| && s[x] == '`' && s[x + 1] == '`' && s[x + 2] == '`' {
      assert s[x..x + 3] == [s[x], s[x + 1], s[x + 2]];
    }
    if OccursAt(s, Fence, x) {
      assert s[x] == s[x..x + 3][0];
      assert s[x + 1] == s[x..x + 3][1];
      assert s[x + 2] == s[x..x + 3][2];
    }
  }

  /** A fence in `s[..i] + rest` that starts before `i` would be a fence of `s` before its first one at `i`. */
  lemma FenceOfPiece(s: string, i: nat, rest: string, k: nat)
    requires OccursAt(s, Fence, i) && forall j: nat :: j < i ==> !OccursAt(s, Fence, j)
    requires OccursAt(s[..i] + rest, Fence, k)
    ensures k >= i && OccursAt(rest, Fence, k - i)
  {
    var r := s[..i] + rest;
    FenceChars(r, k);
    FenceChars(s, i);
    if k < i {
      FenceChars(s, k);
    } else {
      FenceChars(rest, k - i);
      assert r[k] == rest[k - i] && r[k + 1] == rest[k - i + 1] && r[k + 2] == rest[k - i + 2];
    }
  }

  /** Putting text without a fence before a fence-free remainder makes no pair. */
  lemma NoBlockOfPiece(s: string, i: nat, rest: string)
    requires OccursAt(s, Fence, i) && forall j: nat :: j < i ==> !OccursAt(s, Fence, j)
    requires NoCompleteFence(rest)
    ensures NoCompleteFence(s[..i] + rest)
  {
    var r := s[..i] + rest;
    forall a: nat, b: nat | a + 3 <= b && OccursAt(r, Fence, a) ensures !OccursAt(r, Fence, b) {
      FenceOfPiece(s, i, rest, a);
      if OccursAt(r, Fence, b) {
        FenceOfPiece(s, i, rest, b);
      }
    }
  }

  /** After the deletion no code block is left: any two remaining fences overlap. */
  lemma {:induction false} StripFencesLeavesNoBlock(s: string)
    ensures NoCompleteFence(StripFences(s))
    decreases |s|
  {
    var f := FindFrom(s, Fence, 0);
    FindFromIsFirst(s, Fence, 0);
    if f.None? {
      NoBlockWithoutPair(s, 0);
    } else {
      var i := f.value;
      var g := FindFrom(s, Fence, i + 3);
      FindFromIsFirst(s, Fence, i + 3);
      if g.None? {
        NoBlockWithoutPair(s, i);
      } else {
        StripFencesStep(s, i, g.value);
      }
    }
  }

  lemma {:induction false} StripFencesStep(s: string, i: nat, j: nat)
    requires FindFrom(s, Fence, 0) == Some(i) && FindFrom(s, Fence, i + 3) == Some(j)
    ensures NoCompleteFence(StripFences(s))
    decreases |s|, 0
  {
    var rest := StripFences(s[j + 3..]);
    FindFromIsFirst(s, Fence, 0);
    StripFencesLeavesNoBlock(s[j + 3..]);
    NoBlockOfPiece(s, i, rest);
    StripFencesPair(s, i, j);
  }

  /** The unfolding of `StripFences` at a complete pair. */
  lemma StripFencesPair(s: string, i: nat, j: nat)
    requires FindFrom(s, Fence, 0) == Some(i) && FindFrom(s, Fence, i + 3) == Some(j)
    ensures StripFences(s) == s[..i] + StripFences(s[j + 3..])
  {
    FencePairIs(s, i, j);
  }

  lemma FencePairIs(s: string, i: nat, j: nat)
    requires FindFrom(s, Fence, 0) == Some(i) && FindFrom(s, Fence, i + 3) == Some(j)
    ensures FencePair(s) == Some((i, j))
  {
  }

  /** Fences only from `i` on, and none from `i + 3` on, cannot pair up. */
  lemma NoBlockWithoutPair(s: string, i: nat)
    requires forall j: nat :: j < i ==> !OccursAt(s, Fence, j)
    requires forall j: nat :: i + 3 <= j ==> !OccursAt(s, Fence, j)
    ensures NoCompleteFence(s)
  {
  }

  /** Text without a fence is left as it is. */
  lemma StripFencesNoFence(s: string)
    requires '`' !in s
    ensures StripFences(s) == s
  {
    match FindFrom(s, Fence, 0)
    case None =>
    case Some(i) =>
      FenceChars(s, i);
  }

  /** The first fence of `a + Fence + b` is at `|a|` when `a` has no backtick. */
  lemma FirstFenceAt(a: string, rest: string)
    requires '`' !in a
    ensures FindFrom(a + Fence + rest, Fence, 0) == Some(|a|)
  {
    var s := a + Fence + rest;
    FenceChars(s, |a|);
    var f := FindFrom(s, Fence, 0);
    FindFromIsFirst(s, Fence, 0);
    if f.Some? && f.value < |a| {
      FenceChars(s, f.value);
    }
  }

  lemma NextFenceAt(a: string, b: string, rest: string)
    requires '`' !in b
    ensures FindFrom(a + Fence + b + Fence + rest, Fence, |a| + 3) == Some(|a| + 3 + |b|)
  {
    var s := a + Fence + b + Fence + rest;
    var lo := |a| + 3;
    FenceChars(s, lo + |b|);
    var f := FindFrom(s, Fence, lo);
    FindFromIsFirst(s, Fence, lo);
    if f.Some? && f.value < lo + |b| {
      FenceChars(s, f.value);
    }
  }

  /** A code block is deleted with everything in it, `#` lines included. */
  lemma FencedBlockRemoved(a: string, b: string, c: string)
    requires '`' !in a && '`' !in b
    ensures StripFences(a + Fence + b + Fence + c) == a + StripFences(c)
  {
    var s := a + Fence + b + Fence + c;
    assert s == a + Fence + (b + Fence + c);
    FirstFenceAt(a, b + Fence + c);
    NextFenceAt(a, b, c);
    assert s[..|a|] == a;
    assert s[|a| + 3 + |b| + 3..] == c;
  }

  /** A fence with no partner stays in place, with what follows it. */
  lemma UnmatchedFenceKept(a: string, b: string)
    requires '`' !in a && '`' !in b
    ensures StripFences(a + Fence + b) == a + Fence + b
  {
    var s := a + Fence + b;
    FirstFenceAt(a, b);
    var f := FindFrom(s, Fence, |a| + 3);
    if f.Some? {
      var k := f.value;
      FenceChars(s, k);
    }
  }

  /** `^` under the `m` flag: the start of the text or just after a line terminator. */
  predicate AtLineStart(s: string, p: nat)
    requires p <= |s|
  {
    p == 0 || IsLineTerminator(s[p - 1])
  }

  /** One match of `(#+)\s+(.+)$`: it starts at `start`, the captured text is
      `s[textStart..end]`, and the match ends at `end`. */
  datatype HeadingMatch = HeadingMatch(start: nat, level: nat, textStart: nat, end: nat)

  /** A way for `(#+)\s+(.+)$` (with `$` under the `m` flag) to match at `p`: `h` hash
      signs, `w` white-space characters and `l` characters of text that reach the end
      of the text or of the line. */
  ghost predicate Shape(s: string, p: nat, h: nat, w: nat, l: nat) {
    && p + h + w + l <= |s| && h >= 1 && w >= 1 && l >= 1
    && (forall i :: p <= i < p + h ==> s[i] == '#')
    && (forall i :: p + h <= i < p + h + w ==> IsWhiteSpace(s[i]))
    && (forall i :: p + h + w <= i < p + h + w + l ==> !IsLineTerminator(s[i]))
    && (p + h + w + l == |s| || IsLineTerminator(s[p + h + w + l]))
  }

  /** The match of `(#+)\s+(.+)$` at `p`, as backtracking finds it: all the hash signs,
      then the longest white space after which some text remains on its line.  When the
      white space runs to the end of the text, giving some of it back leaves its last
      non-terminator character as the text. */
  function MatchAt(s: string, p: nat): (r: Option<HeadingMatch>)
    requires p <= |s|
    ensures r.Some? ==>
      var m := r.value;
      && m.start == p && m.level >= 1 && p + m.level < m.textStart < m.end <= |s|
  {
    var h := Run(s, p, HashSign);
    if h == 0 then None
    else
      var w := Run(s, p + h, WhiteSpace);
      if w == 0 then None
      else if p + h + w < |s| then Some(TextMatch(s, p, h, p + h + w))
      else GivenBack(s, p, h)
  }

  /** The match when the text starts at `q`, right after the white space: to the end
      of the line. */
  function TextMatch(s: string, p: nat, h: nat, q: nat): (m: HeadingMatch)
    requires p + h < q < |s| && !IsWhiteSpace(s[q])
    ensures m.start == p && m.level == h && m.textStart == q < m.end <= |s|
  {
    var l := Run(s, q, NotLineTerminator);
    assert l >= 1 by { NonWhiteSpaceOnLine(s[q]); }
    HeadingMatch(p, h, q, q + l)
  }

  /** The match when the white space after `h` hash signs runs to the end of the text:
      `\s+` gives back characters until one that is not a line terminator can be the
      text. */
  function GivenBack(s: string, p: nat, h: nat): (r: Option<HeadingMatch>)
    requires p + h + 1 <= |s|
    ensures r.Some? ==> var m := r.value;
      m.start == p && m.level == h && p + h < m.textStart < m.end <= |s|
  {
    match LastIn(s, p + h + 1, |s|, NotLineTerminator)
    case None => None
    case Some(k) => Some(HeadingMatch(p, h, k, k + 1))
  }

  /** `m` is a way for the pattern to match: the `Shape` its fields describe. */
  ghost predicate MatchShape(s: string, m: HeadingMatch) {
    m.start + m.level <= m.textStart <= m.end
    && Shape(s, m.start, m.level, m.textStart - m.start - m.level, m.end - m.textStart)
  }

  /** What `MatchAt` finds is a way for the pattern to match. */
  lemma MatchAtShape(s: string, p: nat)
    requires p <= |s| && MatchAt(s, p).Some?
    ensures MatchShape(s, MatchAt(s, p).value)
  {
    var h := Run(s, p, HashSign);
    var w := Run(s, p + h, WhiteSpace);
    RunChars(s, p, HashSign);
    RunChars(s, p + h, WhiteSpace);
    if p + h + w < |s| {
      MatchAtIsText(s, p, h, w);
      TextMatchShape(s, p, h, w);
    } else {
      MatchAtIsGivenBack(s, p, h, w);
      GivenBackShape(s, p, h);
    }
  }

  lemma MatchAtIsText(s: string, p: nat, h: nat, w: nat)
    requires p <= |s| && h == Run(s, p, HashSign) && h >= 1
    requires w == Run(s, p + h, WhiteSpace) && w >= 1 && p + h + w < |s|
    ensures !IsWhiteSpace(s[p + h + w]) && MatchAt(s, p) == Some(TextMatch(s, p, h, p + h + w))
  {
  }

  lemma MatchAtIsGivenBack(s: string, p: nat, h: nat, w: nat)
    requires p <= |s| && h == Run(s, p, HashSign) && h >= 1
    requires w == Run(s, p + h, WhiteSpace) && w >= 1 && p + h + w == |s|
    ensures MatchAt(s, p) == GivenBack(s, p, h)
  {
  }

  lemma TextMatchShape(s: string, p: nat, h: nat, w: nat)
    requires p + h + w < |s| && h >= 1 && w >= 1 && !IsWhiteSpace(s[p + h + w])
    requires forall i :: p <= i < p + h ==> s[i] == '#'
    requires forall i :: p + h <= i < p + h + w ==> IsWhiteSpace(s[i])
    ensures MatchShape(s, TextMatch(s, p, h, p + h + w))
  {
    TextMatchLine(s, p, h, p + h + w);
  }

  /** The text of `TextMatch` is the rest of its line. */
  lemma TextMatchLine(s: string, p: nat, h: nat, q: nat)
    requires p + h < q < |s| && !IsWhiteSpace(s[q])
    ensures var m := TextMatch(s, p, h, q);
      && (forall i :: q <= i < m.end ==> !IsLineTerminator(s[i]))
      && (m.end == |s| || IsLineTerminator(s[m.end]))
  {
    RunChars(s, q, NotLineTerminator);
  }

  lemma GivenBackShape(s: string, p: nat, h: nat)
    requires p + h + 1 <= |s| && h >= 1
    requires forall i :: p <= i < p + h ==> s[i] == '#'
    requires forall i :: p + h <= i < |s| ==> IsWhiteSpace(s[i])
    ensures GivenBack(s, p, h).Some? ==> MatchShape(s, GivenBack(s, p, h).value)
  {
    LastInIsLast(s, p + h + 1, |s|, NotLineTerminator);
  }

  /** Every way the pattern can match at `p` is found, and the one found has the most
      white space: `MatchAt` is the match a backtracking engine reports. */
  lemma MatchAtIsFirstChoice(s: string, p: nat, h: nat, w: nat, l: nat)
    requires Shape(s, p, h, w, l)
    ensures MatchAt(s, p).Some?
    ensures MatchAt(s, p).value.level == h
    ensures MatchAt(s, p).value.textStart >= p + h + w
  {
    assert IsWhiteSpace(s[p + h]);
    RunUnique(s, p, HashSign, h);
    var ww := Run(s, p + h, WhiteSpace);
    var q := p + h + ww;
    if q == |s| {
      assert !IsLineTerminator(s[p + h + w]);
      LastInIsLast(s, p + h + 1, q, NotLineTerminator);
    }
  }

  /** `m` is the match at a line start at or after `q`. */
  predicate Found(s: string, q: nat, m: HeadingMatch) {
    q <= m.start < m.end <= |s| && AtLineStart(s, m.start) && MatchAt(s, m.start) == Some(m)
  }

  /** The matches of `/^(#+)\s+(.+)$/gm` from position `q` on: at each line start in
      turn, and after a match the search goes on where it ended. */
  function Scan(s: string, q: nat): (r: seq<HeadingMatch>)
    requires q <= |s|
    decreases |s| - q
  {
    if q == |s| then []
    else
      var (ms, next) := Step(s, q);
      ms + Scan(s, next)
  }

  /** One step of the scan from `q`: the match there and where it ends, or nothing and
      the next position. */
  function Step(s: string, q: nat): (r: (seq<HeadingMatch>, nat))
    requires q < |s|
    ensures q < r.1 <= |s|
  {
    if AtLineStart(s, q) && MatchAt(s, q).Some? then ([MatchAt(s, q).value], MatchAt(s, q).value.end)
    else ([], q + 1)
  }

  /** Each match reported is the match at a line start. */
  lemma {:induction false} ScanSound(s: string, q: nat)
    requires q <= |s|
    ensures forall k :: 0 <= k < |Scan(s, q)| ==> Found(s, q, Scan(s, q)[k])
    decreases |s| - q
  {
    if q == |s| {
      ScanAtEnd(s);
    } else if AtLineStart(s, q) && MatchAt(s, q).Some? {
      var m := MatchAt(s, q).value;
      ScanAtMatch(s, q, m);
      ScanSound(s, m.end);
    } else {
      ScanSkips(s, q);
      ScanSound(s, q + 1);
    }
  }

  /** Matches in document order, none overlapping the next. */
  predicate Ordered(r: seq<HeadingMatch>) {
    forall k :: 0 <= k < |r| - 1 ==> r[k].end <= r[k + 1].start
  }

  /** The scan reports its matches in document order. */
  lemma {:induction false} ScanOrdered(s: string, q: nat)
    requires q <= |s|
    ensures Ordered(Scan(s, q))
    decreases |s| - q, 1
  {
    if q == |s| {
      ScanAtEnd(s);
    } else if AtLineStart(s, q) && MatchAt(s, q).Some? {
      ScanOrderedAtMatch(s, q);
    } else {
      ScanOrderedSkip(s, q);
    }
  }

  lemma {:induction false} ScanOrderedSkip(s: string, q: nat)
    requires q < |s| && !(AtLineStart(s, q) && MatchAt(s, q).Some?)
    ensures Ordered(Scan(s, q))
    decreases |s| - q, 0
  {
    ScanSkips(s, q);
    ScanOrdered(s, q + 1);
    OrderedOfEqual(Scan(s, q + 1), Scan(s, q));
  }

  lemma ScanAtEnd(s: string)
    ensures Scan(s, |s|) == []
  {
  }

  lemma {:induction false} ScanOrderedAtMatch(s: string, q: nat)
    requires q < |s| && AtLineStart(s, q) && MatchAt(s, q).Some?
    ensures Ordered(Scan(s, q))
    decreases |s| - q, 0
  {
    var m := MatchAt(s, q).value;
    ScanAtMatch(s, q, m);
    var rest := Scan(s, m.end);
    ScanOrdered(s, m.end);
    ScanFirst(s, m.end);
    OrderedCons(m, rest);
    OrderedOfEqual([m] + rest, Scan(s, q));
  }

  lemma OrderedOfEqual(a: seq<HeadingMatch>, b: seq<HeadingMatch>)
    requires Ordered(a) && a == b
    ensures Ordered(b)
  {
  }

  lemma {:induction false} ScanFirst(s: string, q: nat)
    requires q <= |s|
    ensures Scan(s, q) != [] ==> q <= Scan(s, q)[0].start
    decreases |s| - q
  {
    if q == |s| {
      ScanAtEnd(s);
    } else if AtLineStart(s, q) && MatchAt(s, q).Some? {
      ScanAtMatch(s, q, MatchAt(s, q).value);
    } else {
      ScanSkips(s, q);
      ScanFirst(s, q + 1);
    }
  }

  lemma OrderedCons(m: HeadingMatch, rest: seq<HeadingMatch>)
    requires Ordered(rest) && (rest != [] ==> m.end <= rest[0].start)
    ensures Ordered([m] + rest)
  {
    forall k | 1 <= k < |rest| + 1 ensures ([m] + rest)[k] == rest[k - 1] { }
  }

  /** `p` lies in one of the matches. */
  predicate Covered(r: seq<HeadingMatch>, p: nat) {
    |r| > 0 && (r[0].start <= p < r[0].end || Covered(r[1..], p))
  }

  /** No line with a match is skipped, unless an earlier match has already taken it in. */
  lemma {:induction false} ScanComplete(s: string, q: nat, p: nat)
    requires q <= p < |s| && AtLineStart(s, p) && MatchAt(s, p).Some?
    ensures Covered(Scan(s, q), p)
    decreases |s| - q
  {
    if AtLineStart(s, q) && MatchAt(s, q).Some? {
      var m := MatchAt(s, q).value;
      ScanAtMatch(s, q, m);
      CoveredCons(m, Scan(s, m.end), p);
      if p >= m.end {
        ScanComplete(s, m.end, p);
      }
    } else {
      assert p != q;
      ScanSkips(s, q);
      ScanComplete(s, q + 1, p);
    }
  }

  lemma CoveredCons(m: HeadingMatch, rest: seq<HeadingMatch>, p: nat)
    ensures Covered([m] + rest, p) <==> m.start <= p < m.end || Covered(rest, p)
  {
    assert ([m] + rest)[1..] == rest;
  }

  lemma ScanAtMatch(s: string, q: nat, m: HeadingMatch)
    requires q < |s| && AtLineStart(s, q) && MatchAt(s, q) == Some(m)
    ensures m.end <= |s| && Scan(s, q) == [m] + Scan(s, m.end)
  {
  }

  lemma ScanSkips(s: string, q: nat)
    requires q < |s| && !(AtLineStart(s, q) && MatchAt(s, q).Some?)
    ensures Scan(s, q) == Scan(s, q + 1)
  {
  }

  /** `heading.match(/^(#+)\s+(.+)$/)` on one matched heading, without the `m` flag:
      `^` and `$` are the ends of the string.  The level and the captured text. */
  function Recapture(t: string): (r: Option<(nat, string)>)
    ensures r.Some? ==> var (h, x) := r.value; 1 <= h && 1 <= |x| && h + |x| < |t| && x == t[|t| - |x|..]
  {
    var h := Run(t, 0, HashSign);
    if h == 0 then None
    else
      var w := Run(t, h, WhiteSpace);
      if w == 0 then None
      else
        var q := h + w;
        if q < |t| then
          if q + Run(t, q, NotLineTerminator) == |t| then Some((h, t[q..])) else None
        else if h + 1 < q && !IsLineTerminator(t[q - 1]) then Some((h, t[q - 1..]))
        else None
  }

  /** What `Recapture` finds is a way for the pattern to match the whole string. */
  lemma RecaptureShape(t: string)
    requires Recapture(t).Some?
    ensures var (h, x) := Recapture(t).value; Shape(t, 0, h, |t| - |x| - h, |x|) && |t| == h + (|t| - |x| - h) + |x|
  {
    var h := Run(t, 0, HashSign);
    var w := Run(t, h, WhiteSpace);
    var q := h + w;
    HashRunChars(t, 0);
    WhiteSpaceRunChars(t, h);
    var r := Recapture(t).value;
    if q < |t| {
      LineRunChars(t, q);
      assert r.0 == h && |r.1| == |t| - q;
      assert Shape(t, 0, h, w, |t| - q);
    } else {
      assert r.0 == h && |r.1| == 1;
      assert Shape(t, 0, h, w - 1, 1);
    }
  }

  /** Matching one reported heading again gives back the same level and text, so the
      second `match` in the source never fails and changes nothing. */
  lemma SecondMatchAgrees(s: string, p: nat)
    requires p <= |s| && MatchAt(s, p).Some?
    ensures var m := MatchAt(s, p).value;
      Recapture(s[p..m.end]) == Some((m.level, s[m.textStart..m.end]))
  {
    var h := Run(s, p, HashSign);
    var w := Run(s, p + h, WhiteSpace);
    if p + h + w < |s| {
      SecondMatchWhole(s, p);
    } else {
      SecondMatchBacktracked(s, p);
    }
  }

  lemma SecondMatchWhole(s: string, p: nat)
    requires p <= |s| && MatchAt(s, p).Some?
    requires p + Run(s, p, HashSign) + Run(s, p + Run(s, p, HashSign), WhiteSpace) < |s|
    ensures var m := MatchAt(s, p).value;
      Recapture(s[p..m.end]) == Some((m.level, s[m.textStart..m.end]))
  {
    var h := Run(s, p, HashSign);
    var w := Run(s, p + h, WhiteSpace);
    var l := Run(s, p + h + w, NotLineTerminator);
    MatchAtWhole(s, p, h, w, l);
    var m := MatchAt(s, p).value;
    assert m.start == p && m.level == h && m.textStart == p + h + w && m.end == p + h + w + l;
    RecaptureLine(s, m, w);
  }

  /** The matched line `s[m.start..m.end]`, matched again on its own. */
  lemma RecaptureLine(s: string, m: HeadingMatch, w: nat)
    requires m.start <= |s| && m.level == Run(s, m.start, HashSign) && m.level >= 1
    requires w == Run(s, m.start + m.level, WhiteSpace) && w >= 1
    requires m.textStart == m.start + m.level + w < |s|
    requires m.end == m.textStart + Run(s, m.textStart, NotLineTerminator)
    ensures Recapture(s[m.start..m.end]) == Some((m.level, s[m.textStart..m.end]))
  {
    var p, h, q := m.start, m.level, m.textStart;
    HashRunChars(s, p);
    WhiteSpaceRunChars(s, p + h);
    LineRunChars(s, q);
    assert !InClass(s[q], WhiteSpace);
    NonWhiteSpaceOnLine(s[q]);
    RunPositive(s, q, NotLineTerminator);
    RecaptureSlice(s, p, h, w, m.end);
  }

  lemma HashRunChars(s: string, p: nat)
    requires p <= |s|
    ensures forall i :: p <= i < p + Run(s, p, HashSign) ==> s[i] == '#'
  {
    RunChars(s, p, HashSign);
  }

  lemma WhiteSpaceRunChars(s: string, p: nat)
    requires p <= |s|
    ensures forall i :: p <= i < p + Run(s, p, WhiteSpace) ==> IsWhiteSpace(s[i])
  {
    RunChars(s, p, WhiteSpace);
  }

  lemma LineRunChars(s: string, p: nat)
    requires p <= |s|
    ensures forall i :: p <= i < p + Run(s, p, NotLineTerminator) ==> !IsLineTerminator(s[i])
  {
    RunChars(s, p, NotLineTerminator);
  }

  /** A heading line inside `s`, from `p` to `e`, matched again on its own. */
  lemma RecaptureSlice(s: string, p: nat, h: nat, w: nat, e: nat)
    requires 1 <= h && 1 <= w && p + h + w < e <= |s|
    requires forall i :: p <= i < p + h ==> s[i] == '#'
    requires forall i :: p + h <= i < p + h + w ==> IsWhiteSpace(s[i])
    requires !IsWhiteSpace(s[p + h + w])
    requires forall i :: p + h + w <= i < e ==> !IsLineTerminator(s[i])
    ensures Recapture(s[p..e]) == Some((h, s[p + h + w..e]))
  {
    var t := s[p..e];
    forall j | 0 <= j < h ensures t[j] == '#' {
      assert t[j] == s[p + j];
    }
    forall j | h <= j < h + w ensures IsWhiteSpace(t[j]) {
      assert t[j] == s[p + j];
    }
    assert t[h + w] == s[p + h + w];
    forall j | h + w <= j < |t| ensures !IsLineTerminator(t[j]) {
      assert t[j] == s[p + j];
    }
    RecaptureWhole(t, h, w);
    assert t[h + w..] == s[p + h + w..e];
  }

  lemma SecondMatchBacktracked(s: string, p: nat)
    requires p <= |s| && MatchAt(s, p).Some?
    requires p + Run(s, p, HashSign) + Run(s, p + Run(s, p, HashSign), WhiteSpace) >= |s|
    ensures var m := MatchAt(s, p).value;
      Recapture(s[p..m.end]) == Some((m.level, s[m.textStart..m.end]))
  {
    var h := Run(s, p, HashSign);
    var w := Run(s, p + h, WhiteSpace);
    MatchAtIsGivenBack(s, p, h, w);
    var k := LastIn(s, p + h + 1, |s|, NotLineTerminator).value;
    var m := MatchAt(s, p).value;
    assert m.start == p && m.level == h && m.textStart == k && m.end == k + 1;
    RunChars(s, p, HashSign);
    RunChars(s, p + h, WhiteSpace);
    RecaptureGivenBack(s, m);
  }

  /** The backtracked match `s[m.start..m.end]`, one character of text, matched again
      on its own. */
  lemma RecaptureGivenBack(s: string, m: HeadingMatch)
    requires m.start + m.level + 1 <= m.textStart && m.end == m.textStart + 1 <= |s|
    requires m.level >= 1 && !IsLineTerminator(s[m.textStart])
    requires forall i :: m.start <= i < m.start + m.level ==> s[i] == '#'
    requires forall i :: m.start + m.level <= i < |s| ==> IsWhiteSpace(s[i])
    ensures Recapture(s[m.start..m.end]) == Some((m.level, s[m.textStart..m.end]))
  {
    var t := s[m.start..m.end];
    forall j | 0 <= j < |t| ensures t[j] == s[m.start + j] { }
    assert t[|t| - 1..] == s[m.textStart..m.end];
    RecaptureBacktracked(t, m.level);
  }

  /** A heading whose text starts right after its white space: the level, and the rest
      of the string as the text. */
  lemma RecaptureWhole(t: string, h: nat, w: nat)
    requires 1 <= h && 1 <= w && h + w < |t|
    requires forall j :: 0 <= j < h ==> t[j] == '#'
    requires forall j :: h <= j < h + w ==> IsWhiteSpace(t[j])
    requires !IsWhiteSpace(t[h + w])
    requires forall j :: h + w <= j < |t| ==> !IsLineTerminator(t[j])
    ensures Recapture(t) == Some((h, t[h + w..]))
  {
    RunUnique(t, 0, HashSign, h);
    RunUnique(t, h, WhiteSpace, w);
    RunUnique(t, h + w, NotLineTerminator, |t| - h - w);
  }

  /** A heading that is all white space after its hash signs: `\s+` gives back the
      last character, which becomes the text. */
  lemma RecaptureBacktracked(t: string, h: nat)
    requires 1 <= h && h + 1 < |t|
    requires forall j :: 0 <= j < h ==> t[j] == '#'
    requires forall j :: h <= j < |t| ==> IsWhiteSpace(t[j])
    requires !IsLineTerminator(t[|t| - 1])
    ensures Recapture(t) == Some((h, t[|t| - 1..]))
  {
    RunUnique(t, 0, HashSign, h);
    RunUnique(t, h, WhiteSpace, |t| - h);
  }

  /** A way for `\[([^\]]+)\]\(.+\)` to match at `a`: a label of `n` characters
      without `]` between the brackets, then `(`, at least one character of the same
      line, and the closing `)` at `c`. */
  ghost predicate LinkShape(t: string, a: nat, n: nat, c: nat) {
    && a + n + 4 <= c < |t| && n >= 1
    && t[a] == '[' && (forall i :: a < i <= a + n ==> t[i] != ']')
    && t[a + n + 1] == ']' && t[a + n + 2] == '('
    && (forall i :: a + n + 3 <= i < c ==> !IsLineTerminator(t[i]))
    && t[c] == ')'
  }

  /** The link match at `a` as backtracking finds it: the label length and the index of
      the closing parenthesis.  `.+` is greedy, so it is the LAST `)` of the line. */
  function LinkAt(t: string, a: nat): (r: Option<(nat, nat)>)
    requires a <= |t|
    ensures r.Some? ==> a + r.value.0 + 4 <= r.value.1 < |t|
  {
    if a < |t| && t[a] == '[' then
      var n := Run(t, a + 1, NotCloseBracket);
      if n >= 1 && a + n + 2 < |t| && t[a + n + 2] == '(' then
        var l := Run(t, a + n + 3, NotLineTerminator);
        if l == 0 then None
        else
          match LastIn(t, a + n + 4, a + n + 3 + l, CloseParen)
          case None => None
          case Some(c) => Some((n, c))
      else None
    else None
  }

  /** What `LinkAt` finds is a way for the pattern to match. */
  lemma LinkAtShape(t: string, a: nat)
    requires a <= |t| && LinkAt(t, a).Some?
    ensures LinkShape(t, a, LinkAt(t, a).value.0, LinkAt(t, a).value.1)
  {
    var n := Run(t, a + 1, NotCloseBracket);
    RunChars(t, a + 1, NotCloseBracket);
    RunChars(t, a + n + 3, NotLineTerminator);
  }

  /** Every way the pattern can match at `a` is found, with the farthest `)`. */
  lemma LinkAtIsFirstChoice(t: string, a: nat, n: nat, c: nat)
    requires LinkShape(t, a, n, c)
    ensures LinkAt(t, a).Some? && LinkAt(t, a).value.0 == n && LinkAt(t, a).value.1 >= c
  {
    RunUnique(t, a + 1, NotCloseBracket, n);
    LastInIsLast(t, a + n + 4, a + n + 3 + Run(t, a + n + 3, NotLineTerminator), CloseParen);
  }

  /** The leftmost link match at or after `a`: where it starts, its label length and its
      closing parenthesis. */
  function FirstLink(t: string, a: nat): (r: Option<(nat, nat, nat)>)
    requires a <= |t|
    decreases |t| - a
    ensures r.Some? ==> a <= r.value.0 < |t| && LinkAt(t, r.value.0) == Some((r.value.1, r.value.2))
    ensures r.Some? ==> forall b :: a <= b < r.value.0 ==> LinkAt(t, b).None?
    ensures r.None? ==> forall b :: a <= b <= |t| ==> LinkAt(t, b).None?
  {
    if a == |t| then None
    else
      match LinkAt(t, a)
      case Some((n, c)) => Some((a, n, c))
      case None => FirstLink(t, a + 1)
  }

  /** `text.replace(/\[([^\]]+)\]\(.+\)/, "$1")`: the first link match, and only that
      one, is replaced by its label. */
  function RewriteLink(t: string): string {
    match FirstLink(t, 0)
    case None => t
    case Some((a, n, c)) => t[..a] + t[a + 1..a + 1 + n] + t[c + 1..]
  }

  /** Text without `[` holds no link and is kept. */
  lemma RewriteLinkNoBracket(t: string)
    requires '[' !in t
    ensures RewriteLink(t) == t
  {
  }

  /** A link with a plain label and a one-line target is replaced by its label, with
      the text around it kept. */
  lemma RewriteLinkLabel(pre: string, linkText: string, target: string, post: string)
    requires '[' !in pre
    requires |linkText| >= 1 && ']' !in linkText
    requires |target| >= 1 && forall i :: 0 <= i < |target| ==> !IsLineTerminator(target[i])
    requires ')' !in post
    ensures RewriteLink(pre + "[" + linkText + "](" + target + ")" + post) == pre + linkText + post
  {
    var t := pre + "[" + linkText + "](" + target + ")" + post;
    var a, n, c := |pre|, |linkText|, |pre| + |linkText| + 3 + |target|;
    assert t[..a] == pre && t[a + 1..a + 1 + n] == linkText && t[c + 1..] == post;
    assert RewriteLink(t) == t[..a] + t[a + 1..a + 1 + n] + t[c + 1..] by {
      LinkOfParts(pre, linkText, target, post);
      forall b | 0 <= b < a ensures t[b] != '[' {
        assert t[b] == t[..a][b];
      }
      RewriteLinkAt(t, a, n, c);
    }
  }

  /** The first `[` starting a link match, with no `)` after its closing one. */
  lemma RewriteLinkAt(t: string, a: nat, n: nat, c: nat)
    requires LinkShape(t, a, n, c)
    requires forall b :: 0 <= b < a ==> t[b] != '['
    requires forall i :: c < i < |t| ==> t[i] != ')'
    ensures RewriteLink(t) == t[..a] + t[a + 1..a + 1 + n] + t[c + 1..]
  {
    LinkAtIs(t, a, n, c);
    NoLinkBefore(t, a);
    FirstLinkIs(t, 0, a, n, c);
    RewriteFirstLink(t, a, n, c);
  }

  /** With no `)` after the one at `c`, the match at `a` closes at `c`. */
  lemma LinkAtIs(t: string, a: nat, n: nat, c: nat)
    requires LinkShape(t, a, n, c)
    requires forall i :: c < i < |t| ==> t[i] != ')'
    ensures LinkAt(t, a) == Some((n, c))
  {
    LinkAtIsFirstChoice(t, a, n, c);
    LinkAtShape(t, a);
  }

  /** No match starts before the first `[`. */
  lemma NoLinkBefore(t: string, a: nat)
    requires a <= |t|
    requires forall b :: 0 <= b < a ==> t[b] != '['
    ensures forall b :: 0 <= b < a ==> LinkAt(t, b).None?
  {
    forall b | 0 <= b < a ensures LinkAt(t, b).None? {
      assert t[b] != '[';
    }
  }

  /** The first match found is the one replaced. */
  lemma RewriteFirstLink(t: string, a: nat, n: nat, c: nat)
    requires FirstLink(t, 0) == Some((a, n, c))
    ensures RewriteLink(t) == t[..a] + t[a + 1..a + 1 + n] + t[c + 1..]
  {
  }

  /** The first link from `b` is the one at `a` when none starts in between. */
  lemma {:induction false} FirstLinkIs(t: string, b: nat, a: nat, n: nat, c: nat)
    requires b <= a < |t| && LinkAt(t, a) == Some((n, c))
    requires forall k :: b <= k < a ==> LinkAt(t, k).None?
    ensures FirstLink(t, b) == Some((a, n, c))
    decreases a - b
  {
    if b < a {
      FirstLinkIs(t, b + 1, a, n, c);
    }
  }

  lemma LinkOfParts(pre: string, linkText: string, target: string, post: string)
    requires |linkText| >= 1 && ']' !in linkText
    requires |target| >= 1 && forall i :: 0 <= i < |target| ==> !IsLineTerminator(target[i])
    requires ')' !in post
    ensures var t := pre + "[" + linkText + "](" + target + ")" + post;
      var c := |pre| + |linkText| + 3 + |target|;
      && LinkShape(t, |pre|, |linkText|, c)
      && (forall i :: c < i < |t| ==> t[i] != ')')
  {
    var t := pre + "[" + linkText + "](" + target + ")" + post;
    var a, n := |pre|, |linkText|;
    var c := a + n + 3 + |target|;
    assert t[..a] == pre;
    assert t[a + 1..a + 1 + n] == linkText;
    assert t[a + n + 3..c] == target;
    assert t[c + 1..] == post;
    assert t[a] == '[' && t[a + n + 1] == ']' && t[a + n + 2] == '(' && t[c] == ')';
    forall i | a < i <= a + n ensures t[i] != ']' {
      assert t[i] == t[a + 1..a + 1 + n][i - a - 1];
    }
    forall i | a + n + 3 <= i < c ensures !IsLineTerminator(t[i]) {
      assert t[i] == t[a + n + 3..c][i - a - n - 3];
    }
    forall i | c < i < |t| ensures t[i] != ')' {
      assert t[i] == t[c + 1..][i - c - 1];
    }
  }

  /** A link rewrite never empties a non-empty text: a label has at least one character. */
  lemma RewriteLinkNonEmpty(t: string)
    requires |t| >= 1
    ensures |RewriteLink(t)| >= 1
  {
  }

  /** An outline entry: the number of leading hash signs and the text shown. */
  datatype Heading = Heading(level: nat, text: string)

  /** The captured texts of the matches lie within `s`. */
  predicate Within(s: string, ms: seq<HeadingMatch>) {
    forall k :: 0 <= k < |ms| ==> ms[k].textStart <= ms[k].end <= |s|
  }

  /** Each match becomes an entry, its link replaced by the label. */
  function Outline(s: string, ms: seq<HeadingMatch>): (r: seq<Heading>)
    requires Within(s, ms)
    ensures |r| == |ms|
    ensures forall k :: 0 <= k < |ms| ==> r[k].level == ms[k].level
  {
    if |ms| == 0 then []
    else [Heading(ms[0].level, RewriteLink(s[ms[0].textStart..ms[0].end]))] + Outline(s, ms[1..])
  }

  lemma {:induction false} OutlineTexts(s: string, ms: seq<HeadingMatch>)
    requires forall k :: 0 <= k < |ms| ==> ms[k].level >= 1 && ms[k].textStart < ms[k].end <= |s|
    ensures Within(s, ms)
    ensures forall k :: 0 <= k < |ms| ==> Outline(s, ms)[k].level >= 1 && |Outline(s, ms)[k].text| >= 1
  {
    if |ms| > 0 {
      RewriteLinkNonEmpty(s[ms[0].textStart..ms[0].end]);
      OutlineTexts(s, ms[1..]);
      forall k | 1 <= k < |ms| ensures Outline(s, ms)[k] == Outline(s, ms[1..])[k - 1] { }
    }
  }

  /** `extractHeadings`: the outline of a page, code blocks removed first.  When the
      page has no heading, `match` gives `null` and `?? []` turns it into no entries. */
  function ExtractHeadings(content: string): (r: seq<Heading>)
    ensures forall k :: 0 <= k < |r| ==> r[k].level >= 1 && |r[k].text| >= 1
  {
    var t := StripFences(content);
    var ms := Scan(t, 0);
    ScanSound(t, 0);
    OutlineTexts(t, ms);
    Outline(t, ms)
  }

  /** `MatchAt` once its runs are known, when text follows the white space. */
  lemma MatchAtWhole(s: string, p: nat, h: nat, w: nat, l: nat)
    requires p <= |s| && h >= 1 && w >= 1 && p + h + w < |s|
    requires Run(s, p, HashSign) == h && Run(s, p + h, WhiteSpace) == w
    requires Run(s, p + h + w, NotLineTerminator) == l
    ensures MatchAt(s, p) == Some(HeadingMatch(p, h, p + h + w, p + h + w + l))
  {
  }

  /** The `i`-th entry of an outline comes from the `i`-th match. */
  lemma {:induction false} OutlineEntry(s: string, ms: seq<HeadingMatch>, k: nat)
    requires Within(s, ms) && k < |ms|
    ensures Outline(s, ms)[k] == Heading(ms[k].level, RewriteLink(s[ms[k].textStart..ms[k].end]))
  {
    if k > 0 {
      OutlineEntry(s, ms[1..], k - 1);
    }
  }

  /** Two heading lines in a row and nothing after them. */
  lemma ScanPair(s: string, m1: HeadingMatch, p: nat, m2: HeadingMatch, q: nat)
    requires p <= |s| && q == |s| && ScanStep(s, 0, m1, p) && ScanStep(s, p, m2, q)
    ensures Scan(s, 0) == [m1, m2]
  {
    assert [m1] + ([m2] + []) == [m1, m2];
  }

  /** One heading line and nothing after it. */
  lemma ScanSingle(s: string, m: HeadingMatch, q: nat)
    requires q == |s| && ScanStep(s, 0, m, q)
    ensures Scan(s, 0) == [m]
  {
    assert [m] + [] == [m];
  }

  /** The outline once the page without code blocks and its matches are known. */
  lemma ExtractHeadingsOf(content: string, t: string, ms: seq<HeadingMatch>)
    requires StripFences(content) == t && Scan(t, 0) == ms
    ensures Within(t, ms) && ExtractHeadings(content) == Outline(t, ms)
  {
    ScanSound(t, 0);
    OutlineTexts(t, ms);
  }

  lemma OutlineSingle(s: string, m: HeadingMatch)
    requires m.textStart <= m.end <= |s|
    ensures Within(s, [m])
    ensures Outline(s, [m]) == [Heading(m.level, RewriteLink(s[m.textStart..m.end]))]
  {
  }

  lemma OutlinePair(s: string, m1: HeadingMatch, m2: HeadingMatch)
    requires m1.textStart <= m1.end <= |s| && m2.textStart <= m2.end <= |s|
    ensures Within(s, [m1, m2])
    ensures Outline(s, [m1, m2])
      == [Heading(m1.level, RewriteLink(s[m1.textStart..m1.end])), Heading(m2.level, RewriteLink(s[m2.textStart..m2.end]))]
  {
    assert [m1, m2][1..] == [m2];
  }

  /** The outline is the matches of the page without its code blocks, in document
      order, each one a match at a line start, its link replaced by the label. */
  lemma ExtractHeadingsFromMatches(content: string)
    ensures var t := StripFences(content); var ms := Scan(t, 0); var r := ExtractHeadings(content);
      && |r| == |ms|
      && (forall k :: 0 <= k < |r| ==>
            && Found(t, 0, ms[k])
            && r[k] == Heading(ms[k].level, RewriteLink(t[ms[k].textStart..ms[k].end])))
      && Ordered(ms)
  {
    var t := StripFences(content);
    var ms := Scan(t, 0);
    ExtractHeadingsOf(content, t, ms);
    ScanSound(t, 0);
    ScanOrdered(t, 0);
    forall k | 0 <= k < |ms|
      ensures ExtractHeadings(content)[k] == Heading(ms[k].level, RewriteLink(t[ms[k].textStart..ms[k].end]))
    {
      OutlineEntry(t, ms, k);
    }
  }

  /** `match` finds nothing, and the outline is empty, exactly when no line of the page
      outside its code blocks starts a match. */
  lemma ExtractHeadingsEmpty(content: string)
    ensures var t := StripFences(content);
      ExtractHeadings(content) == [] <==>
        forall p :: 0 <= p < |t| && AtLineStart(t, p) ==> MatchAt(t, p).None?
  {
    var t := StripFences(content);
    ExtractHeadingsOf(content, t, Scan(t, 0));
    ScanEmpty(t);
  }

  /** The scan finds nothing exactly when no line start has a match. */
  lemma ScanEmpty(t: string)
    ensures Scan(t, 0) == [] <==> forall p :: 0 <= p < |t| && AtLineStart(t, p) ==> MatchAt(t, p).None?
  {
    var ms := Scan(t, 0);
    if ms != [] {
      ScanSound(t, 0);
      assert Found(t, 0, ms[0]);
    } else {
      forall p | 0 <= p < |t| && AtLineStart(t, p) ensures MatchAt(t, p).None? {
        if MatchAt(t, p).Some? {
          ScanComplete(t, 0, p);
          assert false;
        }
      }
    }
  }

  /** Lines inside a code block are not looked at: the page reads as if the block,
      fences included, were not there. */
  lemma CodeBlockIgnored(a: string, b: string, c: string)
    requires '`' !in a && '`' !in b && '`' !in c
    ensures ExtractHeadings(a + Fence + b + Fence + c) == ExtractHeadings(a + c)
  {
    FencedBlockRemoved(a, b, c);
    StripFencesNoFence(c);
    StripFencesNoFence(a + c);
  }

  /** From `p` the scan finds `m`, then what it finds from `q`. */
  predicate ScanStep(s: string, p: nat, m: HeadingMatch, q: nat)
    requires p <= |s| && q <= |s|
  {
    Scan(s, p) == [m] + Scan(s, q)
  }

  /** A heading line: at the line start `p`, `h` hash signs, `w` white-space characters
      and text up to the line terminator at `e`.  Its match ends at `e`, and the scan
      goes on with the next line. */
  lemma HeadingLine(s: string, p: nat, h: nat, w: nat, e: nat)
    requires p + h + w < e < |s| && h >= 1 && w >= 1 && AtLineStart(s, p)
    requires forall i :: p <= i < p + h ==> s[i] == '#'
    requires forall i :: p + h <= i < p + h + w ==> IsWhiteSpace(s[i])
    requires !IsWhiteSpace(s[p + h + w])
    requires forall i :: p + h + w <= i < e ==> !IsLineTerminator(s[i])
    requires IsLineTerminator(s[e])
    ensures ScanStep(s, p, HeadingMatch(p, h, p + h + w, e), e + 1)
  {
    var m := HeadingMatch(p, h, p + h + w, e);
    HeadingLineMatch(s, p, h, w, e);
    ScanAtMatch(s, p, m);
    NoMatchAtTerminator(s, e);
    ScanSkips(s, e);
  }

  lemma HeadingLineMatch(s: string, p: nat, h: nat, w: nat, e: nat)
    requires p + h + w < e <= |s| && h >= 1 && w >= 1
    requires forall i :: p <= i < p + h ==> s[i] == '#'
    requires forall i :: p + h <= i < p + h + w ==> IsWhiteSpace(s[i])
    requires !IsWhiteSpace(s[p + h + w])
    requires forall i :: p + h + w <= i < e ==> !IsLineTerminator(s[i])
    requires e == |s| || IsLineTerminator(s[e])
    ensures MatchAt(s, p) == Some(HeadingMatch(p, h, p + h + w, e))
  {
    RunUnique(s, p, HashSign, h);
    RunUnique(s, p + h, WhiteSpace, w);
    RunUnique(s, p + h + w, NotLineTerminator, e - p - h - w);
    MatchAtWhole(s, p, h, w, e - p - h - w);
  }

  /** No match starts at a line terminator. */
  lemma NoMatchAtTerminator(s: string, e: nat)
    requires e < |s| && IsLineTerminator(s[e])
    ensures MatchAt(s, e).None?
  {
    assert Run(s, e, HashSign) == 0;
  }

  /** Only the first link is rewritten, and `.+` runs to the last `)` of the text:
      `[t](u) v)` becomes `t`, and ` v` is lost with the target. */
  lemma RewriteLinkGreedy(linkText: string, target: string, tail: string)
    requires |linkText| >= 1 && ']' !in linkText
    requires |target| >= 1 && forall i :: 0 <= i < |target| ==> !IsLineTerminator(target[i])
    requires forall i :: 0 <= i < |tail| ==> !IsLineTerminator(tail[i])
    ensures RewriteLink("[" + linkText + "](" + target + ")" + tail + ")") == linkText
  {
    var u := target + ")" + tail;
    forall i | 0 <= i < |u| ensures !IsLineTerminator(u[i]) {
      if i < |target| {
        assert u[i] == target[i];
      } else if i > |target| {
        assert u[i] == tail[i - |target| - 1];
      }
    }
    assert "[" + linkText + "](" + target + ")" + tail + ")" == "" + "[" + linkText + "](" + u + ")" + "";
    RewriteLinkLabel("", linkText, u, "");
  }
}
