/**
 * The JavaScript string built-ins and regular-expression character classes
 * that the viewer relies on, written out as functions on `seq<char>`.
 */
module JsString {
  import opened Wrappers

  /** The characters JavaScript treats as line terminators: `.` does not match them,
      and `^`/`$` in multiline mode match next to them. */
  predicate IsLineTerminator(c: char) {
    c == '\n' || c == '\r' || c == '\U{2028}' || c == '\U{2029}'
  }

  /** The characters matched by the regular-expression class `\s`. */
  predicate IsWhiteSpace(c: char) {
    c == '\t' || c == '\n' || c == '\U{000B}' || c == '\U{000C}' || c == '\r' || c == ' '
    || c == '\U{00A0}' || c == '\U{1680}' || ('\U{2000}' <= c <= '\U{200A}')
    || c == '\U{2028}' || c == '\U{2029}' || c == '\U{202F}' || c == '\U{205F}'
    || c == '\U{3000}' || c == '\U{FEFF}'
  }

  lemma NonWhiteSpaceOnLine(c: char)
    requires !IsWhiteSpace(c)
    ensures !IsLineTerminator(c)
  {
  }

  /** The class `\w` of a regular expression without the `u` flag: `[A-Za-z0-9_]`. */
  predicate IsWordChar(c: char) {
    ('a' <= c <= 'z') || ('A' <= c <= 'Z') || ('0' <= c <= '9') || c == '_'
  }

  predicate IsDigit(c: char) {
    '0' <= c <= '9'
  }

  /** `toLowerCase` on one character, restricted to the ASCII letters. */
  function ToLowerAscii(c: char): (r: char)
    ensures !('A' <= r <= 'Z')
    ensures IsWordChar(r) == IsWordChar(c)
  {
    if 'A' <= c <= 'Z' then (c as int - 'A' as int + 'a' as int) as char else c
  }

  /** `String.prototype.toLowerCase`, restricted to the ASCII letters. */
  function Lower(s: string): (r: string)
    ensures |r| == |s|
    ensures forall i :: 0 <= i < |s| ==> r[i] == ToLowerAscii(s[i])
  {
    seq(|s|, i requires 0 <= i < |s| => ToLowerAscii(s[i]))
  }

  predicate EndsWith(s: string, suffix: string) {
    |suffix| <= |s| && s[|s| - |suffix|..] == suffix
  }

  /** `pat` occurs in `s` starting at index `i`. */
  predicate OccursAt(s: string, pat: string, i: nat) {
    i + |pat| <= |s| && s[i..i + |pat|] == pat
  }

  /** `s.indexOf(pat, from)`: the first occurrence of `pat` at or after `from`. */
  function FindFrom(s: string, pat: string, from: nat): (r: Option<nat>)
    decreases |s| - from
    ensures r.Some? ==> from <= r.value && OccursAt(s, pat, r.value)
  {
    if from + |pat| > |s| then None
    else if OccursAt(s, pat, from) then Some(from)
    else FindFrom(s, pat, from + 1)
  }

  /** `FindFrom` finds the first occurrence: none lies between `from` and it, and when
      it finds none there is none from `from` on. */
  lemma {:induction false} FindFromIsFirst(s: string, pat: string, from: nat)
    ensures var r := FindFrom(s, pat, from);
      && (r.Some? ==> forall j :: from <= j < r.value ==> !OccursAt(s, pat, j))
      && (r.None? ==> forall j :: from <= j ==> !OccursAt(s, pat, j))
    decreases |s| - from
  {
    if from + |pat| <= |s| && !OccursAt(s, pat, from) {
      FindFromIsFirst(s, pat, from + 1);
    }
  }

  /** `s.replace(pat, rep)` with a string pattern: only the FIRST occurrence is replaced. */
  function ReplaceFirst(s: string, pat: string, rep: string): string {
    match FindFrom(s, pat, 0)
    case None => s
    case Some(i) => s[..i] + rep + s[i + |pat|..]
  }

  /** Without an occurrence, nothing is replaced. */
  lemma ReplaceFirstAbsent(s: string, pat: string, rep: string)
    requires forall j: nat :: !OccursAt(s, pat, j)
    ensures ReplaceFirst(s, pat, rep) == s
  {
  }

  /** The occurrence at `i`, when none precedes it, is the one replaced. */
  lemma ReplaceFirstOccurrence(s: string, pat: string, rep: string, i: nat)
    requires OccursAt(s, pat, i)
    requires forall j: nat :: j < i ==> !OccursAt(s, pat, j)
    ensures ReplaceFirst(s, pat, rep) == s[..i] + rep + s[i + |pat|..]
  {
    FindFromIsFirst(s, pat, 0);
  }

  /** When the first character of `pat` does not appear before `i`, the first occurrence is at `i`. */
  lemma ReplaceFirstAt(s: string, pat: string, rep: string, i: nat)
    requires pat != [] && OccursAt(s, pat, i) && pat[0] !in s[..i]
    ensures ReplaceFirst(s, pat, rep) == s[..i] + rep + s[i + |pat|..]
  {
    forall j: nat | j < i ensures !OccursAt(s, pat, j) {
      assert s[..i][j] == s[j];
    }
    ReplaceFirstOccurrence(s, pat, rep, i);
  }

  /** Replacing removes nothing but the occurrence and adds nothing but `rep`. */
  lemma ReplaceFirstChars(s: string, pat: string, rep: string, c: char)
    requires c in ReplaceFirst(s, pat, rep)
    ensures c in s || c in rep
  {
    var r := ReplaceFirst(s, pat, rep);
    var k :| 0 <= k < |r| && r[k] == c;
    match FindFrom(s, pat, 0)
    case None =>
    case Some(i) =>
      if k < i { assert s[k] == c; }
      else if k >= i + |rep| { assert s[k - |rep| + |pat|] == c; }
      else { assert rep[k - i] == c; }
  }

  /** `parts.join([sep])`. */
  function Join(parts: seq<string>, sep: char): string
    requires |parts| >= 1
  {
    if |parts| == 1 then parts[0] else parts[0] + [sep] + Join(parts[1..], sep)
  }

  /** `s.split(sep)` for a one-character separator: always at least one part,
      and no part contains the separator. */
  function Split(s: string, sep: char): (r: seq<string>)
    ensures |r| >= 1
    ensures forall k :: 0 <= k < |r| ==> sep !in r[k]
  {
    if s == [] then [[]]
    else
      var rest := Split(s[1..], sep);
      if s[0] == sep then [[]] + rest
      else [[s[0]] + rest[0]] + rest[1..]
  }

  /** Joining the parts of a split gives back the string. */
  lemma {:induction false} JoinSplit(s: string, sep: char)
    ensures Join(Split(s, sep), sep) == s
  {
    if s != [] {
      var rest := Split(s[1..], sep);
      JoinSplit(s[1..], sep);
      if s[0] == sep {
        assert Split(s, sep)[1..] == rest;
      } else {
        var r := Split(s, sep);
        assert r[1..] == rest[1..];
        if |rest| > 1 {
          assert Join(rest, sep) == rest[0] + [sep] + Join(rest[1..], sep);
        }
      }
    }
  }

  /** Splitting a join of separator-free parts gives back the parts. */
  lemma {:induction false} SplitJoin(parts: seq<string>, sep: char)
    requires |parts| >= 1
    requires forall k :: 0 <= k < |parts| ==> sep !in parts[k]
    ensures Split(Join(parts, sep), sep) == parts
  {
    if |parts| == 1 {
      SplitNoSeparator(parts[0], sep);
    } else {
      SplitJoin(parts[1..], sep);
      SplitAfterPrefix(parts[0], sep, Join(parts[1..], sep));
    }
  }

  /** A string without the separator splits into itself. */
  lemma {:induction false} SplitNoSeparator(s: string, sep: char)
    requires sep !in s
    ensures Split(s, sep) == [s]
  {
    if s != [] {
      SplitNoSeparator(s[1..], sep);
      assert s[0] in s;
      assert [s[0]] + s[1..] == s;
    }
  }

  /** A string splits into one part exactly when it holds no separator. */
  lemma SplitSingle(s: string, sep: char)
    ensures |Split(s, sep)| == 1 <==> sep !in s
  {
    if sep !in s {
      SplitNoSeparator(s, sep);
    } else if |Split(s, sep)| == 1 {
      JoinSplit(s, sep);
    }
  }

  lemma {:induction false} SplitAfterPrefix(a: string, sep: char, b: string)
    requires sep !in a
    ensures Split(a + [sep] + b, sep) == [a] + Split(b, sep)
  {
    if a == [] {
      assert [] + [sep] + b == [sep] + b;
      assert ([sep] + b)[1..] == b;
    } else {
      assert (a + [sep] + b)[1..] == a[1..] + [sep] + b;
      SplitAfterPrefix(a[1..], sep, b);
      assert [a[0]] + a[1..] == a;
    }
  }

  /** One decimal digit as a character. */
  function DigitChar(d: nat): (c: char)
    requires d < 10
    ensures IsDigit(c)
  {
    ('0' as int + d) as char
  }

  /** The value of a digit character. */
  function DigitValue(c: char): (d: nat)
    requires IsDigit(c)
    ensures d < 10 && DigitChar(d) == c
  {
    c as int - '0' as int
  }

  /** `${n}` for a natural number: its decimal digits, without leading zeros. */
  function Decimal(n: nat): (r: string)
    ensures |r| >= 1
    ensures forall i :: 0 <= i < |r| ==> IsDigit(r[i])
    ensures |r| > 1 ==> r[0] != '0'
  {
    if n < 10 then [DigitChar(n)] else Decimal(n / 10) + [DigitChar(n % 10)]
  }

  predicate AllDigits(s: string) {
    forall i :: 0 <= i < |s| ==> IsDigit(s[i])
  }

  /** The number written by a string of decimal digits. */
  function DigitsValue(s: string): nat
    requires AllDigits(s)
  {
    if s == [] then 0 else DigitsValue(s[..|s| - 1]) * 10 + DigitValue(s[|s| - 1])
  }

  /** The longest prefix of `s` made of decimal digits. */
  function LeadingDigits(s: string): (r: string)
    ensures |r| <= |s| && r == s[..|r|] && AllDigits(r)
    ensures |r| < |s| ==> !IsDigit(s[|r|])
  {
    if s != [] && IsDigit(s[0]) then [s[0]] + LeadingDigits(s[1..]) else []
  }

  /** The result of `parseInt` on a string: a number, or `NaN` when no digit leads. */
  datatype ParsedInt = Number(n: nat) | NaN

  /** `parseInt(s)` for text that starts with decimal digits or with no digit at all. */
  function ParseInt(s: string): (r: ParsedInt)
    ensures r.NaN? <==> (s == [] || !IsDigit(s[0]))
  {
    var digits := LeadingDigits(s);
    if digits == [] then NaN else Number(DigitsValue(digits))
  }

  /** Parsing the decimal form of a number gives the number back. */
  lemma {:induction false} DecimalValue(n: nat)
    ensures DigitsValue(Decimal(n)) == n
  {
    if n >= 10 {
      DecimalValue(n / 10);
      var d := Decimal(n);
      assert d[..|d| - 1] == Decimal(n / 10);
    }
  }

  lemma {:induction false} LeadingDigitsOfDigits(s: string)
    requires AllDigits(s)
    ensures LeadingDigits(s) == s
  {
    if s != [] {
      LeadingDigitsOfDigits(s[1..]);
    }
  }

  /** `parseInt(String(n)) == n`. */
  lemma ParseDecimal(n: nat)
    ensures ParseInt(Decimal(n)) == Number(n)
  {
    LeadingDigitsOfDigits(Decimal(n));
    DecimalValue(n);
  }

  /** The character classes the viewer's regular expressions repeat. */
  datatype CharClass = HashSign | WhiteSpace | NotLineTerminator | CloseParen | NotCloseBracket

  predicate InClass(c: char, k: CharClass) {
    match k
    case HashSign => c == '#'
    case WhiteSpace => IsWhiteSpace(c)
    case NotLineTerminator => !IsLineTerminator(c)
    case CloseParen => c == ')'
    case NotCloseBracket => c != ']'
  }

  /** The length of the longest run of class `k` starting at `p`: what a greedy `k+`
      takes before any backtracking. */
  function Run(s: string, p: nat, k: CharClass): (n: nat)
    requires p <= |s|
    decreases |s| - p
    ensures p + n <= |s|
    ensures p + n < |s| ==> !InClass(s[p + n], k)
  {
    if p < |s| && InClass(s[p], k) then 1 + Run(s, p + 1, k) else 0
  }

  /** Every character of a run is in its class. */
  lemma {:induction false} RunChars(s: string, p: nat, k: CharClass)
    requires p <= |s|
    ensures forall i :: p <= i < p + Run(s, p, k) ==> InClass(s[i], k)
    decreases |s| - p
  {
    if p < |s| && InClass(s[p], k) {
      RunChars(s, p + 1, k);
    }
  }

  /** A run starting on a character of its class is not empty. */
  lemma RunPositive(s: string, p: nat, k: CharClass)
    requires p < |s| && InClass(s[p], k)
    ensures Run(s, p, k) >= 1
  {
  }

  /** A run is determined by where it stops. */
  lemma RunUnique(s: string, p: nat, k: CharClass, n: nat)
    requires p + n <= |s|
    requires forall i :: p <= i < p + n ==> InClass(s[i], k)
    requires p + n == |s| || !InClass(s[p + n], k)
    ensures Run(s, p, k) == n
    decreases n
  {
    if n > 0 {
      RunUnique(s, p + 1, k, n - 1);
    }
  }

  /** The last index in `[lo, hi)` holding a character of class `k`: where a greedy
      match backtracks to. */
  function LastIn(s: string, lo: nat, hi: nat, k: CharClass): (r: Option<nat>)
    requires lo <= hi <= |s|
    decreases hi - lo
    ensures r.Some? ==> lo <= r.value < hi && InClass(s[r.value], k)
  {
    if lo == hi then None
    else if InClass(s[hi - 1], k) then Some(hi - 1)
    else LastIn(s, lo, hi - 1, k)
  }

  /** Nothing of class `k` comes after the index `LastIn` finds, and when it finds
      none there is none in the range. */
  lemma {:induction false} LastInIsLast(s: string, lo: nat, hi: nat, k: CharClass)
    requires lo <= hi <= |s|
    ensures var r := LastIn(s, lo, hi, k);
      && (r.Some? ==> forall i :: r.value < i < hi ==> !InClass(s[i], k))
      && (r.None? ==> forall i :: lo <= i < hi ==> !InClass(s[i], k))
    decreases hi - lo
  {
    if lo < hi && !InClass(s[hi - 1], k) {
      LastInIsLast(s, lo, hi - 1, k);
    }
  }

  /** The index `LastIn` finds is the only one with these properties. */
  lemma LastInUnique(s: string, lo: nat, hi: nat, k: CharClass, e: nat)
    requires lo <= e < hi <= |s| && InClass(s[e], k)
    requires forall i :: e < i < hi ==> !InClass(s[i], k)
    ensures LastIn(s, lo, hi, k) == Some(e)
  {
    LastInIsLast(s, lo, hi, k);
  }
}
