/**
 * The page index in the location fragment: a successful load writes `#p=<index>`
 * (js/app.js:81) and the start-up code reads the index back (js/app.js:201-203).
 */
module Fragment {
  import opened JsString

  /** `` `#p=${pageIndex}` ``. */
  function WriteHash(i: nat): string {
    "#p=" + Decimal(i)
  }

  /** `parseInt(hash.replace("#", "").split("=")[1] ?? 0)`, where `hash` is the
      fragment of the location as the URL reports it (`""` when there is none): the
      text between the first and the second `=` is parsed, and `0` stands in when
      there is no `=`. */
  function ParseHash(hash: string): ParsedInt {
    var parts := Split(ReplaceFirst(hash, "#", ""), '=');
    if |parts| > 1 then ParseInt(parts[1]) else Number(0)
  }

  /** Reading back a written fragment gives the index written. */
  lemma {:induction false} ParseWrittenHash(i: nat)
    ensures ParseHash(WriteHash(i)) == Number(i)
  {
    assert WriteHash(i) == "#" + ("p" + ['='] + Decimal(i));
    DropHash("p" + ['='] + Decimal(i));
    SplitAfterPrefix("p", '=', Decimal(i));
    assert forall k :: 0 <= k < |Decimal(i)| ==> Decimal(i)[k] != '=';
    SplitNoSeparator(Decimal(i), '=');
    ParseDecimal(i);
  }

  /** The leading `#` is the one `replace` removes. */
  lemma DropHash(rest: string)
    ensures ReplaceFirst("#" + rest, "#", "") == rest
  {
    var h := "#" + rest;
    assert OccursAt(h, "#", 0);
    ReplaceFirstAt(h, "#", "", 0);
    assert h[1..] == rest;
  }

  /** Without a fragment the index is `0`. */
  lemma NoHashIsZero()
    ensures ParseHash("") == Number(0)
  {
    ReplaceFirstAbsent("", "#", "");
  }

  /** A fragment without `=` gives `0`. */
  lemma {:induction false} NoEqualsIsZero(hash: string)
    requires '=' !in hash
    ensures ParseHash(hash) == Number(0)
  {
    var s := ReplaceFirst(hash, "#", "");
    assert '=' !in s by {
      if '=' in s { ReplaceFirstChars(hash, "#", "", '='); }
    }
    SplitNoSeparator(s, '=');
  }

  /** The key before `=` is not looked at: `#<key>=<value>` gives `parseInt(value)`. */
  lemma {:induction false} KeyIgnored(key: string, value: string)
    requires '=' !in key && '=' !in value
    ensures ParseHash("#" + key + "=" + value) == ParseInt(value)
  {
    assert "#" + key + "=" + value == "#" + (key + ['='] + value);
    DropHash(key + ['='] + value);
    SplitAfterPrefix(key, '=', value);
    SplitNoSeparator(value, '=');
  }

  /** An empty index yields `NaN`, which the start-up code hands on as the page index. */
  lemma EmptyIndexIsNaN()
    ensures ParseHash("#p=") == NaN
  {
    KeyIgnored("p", "");
    assert "#" + "p" + "=" + "" == "#p=";
  }
}
