/**
 * The retailer site: its origin, the search URL built for a keyword, and the
 * keyword the search endpoint reads back out of that URL.
 */
module Site {
  import opened UriEncoding

  const BASE_URL: string := "https://www.walgreens.com"
  const SEARCH_PREFIX: string := BASE_URL + "/search/results.jsp?Ntt="

  /** The search URL exactly as the scraper builds it, with encodeURI. */
  function SearchUrl(keyword: string): (url: string)
    ensures |SEARCH_PREFIX| <= |url| && url[..|SEARCH_PREFIX|] == SEARCH_PREFIX
  {
    SEARCH_PREFIX + EncodeUri(keyword)
  }

  /** The search URL with the keyword escaped as one query component (encodeURIComponent). */
  function SearchUrlFixed(keyword: string): (url: string)
    ensures |SEARCH_PREFIX| <= |url| && url[..|SEARCH_PREFIX|] == SEARCH_PREFIX
  {
    SEARCH_PREFIX + EncodeUriComponent(keyword)
  }

  predicate EndsValue(c: char) {
    c == '&' || c == '#'
  }

  /** The raw text of a query value: everything before the next `&` (next parameter) or `#` (fragment). */
  function RawValue(s: string): (r: string)
    ensures |r| <= |s| && r == s[..|r|]
    ensures forall i :: 0 <= i < |r| ==> !EndsValue(r[i])
    ensures |r| < |s| ==> EndsValue(s[|r|])
  {
    if s == [] || EndsValue(s[0]) then [] else [s[0]] + RawValue(s[1..])
  }

  /** The value of the `Ntt` parameter as the search endpoint decodes it. */
  function NttValue(url: string): string
    requires |SEARCH_PREFIX| <= |url|
  {
    FormDecode(RawValue(url[|SEARCH_PREFIX|..]))
  }

  /**
   * With encodeURI the keyword survives only when it holds no `&`, `#` or `+`
   * (encodeURI keeps those three, and each means something else in a query).
   */
  lemma SearchUrlCarriesPlainKeyword(keyword: string)
    requires forall i :: 0 <= i < |keyword| ==>
      IsAscii(keyword[i]) && !EndsValue(keyword[i]) && keyword[i] != '+'
    ensures NttValue(SearchUrl(keyword)) == keyword
  {
    var enc := EncodeUri(keyword);
    assert SearchUrl(keyword)[|SEARCH_PREFIX|..] == enc;
    NoValueEndAfterEncode(keyword, EncodeUriKeeps);
    RawValueWhole(enc);
    FormDecodeOfEncode(keyword, EncodeUriKeeps);
  }

  /** As written: a keyword is cut at its first `&`; everything after it never reaches the endpoint. */
  lemma SearchUrlCutsAtAmpersand(a: string, b: string)
    requires forall i :: 0 <= i < |a| ==> IsAscii(a[i]) && !EndsValue(a[i]) && a[i] != '+'
    ensures NttValue(SearchUrl(a + "&" + b)) == a
  {
    var keyword := a + "&" + b;
    var head, tail := EncodeUri(a), "&" + EncodeUri(b);
    assert EncodeUri(keyword) == head + tail by {
      PercentEncodeAppend(a, "&" + b, EncodeUriKeeps);
      assert keyword == a + ("&" + b);
      assert ("&" + b)[1..] == b;
      assert EncodeChar('&', EncodeUriKeeps) == "&";
    }
    assert RawValue(head + tail) == head by {
      NoValueEndAfterEncode(a, EncodeUriKeeps);
      RawValueStopsAt(head, tail);
    }
    EncodeUriDecodes(a);
    NttValueReadsHead(keyword, head, tail);
  }

  /** An ASCII text without `+` is decoded back from its encodeURI form. */
  lemma EncodeUriDecodes(s: string)
    requires forall i :: 0 <= i < |s| ==> IsAscii(s[i]) && s[i] != '+'
    ensures FormDecode(EncodeUri(s)) == s
  {
    forall i | 0 <= i < |s| ensures !(EncodeUriKeeps(s[i]) && IsFormSpecial(s[i])) {
      assert !EncodeUriKeeps('%');
    }
    FormDecodeOfEncode(s, EncodeUriKeeps);
  }

  /** The endpoint reads the decoded part of the encoded keyword before its first `&` or `#`. */
  lemma NttValueReadsHead(keyword: string, head: string, tail: string)
    requires EncodeUri(keyword) == head + tail
    requires RawValue(head + tail) == head
    ensures NttValue(SearchUrl(keyword)) == FormDecode(head)
  {
    assert SearchUrl(keyword)[|SEARCH_PREFIX|..] == head + tail;
  }

  /** The keyword `Cold & Flu` reaches the endpoint as `Cold `. */
  lemma SearchUrlTruncatesColdAndFlu()
    ensures NttValue(SearchUrl("Cold & Flu")) == "Cold "
  {
    var a, b: string := "Cold ", " Flu";
    assert a + "&" + b == "Cold & Flu";
    SearchUrlCutsAtAmpersand(a, b);
  }

  /** Corrected: every ASCII keyword reaches the endpoint unchanged. */
  lemma SearchUrlFixedCarriesKeyword(keyword: string)
    requires forall i :: 0 <= i < |keyword| ==> IsAscii(keyword[i])
    ensures NttValue(SearchUrlFixed(keyword)) == keyword
  {
    var enc := EncodeUriComponent(keyword);
    assert SearchUrlFixed(keyword)[|SEARCH_PREFIX|..] == enc;
    NoValueEndAfterEncode(keyword, IsUriUnescaped);
    RawValueWhole(enc);
    FormDecodeOfEncode(keyword, IsUriUnescaped);
  }

  /** A value with no `&` or `#` is read whole. */
  lemma {:induction false} RawValueWhole(s: string)
    requires forall i :: 0 <= i < |s| ==> !EndsValue(s[i])
    ensures RawValue(s) == s
  {
    if s != [] {
      RawValueWhole(s[1..]);
    }
  }

  /** A value is cut at the first `&` or `#`. */
  lemma {:induction false} RawValueStopsAt(a: string, b: string)
    requires forall i :: 0 <= i < |a| ==> !EndsValue(a[i])
    requires b != [] && EndsValue(b[0])
    ensures RawValue(a + b) == a
  {
    if a == [] {
      assert a + b == b;
    } else {
      assert (a + b)[1..] == a[1..] + b;
      RawValueStopsAt(a[1..], b);
    }
  }

  /** Encoding a text with no kept `&` or `#` yields one with neither. */
  lemma {:induction false} NoValueEndAfterEncode(s: string, keep: char -> bool)
    requires forall i :: 0 <= i < |s| ==> !(keep(s[i]) && EndsValue(s[i]))
    ensures forall i :: 0 <= i < |PercentEncode(s, keep)| ==> !EndsValue(PercentEncode(s, keep)[i])
  {
    if s != [] {
      NoValueEndAfterEncode(s[1..], keep);
      var head := EncodeChar(s[0], keep);
      var rest := PercentEncode(s[1..], keep);
      assert PercentEncode(s, keep) == head + rest;
      assert forall i :: 0 <= i < |head| ==> !EndsValue(head[i]);
    }
  }
}
