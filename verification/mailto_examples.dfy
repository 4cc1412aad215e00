/**
  Typical `mailto:` links, stated for every recipient, header name and
  header value of the same shape: `mailto:<to>?<n>=<v>`,
  `mailto:<to>?<n1>=<v1>&<n2>=<v2>`, `mailto:<to>?<bad>&<n>=<v>` and
  `mailto:<to>?<a>=<b>=<c>`. Recipients hold no `?`; names, values and the
  bad segment hold neither `&` nor `=`. (`mailto:<to>` and `mailto:<to>?`
  are `MailToLemmas.NoQuery` and `MailToLemmas.TrailingQuestionMarkNoHeaders`.)
 */
module MailToExamples {
  import opened Options
  import opened Strings
  import opened MailTo
  import opened MailToLemmas

  /** Text that can stand as a header name or value inside one segment. */
  predicate Plain(s: string)
  {
    '&' !in s && '=' !in s
  }

  /** `mailto:<to>?<query>` has recipient `to` and the headers of `query`. */
  lemma WithQuery(to: string, query: string)
    requires '?' !in to
    ensures Parsable(Scheme, Prefix + to + "?" + query)
    ensures ParseMailTo(Scheme, Prefix + to + "?" + query)
      == Some(MailToMetadata(to, HeadersOf(query)))
  {
    assert (Prefix + to)[|Prefix|..] == to;
    assert '?' !in Prefix;
    SplitsAtFirstQuestionMark(Prefix + to, query);
  }

  /** The segment `<n>=<v>` alone gives the single header `n -> v`. */
  lemma OneSegmentQuery(n: string, v: string)
    requires Plain(n) && Plain(v)
    ensures HeadersOf(n + "=" + v) == map[n := v]
  {
    var query := n + "=" + v;
    assert '&' !in query;
    SplitWithoutSeparator(query, '&');
    SegmentRoundTrip(n, v);
    var segments := [query];
    assert segments[1..] == [];
    assert AddHeader(map[], query) == map[n := v];
    assert AddHeaders(map[], segments) == AddHeaders(map[n := v], []);
  }

  /** `mailto:<to>?<n>=<v>` gives the single header `n -> v`. */
  lemma OneHeader(to: string, n: string, v: string)
    requires '?' !in to && Plain(n) && Plain(v)
    ensures Parsable(Scheme, Prefix + to + "?" + (n + "=" + v))
    ensures ParseMailTo(Scheme, Prefix + to + "?" + (n + "=" + v))
      == Some(MailToMetadata(to, map[n := v]))
  {
    WithQuery(to, n + "=" + v);
    OneSegmentQuery(n, v);
  }

  /** The query `<n1>=<v1>&<n2>=<v2>` folds into both headers, the second
      overwriting the first when the names are equal. */
  lemma TwoSegmentQuery(n1: string, v1: string, n2: string, v2: string)
    requires Plain(n1) && Plain(v1) && Plain(n2) && Plain(v2)
    ensures HeadersOf(n1 + "=" + v1 + "&" + n2 + "=" + v2) == map[n1 := v1, n2 := v2]
  {
    var first, second := n1 + "=" + v1, n2 + "=" + v2;
    var query := first + "&" + second;
    assert n1 + "=" + v1 + "&" + n2 + "=" + v2 == query;
    assert '&' !in first && '&' !in second;
    SplitAtFirst(first, second, '&');
    SplitWithoutSeparator(second, '&');
    SegmentRoundTrip(n1, v1);
    SegmentRoundTrip(n2, v2);
    var segments := [first, second];
    assert Split(query, '&') == segments;
    assert segments[1..] == [second];
    assert [second][1..] == [];
    var m1 := AddHeader(map[], first);
    assert m1 == map[n1 := v1];
    var m2 := AddHeader(m1, second);
    assert m2 == map[n1 := v1, n2 := v2];
    assert AddHeaders(m1, [second]) == AddHeaders(m2, []);
    assert AddHeaders(map[], segments) == AddHeaders(m1, [second]);
  }

  /** `mailto:<to>?<n1>=<v1>&<n2>=<v2>` gives both headers; when the two
      names are equal the later value wins. */
  lemma TwoHeaders(to: string, n1: string, v1: string, n2: string, v2: string)
    requires '?' !in to && Plain(n1) && Plain(v1) && Plain(n2) && Plain(v2)
    ensures Parsable(Scheme, Prefix + to + "?" + (n1 + "=" + v1 + "&" + n2 + "=" + v2))
    ensures ParseMailTo(Scheme, Prefix + to + "?" + (n1 + "=" + v1 + "&" + n2 + "=" + v2))
      == Some(MailToMetadata(to, map[n1 := v1, n2 := v2]))
  {
    WithQuery(to, n1 + "=" + v1 + "&" + n2 + "=" + v2);
    TwoSegmentQuery(n1, v1, n2, v2);
  }

  /** In the query `<bad>&<n>=<v>` the segment without `=` is dropped. */
  lemma BadThenGoodQuery(bad: string, n: string, v: string)
    requires Plain(bad) && Plain(n) && Plain(v)
    ensures HeadersOf(bad + "&" + n + "=" + v) == map[n := v]
  {
    var second := n + "=" + v;
    var query := bad + "&" + second;
    assert bad + "&" + n + "=" + v == query;
    assert '&' !in second;
    SplitAtFirst(bad, second, '&');
    SplitWithoutSeparator(second, '&');
    SegmentRoundTrip(n, v);
    var segments := [bad, second];
    assert Split(query, '&') == segments;
    assert segments[1..] == [second];
    assert [second][1..] == [];
    assert Count(bad, '=') == 0;
    assert AddHeader(map[], bad) == map[];
    assert AddHeader(map[], second) == map[n := v];
    assert AddHeaders(map[], [second]) == AddHeaders(map[n := v], []);
    assert AddHeaders(map[], segments) == AddHeaders(map[], [second]);
  }

  /** `mailto:<to>?<bad>&<n>=<v>`: the segment without `=` is dropped. */
  lemma SegmentWithoutEquals(to: string, bad: string, n: string, v: string)
    requires '?' !in to && Plain(bad) && Plain(n) && Plain(v)
    ensures Parsable(Scheme, Prefix + to + "?" + (bad + "&" + n + "=" + v))
    ensures ParseMailTo(Scheme, Prefix + to + "?" + (bad + "&" + n + "=" + v))
      == Some(MailToMetadata(to, map[n := v]))
  {
    WithQuery(to, bad + "&" + n + "=" + v);
    BadThenGoodQuery(bad, n, v);
  }

  /** The query `<a>=<b>=<c>` has two `=` and gives no headers. */
  lemma TwoEqualsQuery(a: string, b: string, c: string)
    requires Plain(a) && Plain(b) && Plain(c)
    ensures HeadersOf(a + "=" + b + "=" + c) == map[]
  {
    var ab := a + "=" + b;
    var query := ab + "=" + c;
    assert a + "=" + b + "=" + c == query;
    assert '&' !in query;
    SplitWithoutSeparator(query, '&');
    CountAround(ab, c, '=');
    CountAround(a, b, '=');
    assert Count(query, '=') == 2;
    var segments := [query];
    assert segments[1..] == [];
    assert AddHeader(map[], query) == map[];
    assert AddHeaders(map[], segments) == AddHeaders(map[], []);
  }

  /** `mailto:<to>?<a>=<b>=<c>`: the segment has two `=` and is dropped
      entirely; it does not become `a -> "b=c"`. */
  lemma SegmentWithTwoEquals(to: string, a: string, b: string, c: string)
    requires '?' !in to && Plain(a) && Plain(b) && Plain(c)
    ensures Parsable(Scheme, Prefix + to + "?" + (a + "=" + b + "=" + c))
    ensures ParseMailTo(Scheme, Prefix + to + "?" + (a + "=" + b + "=" + c))
      == Some(MailToMetadata(to, map[]))
  {
    WithQuery(to, a + "=" + b + "=" + c);
    TwoEqualsQuery(a, b, c);
  }
}
