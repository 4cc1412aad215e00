/**
  Properties of `MailTo.ParseMailTo`: where the recipient comes from, which
  segments become headers, and which value a repeated header name keeps.
 */
module MailToLemmas {
  import opened Options
  import opened Strings
  import opened MailTo

  /** Parsing a segment undoes writing one: `name=value` with no other `=`
      reads back as that name and value. */
  lemma SegmentRoundTrip(name: string, value: string)
    requires '=' !in name && '=' !in value
    ensures ParseSegment(name + "=" + value) == Some((name, value))
  {
    SplitAtFirst(name, value, '=');
    SplitWithoutSeparator(value, '=');
  }

  /** Running the fold over `a + b` is running it over `a`, then over `b`. */
  lemma {:induction false} AddHeadersConcat(m: map<string, string>, a: seq<string>, b: seq<string>)
    ensures AddHeaders(m, a + b) == AddHeaders(AddHeaders(m, a), b)
    decreases |a|
  {
    if |a| == 0 {
      assert a + b == b;
    } else {
      assert (a + b)[0] == a[0];
      assert (a + b)[1..] == a[1..] + b;
      AddHeadersConcat(AddHeader(m, a[0]), a[1..], b);
    }
  }

  /** A segment without exactly one `=` contributes nothing wherever it
      stands: `a=1=2` does not become `a -> "1=2"`, and `badsegment` is
      dropped. */
  lemma MalformedSegmentIgnored(m: map<string, string>, before: seq<string>, segment: string, after: seq<string>)
    requires Count(segment, '=') != 1
    ensures AddHeaders(m, before + [segment] + after) == AddHeaders(m, before + after)
  {
    AddHeadersConcat(m, before + [segment], after);
    AddHeadersConcat(m, before, [segment]);
    AddHeadersConcat(m, before, after);
  }

  /** Lookup in the folded map, against an independent description: a name
      is present exactly when it was present before or some well-formed
      segment defines it; its value then comes from the LAST segment that
      defines it, and a name no segment defines keeps its earlier value. */
  lemma {:induction false} AddHeadersLookup(m: map<string, string>, segments: seq<string>, name: string)
    ensures name in AddHeaders(m, segments) <==> name in m || Carried(segments, name)
    ensures Carried(segments, name) ==>
      name in AddHeaders(m, segments) &&
      exists i :: 0 <= i < |segments| && ParseSegment(segments[i]) == Some((name, AddHeaders(m, segments)[name]))
        && forall j :: i < j < |segments| ==> !Defines(segments[j], name)
    ensures !Carried(segments, name) && name in m ==>
      AddHeaders(m, segments)[name] == m[name]
    decreases |segments|
  {
    if |segments| > 0 {
      var m' := AddHeader(m, segments[0]);
      var rest := segments[1..];
      var r := AddHeaders(m, segments);
      assert r == AddHeaders(m', rest);
      AddHeadersLookup(m', rest, name);
      assert forall i :: 0 <= i < |rest| ==> rest[i] == segments[i + 1];
      if Carried(rest, name) {
        var i :| 0 <= i < |rest| && ParseSegment(rest[i]) == Some((name, r[name]))
          && forall j :: i < j < |rest| ==> !Defines(rest[j], name);
        assert ParseSegment(segments[i + 1]) == Some((name, r[name]));
        assert forall j :: i + 1 < j < |segments| ==> !Defines(segments[j], name) by {
          forall j | i + 1 < j < |segments|
            ensures !Defines(segments[j], name)
          {
            assert segments[j] == rest[j - 1];
          }
        }
      } else if Defines(segments[0], name) {
        assert ParseSegment(segments[0]) == Some((name, r[name]));
        assert forall j :: 0 < j < |segments| ==> !Defines(segments[j], name) by {
          forall j | 0 < j < |segments|
            ensures !Defines(segments[j], name)
          {
            assert segments[j] == rest[j - 1];
          }
        }
      } else {
        assert forall j :: 0 <= j < |segments| ==> !Defines(segments[j], name) by {
          forall j | 0 < j < |segments|
            ensures !Defines(segments[j], name)
          {
            assert segments[j] == rest[j - 1];
          }
        }
        assert name in m' <==> name in m;
        assert name in m ==> m'[name] == m[name];
      }
    }
  }

  /** The headers' key set is exactly the set of names of the well-formed
      `&`-segments of the query: nothing else is added. */
  lemma HeaderKeys(query: string, name: string)
    ensures name in HeadersOf(query) <==> Carried(Split(query, '&'), name)
  {
    AddHeadersLookup(map[], Split(query, '&'), name);
  }

  /** Last wins: a header's value is the value of the last well-formed
      segment of the query that carries its name, and that segment is
      literally `name=value`. */
  lemma HeaderLastWins(query: string, name: string)
    requires name in HeadersOf(query)
    ensures exists i ::
      (&& 0 <= i < |Split(query, '&')|
       && ParseSegment(Split(query, '&')[i]) == Some((name, HeadersOf(query)[name]))
       && Split(query, '&')[i] == name + "=" + HeadersOf(query)[name]
       && forall j :: i < j < |Split(query, '&')| ==> !Defines(Split(query, '&')[j], name))
  {
    AddHeadersLookup(map[], Split(query, '&'), name);
  }

  /** The same fact as a set: the key set is the set of names of the
      well-formed segments. */
  lemma HeaderKeySet(query: string)
    ensures HeadersOf(query).Keys ==
      set i | 0 <= i < |Split(query, '&')| && ParseSegment(Split(query, '&')[i]).Some?
        :: ParseSegment(Split(query, '&')[i]).value.0
  {
    var segments := Split(query, '&');
    var names := set i | 0 <= i < |segments| && ParseSegment(segments[i]).Some? :: ParseSegment(segments[i]).value.0;
    forall name | name in HeadersOf(query)
      ensures name in names
    {
      HeaderKeys(query, name);
    }
    forall name | name in names
      ensures name in HeadersOf(query)
    {
      var i :| 0 <= i < |segments| && ParseSegment(segments[i]).Some? && ParseSegment(segments[i]).value.0 == name;
      assert Defines(segments[i], name);
      HeaderKeys(query, name);
    }
  }

  /** No header name or value holds a `&` or an `=`. */
  lemma HeaderDelimiterFree(query: string, name: string)
    requires name in HeadersOf(query)
    ensures '&' !in name && '=' !in name
    ensures '&' !in HeadersOf(query)[name] && '=' !in HeadersOf(query)[name]
  {
    var segments := Split(query, '&');
    var value := HeadersOf(query)[name];
    AddHeadersLookup(map[], segments, name);
    var i :| 0 <= i < |segments| && ParseSegment(segments[i]) == Some((name, value));
    assert segments[i] == name + "=" + value;
    assert '&' !in name + "=" + value;
  }

  /** An empty query (`mailto:x?`) gives no headers: it splits into the
      single empty segment, which has no `=`. */
  lemma EmptyQueryNoHeaders()
    ensures HeadersOf("") == map[]
  {
  }

  /** Any absolute string starting with `mailto:` is accepted by the
      parser's demands. */
  lemma PrefixedIsParsable(abs: string)
    requires Prefix <= abs
    ensures Parsable(Scheme, abs)
  {
  }

  /** For such a string the recipient follows the prefix directly:
      `"mailto:" + to` is a prefix of the absolute string. */
  lemma RecipientFollowsPrefix(abs: string)
    requires Prefix <= abs
    ensures Parsable(Scheme, abs)
    ensures ParseMailTo(Scheme, abs).Some?
    ensures Prefix + ParseMailTo(Scheme, abs).value.to <= abs
  {
  }

  /** Without a `?` the recipient is the whole remainder after `mailto:`
      and there are no headers. */
  lemma NoQuery(rest: string)
    requires '?' !in rest
    ensures Parsable(Scheme, Prefix + rest)
    ensures ParseMailTo(Scheme, Prefix + rest) == Some(MailToMetadata(rest, map[]))
  {
    var abs := Prefix + rest;
    PrefixedIsParsable(abs);
    assert '?' !in Prefix;
    assert '?' !in abs;
    assert IndexOf(abs, '?') == |abs|;
    assert abs[|Prefix|..|abs|] == rest;
  }

  /** With a `?` the string splits at the first one: the recipient is the
      text before it after `mailto:`, and the headers depend only on the
      text after it. So the recipient is unaffected by the header text. */
  lemma SplitsAtFirstQuestionMark(before: string, query: string)
    requires Prefix <= before
    requires '?' !in before
    ensures Parsable(Scheme, before + "?" + query)
    ensures ParseMailTo(Scheme, before + "?" + query)
      == Some(MailToMetadata(before[|Prefix|..], HeadersOf(query)))
  {
    var abs := before + "?" + query;
    assert abs[..|before|] == before;
    IndexOfUnique(abs, '?', |before|);
    assert abs[|Prefix|..|before|] == before[|Prefix|..];
    assert abs[|before| + 1..] == query;
    PrefixedIsParsable(before);
  }

  /** An empty query after the `?` gives an empty header map. */
  lemma TrailingQuestionMarkNoHeaders(before: string)
    requires Prefix <= before
    requires '?' !in before
    ensures Parsable(Scheme, before + "?")
    ensures ParseMailTo(Scheme, before + "?") == Some(MailToMetadata(before[|Prefix|..], map[]))
  {
    SplitsAtFirstQuestionMark(before, "");
    assert before + "?" + "" == before + "?";
    EmptyQueryNoHeaders();
  }
}
