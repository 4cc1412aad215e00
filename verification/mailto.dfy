/**
  The `mailto:` URL parser (RFC 2368, section 2): the `MailToMetadata`
  record and `NSURL.mailToMetadata()`.

  The URL is given by the two things the parser reads from it: its scheme
  and its absolute string. The recipient is the text between the seven
  characters of `mailto:` and the first `?`; the headers come from the
  `&`-separated `name=value` segments after that `?`, later segments
  overwriting earlier ones. Nothing is percent-decoded.
 */
module MailTo {
  import opened Options
  import opened Strings

  /** The only scheme the parser accepts, compared case-sensitively. */
  const Scheme: string := "mailto"

  /** The text skipped at the start of the absolute string. */
  const Prefix: string := "mailto:"

  /** What a `mailto:` link carries: the recipient text and its header fields. */
  datatype MailToMetadata = MailToMetadata(to: string, headers: map<string, string>)

  /** A `&`-segment that splits on `=` into exactly a name and a value. */
  function ParseSegment(segment: string): (h: Option<(string, string)>)
    ensures h.Some? <==> Count(segment, '=') == 1
    ensures h.Some? ==> segment == h.value.0 + "=" + h.value.1
    ensures h.Some? ==> '=' !in h.value.0 && '=' !in h.value.1
  {
    var pieces := Split(segment, '=');
    JoinSplit(segment, '=');
    SplitCount(segment, '=');
    if |pieces| == 2 then Some((pieces[0], pieces[1])) else None
  }

  /** True when `segment` is well formed and names the header `name`. */
  predicate Defines(segment: string, name: string)
  {
    ParseSegment(segment).Some? && ParseSegment(segment).value.0 == name
  }

  /** True when some well-formed segment among `segments` names `name`. */
  ghost predicate Carried(segments: seq<string>, name: string)
  {
    exists i :: 0 <= i < |segments| && Defines(segments[i], name)
  }

  /** One step of the `forEach`: record or overwrite a well-formed segment's
      header, and leave the map alone for any other segment. */
  function AddHeader(headers: map<string, string>, segment: string): (r: map<string, string>)
    ensures Count(segment, '=') != 1 ==> r == headers
    ensures Count(segment, '=') == 1 ==>
      exists name, value :: segment == name + "=" + value && r == headers[name := value]
  {
    match ParseSegment(segment)
    case None => headers
    case Some((name, value)) => headers[name := value]
  }

  /** The `forEach` over the segments, in order (a left fold). */
  function AddHeaders(headers: map<string, string>, segments: seq<string>): (r: map<string, string>)
    ensures headers.Keys <= r.Keys
    ensures forall name :: name in r ==> name in headers || Carried(segments, name)
    decreases |segments|
  {
    if |segments| == 0 then headers
    else
      var rest := segments[1..];
      assert forall i :: 0 <= i < |rest| ==> rest[i] == segments[i + 1];
      AddHeaders(AddHeader(headers, segments[0]), rest)
  }

  /** The header map built from the text after the first `?`: every name in
      it is carried by some well-formed `&`-segment of that text. */
  function HeadersOf(query: string): (r: map<string, string>)
    ensures forall name :: name in r ==> Carried(Split(query, '&'), name)
  {
    AddHeaders(map[], Split(query, '&'))
  }

  /** What the parser demands of its input: for a `mailto` URL the absolute
      string has at least the seven prefix characters, and none of them is a
      `?`; otherwise skipping the prefix, or the range from there to the
      first `?`, would trap. */
  predicate Parsable(scheme: string, abs: string): (ok: bool)
    ensures ok <==> (scheme == Scheme ==> |Prefix| <= |abs| && '?' !in abs[..|Prefix|])
  {
    var noTrap := scheme == Scheme ==> |Prefix| <= IndexOf(abs, '?');
    if |Prefix| <= |abs| then IndexOfAtLeast(abs, '?', |Prefix|); noTrap else noTrap
  }

  /** `NSURL.mailToMetadata()`: `None` for any other scheme, otherwise the
      recipient and the headers. */
  function ParseMailTo(scheme: string, abs: string): (r: Option<MailToMetadata>)
    requires Parsable(scheme, abs)
    ensures r.None? <==> scheme != Scheme
    ensures r.Some? ==> |Prefix| + |r.value.to| <= |abs|
    ensures r.Some? ==> abs[..|Prefix|] + r.value.to <= abs
    ensures r.Some? ==> '?' !in r.value.to
    ensures r.Some? && |Prefix| + |r.value.to| < |abs| ==> abs[|Prefix| + |r.value.to|] == '?'
    ensures r.Some? && '?' !in abs ==> r.value.headers == map[]
  {
    if scheme != Scheme then None
    else
      var toEnd := IndexOf(abs, '?');
      var to := abs[|Prefix|..toEnd];
      assert abs[..toEnd] == abs[..|Prefix|] + to;
      if toEnd == |abs| then Some(MailToMetadata(to, map[]))
      else Some(MailToMetadata(to, HeadersOf(abs[toEnd + 1..])))
  }
}
