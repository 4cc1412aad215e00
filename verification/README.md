# mailto: URL parsing, modelled in Dafny

This project models `NSURL.mailToMetadata()` and its result record
`MailToMetadata` from `Utils/Extensions/NSURLExtensionsMailTo.swift`. The
function reads a `mailto:` link, whose syntax is given in section 2 of RFC 2368.
It yields `nil` for any URL whose scheme is not exactly `mailto`. Otherwise it
yields the recipient text `to` and a `headers` dictionary:

- `to` is the text between the seven characters of `mailto:` and the first `?`,
  or the rest of the string when there is no `?`.
- `headers` is built from the `&`-separated segments after that `?`. A segment
  that splits on `=` into exactly two pieces records `name -> value`. A later
  segment with the same name overwrites an earlier one. Every other segment is
  dropped.

Files:

- `options.dfy`: module `Options`, holding `Option`, which stands for Swift's
  optional (`None` is `nil`).
- `strings.dfy`: module `Strings`, holding the string operations.
  - `IndexOf` is `characters.indexOf(c) ?? endIndex`.
  - `Split` is Foundation's `componentsSeparatedByString` for a one-character
    separator. It returns `n + 1` pieces for `n` separators and keeps empty
    pieces, so `""` splits into `[""]`.
  - `Join` is the inverse of `Split`. It is used to state what `Split` means.
- `mailto.dfy`: module `MailTo`, holding the record, the segment parser, the
  header fold and `ParseMailTo` itself.
- `mailto_lemmas.dfy`: module `MailToLemmas`, holding the properties of the
  parser.
- `mailto_examples.dfy`: module `MailToExamples`, holding typical `mailto:`
  links. Each is stated for every recipient, name and value of the same shape,
  for example `mailto:<to>?<n>=<v>` for any `to` without `?` and any `n` and `v`
  without `&` or `=`.

The URL is given by the two things the function reads from it: `scheme` and
`absoluteString`, the latter as a character sequence.

The Swift code traps in two cases:

- `advancedBy(7)` traps when the string is shorter than seven characters.
- The range `toStart..<toEnd` traps when the first `?` comes before position 7.

So `ParseMailTo` requires `Parsable`: for the `mailto` scheme, the first `?` is
at position 7 or later. If there is no `?`, its position is the end of the
string, so the string must have at least seven characters. Every string that
starts with `mailto:` meets this (`PrefixedIsParsable`).

One might expect the search for `?` to start after the `mailto:` prefix. The
code (`NSURLExtensionsMailTo.swift:29`) searches the whole absolute string from
its start, and the model follows the code. The two agree whenever the string
starts with `mailto:`.

Because the parser is a pure function, parsing the same input twice gives equal
results. That holds of every Dafny function, so no lemma states it.

## Model

| member | source | states |
|---|---|---|
| MailTo.ParseMailTo | Utils/Extensions/NSURLExtensionsMailTo.swift:22-53 | The result is `nil` exactly when the scheme is not `mailto`. Otherwise `to` has no `?`. The absolute string's first seven characters followed by `to` are a prefix of the string. The character right after `to`, if any, is `?`. With no `?` in the string, `headers` is empty. |
| MailTo.Parsable | Utils/Extensions/NSURLExtensionsMailTo.swift:28-31 | The input is accepted exactly when, for the `mailto` scheme, the string has at least seven characters and none of them is `?`. These are the conditions under which `advancedBy(7)` and the range `toStart..<toEnd` do not trap. |
| Strings.IndexOfAtLeast | Utils/Extensions/NSURLExtensionsMailTo.swift:28-31 | The first `?` is at position `n` or later exactly when none of the first `n` characters is `?`. |
| MailToLemmas.PrefixedIsParsable | Utils/Extensions/NSURLExtensionsMailTo.swift:28-31 | Every absolute string that starts with `mailto:` meets the parser's demands, so skipping the prefix and taking the range up to the first `?` cannot trap. |
| MailToLemmas.RecipientFollowsPrefix | Utils/Extensions/NSURLExtensionsMailTo.swift:28-31 | For a string starting with `mailto:`, the result is present and `"mailto:" + to` is a prefix of the absolute string. |
| MailToLemmas.NoQuery | Utils/Extensions/NSURLExtensionsMailTo.swift:29-35 | Without a `?`, `to` is the whole remainder after `mailto:` and `headers` is empty. |
| MailToLemmas.SplitsAtFirstQuestionMark | Utils/Extensions/NSURLExtensionsMailTo.swift:28-52 | For `before + "?" + query` with no `?` in `before`, `to` is `before` minus the prefix and `headers` is the header map of `query` alone. So the header text never affects `to`. |
| MailToLemmas.TrailingQuestionMarkNoHeaders | Utils/Extensions/NSURLExtensionsMailTo.swift:33-46 | A `?` followed by nothing (`mailto:x?`) gives an empty `headers` map. |
| MailToLemmas.EmptyQueryNoHeaders | Utils/Extensions/NSURLExtensionsMailTo.swift:38-46 | The empty header text gives no headers, because its single empty segment has no `=`. |
| Strings.IndexOf | Utils/Extensions/NSURLExtensionsMailTo.swift:29 | The result is at most the length. No `c` occurs before it. At the result, if it is inside the string, there is a `c`. The result is the length exactly when `c` does not occur. |
| Strings.IndexOfUnique | Utils/Extensions/NSURLExtensionsMailTo.swift:29 | A position that holds `c` (or is the end) with no `c` before it is the value of `IndexOf`. |
| Strings.Split | Utils/Extensions/NSURLExtensionsMailTo.swift:40 | There is always at least one piece, and no piece contains the separator. |
| Strings.SplitCount | Utils/Extensions/NSURLExtensionsMailTo.swift:40-44 | `n` separators give `n + 1` pieces, so `count == 2` means exactly one separator. |
| Strings.JoinSplit | Utils/Extensions/NSURLExtensionsMailTo.swift:40 | Joining the pieces of a split with the separator gives back the original string. |
| Strings.SplitJoin | Utils/Extensions/NSURLExtensionsMailTo.swift:43 | Splitting a join of separator-free pieces gives back those pieces, empty ones included. |
| Strings.SplitAtFirst | Utils/Extensions/NSURLExtensionsMailTo.swift:40 | The text before the first separator is the first piece, and the rest is split the same way. |
| Strings.SplitWithoutSeparator | Utils/Extensions/NSURLExtensionsMailTo.swift:43 | A string without the separator splits into itself alone. |
| MailTo.ParseSegment | Utils/Extensions/NSURLExtensionsMailTo.swift:43-48 | A segment yields a name and value exactly when it holds exactly one `=`. The segment is then `name + "=" + value`, and neither part holds `=`. |
| MailToLemmas.SegmentRoundTrip | Utils/Extensions/NSURLExtensionsMailTo.swift:43-48 | For a name and value without `=`, parsing `name=value` gives back that name and value. |
| MailTo.AddHeader | Utils/Extensions/NSURLExtensionsMailTo.swift:42-50 | A segment without exactly one `=` leaves the map unchanged. A well-formed segment `name=value` inserts or overwrites `name` with `value`. |
| MailTo.AddHeaders | Utils/Extensions/NSURLExtensionsMailTo.swift:42-50 | The fold over the segments never removes a key that was already present. Every key in the result was either present before or is the name of some well-formed segment. |
| MailTo.HeadersOf | Utils/Extensions/NSURLExtensionsMailTo.swift:38-50 | Every header name is the name of some well-formed `&`-segment of the header text. The full key set and the last-wins values are stated by `MailToLemmas.HeaderKeySet` and `MailToLemmas.HeaderLastWins`. |
| MailToLemmas.AddHeadersConcat | Utils/Extensions/NSURLExtensionsMailTo.swift:42-50 | Folding over `a + b` is the same as folding over `a` and then over `b`, because segments are processed in order. |
| MailToLemmas.MalformedSegmentIgnored | Utils/Extensions/NSURLExtensionsMailTo.swift:43-46 | A segment with zero `=` or with two or more `=` adds nothing, wherever it stands among the segments. |
| MailToLemmas.AddHeadersLookup | Utils/Extensions/NSURLExtensionsMailTo.swift:42-50 | A name is present exactly when it was present before or some well-formed segment defines it. Its value then comes from the last segment that defines it. A name that no segment defines keeps its earlier value. |
| MailToLemmas.HeaderKeys | Utils/Extensions/NSURLExtensionsMailTo.swift:39-50 | A name is a header exactly when some well-formed `&`-segment of the header text carries that name. |
| MailToLemmas.HeaderKeySet | Utils/Extensions/NSURLExtensionsMailTo.swift:39-50 | The key set of `headers` equals the set of names of the well-formed segments. |
| MailToLemmas.HeaderLastWins | Utils/Extensions/NSURLExtensionsMailTo.swift:42-49 | Each header's value is the value of a well-formed segment that parses to exactly that name and value (and so reads literally `name=value`), and no later well-formed segment carries that name: the last segment wins. |
| MailToLemmas.HeaderDelimiterFree | Utils/Extensions/NSURLExtensionsMailTo.swift:40-48 | No header name or value contains `&` or `=`. |
| MailToExamples.WithQuery | Utils/Extensions/NSURLExtensionsMailTo.swift:28-38 | `mailto:<to>?<query>` with no `?` in `to` gives recipient `to` and the header map of `query`. |
| MailToExamples.OneSegmentQuery | Utils/Extensions/NSURLExtensionsMailTo.swift:40-50 | The header text `<n>=<v>` gives the single header `n -> v`. |
| MailToExamples.OneHeader | Utils/Extensions/NSURLExtensionsMailTo.swift:22-53 | `mailto:<to>?<n>=<v>` gives `to` and the single header `n -> v`. |
| MailToExamples.TwoSegmentQuery | Utils/Extensions/NSURLExtensionsMailTo.swift:40-50 | The header text `<n1>=<v1>&<n2>=<v2>` gives both headers. The second value wins when the names are equal. |
| MailToExamples.TwoHeaders | Utils/Extensions/NSURLExtensionsMailTo.swift:22-53 | `mailto:<to>?<n1>=<v1>&<n2>=<v2>` gives `to` and both headers, and the later value wins on a repeated name. |
| MailToExamples.BadThenGoodQuery | Utils/Extensions/NSURLExtensionsMailTo.swift:40-50 | In the header text `<bad>&<n>=<v>`, the segment without `=` is dropped, leaving only `n -> v`. |
| MailToExamples.SegmentWithoutEquals | Utils/Extensions/NSURLExtensionsMailTo.swift:38-50 | In `mailto:<to>?<bad>&<n>=<v>`, the segment without `=` is dropped, leaving only `n -> v`. |
| MailToExamples.TwoEqualsQuery | Utils/Extensions/NSURLExtensionsMailTo.swift:43-46 | The header text `<a>=<b>=<c>` gives no headers. |
| MailToExamples.SegmentWithTwoEquals | Utils/Extensions/NSURLExtensionsMailTo.swift:43-46 | `mailto:<to>?<a>=<b>=<c>` gives no headers. The segment is not read as `a -> "b=c"`. |

## Left out

- Building the `NSURL`, extracting its scheme, and any normalisation Foundation
  applies to `absoluteString` belong to the URL library. The model takes
  `scheme` and the absolute string as given inputs.
- Percent-decoding of `to` or of header names and values is not modelled.
  Section 2 of RFC 2368 calls for it, but the code does not do it.
- Swift's `String.Index` and grapheme-cluster semantics are not modelled. A
  string here is a sequence of `char`, and positions are counted in those.
- Swift compares `String`s, and hashes them as `Dictionary` keys, by Unicode
  canonical equivalence. The model compares header names as character
  sequences. So `"e\u{301}"` and `"\u{e9}"` are one key at
  `NSURLExtensionsMailTo.swift:49`, with last-wins across the two spellings,
  but two keys in the model. `HeaderKeys`, `HeaderKeySet`, `HeaderLastWins` and
  `AddHeadersLookup` hold for names compared character by character.
- The order of entries in the Swift `Dictionary` is not modelled. A Dafny `map`
  has no order, and the code never observes one.
- The trap the Swift code hits on input that fails `Parsable` is not modelled as
  a result. Such input is excluded by the precondition instead.
- MailTo.AddHeaders: its own contract says only which keys the result can
  hold, not their values. The full lookup behaviour of the fold, values
  included, is stated by `MailToLemmas.AddHeadersLookup`.
- MailTo.HeadersOf: its own contract says only that every key comes from a
  well-formed segment. The converse and the values are stated by
  `MailToLemmas.HeaderKeySet` and `MailToLemmas.HeaderLastWins`.
