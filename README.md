# url_monitor: a verified model of the probe logic

`url_monitor` is a Telegraf input plugin. It sends one HTTP request to a
configured address and reports a record of fields. The record says whether
the response body matched a required pattern, whether the status code
matched a required pattern, and whether the response time was within a
threshold. It also carries a sanitised message when something went wrong.

This project models the deterministic part of that plugin:

- the message sanitiser (`unicode2str`, `suberrmsg`);
- how `HTTPGather` shapes the request: where the body goes, which headers
  are added, the virtual host and the default content type;
- how `HTTPGather` classifies the outcome: the failure short-circuit, the
  redirect sentinel, regex-or-substring matching and the 0.7 latency rule;
- the defaults and the scheme check in `Gather`.

Go strings are byte strings, so every text is a `seq` of bytes (`Bytes`).
`fmt.Sprintf("%c", n)` is modelled as the UTF-8 encoding of `n`, or of
U+FFFD when `n` is not a valid code point. `strconv.ParseInt(s, 16, 32)`,
`strconv.Itoa`, `strings.Split`, `strings.Contains` and the ASCII part of
`strings.ToLower` are written out.

The outside world comes in as inputs:

- `send` is what `client.Do` reports for a client and a request;
- `elapsed` is the response time in seconds;
- `tlsLoads` says whether the TLS files load;
- `parseScheme` is `url.Parse` reduced to the scheme it finds;
- `re` is the regular-expression engine: whether a pattern compiles, and
  whether it finds a non-empty match.

Modules:

- `ByteStrings` holds bytes, split/join on `\u`, substring search and lower-casing.
- `Strconv` holds hex parsing, hex formatting and decimal conversion.
- `Utf8` holds `%c` encoding and its decoder.
- `Sanitize` holds `unicode2str` and `suberrmsg`.
- `Request` holds request shaping.
- `Classify` holds failure, matching and latency decisions.
- `UrlMonitor` holds the configuration, the `HTTPResponse` object, `HTTPGather` and `Gather`.

The code is modelled as written, including these behaviours:

- The text before the first `\u` is hex-decoded like the text after one,
  so `abc` becomes U+0ABC.
- A piece whose first four bytes are not hexadecimal is kept, but its `\u`
  is lost.
- `suberrmsg` cuts at 1250 bytes, possibly inside a multi-byte character.
- A body mismatch sets `msg` and `data_match = 0`. The code and time flags
  are still computed.
- The "back to 1 below 0.7 times the threshold" step only fires when the
  threshold is negative.
- When a redirect is blocked, the response that asked for it is classified
  like any completed response. In Go its body has already been closed, so
  the body read there is empty; the model takes the body as an input.
- A transport error is stored in `msg` as the error value, without
  sanitising.

## Model

| member | source | states |
|---|---|---|
| Sanitize.Unicode2Str | url_monitor.go:318-344 | The loop's result is the concatenation of the decoded pieces of the split on `\u`. Empty pieces add nothing. A piece of at most 4 bytes becomes one character if it parses as hex, and is otherwise kept. A longer piece becomes the character of its first 4 bytes followed by the rest, and is otherwise kept without its `\u`. |
| Sanitize.SubErrMsg | url_monitor.go:306-315 | The result is a prefix of the decoded text and at most 1250 bytes long. It is the whole decoded text when that is at most 1250 bytes, and exactly 1250 bytes otherwise. |
| Sanitize.DecodedAround | url_monitor.go:319-342 | The text on each side of a `\u` is decoded independently, and the two results are concatenated. |
| Sanitize.DecodesEscape | url_monitor.go:324-333 | `\u` followed by four hexadecimal digits, upper or lower case, is replaced by the UTF-8 encoding of the code point they spell, and the bytes after them are kept. |
| Sanitize.DecodesHex4Escape | url_monitor.go:324-333 | The lower-case escape written for a code point below 0x10000 decodes back to that code point's UTF-8 encoding. |
| Sanitize.UndecodableLosesSeparator | url_monitor.go:327-329 | A piece whose leading bytes do not parse as hex is kept, but the `\u` before it disappears. |
| Sanitize.DecodePiece | url_monitor.go:321-341 | A piece whose first four bytes (or all of it, when shorter) do not parse as hex is kept unchanged. Otherwise it becomes the UTF-8 of their value followed by the bytes after them. An empty piece gives nothing. |
| Sanitize.LeadingPieceDecoded | url_monitor.go:319-341 | The text before the first `\u` goes through the same piece decoding as the text after a separator. |
| Sanitize.LeadingTextIsDecoded | url_monitor.go:319-340 | Instance of the rule above: a leading `abc` becomes U+0ABC. |
| Sanitize.NegativeEscapeIsReplaced | url_monitor.go:335-339 | `\u` followed by `-` and one to three hex digits with a non-zero value becomes U+FFFD, because the value parses as negative. |
| Sanitize.MalformedEscapeIsDropped | url_monitor.go:335-337 | `\uZZZZ` decodes to `ZZZZ`. |
| ByteStrings.Split | url_monitor.go:319 | Split always returns at least one piece. |
| ByteStrings.SplitPiecesHaveNoSep | url_monitor.go:319 | No piece of the split contains `\u`. |
| ByteStrings.JoinSplit | url_monitor.go:319 | Joining the pieces with `\u` gives back the original text. |
| ByteStrings.SplitJoin | url_monitor.go:319 | Splitting a join of `\u`-free pieces gives back those pieces. |
| ByteStrings.SplitAround | url_monitor.go:319 | Splitting `a + \u + b` gives the pieces of `a` followed by the pieces of `b`. |
| ByteStrings.ContainsIffOccurs | url_monitor.go:207 | `strings.Contains` holds exactly when the pattern occurs at some position of the text. |
| ByteStrings.ToLower | url_monitor.go:159 | The result has the same length and contains no upper-case ASCII letter. Each byte is either kept or is an upper-case letter replaced by its lower-case partner. |
| Request.ContentTypeCaseVariants | url_monitor.go:159-161 | A header name counts as the content type exactly when it is 12 bytes long and spells `content-type` with each letter in either case. |
| Strconv.ParseHex | url_monitor.go:327 | An accepted value fits in 32 signed bits. With at most 4 bytes of input it lies in -0xfff..0xffff. |
| Strconv.ParseHexSpec | url_monitor.go:327 | Parsing accepts exactly when at least one byte follows an optional `+` or `-`, every such byte is a hex digit, and the value fits in 32 signed bits. The result is that value, negated after a `-`. |
| Strconv.HexDigitsDefined | url_monitor.go:327 | A run of bytes has a hex value exactly when every byte of it is a hex digit. |
| Strconv.SignedExamples | url_monitor.go:327 | `-abc` parses to -0xabc and `+abc` to 0xabc. |
| Strconv.ParseHex4 | url_monitor.go:327 | Four lower-case hex digits parse back to the number they format. |
| Strconv.Itoa | url_monitor.go:128 | The text starts with `-` exactly for a negative number. The rest is non-empty and has no leading zero, except for 0 itself. `ItoaRoundTrip` shows that it reads back as the number. |
| Strconv.ItoaRoundTrip | url_monitor.go:229 | The decimal text of a status code reads back as that code. |
| Utf8.EncodeRune | url_monitor.go:331 | `%c` yields 1 to 4 bytes. An invalid code point (negative, a surrogate or beyond U+10FFFF) yields U+FFFD. A value below 0x10000 yields at most 3 bytes. |
| Utf8.DecodeEncode | url_monitor.go:331 | The UTF-8 decoder gives back every valid code point from its encoding. |
| Utf8.EncodeDecode | url_monitor.go:331 | Every decodable byte sequence is the encoding of the code point it decodes to. |
| Request.HeaderConstantsSpelled | url_monitor.go:139-165 | `?`, `GET`, `Host`, `Content-Type` and `content-type` are the bytes of their text. |
| Request.FormEncodedSpelled | url_monitor.go:165 | The default content type is the bytes of `application/x-www-form-urlencoded`. |
| UrlMonitor.AddressConstantsSpelled | url_monitor.go:277-283 | The default address and the two accepted schemes are the bytes of `http://localhost`, `http` and `https`. |
| Request.AddHeader | url_monitor.go:153 | `Header.Add` appends the value under its name and leaves every other name alone. |
| Request.ShapeRequest | url_monitor.go:135-166 | For GET with a body, the body goes into the query string and none is sent. For any other method with a body, the body is sent unchanged. Without a body, the address is unchanged and none is sent. The host is overridden exactly when the key `Host` is present. Every configured header is added once. The form-encoded content type is added exactly when no key lower-cases to `content-type`. The request does not depend on the order the headers are visited in, as long as no two configured names differ only in case (see Left out). |
| Classify.Matches | url_monitor.go:197-247 | An empty pattern always matches. A pattern that compiles matches exactly when the regex finds a non-empty match. A pattern that does not compile matches exactly when it occurs somewhere in the text. |
| Classify.ProbeFailed | url_monitor.go:171-187 | When redirects are followed, any transport error is a failure. When they are not, only an error other than the redirect sentinel is. A completed request never fails. |
| Classify.TimeMatch | url_monitor.go:252-261 | The flag is 0 exactly when the time exceeds the threshold and is not below 0.7 times it. For a non-negative threshold, the flag is 1 exactly when the time is within the threshold. A flag of 1 above the threshold implies a negative threshold. |
| UrlMonitor.CreateHttpClient | url_monitor.go:96-117 | A client exists exactly when the TLS files load. Both timeouts are the response timeout. Redirects are blocked exactly when they are not followed. |
| UrlMonitor.Defaulted | url_monitor.go:268-278 | A timeout under one second becomes five seconds, an empty method becomes GET and an empty address becomes `http://localhost`. No other setting changes. |
| UrlMonitor.ConfigFieldsKept | url_monitor.go:125-128 | The four configuration fields are written first and never overwritten. |
| UrlMonitor.FailureShortCircuit | url_monitor.go:171-195 | A failed run carries exactly the configuration fields plus `msg` (the transport error), all three flags 0, `http_code` 0 and the elapsed time. |
| UrlMonitor.FailureIgnoresPatterns | url_monitor.go:187-195 | A failed run's record does not depend on the patterns or on the regex engine. |
| UrlMonitor.CompletedFlags | url_monitor.go:196-261 | In a completed run, `data_match` is the body pattern's verdict and `code_match` is the status pattern's verdict on the decimal status code. `time_match` follows the latency rule, and `http_code` is the status. |
| UrlMonitor.CompletedKeys | url_monitor.go:196-261 | A completed run carries exactly the configuration fields plus `data_match`, `code_match`, `time_match`, `response_time` and `http_code`, and also `msg` exactly when the body pattern does not match. |
| UrlMonitor.ProbeFields | url_monitor.go:120-263 | The record of a run holds `msg` exactly when the run failed or the body did not match. The other lemmas on this record (rows above and below) give it field by field. |
| UrlMonitor.ContentMismatchKeepsOtherFlags | url_monitor.go:209-222 | A body mismatch adds the sanitised body as `msg` and sets `data_match` to 0. Every other field is as it would be with an empty body pattern. |
| UrlMonitor.BlockedRedirectIsAResponse | url_monitor.go:111-115 | When redirects are not followed, the redirect sentinel is classified like a completed response with the same status and body. |
| UrlMonitor.DefaultedIdempotent | url_monitor.go:268-278 | Applying the defaults twice is the same as applying them once. |
| UrlMonitor.GatherRepeatable | url_monitor.go:268-290 | Because `Gather` writes the defaults back, a second call on the updated configuration decides as the first one did. |
| UrlMonitor.GatherOnlyHttp | url_monitor.go:279-293 | A record is produced only when the scheme is http or https and the TLS files load. |
| UrlMonitor.MatchContent | url_monitor.go:196-222 | The body step sets `data_match` to the pattern's verdict and, on a mismatch, stores the sanitised body as `msg`. |
| UrlMonitor.MatchCode | url_monitor.go:224-248 | The status step sets `code_match` to the pattern's verdict on the decimal status code. |
| UrlMonitor.MatchTime | url_monitor.go:252-261 | The latency step leaves `time_match` at the value of the latency rule. |
| UrlMonitor.HttpResponse.constructor | url_monitor.go:21-43 | The object holds exactly the given configuration. |
| UrlMonitor.HttpResponse.HttpGather | url_monitor.go:120-264 | The record built field by field equals the record of the run, or the TLS error when the client cannot be built. |
| UrlMonitor.HttpResponse.Gather | url_monitor.go:267-293 | The defaults are written back into the object, and nothing else in it changes. The result is a parse error, the scheme error, or what `HTTPGather` returns for the defaulted configuration. |

## Left out

- Network, TLS and I/O (`client.Do`, `http.Transport`, `internal.GetTLSConfig`, `ioutil.ReadAll`) are inputs, not code.
- The `regexp` engine is an input: whether a pattern compiles, and whether it finds a non-empty match.
- The clock (`time.Now`, `time.Since`) is an input. The elapsed time and the threshold are reals, so `FailedTimeout * 0.7` is exact rather than a float64 product.
- `url.Parse` is an input reduced to the scheme it yields or a failure.
- `strconv.FormatFloat` for `require_time` is float formatting. The field holds the threshold itself (`FloatText`).
- `Header.Add` canonicalises names. Names are kept as given. So two configured names that differ only in case (`X-A` and `x-a`) stay two headers in the model. In Go they become one header, whose values come in map iteration order. The order independence of `ShapeRequest` holds only for the model's uncanonicalised names.
- `strings.ToLower` is modelled on ASCII only. No non-ASCII letter lower-cases into the ASCII letters of `content-type`, so the content-type decision is the same.
- The `http.NewRequest` error path is left out. It leaves the request nil, which is then dereferenced: at line 153 when a header is configured, otherwise at line 165 when the default Content-Type is set.
- Telegraf registration, the accumulator, the tag map, `Description` and `SampleConfig` are framework glue.
- `unicode2str` declares an error result that it never assigns, so the model returns only the text.
- A transport error is kept as the `Outcome` value, not as Go's error text.
- The response body of a blocked redirect is whatever the input outcome carries.
- The redirect hook (url_monitor.go:111-115) is modelled only through `followRedirects`. The client's `blocksRedirects` and `responseHeaderTimeout` are recorded but not read. `send` is not constrained to report the sentinel only for a client that blocks redirects. Classification reads `followRedirects` directly, as `HTTPGather` does.
- A `\u-0` escape parses to 0 and becomes a NUL byte, not U+FFFD. `NegativeEscapeIsReplaced` covers only non-zero values.
