/**
 * The decisions `HTTPGather` takes once the request has run: whether the
 * run failed, whether the body and the status code match their patterns,
 * and whether the response time is acceptable.
 */
module Classify {
  import opened ByteStrings

  /**
   * What `client.Do` reported. `RedirectBlocked` is the error that wraps
   * `ErrRedirectAttempted`, raised by the redirect hook when redirects are
   * not followed; it comes with the response that asked for the redirect.
   * `OtherError` is any other transport error.
   */
  datatype Outcome =
    | Completed(statusCode: int, body: Bytes)
    | RedirectBlocked(statusCode: int, body: Bytes)
    | OtherError(cause: Bytes)

  /**
   * The regular-expression engine, left abstract: whether `regexp.Compile`
   * accepts a pattern, and whether the compiled pattern's `FindString` on a
   * text returns a non-empty match.
   */
  datatype RegexEngine = RegexEngine(compiles: Bytes -> bool, findsNonEmpty: (Bytes, Bytes) -> bool)

  /**
   * The run takes the failure path when the transport reported an error,
   * unless it is the redirect sentinel and redirects are not followed.
   */
  predicate ProbeFailed(o: Outcome, followRedirects: bool)
    ensures followRedirects ==> (ProbeFailed(o, followRedirects) <==> !o.Completed?)
    ensures !followRedirects ==> (ProbeFailed(o, followRedirects) <==> o.OtherError?)
  {
    match o
    case Completed(_, _) => false
    case RedirectBlocked(_, _) => followRedirects
    case OtherError(_) => true
  }

  /**
   * A pattern check on the body or the status text: an empty pattern always
   * matches; a pattern that compiles must find a non-empty match; a pattern
   * that does not compile matches exactly the texts it occurs in.
   */
  predicate Matches(pattern: Bytes, text: Bytes, re: RegexEngine)
    ensures pattern == [] ==> Matches(pattern, text, re)
    ensures pattern != [] && re.compiles(pattern) ==> (Matches(pattern, text, re) <==> re.findsNonEmpty(pattern, text))
    ensures pattern != [] && !re.compiles(pattern) ==>
      (Matches(pattern, text, re) <==> exists i :: OccursAt(text, pattern, i))
  {
    ContainsIffOccurs(text, pattern);
    pattern == [] ||
    (if re.compiles(pattern) then re.findsNonEmpty(pattern, text) else Contains(text, pattern))
  }

  /** The factor below which an exceeded threshold is forgiven. */
  const SLACK: real := 0.7

  /**
   * The `time_match` flag: 0 when the response time exceeds the threshold,
   * then set back to 1 when it is below 0.7 times the threshold. The second
   * step can only fire when the threshold is negative, so for a threshold of
   * zero or more the flag is 1 exactly when the time is within it.
   */
  function TimeMatch(rt: real, failedTimeout: real): (m: int)
    ensures m == 0 || m == 1
    ensures rt <= failedTimeout ==> m == 1
    ensures failedTimeout >= 0.0 ==> (m == 1 <==> rt <= failedTimeout)
    ensures m == 0 <==> rt > failedTimeout && !(rt < failedTimeout * SLACK)
    ensures m == 1 && rt > failedTimeout ==> failedTimeout < 0.0 && rt < failedTimeout * SLACK
  {
    var first := if rt > failedTimeout then 0 else 1;
    if first == 0 && rt < failedTimeout * SLACK then 1 else first
  }

  /** The 0/1 value a match flag is reported as. */
  function Flag(b: bool): int {
    if b then 1 else 0
  }
}
