/**
 * The url_monitor input plugin: its configuration, the defaults `Gather`
 * applies to it, the scheme check, and the field record `HTTPGather` builds
 * for one probe.
 *
 * The network, the clock, the TLS files, the URL parser and the regular
 * expression engine are inputs: `send` is what `client.Do` reports for a
 * client and a request, `elapsed` is the response time in seconds,
 * `tlsLoads` says whether the configured TLS files load, `parseScheme` is
 * `url.Parse` reduced to the scheme it finds, and `re` is the regex engine.
 */
module UrlMonitor {
  import opened Wrappers
  import opened ByteStrings
  import opened Strconv
  import opened Sanitize
  import opened Request
  import opened Classify

  /** One second, in the nanoseconds a Go duration counts. */
  const SECOND: int := 1_000_000_000

  /** "http://localhost" */
  const DEFAULT_ADDRESS: Bytes :=
    [104, 116, 116, 112, 58, 47, 47, 108, 111, 99, 97, 108, 104, 111, 115, 116]
  /** "http" */
  const HTTP: Bytes := [104, 116, 116, 112]
  /** "https" */
  const HTTPS: Bytes := [104, 116, 116, 112, 115]

  /** The address and scheme constants are the bytes of their text. */
  lemma AddressConstantsSpelled()
    ensures DEFAULT_ADDRESS == Ascii("http://localhost") && HTTP == Ascii("http") && HTTPS == Ascii("https")
  {
  }

  /** The plugin's configuration, as the fields of the Go struct hold it. */
  datatype Settings = Settings(
    cmdbid: Bytes,
    app: Bytes,
    address: Bytes,
    body: Bytes,
    httpMethod: Bytes,
    responseTimeout: int,
    headers: map<Bytes, Bytes>,
    followRedirects: bool,
    requireStr: Bytes,
    requireCode: Bytes,
    failedCount: int,
    failedTimeout: real,
    sslCA: Bytes,
    sslCert: Bytes,
    sslKey: Bytes,
    insecureSkipVerify: bool)

  /** A value in the field record handed to the metrics accumulator. */
  datatype FieldValue =
    | IntField(i: int)
    | RealField(r: real)
    | TextField(s: Bytes)
    // the threshold as `require_time` holds it, formatted with one significant digit
    | FloatText(x: real)
    // a transport error stored as is
    | ErrorField(err: Outcome)

  type Fields = map<string, FieldValue>

  datatype GatherError = TlsConfigError | UrlParseError | UnsupportedScheme

  /** The HTTP client of one run: both timeouts and the redirect policy. */
  datatype HttpClient = HttpClient(responseHeaderTimeout: int, timeout: int, blocksRedirects: bool)

  /**
   * createHttpClient: fails when the TLS files do not load; otherwise both
   * timeouts are the response timeout, and redirects are turned into the
   * sentinel error unless they are followed.
   */
  function CreateHttpClient(s: Settings, tlsLoads: bool): (c: Option<HttpClient>)
    ensures c.Some? <==> tlsLoads
    ensures c.Some? ==> c.value.timeout == c.value.responseHeaderTimeout == s.responseTimeout
    ensures c.Some? ==> (c.value.blocksRedirects <==> !s.followRedirects)
  {
    if tlsLoads then Some(HttpClient(s.responseTimeout, s.responseTimeout, !s.followRedirects)) else None
  }

  /** The four fields written before the request runs. */
  function ConfigFields(s: Settings): Fields {
    map[
      "require_code" := TextField(s.requireCode),
      "require_str" := TextField(s.requireStr),
      "require_time" := FloatText(s.failedTimeout),
      "failed_threshold" := TextField(Itoa(s.failedCount))]
  }

  /** `data_match`, and on a mismatch the sanitised body as `msg`. */
  function ContentFields(fields: Fields, requireStr: Bytes, bodyText: Bytes, re: RegexEngine): Fields {
    var ok := Matches(requireStr, bodyText, re);
    var flagged := fields["data_match" := IntField(Flag(ok))];
    if ok then flagged else flagged["msg" := TextField(Sanitized(bodyText))]
  }

  /** The field record of a run whose request produced `o` after `elapsed` seconds. */
  function ProbeFields(s: Settings, o: Outcome, elapsed: real, re: RegexEngine): (r: Fields)
    ensures "msg" in r <==> ProbeFailed(o, s.followRedirects) || !Matches(s.requireStr, o.body, re)
  {
    var fields := ConfigFields(s);
    if ProbeFailed(o, s.followRedirects) then
      fields["msg" := ErrorField(o)]
        ["data_match" := IntField(0)]["code_match" := IntField(0)]["time_match" := IntField(0)]
        ["response_time" := RealField(elapsed)]["http_code" := IntField(0)]
    else
      var codeOk := Matches(s.requireCode, Itoa(o.statusCode), re);
      var fields := ContentFields(fields, s.requireStr, o.body, re);
      fields["code_match" := IntField(Flag(codeOk))]
        ["response_time" := RealField(elapsed)]["http_code" := IntField(o.statusCode)]
        ["time_match" := IntField(TimeMatch(elapsed, s.failedTimeout))]
  }

  /**
   * What `HTTPGather` returns for the configuration `s`: the TLS error when
   * the client cannot be built, otherwise the record of the run.
   */
  function HttpGatherResult(
    s: Settings, tlsLoads: bool, send: (HttpClient, Request) -> Outcome, elapsed: real, re: RegexEngine)
    : Result<Fields, GatherError>
  {
    match CreateHttpClient(s, tlsLoads)
    case None => Err(TlsConfigError)
    case Some(client) =>
      var outcome := send(client, Shaped(s.httpMethod, s.address, s.body, s.headers));
      Ok(ProbeFields(s, outcome, elapsed, re))
  }

  /**
   * The defaults `Gather` writes back into the configuration: a response
   * timeout under one second becomes five seconds, an empty method `GET`
   * and an empty address `http://localhost`; nothing else changes.
   */
  function Defaulted(s: Settings): (d: Settings)
    ensures d.responseTimeout >= SECOND && d.httpMethod != [] && d.address != []
    ensures s.responseTimeout < SECOND ==> d.responseTimeout == 5 * SECOND
    ensures s.responseTimeout >= SECOND ==> d.responseTimeout == s.responseTimeout
    ensures d.httpMethod == if s.httpMethod == [] then GET else s.httpMethod
    ensures d.address == if s.address == [] then DEFAULT_ADDRESS else s.address
    ensures d.(responseTimeout := s.responseTimeout, httpMethod := s.httpMethod, address := s.address) == s
  {
    s.(responseTimeout := if s.responseTimeout < SECOND then 5 * SECOND else s.responseTimeout,
       httpMethod := if s.httpMethod == [] then GET else s.httpMethod,
       address := if s.address == [] then DEFAULT_ADDRESS else s.address)
  }

  /**
   * What `Gather` hands on for the configuration `s` as it was before the
   * call: after the defaults, a URL that does not parse or whose scheme is
   * neither http nor https is rejected; otherwise what `HTTPGather` returns.
   */
  function GatherResult(
    s: Settings, parseScheme: Bytes -> Option<Bytes>, tlsLoads: bool,
    send: (HttpClient, Request) -> Outcome, elapsed: real, re: RegexEngine)
    : Result<Fields, GatherError>
  {
    var d := Defaulted(s);
    match parseScheme(d.address)
    case None => Err(UrlParseError)
    case Some(scheme) =>
      if scheme != HTTP && scheme != HTTPS then Err(UnsupportedScheme)
      else HttpGatherResult(d, tlsLoads, send, elapsed, re)
  }

  // ---------------------------------------------------------------------------
  // Properties of the field record

  /** The configuration fields are written first and never overwritten. */
  lemma {:induction false} ConfigFieldsKept(s: Settings, o: Outcome, elapsed: real, re: RegexEngine)
    ensures forall k | k in ConfigFields(s) :: k in ProbeFields(s, o, elapsed, re) && ProbeFields(s, o, elapsed, re)[k] == ConfigFields(s)[k]
  {
    if !ProbeFailed(o, s.followRedirects) {
      ContentKeepsConfig(s, o.body, re);
    }
  }

  lemma {:induction false} ContentKeepsConfig(s: Settings, bodyText: Bytes, re: RegexEngine)
    ensures var config := ConfigFields(s);
      var content := ContentFields(config, s.requireStr, bodyText, re);
      forall k | k in config :: k in content && content[k] == config[k]
  {
  }

  /**
   * A failed run reports the transport error as `msg`, every flag 0, status
   * 0 and the time it took; no pattern is looked at.
   */
  lemma {:induction false} FailureShortCircuit(s: Settings, o: Outcome, elapsed: real, re: RegexEngine)
    requires ProbeFailed(o, s.followRedirects)
    ensures var r := ProbeFields(s, o, elapsed, re);
      r.Keys == ConfigFields(s).Keys + {"msg", "data_match", "code_match", "time_match", "response_time", "http_code"} &&
      r["msg"] == ErrorField(o) && r["http_code"] == IntField(0) && r["response_time"] == RealField(elapsed) &&
      r["data_match"] == r["code_match"] == r["time_match"] == IntField(0)
  {
  }

  /** A failed run's record does not depend on the patterns or the regex engine. */
  lemma {:induction false} FailureIgnoresPatterns(s: Settings, o: Outcome, elapsed: real, re: RegexEngine, re': RegexEngine)
    requires ProbeFailed(o, s.followRedirects)
    ensures var s' := s.(requireStr := [], requireCode := []);
      forall k | k in ProbeFields(s, o, elapsed, re) && k != "require_str" && k != "require_code" ::
        k in ProbeFields(s', o, elapsed, re') && ProbeFields(s', o, elapsed, re')[k] == ProbeFields(s, o, elapsed, re)[k]
  {
  }

  /**
   * A completed run reports each flag as its check decides: the body pattern,
   * the status pattern on the decimal status code, and the latency rule.
   */
  lemma {:induction false} CompletedFlags(s: Settings, o: Outcome, elapsed: real, re: RegexEngine)
    requires !ProbeFailed(o, s.followRedirects)
    ensures var r := ProbeFields(s, o, elapsed, re);
      r["data_match"] == IntField(Flag(Matches(s.requireStr, o.body, re))) &&
      r["code_match"] == IntField(Flag(Matches(s.requireCode, Itoa(o.statusCode), re))) &&
      r["time_match"] == IntField(TimeMatch(elapsed, s.failedTimeout)) &&
      r["http_code"] == IntField(o.statusCode) && r["response_time"] == RealField(elapsed)
  {
  }

  /**
   * A body that does not match puts the sanitised body in `msg` and sets
   * `data_match` to 0, and leaves every other field as a run whose body
   * pattern is empty would have it.
   */
  /** A completed probe adds the five measurements, and `msg` only when the content check fails. */
  lemma {:induction false} CompletedKeys(s: Settings, o: Outcome, elapsed: real, re: RegexEngine)
    requires !ProbeFailed(o, s.followRedirects)
    ensures ProbeFields(s, o, elapsed, re).Keys ==
      ConfigFields(s).Keys + {"data_match", "code_match", "time_match", "response_time", "http_code"} +
      (if Matches(s.requireStr, o.body, re) then {} else {"msg"})
  {
  }

  lemma {:induction false} ContentMismatchKeepsOtherFlags(s: Settings, o: Outcome, elapsed: real, re: RegexEngine)
    requires !ProbeFailed(o, s.followRedirects) && !Matches(s.requireStr, o.body, re)
    ensures var r := ProbeFields(s, o, elapsed, re);
      var r' := ProbeFields(s.(requireStr := []), o, elapsed, re);
      r == r'["require_str" := TextField(s.requireStr)]["data_match" := IntField(0)]["msg" := TextField(Sanitized(o.body))]
  {
  }

  /** A redirect that is not followed is an ordinary completed response. */
  lemma {:induction false} BlockedRedirectIsAResponse(s: Settings, code: int, text: Bytes, elapsed: real, re: RegexEngine)
    requires !s.followRedirects
    ensures ProbeFields(s, RedirectBlocked(code, text), elapsed, re) == ProbeFields(s, Completed(code, text), elapsed, re)
  {
  }

  /** Applying the defaults a second time changes nothing. */
  lemma {:induction false} DefaultedIdempotent(s: Settings)
    ensures Defaulted(Defaulted(s)) == Defaulted(s)
  {
  }

  /**
   * Since `Gather` writes the defaults back, a second call on the updated
   * configuration decides as the first did.
   */
  lemma {:induction false} GatherRepeatable(s: Settings, parseScheme: Bytes -> Option<Bytes>, tlsLoads: bool,
    send: (HttpClient, Request) -> Outcome, elapsed: real, re: RegexEngine)
    ensures GatherResult(Defaulted(s), parseScheme, tlsLoads, send, elapsed, re)
      == GatherResult(s, parseScheme, tlsLoads, send, elapsed, re)
  {
    DefaultedIdempotent(s);
  }

  /**
   * A record is emitted only for an address whose scheme is http or https
   * and whose TLS files load.
   */
  lemma {:induction false} GatherOnlyHttp(s: Settings, parseScheme: Bytes -> Option<Bytes>, tlsLoads: bool,
    send: (HttpClient, Request) -> Outcome, elapsed: real, re: RegexEngine)
    requires GatherResult(s, parseScheme, tlsLoads, send, elapsed, re).Ok?
    ensures parseScheme(Defaulted(s).address) == Some(HTTP) || parseScheme(Defaulted(s).address) == Some(HTTPS)
    ensures tlsLoads
  {
  }

  /** The `require_str` step of HTTPGather. */
  method MatchContent(fields: Fields, requireStr: Bytes, bodyText: Bytes, re: RegexEngine)
    returns (result: Fields)
    ensures result == ContentFields(fields, requireStr, bodyText, re)
  {
    result := fields;
    if requireStr == [] {
      result := result["data_match" := IntField(1)];
    } else {
      if !re.compiles(requireStr) {
        if Contains(bodyText, requireStr) {
          result := result["data_match" := IntField(1)];
        } else {
          result := result["data_match" := IntField(0)];
          var msg := SubErrMsg(bodyText);
          result := result["msg" := TextField(msg)];
        }
      } else {
        if re.findsNonEmpty(requireStr, bodyText) {
          result := result["data_match" := IntField(1)];
        } else {
          result := result["data_match" := IntField(0)];
          var msg := SubErrMsg(bodyText);
          result := result["msg" := TextField(msg)];
        }
      }
    }
  }

  /** The `require_code` step of HTTPGather. */
  method MatchCode(fields: Fields, requireCode: Bytes, statusCode: int, re: RegexEngine)
    returns (result: Fields)
    ensures result == fields["code_match" := IntField(Flag(Matches(requireCode, Itoa(statusCode), re)))]
  {
    result := fields;
    if requireCode == [] {
      result := result["code_match" := IntField(1)];
    } else {
      var statusText := Itoa(statusCode);
      if !re.compiles(requireCode) {
        if Contains(statusText, requireCode) {
          result := result["code_match" := IntField(1)];
        } else {
          result := result["code_match" := IntField(0)];
        }
      } else {
        if re.findsNonEmpty(requireCode, statusText) {
          result := result["code_match" := IntField(1)];
        } else {
          result := result["code_match" := IntField(0)];
        }
      }
    }
  }

  /** The response-time step of HTTPGather, which writes `time_match` and reads it back. */
  method MatchTime(fields: Fields, rt: real, failedTimeout: real) returns (result: Fields)
    ensures result == fields["time_match" := IntField(TimeMatch(rt, failedTimeout))]
  {
    result := fields["time_match" := IntField(1)];
    if rt > failedTimeout {
      result := result["time_match" := IntField(0)];
    }
    if result["time_match"] == IntField(0) && rt < failedTimeout * SLACK {
      result := result["time_match" := IntField(1)];
    }
  }

  /** The plugin object; `Gather` writes the defaults back into its fields. */
  class HttpResponse {
    var cmdbid: Bytes
    var app: Bytes
    var address: Bytes
    var body: Bytes
    var httpMethod: Bytes
    var responseTimeout: int
    var headers: map<Bytes, Bytes>
    var followRedirects: bool
    var requireStr: Bytes
    var requireCode: Bytes
    var failedCount: int
    var failedTimeout: real
    var sslCA: Bytes
    var sslCert: Bytes
    var sslKey: Bytes
    var insecureSkipVerify: bool

    /** The configuration the fields currently hold. */
    function Snapshot(): Settings
      reads this
    {
      Settings(cmdbid, app, address, body, httpMethod, responseTimeout, headers, followRedirects,
               requireStr, requireCode, failedCount, failedTimeout, sslCA, sslCert, sslKey,
               insecureSkipVerify)
    }

    constructor (s: Settings)
      ensures Snapshot() == s
    {
      cmdbid, app, address, body := s.cmdbid, s.app, s.address, s.body;
      httpMethod, responseTimeout, headers := s.httpMethod, s.responseTimeout, s.headers;
      followRedirects, requireStr, requireCode := s.followRedirects, s.requireStr, s.requireCode;
      failedCount, failedTimeout := s.failedCount, s.failedTimeout;
      sslCA, sslCert, sslKey, insecureSkipVerify := s.sslCA, s.sslCert, s.sslKey, s.insecureSkipVerify;
    }

    /** HTTPGather, writing the record field by field. */
    method HttpGather(tlsLoads: bool, send: (HttpClient, Request) -> Outcome, elapsed: real, re: RegexEngine)
      returns (r: Result<Fields, GatherError>)
      ensures r == HttpGatherResult(Snapshot(), tlsLoads, send, elapsed, re)
    {
      var fields: Fields := map[];
      fields := fields["require_code" := TextField(requireCode)];
      fields := fields["require_str" := TextField(requireStr)];
      fields := fields["require_time" := FloatText(failedTimeout)];
      fields := fields["failed_threshold" := TextField(Itoa(failedCount))];
      ghost var config := Snapshot();
      assert fields == ConfigFields(config);

      var client := CreateHttpClient(Snapshot(), tlsLoads);
      if client.None? {
        return Err(TlsConfigError);
      }

      var request := ShapeRequest(httpMethod, address, body, headers);

      var outcome := send(client.value, request);
      if !outcome.Completed? {
        if followRedirects {
          fields := fields["msg" := ErrorField(outcome)];
        }
        if !outcome.RedirectBlocked? {
          fields := fields["msg" := ErrorField(outcome)];
        }
      }

      assert "msg" in fields <==> ProbeFailed(outcome, followRedirects);
      if "msg" in fields {
        assert fields == ConfigFields(config)["msg" := ErrorField(outcome)];
        fields := fields["data_match" := IntField(0)];
        fields := fields["code_match" := IntField(0)];
        fields := fields["time_match" := IntField(0)];
        fields := fields["response_time" := RealField(elapsed)];
        fields := fields["http_code" := IntField(0)];
        return Ok(fields);
      }

      fields := MatchContent(fields, requireStr, outcome.body, re);
      fields := MatchCode(fields, requireCode, outcome.statusCode, re);
      fields := fields["response_time" := RealField(elapsed)];
      fields := fields["http_code" := IntField(outcome.statusCode)];
      fields := MatchTime(fields, elapsed, failedTimeout);
      r := Ok(fields);
    }

    /** Gather, writing the defaults back into the object. */
    method Gather(
      parseScheme: Bytes -> Option<Bytes>, tlsLoads: bool,
      send: (HttpClient, Request) -> Outcome, elapsed: real, re: RegexEngine)
      returns (r: Result<Fields, GatherError>)
      modifies this
      ensures Snapshot() == Defaulted(old(Snapshot()))
      ensures r == GatherResult(old(Snapshot()), parseScheme, tlsLoads, send, elapsed, re)
    {
      if responseTimeout < SECOND {
        responseTimeout := 5 * SECOND;
      }
      if httpMethod == [] {
        httpMethod := GET;
      }
      if address == [] {
        address := DEFAULT_ADDRESS;
      }
      var scheme := parseScheme(address);
      if scheme.None? {
        return Err(UrlParseError);
      }
      if scheme.value != HTTP && scheme.value != HTTPS {
        return Err(UnsupportedScheme);
      }
      r := HttpGather(tlsLoads, send, elapsed, re);
    }
  }
}
