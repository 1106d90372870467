/**
 * Request shaping in `HTTPGather`: where the configured body goes, which
 * headers are attached, when the virtual host is overridden and when the
 * default content type is added.
 */
module Request {
  import opened Wrappers
  import opened ByteStrings

  /** The header map of a request: each name holds the values added under it, in order. */
  type Header = map<Bytes, seq<Bytes>>

  /**
   * An outgoing request. `hostOverride` is None while the virtual host is
   * still the one taken from the target address.
   */
  datatype Request = Request(
    httpMethod: Bytes,
    target: Bytes,
    body: Option<Bytes>,
    header: Header,
    hostOverride: Option<Bytes>)

  /** "?" */
  const QUERY_MARK: Bytes := [63]
  /** "GET" */
  const GET: Bytes := [71, 69, 84]
  /** "Host" */
  const HOST_KEY: Bytes := [72, 111, 115, 116]
  /** "Content-Type" */
  const CONTENT_TYPE_KEY: Bytes := [67, 111, 110, 116, 101, 110, 116, 45, 84, 121, 112, 101]
  /** "content-type" */
  const CONTENT_TYPE_LOWER: Bytes := [99, 111, 110, 116, 101, 110, 116, 45, 116, 121, 112, 101]
  /** "application/x-www-form-urlencoded" */
  const FORM_ENCODED: Bytes := [97, 112, 112, 108, 105, 99, 97, 116, 105, 111, 110, 47, 120, 45, 119, 119, 119, 45, 102, 111, 114, 109, 45, 117, 114, 108, 101, 110, 99, 111, 100, 101, 100]

  /** The header constants are the bytes of their text. */
  lemma HeaderConstantsSpelled()
    ensures QUERY_MARK == Ascii("?") && GET == Ascii("GET") && HOST_KEY == Ascii("Host")
    ensures CONTENT_TYPE_KEY == Ascii("Content-Type") && CONTENT_TYPE_LOWER == Ascii("content-type")
  {
  }

  lemma FormEncodedSpelled()
    ensures FORM_ENCODED == Ascii("application/x-www-form-urlencoded")
  {
  }

  /** http.Header.Add: appends a value under a name (name canonicalisation is not modelled). */
  function AddHeader(h: Header, key: Bytes, value: Bytes): (r: Header)
    ensures r.Keys == h.Keys + {key}
    ensures r[key] == (if key in h then h[key] else []) + [value]
    ensures forall k | k in h && k != key :: r[k] == h[k]
  {
    h[key := (if key in h then h[key] else []) + [value]]
  }

  /** Some configured header name lower-cases to `content-type`. */
  predicate NamesContentType(keys: set<Bytes>) {
    exists k | k in keys :: ToLower(k) == CONTENT_TYPE_LOWER
  }

  /**
   * The headers of the shaped request, whatever order the configured headers
   * are visited in: each configured header once, and the form-encoded content
   * type unless one of the names is some case variant of `Content-Type`.
   */
  function ShapedHeader(headers: map<Bytes, Bytes>): Header {
    var configured := map k | k in headers :: [headers[k]];
    if NamesContentType(headers.Keys) then configured
    else configured[CONTENT_TYPE_KEY := [FORM_ENCODED]]
  }

  /**
   * The request `HTTPGather` sends for the given configuration: for GET a
   * non-empty body moves into the query string, for any other method it is
   * sent as is; the virtual host is the value of a `Host` header.
   */
  function Shaped(httpMethod: Bytes, address: Bytes, body: Bytes, headers: map<Bytes, Bytes>): Request {
    var target := if body != [] && httpMethod == GET then address + QUERY_MARK + body else address;
    var payload := if body != [] && httpMethod != GET then Some(body) else None;
    var host := if HOST_KEY in headers then Some(headers[HOST_KEY]) else None;
    Request(httpMethod, target, payload, ShapedHeader(headers), host)
  }

  /**
   * A header name counts as the content type exactly when it spells
   * `content-type` with any of its letters in either case.
   */
  lemma {:induction false} ContentTypeCaseVariants(k: Bytes)
    ensures ToLower(k) == CONTENT_TYPE_LOWER <==>
      |k| == |CONTENT_TYPE_LOWER| &&
      forall i | 0 <= i < |k| ::
        k[i] == CONTENT_TYPE_LOWER[i] || (65 <= k[i] <= 90 && k[i] + 32 == CONTENT_TYPE_LOWER[i])
  {
    var low := ToLower(k);
    if |k| == |CONTENT_TYPE_LOWER| &&
      forall i | 0 <= i < |k| ::
        k[i] == CONTENT_TYPE_LOWER[i] || (65 <= k[i] <= 90 && k[i] + 32 == CONTENT_TYPE_LOWER[i])
    {
      forall i | 0 <= i < |k| ensures low[i] == CONTENT_TYPE_LOWER[i] {
        if k[i] == CONTENT_TYPE_LOWER[i] {
          assert !(65 <= CONTENT_TYPE_LOWER[i] <= 90);
        }
      }
      assert low == CONTENT_TYPE_LOWER;
    }
  }

  lemma ContentTypeKeyLowersToContentType()
    ensures ToLower(CONTENT_TYPE_KEY) == CONTENT_TYPE_LOWER
  {
  }

  /** One more configured header, added to those already attached. */
  lemma AddConfigured(headers: map<Bytes, Bytes>, done: set<Bytes>, key: Bytes)
    requires done <= headers.Keys && key in headers && key !in done
    ensures AddHeader(map k | k in done :: [headers[k]], key, headers[key])
      == map k | k in done + {key} :: [headers[k]]
  {
    var before := map k | k in done :: [headers[k]];
    var after := AddHeader(before, key, headers[key]);
    var expected := map k | k in done + {key} :: [headers[k]];
    assert after.Keys == expected.Keys;
    forall k | k in after ensures after[k] == expected[k] {
      if k == key { assert key !in before; }
    }
  }

  /**
   * The request-building part of `HTTPGather`. The headers are visited in an
   * arbitrary order, as Go's map iteration does.
   */
  method ShapeRequest(httpMethod: Bytes, address: Bytes, body: Bytes, headers: map<Bytes, Bytes>)
    returns (request: Request)
    ensures body != [] && httpMethod == GET ==> request.target == address + QUERY_MARK + body && request.body == None
    ensures body != [] && httpMethod != GET ==> request.target == address && request.body == Some(body)
    ensures body == [] ==> request.target == address && request.body == None
    ensures request.httpMethod == httpMethod
    ensures request.hostOverride.Some? <==> HOST_KEY in headers
    ensures HOST_KEY in headers ==> request.hostOverride == Some(headers[HOST_KEY])
    ensures forall k | k in headers :: k in request.header && request.header[k] == [headers[k]]
    ensures CONTENT_TYPE_KEY in request.header <==> CONTENT_TYPE_KEY in headers || !NamesContentType(headers.Keys)
    ensures !NamesContentType(headers.Keys) ==> request.header[CONTENT_TYPE_KEY] == [FORM_ENCODED]
    ensures request.header.Keys <= headers.Keys + {CONTENT_TYPE_KEY}
    ensures request == Shaped(httpMethod, address, body, headers)
  {
    var payload: Option<Bytes> := None;
    var target := address;
    if body != [] {
      payload := Some(body);
      if httpMethod == GET {
        target := address + QUERY_MARK + body;
        payload := None;
      }
    }
    request := Request(httpMethod, target, payload, map[], None);

    var contentType := false;
    var pending := headers.Keys;
    while pending != {}
      invariant pending <= headers.Keys
      invariant request.httpMethod == httpMethod && request.target == target && request.body == payload
      invariant request.header == map k | k in headers.Keys - pending :: [headers[k]]
      invariant request.hostOverride ==
        if HOST_KEY in headers.Keys - pending then Some(headers[HOST_KEY]) else None
      invariant contentType <==> NamesContentType(headers.Keys - pending)
      decreases pending
    {
      var key :| key in pending;
      AddConfigured(headers, headers.Keys - pending, key);
      assert headers.Keys - (pending - {key}) == (headers.Keys - pending) + {key};
      request := request.(header := AddHeader(request.header, key, headers[key]));
      if key == HOST_KEY {
        request := request.(hostOverride := Some(headers[key]));
      }
      if ToLower(key) == CONTENT_TYPE_LOWER {
        contentType := true;
      }
      pending := pending - {key};
    }
    assert headers.Keys - pending == headers.Keys;
    if !contentType {
      ContentTypeKeyLowersToContentType();
      assert CONTENT_TYPE_KEY !in request.header;
      request := request.(header := AddHeader(request.header, CONTENT_TYPE_KEY, FORM_ENCODED));
    }
  }
}
