/**
 The catch-all request handler: the root-path short-circuit, the forward
 target, the outbound request (method, URL, headers, whether a body goes
 along), the relayed response and the 502 decision.
 */
module Handler {
  import opened Wrappers
  import opened JsText
  import opened Credentials
  import opened Target
  import opened RequestHeaders
  import opened ResponseHeaders

  const ROOT_MESSAGE := "proxy is running, you can see more at https://github.com/spectre-pro/gemini-proxy"
  const BAD_GATEWAY_MESSAGE := "代理伺服器錯誤 (Bad Gateway)"

  /** What the handler reads of `req`: method, path with query, and headers. */
  datatype Request = Request(httpMethod: string, url: string, headers: Headers)

  /** The arguments of the `fetch` call. */
  datatype Outbound = Outbound(httpMethod: string, url: string, headers: Headers, forwardsBody: bool)

  /** The handler either answers the root path itself or forwards. */
  datatype Dispatch = ServeRoot(body: string) | Forward(request: Outbound)

  /** What `fetch` delivered: a response (status, header entries, body or none). */
  datatype Upstream = Upstream(status: int, headers: seq<Entry>, hasBody: bool)

  /**
   How the exchange with the upstream ended: `fetch` threw, or it answered
   and the relay either ran to its end or failed after the head was written.
   */
  datatype Exchange = FetchFailed | Answered(upstream: Upstream, failsAfterHead: bool)

  /** The body of a relayed response: piped from upstream, ended empty, or left as it was when an error struck. */
  datatype BodyRelay = Piped | Ended | Unfinished

  /** What the caller receives. */
  datatype Reply =
    | Text(status: int, body: string)
    | Relay(status: int, headers: map<string, string>, bodyRelay: BodyRelay)

  /**
   `req.url === '/'` short-circuits; any other URL is appended verbatim to
   the upstream base URL.
   */
  function TargetUrl(url: string): (target: Option<string>)
    ensures target.None? <==> url == "/"
    ensures target.Some? ==> StartsWith(target.value, TARGET_API_URL)
                             && target.value[|TARGET_API_URL|..] == url
  {
    if url == "/" then None else Some(TARGET_API_URL + url)
  }

  /** Two requests for different URLs are never forwarded to the same target. */
  lemma TargetUrlInjective(a: string, b: string)
    requires TargetUrl(a).Some? && TargetUrl(a) == TargetUrl(b)
    ensures a == b
  {
    assert a == TargetUrl(a).value[|TARGET_API_URL|..];
  }

  /** The request is passed to `fetch` as its body unless the method is GET or HEAD. */
  predicate ForwardsBody(httpMethod: string) {
    httpMethod != "GET" && httpMethod != "HEAD"
  }

  /** The request-side decision of the handler as one function of its inputs. */
  function DispatchFor(req: Request, peer: string, protocol: string, u: real): (d: Dispatch)
    requires 0.0 <= u < 1.0
    ensures d.ServeRoot? <==> req.url == "/"
    ensures d.ServeRoot? ==> d.body == ROOT_MESSAGE
    ensures d.Forward? ==> d.request.httpMethod == req.httpMethod
                           && d.request.url == TARGET_API_URL + req.url
                           && d.request.forwardsBody == ForwardsBody(req.httpMethod)
  {
    match TargetUrl(req.url)
    case None => ServeRoot(ROOT_MESSAGE)
    case Some(target) =>
      var c := ExtractCredential(req.headers);
      var selected := SelectKey(c, u);
      Forward(Outbound(req.httpMethod, target,
                       ForwardHeaders(req.headers, c.source, selected, peer, protocol),
                       ForwardsBody(req.httpMethod)))
  }

  /**
   The handler up to the `fetch` call, with `u` standing for `Math.random()`,
   `peer` for `req.socket.remoteAddress` and `protocol` for `req.protocol`.
   */
  method PrepareRequest(req: Request, peer: string, protocol: string, u: real) returns (d: Dispatch)
    requires 0.0 <= u < 1.0
    ensures d == DispatchFor(req, peer, protocol, u)
  {
    var target := TargetUrl(req.url);
    if target.None? {
      return ServeRoot(ROOT_MESSAGE);
    }
    var c := ExtractCredential(req.headers);
    var selected := SelectKey(c, u);
    var headers := BuildForwardHeaders(req.headers, c.source, selected, peer, protocol);
    d := Forward(Outbound(req.httpMethod, target.value, headers, ForwardsBody(req.httpMethod)));
  }

  /** The `catch` block: a 502 only while nothing of the response has been sent. */
  function ErrorReply(headersSent: bool): (r: Option<Reply>)
    ensures r.Some? <==> !headersSent
    ensures r.Some? ==> r.value.Text? && r.value.status == 502 && r.value.body != ""
  {
    if !headersSent then Some(Text(502, BAD_GATEWAY_MESSAGE)) else None
  }

  /**
   The response side: the upstream status with the filtered headers, the
   body piped or the response ended, and the `catch` decision when `fetch`
   throws. A relay that fails after the head was written gets nothing more.
   */
  method Respond(exchange: Exchange) returns (reply: Reply)
    ensures exchange.FetchFailed? ==> reply == Text(502, BAD_GATEWAY_MESSAGE)
    ensures exchange.Answered? ==>
      && reply.Relay?
      && reply.status == exchange.upstream.status
      && reply.headers == Relayed(exchange.upstream.headers)
      && reply.bodyRelay == (if exchange.failsAfterHead then Unfinished
                        else if exchange.upstream.hasBody then Piped else Ended)
  {
    match exchange
    case FetchFailed =>
      // nothing has been written when fetch itself throws
      var r := ErrorReply(false);
      reply := r.value;
    case Answered(upstream, failsAfterHead) =>
      var headers := CopyResponseHeaders(upstream.headers);
      if failsAfterHead {
        // writeHead already ran. An error thrown synchronously after it meets
        // the headersSent test and gets no 502; a stream error partway through
        // the pipe never reaches the catch block at all.
        var r := ErrorReply(true);
        assert r.None?;
        reply := Relay(upstream.status, headers, Unfinished);
      } else {
        reply := Relay(upstream.status, headers, if upstream.hasBody then Piped else Ended);
      }
  }

  /** The whole handler for one request, given what the upstream exchange turned out to be. */
  method Handle(req: Request, peer: string, protocol: string, u: real, exchange: Exchange)
    returns (sent: Option<Outbound>, reply: Reply)
    requires 0.0 <= u < 1.0
    ensures req.url == "/" <==> sent.None?
    ensures req.url == "/" ==> reply == Text(200, ROOT_MESSAGE)
    ensures sent.Some? ==> Forward(sent.value) == DispatchFor(req, peer, protocol, u)
    ensures sent.Some? && exchange.FetchFailed? ==> reply.Text? && reply.status == 502
    ensures sent.Some? && exchange.Answered? ==>
      reply.Relay? && reply.status == exchange.upstream.status
      && reply.headers == Relayed(exchange.upstream.headers)
  {
    var d := PrepareRequest(req, peer, protocol, u);
    match d
    case ServeRoot(body) =>
      sent, reply := None, Text(200, body);
    case Forward(outbound) =>
      sent := Some(outbound);
      reply := Respond(exchange);
  }

  // ---- scenarios -------------------------------------------------------------

  /**
   A request carrying `x-goog-api-key: k1,k2` is forwarded to the same
   path on the upstream with one of the two keys under `x-goog-api-key`
   and no authorization header.
   */
  lemma GoogKeyListScenario(req: Request, k1: string, k2: string, peer: string, protocol: string, u: real)
    requires 0.0 <= u < 1.0
    requires req.url != "/"
    requires IsCleanKey(k1) && IsCleanKey(k2)
    requires X_GOOG_API_KEY in req.headers && req.headers[X_GOOG_API_KEY] == k1 + "," + k2
    ensures DispatchFor(req, peer, protocol, u).Forward?
    ensures var out := DispatchFor(req, peer, protocol, u).request.headers;
            && X_GOOG_API_KEY in out && (out[X_GOOG_API_KEY] == k1 || out[X_GOOG_API_KEY] == k2)
            && AUTHORIZATION_OUT !in out && AUTHORIZATION !in out
  {
    var c := ExtractCredential(req.headers);
    GoogCredential(req.headers, k1, k2);
    var selected := SelectKey(c, u);
    assert selected == Some(k1) || selected == Some(k2);
    var out := DispatchFor(req, peer, protocol, u).request.headers;
    assert out == ForwardHeaders(req.headers, GoogHeader, selected, peer, protocol);
    NoAuthorizationFromGoog(req.headers, selected, peer, protocol);
  }

  lemma GoogCredential(h: Headers, k1: string, k2: string)
    requires IsCleanKey(k1) && IsCleanKey(k2)
    requires X_GOOG_API_KEY in h && h[X_GOOG_API_KEY] == k1 + "," + k2
    ensures ExtractCredential(h) == Credential(GoogHeader, k1 + "," + k2)
    ensures ParseKeys(k1 + "," + k2) == [k1, k2]
  {
    ParseKeysSingle(k2);
    ParseKeysCons(k1, k2, [k2]);
    assert [k1] + [k2] == [k1, k2];
  }

  lemma NoAuthorizationFromGoog(h: Headers, selected: Option<string>, peer: string, protocol: string)
    ensures var out := ForwardHeaders(h, GoogHeader, selected, peer, protocol);
            AUTHORIZATION_OUT !in out && AUTHORIZATION !in out
  {
    CredentialNamesOut();
    assert IsCredentialName(AUTHORIZATION) by { assert Lower(AUTHORIZATION) == AUTHORIZATION; }
  }

  /**
   A request carrying `authorization: Bearer k1, k2` (and no `x-goog-api-key`)
   is forwarded with `Authorization: Bearer k1` or `Bearer k2`, without
   `x-goog-api-key`; a POST carries its body along.
   */
  lemma BearerScenario(req: Request, k1: string, k2: string, peer: string, protocol: string, u: real)
    requires 0.0 <= u < 1.0
    requires req.url != "/" && req.httpMethod == "POST"
    requires IsCleanKey(k1) && IsCleanKey(k2)
    requires !Truthy(req.headers, X_GOOG_API_KEY)
    requires AUTHORIZATION in req.headers && req.headers[AUTHORIZATION] == "Bearer " + k1 + ", " + k2
    ensures DispatchFor(req, peer, protocol, u).Forward?
    ensures var out := DispatchFor(req, peer, protocol, u).request;
            && out.forwardsBody
            && AUTHORIZATION_OUT in out.headers
            && (out.headers[AUTHORIZATION_OUT] == "Bearer " + k1 || out.headers[AUTHORIZATION_OUT] == "Bearer " + k2)
            && X_GOOG_API_KEY !in out.headers
  {
    BearerCredential(req.headers, k1, k2);
    var c := ExtractCredential(req.headers);
    var out := DispatchFor(req, peer, protocol, u).request;
    assert out.headers == ForwardHeaders(req.headers, BearerHeader, SelectKey(c, u), peer, protocol);
    CredentialNamesOut();
  }

  lemma BearerCredential(h: Headers, k1: string, k2: string)
    requires IsCleanKey(k1) && IsCleanKey(k2)
    requires !Truthy(h, X_GOOG_API_KEY)
    requires AUTHORIZATION in h && h[AUTHORIZATION] == "Bearer " + k1 + ", " + k2
    ensures ExtractCredential(h).source == BearerHeader
    ensures ParseKeys(ExtractCredential(h).raw) == [k1, k2]
  {
    var keys := k1 + "," + (" " + k2);
    assert "Bearer " + k1 + ", " + k2 == "Bearer " + keys;
    BearerInAnyCase(h, "Bearer ", keys) by {
      assert Lower("Bearer ") == BEARER_PREFIX;
    }
    ParseKeysCons(k1, " " + k2, [k2]) by {
      ParseKeysPadded(" ", k2, "");
      assert " " + k2 + "" == " " + k2;
    }
    assert [k1] + [k2] == [k1, k2];
  }

  /**
   A truthy `x-goog-api-key` is the only source even beside a bearer
   header, and the inbound authorization header never reaches the upstream.
   */
  lemma BothHeadersScenario(req: Request, peer: string, protocol: string, u: real)
    requires 0.0 <= u < 1.0
    requires req.url != "/"
    requires Truthy(req.headers, X_GOOG_API_KEY) && AUTHORIZATION in req.headers
    ensures ExtractCredential(req.headers) == Credential(GoogHeader, req.headers[X_GOOG_API_KEY])
    ensures var out := DispatchFor(req, peer, protocol, u).request.headers;
            AUTHORIZATION_OUT !in out && AUTHORIZATION !in out
  {
    NoAuthorizationFromGoog(req.headers, SelectKey(ExtractCredential(req.headers), u), peer, protocol);
  }

  /**
   An `x-goog-api-key` that is truthy but holds no key still wins the
   precedence, so an accompanying bearer key is not used either: the
   upstream receives no credential at all.
   */
  lemma EmptyGoogKeyShadowsBearer(req: Request, peer: string, protocol: string, u: real)
    requires 0.0 <= u < 1.0
    requires req.url != "/"
    requires Truthy(req.headers, X_GOOG_API_KEY) && ParseKeys(req.headers[X_GOOG_API_KEY]) == []
    ensures ExtractCredential(req.headers).source == GoogHeader
    ensures var out := DispatchFor(req, peer, protocol, u).request.headers;
            forall k :: k in out ==> !IsCredentialName(k)
  {
  }

  /** One such value: a comma followed by blanks. */
  lemma CommaBlanksShadowBearer(req: Request, blanks: string, peer: string, protocol: string, u: real)
    requires 0.0 <= u < 1.0
    requires req.url != "/"
    requires X_GOOG_API_KEY in req.headers && req.headers[X_GOOG_API_KEY] == "," + blanks
    requires AllWhitespace(blanks) && ',' !in blanks
    ensures var out := DispatchFor(req, peer, protocol, u).request.headers;
            forall k :: k in out ==> !IsCredentialName(k)
  {
    assert "," + blanks == "" + "," + blanks;
    ParseKeysConcat("", blanks);
    ParseKeysBlank("");
    ParseKeysBlank(blanks);
    EmptyGoogKeyShadowsBearer(req, peer, protocol, u);
  }

  /**
   Whatever the inbound headers, a forwarded credential header is the one
   matching the inbound source and carries a key parsed from it.
   */
  lemma ForwardedCredential(req: Request, peer: string, protocol: string, u: real)
    requires 0.0 <= u < 1.0
    requires req.url != "/"
    ensures var c := ExtractCredential(req.headers);
            var out := DispatchFor(req, peer, protocol, u).request.headers;
            && (X_GOOG_API_KEY in out ==> c.source == GoogHeader && out[X_GOOG_API_KEY] in ParseKeys(c.raw))
            && (AUTHORIZATION_OUT in out ==>
                  c.source == BearerHeader
                  && exists key :: key in ParseKeys(c.raw) && out[AUTHORIZATION_OUT] == "Bearer " + key)
  {
    CredentialNamesOut();
    var c := ExtractCredential(req.headers);
    var selected := SelectKey(c, u);
    var out := DispatchFor(req, peer, protocol, u).request.headers;
    if AUTHORIZATION_OUT in out {
      assert out[AUTHORIZATION_OUT] == "Bearer " + selected.value;
    }
  }

  /** Without either credential header the upstream receives no credential header at all. */
  lemma NoCredentialScenario(req: Request, peer: string, protocol: string, u: real)
    requires 0.0 <= u < 1.0
    requires req.url != "/"
    requires !Truthy(req.headers, X_GOOG_API_KEY) && !Truthy(req.headers, AUTHORIZATION)
    ensures var out := DispatchFor(req, peer, protocol, u).request.headers;
            forall k :: k in out ==> !IsCredentialName(k)
  {
  }

  /**
   Deterministic given the key: with at most one key in the list the
   outbound request does not depend on the random value.
   */
  lemma SingleKeyDeterministic(req: Request, peer: string, protocol: string, u: real, v: real)
    requires 0.0 <= u < 1.0 && 0.0 <= v < 1.0
    requires |ParseKeys(ExtractCredential(req.headers).raw)| <= 1
    ensures DispatchFor(req, peer, protocol, u) == DispatchFor(req, peer, protocol, v)
  {
    var c := ExtractCredential(req.headers);
    if c.source != NoSource && |ParseKeys(c.raw)| == 1 {
      SelectKeySingle(c, u);
      SelectKeySingle(c, v);
    }
  }
}
