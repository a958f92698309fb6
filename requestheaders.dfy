/**
 The outbound request headers: a copy of the inbound headers without either
 credential header, the selected key put back in the form it arrived in,
 `host`, `origin` and `referer` pointing at the upstream, the
 `x-forwarded-*` fallbacks, and the hop-by-hop headers deleted.
 */
module RequestHeaders {
  import opened Wrappers
  import opened JsText
  import opened Credentials
  import opened Target

  /** The name `headers['Authorization']` is written under, capital A included. */
  const AUTHORIZATION_OUT := "Authorization"
  const X_FORWARDED_FOR := "x-forwarded-for"
  const X_FORWARDED_PROTO := "x-forwarded-proto"

  const HOP_BY_HOP: seq<string> := [
    "connection", "keep-alive", "proxy-authenticate", "proxy-authorization",
    "te", "trailers", "transfer-encoding", "upgrade"
  ]

  /** The copy loop drops a header whose lower-cased name is either credential header. */
  predicate IsCredentialName(name: string) {
    Lower(name) == X_GOOG_API_KEY || Lower(name) == AUTHORIZATION
  }

  /** The names the handler assigns unconditionally after the copy. */
  predicate IsRewritten(name: string) {
    name == "host" || name == "origin" || name == "referer"
    || name == X_FORWARDED_FOR || name == X_FORWARDED_PROTO
  }

  /** `req.headers[name] || fallback`. */
  function OrElse(h: Headers, name: string, fallback: string): (v: string)
    ensures Truthy(h, name) ==> v == h[name]
    ensures !Truthy(h, name) ==> v == fallback
  {
    if Truthy(h, name) then h[name] else fallback
  }

  /** The copy loop: every inbound header except the two credential headers. */
  function WithoutCredentials(h: Headers): Headers {
    map k | k in h && !IsCredentialName(k) :: h[k]
  }

  /** Put the selected key back under the header matching its source. */
  function WithKey(m: Headers, source: KeySource, selected: Option<string>): Headers {
    match selected
    case None => m
    case Some(key) =>
      if source == GoogHeader then m[X_GOOG_API_KEY := key]
      else if source == BearerHeader then m[AUTHORIZATION_OUT := "Bearer " + key]
      else m
  }

  /** The five unconditional assignments. */
  function WithRewrites(m: Headers, h: Headers, peer: string, protocol: string): Headers {
    m["host" := TARGET_HOSTNAME]["origin" := TARGET_ORIGIN]["referer" := TARGET_API_URL]
     [X_FORWARDED_FOR := OrElse(h, X_FORWARDED_FOR, peer)]
     [X_FORWARDED_PROTO := OrElse(h, X_FORWARDED_PROTO, protocol)]
  }

  function HopByHopSet(): set<string> {
    set i | 0 <= i < |HOP_BY_HOP| :: HOP_BY_HOP[i]
  }

  lemma CredentialNamesOut()
    ensures IsCredentialName(X_GOOG_API_KEY) && IsCredentialName(AUTHORIZATION_OUT)
    ensures !IsRewritten(X_GOOG_API_KEY) && !IsRewritten(AUTHORIZATION_OUT)
    ensures X_GOOG_API_KEY !in HopByHopSet() && AUTHORIZATION_OUT !in HopByHopSet()
  {
    assert Lower(AUTHORIZATION_OUT) == AUTHORIZATION;
    assert Lower(X_GOOG_API_KEY) == X_GOOG_API_KEY;
  }

  /**
   The outbound headers, given the inbound headers, the credential source,
   the selected key, the peer address and the inbound protocol.
   */
  function ForwardHeaders(h: Headers, source: KeySource, selected: Option<string>,
                          peer: string, protocol: string): (r: Headers)
    // no credential header but the one carrying the selected key, in the source's form
    ensures forall k :: k in r && IsCredentialName(k) ==>
      || (k == X_GOOG_API_KEY && source == GoogHeader && selected.Some? && r[k] == selected.value)
      || (k == AUTHORIZATION_OUT && source == BearerHeader && selected.Some? && r[k] == "Bearer " + selected.value)
    ensures selected.Some? && source == GoogHeader ==>
      X_GOOG_API_KEY in r && r[X_GOOG_API_KEY] == selected.value
    ensures selected.Some? && source == BearerHeader ==>
      AUTHORIZATION_OUT in r && r[AUTHORIZATION_OUT] == "Bearer " + selected.value
    ensures selected.None? ==> forall k :: k in r ==> !IsCredentialName(k)
    // the upstream's identity always overwrites the inbound values
    ensures "host" in r && r["host"] == TARGET_HOSTNAME
    ensures "origin" in r && r["origin"] == TARGET_ORIGIN
    ensures "referer" in r && r["referer"] == TARGET_API_URL
    ensures X_FORWARDED_FOR in r && r[X_FORWARDED_FOR] == OrElse(h, X_FORWARDED_FOR, peer)
    ensures X_FORWARDED_PROTO in r && r[X_FORWARDED_PROTO] == OrElse(h, X_FORWARDED_PROTO, protocol)
    // no hop-by-hop header survives
    ensures forall i :: 0 <= i < |HOP_BY_HOP| ==> HOP_BY_HOP[i] !in r
    // every other inbound header passes through unchanged
    ensures forall k :: k in h && !IsCredentialName(k) && !IsRewritten(k) && k !in HOP_BY_HOP ==>
      k in r && r[k] == h[k]
    // and nothing else is added
    ensures forall k :: k in r ==>
      (k in h && !IsCredentialName(k)) || IsRewritten(k) || k == X_GOOG_API_KEY || k == AUTHORIZATION_OUT
  {
    CredentialNamesOut();
    AssembledCredentials(h, source, selected, peer, protocol);
    AssembledPassThrough(h, source, selected, peer, protocol);
    AssembledAddsNothing(h, source, selected, peer, protocol);
    AssembledRewrites(h, source, selected, peer, protocol);
    Assembled(h, source, selected, peer, protocol)
  }

  /** The handler's steps, composed in order. */
  function Assembled(h: Headers, source: KeySource, selected: Option<string>,
                     peer: string, protocol: string): Headers {
    WithRewrites(WithKey(WithoutCredentials(h), source, selected), h, peer, protocol) - HopByHopSet()
  }

  lemma AssembledCredentials(h: Headers, source: KeySource, selected: Option<string>,
                             peer: string, protocol: string)
    ensures var r := Assembled(h, source, selected, peer, protocol);
      && (forall k :: k in r && IsCredentialName(k) ==>
           || (k == X_GOOG_API_KEY && source == GoogHeader && selected.Some? && r[k] == selected.value)
           || (k == AUTHORIZATION_OUT && source == BearerHeader && selected.Some? && r[k] == "Bearer " + selected.value))
      && (selected.Some? && source == GoogHeader ==> X_GOOG_API_KEY in r && r[X_GOOG_API_KEY] == selected.value)
      && (selected.Some? && source == BearerHeader ==>
           AUTHORIZATION_OUT in r && r[AUTHORIZATION_OUT] == "Bearer " + selected.value)
  {
    CredentialNamesOut();
    var m0 := WithoutCredentials(h);
    var m1 := WithKey(m0, source, selected);
    assert forall k :: k in m1 && IsCredentialName(k) ==> k !in m0;
  }

  lemma AssembledRewrites(h: Headers, source: KeySource, selected: Option<string>,
                          peer: string, protocol: string)
    ensures var r := Assembled(h, source, selected, peer, protocol);
      && "host" in r && r["host"] == TARGET_HOSTNAME
      && "origin" in r && r["origin"] == TARGET_ORIGIN
      && "referer" in r && r["referer"] == TARGET_API_URL
      && X_FORWARDED_FOR in r && r[X_FORWARDED_FOR] == OrElse(h, X_FORWARDED_FOR, peer)
      && X_FORWARDED_PROTO in r && r[X_FORWARDED_PROTO] == OrElse(h, X_FORWARDED_PROTO, protocol)
      && (forall i :: 0 <= i < |HOP_BY_HOP| ==> HOP_BY_HOP[i] !in r)
  {
  }

  lemma AssembledPassThrough(h: Headers, source: KeySource, selected: Option<string>,
                             peer: string, protocol: string)
    ensures var r := Assembled(h, source, selected, peer, protocol);
      forall k :: k in h && !IsCredentialName(k) && !IsRewritten(k) && k !in HOP_BY_HOP ==>
        k in r && r[k] == h[k]
  {
    var m1 := WithKey(WithoutCredentials(h), source, selected);
    var m2 := WithRewrites(m1, h, peer, protocol);
    forall k | k in h && !IsCredentialName(k) && !IsRewritten(k) && k !in HOP_BY_HOP
      ensures k in m2 - HopByHopSet() && (m2 - HopByHopSet())[k] == h[k]
    {
      CredentialNamesOut();
      assert k != X_GOOG_API_KEY && k != AUTHORIZATION_OUT;
      assert k in m1 && m1[k] == h[k];
      assert k in m2 && m2[k] == h[k];
    }
  }

  lemma AssembledAddsNothing(h: Headers, source: KeySource, selected: Option<string>,
                             peer: string, protocol: string)
    ensures var r := Assembled(h, source, selected, peer, protocol);
      forall k :: k in r ==>
        (k in h && !IsCredentialName(k)) || IsRewritten(k) || k == X_GOOG_API_KEY || k == AUTHORIZATION_OUT
  {
  }

  /**
   The handler's in-place construction of `headers`: the copy loop, the
   assignments, and the loop deleting the hop-by-hop names. It builds
   exactly `ForwardHeaders`.
   */
  method BuildForwardHeaders(h: Headers, source: KeySource, selected: Option<string>,
                             peer: string, protocol: string) returns (headers: Headers)
    ensures headers == ForwardHeaders(h, source, selected, peer, protocol)
  {
    headers := CopyWithoutCredentials(h);

    if selected.Some? {
      if source == GoogHeader {
        headers := headers[X_GOOG_API_KEY := selected.value];
      } else if source == BearerHeader {
        headers := headers[AUTHORIZATION_OUT := "Bearer " + selected.value];
      }
    }

    headers := headers["host" := TARGET_HOSTNAME];
    headers := headers["origin" := TARGET_ORIGIN];
    headers := headers["referer" := TARGET_API_URL];
    headers := headers[X_FORWARDED_FOR := if Truthy(h, X_FORWARDED_FOR) then h[X_FORWARDED_FOR] else peer];
    headers := headers[X_FORWARDED_PROTO := if Truthy(h, X_FORWARDED_PROTO) then h[X_FORWARDED_PROTO] else protocol];
    assert headers == WithRewrites(WithKey(WithoutCredentials(h), source, selected), h, peer, protocol);

    headers := StripHopByHop(headers);
  }

  /** `for (const [key, value] of Object.entries(req.headers))`: copy all but the credential headers. */
  method CopyWithoutCredentials(h: Headers) returns (headers: Headers)
    ensures headers == WithoutCredentials(h)
  {
    headers := map[];
    var pending := h.Keys;
    while pending != {}
      invariant pending <= h.Keys
      invariant headers == map k | k in h.Keys - pending && !IsCredentialName(k) :: h[k]
      decreases pending
    {
      var key :| key in pending;
      if !IsCredentialName(key) {
        headers := headers[key := h[key]];
      }
      pending := pending - {key};
    }
  }

  /** `for (const header of hopByHopHeaders) delete headers[header]`. */
  method StripHopByHop(m: Headers) returns (headers: Headers)
    ensures headers == m - HopByHopSet()
  {
    headers := m;
    for i := 0 to |HOP_BY_HOP|
      invariant headers == m - (set j | 0 <= j < i :: HOP_BY_HOP[j])
    {
      headers := headers - {HOP_BY_HOP[i]};
    }
  }
}
