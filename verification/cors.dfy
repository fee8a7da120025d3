/** The CORS middleware (backend/internal/middleware/cors.go): which
    response headers a request gets, and whether it reaches the next
    handler. */
module Cors {
  import opened Wrappers
  import opened Strings

  datatype CorsConfig = CorsConfig(
    allowedOrigins: seq<string>,
    allowedMethods: seq<string>,
    allowedHeaders: seq<string>,
    maxAge: int)

  /** The headers the middleware sets; `None` where it sets nothing. */
  datatype CorsHeaders = CorsHeaders(
    allowOrigin: Option<string>,
    allowMethods: Option<string>,
    allowHeaders: Option<string>,
    maxAge: Option<string>)

  /** A preflight is answered with 200 on the spot; anything else goes on. */
  datatype Verdict = Preflight(status: int) | PassOn

  const Wildcard := "*"

  const DefaultMethods: seq<string> := ["GET", "POST", "PUT", "DELETE", "PATCH", "OPTIONS"]
  const DefaultHeaders: seq<string> := ["Accept", "Authorization", "Content-Type", "X-Requested-With"]

  /** `DefaultCORSConfig`. */
  const DefaultConfig := CorsConfig([Wildcard], DefaultMethods, DefaultHeaders, 86400)

  /** `ProductionCORSConfig`: the defaults with the given origins. */
  function ProductionConfig(origins: seq<string>): (c: CorsConfig)
    ensures c.allowedOrigins == origins
    ensures c.allowedMethods == DefaultConfig.allowedMethods && c.allowedHeaders == DefaultConfig.allowedHeaders
    ensures c.maxAge == DefaultConfig.maxAge
  {
    DefaultConfig.(allowedOrigins := origins)
  }

  /** `hasWildcard`, scanning the list as the source does. */
  function HasWildcard(origins: seq<string>): (b: bool)
    ensures b <==> Wildcard in origins
  {
    if |origins| == 0 then false
    else origins[0] == Wildcard || HasWildcard(origins[1..])
  }

  /** `isOriginAllowed`, scanning the list as the source does: a wildcard
      entry admits everything, any other entry admits exactly its own
      non-empty origin. */
  function IsOriginAllowed(origin: string, origins: seq<string>): (b: bool)
    ensures b <==> Wildcard in origins || (origin != "" && origin in origins)
  {
    if |origins| == 0 then false
    else if origins[0] == Wildcard then true
    else if origin != "" && origins[0] == origin then true
    else IsOriginAllowed(origin, origins[1..])
  }

  /** The header values the middleware writes for an allowed origin. */
  function Headers(c: CorsConfig, origin: string): (h: CorsHeaders)
    ensures IsOriginAllowed(origin, c.allowedOrigins) <==> h.allowMethods.Some?
    ensures h.allowMethods.Some? ==>
      h.allowMethods == Some(Join(c.allowedMethods, ", ")) && h.allowHeaders == Some(Join(c.allowedHeaders, ", "))
      && h.maxAge == Some(Itoa(c.maxAge))
    ensures h.allowMethods.None? ==> h == CorsHeaders(None, None, None, None)
    ensures h.allowOrigin.Some? ==> h.allowMethods.Some?
    ensures h.allowOrigin.Some? <==>
      Wildcard in c.allowedOrigins || (origin != "" && origin in c.allowedOrigins)
    ensures h.allowOrigin.Some? ==>
      h.allowOrigin.value == (if Wildcard in c.allowedOrigins then Wildcard else origin)
  {
    if !IsOriginAllowed(origin, c.allowedOrigins) then CorsHeaders(None, None, None, None)
    else
      var allowOrigin :=
        if HasWildcard(c.allowedOrigins) then Some(Wildcard)
        else if origin != "" then Some(origin)
        else None;
      CorsHeaders(allowOrigin, Some(Join(c.allowedMethods, ", ")), Some(Join(c.allowedHeaders, ", ")), Some(Itoa(c.maxAge)))
  }

  /** `CORS`: the headers, and whether the request stops at the preflight. */
  function Cors(c: CorsConfig, verb: string, origin: string): (r: (CorsHeaders, Verdict))
    ensures r.0 == Headers(c, origin)
    ensures verb == "OPTIONS" <==> r.1 == Preflight(200)
    ensures verb != "OPTIONS" <==> r.1 == PassOn
  {
    (Headers(c, origin), if verb == "OPTIONS" then Preflight(200) else PassOn)
  }

  /** Under the default configuration every origin, even a missing one, is
      answered with the wildcard and the full header set. */
  lemma DefaultConfigAdmitsAll(origin: string)
    ensures Headers(DefaultConfig, origin) ==
      CorsHeaders(Some(Wildcard), Some(DefaultMethodsHeader), Some(DefaultHeadersHeader), Some("86400"))
  {
    assert Wildcard in DefaultConfig.allowedOrigins;
    DefaultMethodsJoined();
    DefaultHeadersJoined();
    DefaultMaxAgeText();
  }

  /** The header values the default lists join to, spelled item by item. */
  const DefaultMethodsHeader := "GET, " + ("POST, " + ("PUT, " + ("DELETE, " + ("PATCH, " + "OPTIONS"))))
  const DefaultHeadersHeader := "Accept, " + ("Authorization, " + ("Content-Type, " + "X-Requested-With"))

  /** One step of `Join`: the head, the separator, then the rest joined. */
  lemma JoinCons(x: string, rest: seq<string>, sep: string, head: string, tail: string)
    requires |rest| > 0 && x + sep == head && Join(rest, sep) == tail
    ensures Join([x] + rest, sep) == head + tail
  {
    assert ([x] + rest)[1..] == rest;
  }

  lemma DefaultMethodsJoined()
    ensures Join(DefaultMethods, ", ") == DefaultMethodsHeader
  {
    var tail1 := "PATCH, " + "OPTIONS";
    var tail2 := "DELETE, " + tail1;
    var tail3 := "PUT, " + tail2;
    var tail4 := "POST, " + tail3;
    JoinCons("PATCH", ["OPTIONS"], ", ", "PATCH, ", "OPTIONS");
    JoinCons("DELETE", ["PATCH", "OPTIONS"], ", ", "DELETE, ", tail1);
    JoinCons("PUT", ["DELETE", "PATCH", "OPTIONS"], ", ", "PUT, ", tail2);
    JoinCons("POST", ["PUT", "DELETE", "PATCH", "OPTIONS"], ", ", "POST, ", tail3);
    JoinCons("GET", ["POST", "PUT", "DELETE", "PATCH", "OPTIONS"], ", ", "GET, ", tail4);
  }

  lemma DefaultHeadersJoined()
    ensures Join(DefaultHeaders, ", ") == DefaultHeadersHeader
  {
    var tail1 := "Content-Type, " + "X-Requested-With";
    var tail2 := "Authorization, " + tail1;
    JoinCons("Content-Type", ["X-Requested-With"], ", ", "Content-Type, ", "X-Requested-With");
    JoinCons("Authorization", ["Content-Type", "X-Requested-With"], ", ", "Authorization, ", tail1);
    JoinCons("Accept", ["Authorization", "Content-Type", "X-Requested-With"], ", ", "Accept, ", tail2);
  }

  lemma DefaultMaxAgeText()
    ensures Itoa(DefaultConfig.maxAge) == "86400"
  {
    assert NatToString(8) == "8";
    assert NatToString(86) == "86";
    assert NatToString(864) == "864";
    assert NatToString(8640) == "8640";
  }

  /** A production list without the wildcard never admits a missing origin
      nor one outside the list; an admitted origin is echoed back. */
  lemma ProductionEchoesListedOrigins(origins: seq<string>, origin: string)
    requires Wildcard !in origins
    ensures var h := Headers(ProductionConfig(origins), origin);
      (h.allowOrigin.Some? <==> origin != "" && origin in origins)
      && (h.allowOrigin.Some? ==> h.allowOrigin.value == origin)
  {}
}
