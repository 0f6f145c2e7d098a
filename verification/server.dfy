/** The two routing decisions of the server: which browser origins CORS admits, and what a request
    that no API route handled is answered with. */
module Server {
  import opened Wrappers
  import opened Text
  import opened Schema

  const DEPLOYED_ORIGIN := "https://gorica-project.onrender.com"

  /** The development origins: any port on localhost or 127.0.0.1, over http or https. */
  predicate IsLocalOrigin(origin: string) {
    || StartsWith(origin, "http://localhost:") || StartsWith(origin, "http://127.0.0.1:")
    || StartsWith(origin, "https://localhost:") || StartsWith(origin, "https://127.0.0.1:")
  }

  /** The FRONTEND_URL list: split on commas, each entry trimmed; empty when the variable is unset or empty. */
  function AllowedOrigins(frontendUrl: Option<string>): (r: seq<string>)
    ensures !Present(frontendUrl) ==> r == []
    ensures Present(frontendUrl) ==>
      |r| == |Split(frontendUrl.value, ',')|
      && forall i | 0 <= i < |r| :: r[i] == Trim(Split(frontendUrl.value, ',')[i])
  {
    if Present(frontendUrl) then
      var parts := Split(frontendUrl.value, ',');
      seq(|parts|, i requires 0 <= i < |parts| => Trim(parts[i]))
    else []
  }

  /** corsOptions.origin: whether the callback admits `origin`. */
  predicate OriginAllowed(origin: Option<string>, nodeEnv: Option<string>, frontendUrl: Option<string>) {
    if !Present(origin) || origin.value == DEPLOYED_ORIGIN then true
    else if nodeEnv != Some("production") && IsLocalOrigin(origin.value) then true
    else origin.value in AllowedOrigins(frontendUrl)
  }

  /** `origin` equals the trimmed text of one comma-separated piece of FRONTEND_URL. */
  predicate Listed(origin: string, frontendUrl: Option<string>) {
    Present(frontendUrl) &&
    exists i | 0 <= i < |Split(frontendUrl.value, ',')| :: Trim(Split(frontendUrl.value, ',')[i]) == origin
  }

  /** The FRONTEND_URL list holds exactly the trimmed comma-separated pieces. */
  lemma AllowedOriginsAreTrimmedPieces(origin: string, frontendUrl: Option<string>)
    ensures origin in AllowedOrigins(frontendUrl) <==> Listed(origin, frontendUrl)
  {
    var listed := AllowedOrigins(frontendUrl);
    if origin in listed {
      var i :| 0 <= i < |listed| && listed[i] == origin;
      assert Trim(Split(frontendUrl.value, ',')[i]) == origin;
    }
    if Listed(origin, frontendUrl) {
      var i :| 0 <= i < |Split(frontendUrl.value, ',')| && Trim(Split(frontendUrl.value, ',')[i]) == origin;
      assert listed[i] == origin;
    }
  }

  /** The origin rule as a whole: an origin is admitted exactly when it is missing or empty, is the
      deployed site, is a development origin outside production, or is listed in FRONTEND_URL. */
  lemma OriginRule(origin: Option<string>, nodeEnv: Option<string>, frontendUrl: Option<string>)
    ensures OriginAllowed(origin, nodeEnv, frontendUrl) <==>
      || !Present(origin)
      || origin.value == DEPLOYED_ORIGIN
      || (nodeEnv != Some("production") && IsLocalOrigin(origin.value))
      || Listed(origin.value, frontendUrl)
  {
    if origin.Some? {
      AllowedOriginsAreTrimmedPieces(origin.value, frontendUrl);
    }
  }

  /** In production a development origin is admitted only when FRONTEND_URL lists it. */
  lemma ProductionRefusesUnlistedLocalhost(origin: string, frontendUrl: Option<string>)
    requires IsLocalOrigin(origin) && origin !in AllowedOrigins(frontendUrl)
    ensures !OriginAllowed(Some(origin), Some("production"), frontendUrl)
    ensures OriginAllowed(Some(origin), Some("development"), frontendUrl)
  {
    assert origin != DEPLOYED_ORIGIN by {
      assert DEPLOYED_ORIGIN[..8] == "https://";
      assert DEPLOYED_ORIGIN[8] == 'g';
    }
  }

  /** Entries are trimmed but the origin is not, so an origin with whitespace at either end is never
      matched by an entry. */
  lemma PaddedOriginNeverListed(origin: string, frontendUrl: Option<string>)
    requires origin != "" && (IsSpace(origin[0]) || IsSpace(origin[|origin| - 1]))
    ensures origin !in AllowedOrigins(frontendUrl)
  {
    var listed := AllowedOrigins(frontendUrl);
    forall i | 0 <= i < |listed| ensures listed[i] != origin {
      TrimShape(Split(frontendUrl.value, ',')[i]);
    }
  }

  /** What answers a request that no API route and no static file handled. */
  datatype Fallback = ServeIndex | ApiNotFound

  /** The SPA route for GET (paths outside /api and /health get index.html), then the 404 handler
      (JSON 404 for /api paths, index.html for the rest). */
  function Unmatched(path: string, isGet: bool): Fallback {
    if isGet && !(StartsWith(path, "/api") || StartsWith(path, "/health")) then ServeIndex
    else if StartsWith(path, "/api") then ApiNotFound
    else ServeIndex
  }

  /** Whatever the method, an unhandled request gets the JSON 404 exactly when its path starts
      with `/api`; the /health exclusion of the SPA route changes nothing, since the 404 handler
      serves index.html for it too. */
  lemma UnmatchedIsApiNotFound(path: string, isGet: bool)
    ensures Unmatched(path, isGet) == ApiNotFound <==> StartsWith(path, "/api")
    ensures Unmatched(path, isGet) == Unmatched(path, !isGet)
  {
  }

  /** The test is a bare prefix, so `/apiary` counts as an API path. */
  lemma ApiPrefixWithoutSlash()
    ensures Unmatched("/apiary", true) == ApiNotFound
  {
    assert "/apiary"[..4] == "/api";
  }
}
