/** The request-independent decisions of the server entry point: the content-type rule
    that stands in for CSRF protection, where a request's token is read from, and the
    start-up steps that create the signing secret, adopt the stored metadata key and
    start the first scan. Random bytes, the environment and JSON text are parameters. */
module ServerHooks {
  import opened Common
  import opened JsText
  import opened Catalog

  // ---------------------------------------------------------------- the onRequest hook

  predicate StateChanging(verb: string) {
    verb == "POST" || verb == "PUT" || verb == "PATCH" || verb == "DELETE"
  }

  const JsonType := "application/json"

  /** The hook answers 415: a state-changing verb whose `content-length` header is
      present, non-empty and not "0", and whose `content-type` (empty when absent) does
      not contain the JSON media type. Header names and values are as received. */
  predicate Rejects415(verb: string, contentLength: Option<string>, contentType: Option<string>) {
    var ct := if contentType.Some? then contentType.value else "";
    StateChanging(verb) && Given(contentLength) && contentLength.value != "0" && !Includes(ct, JsonType)
  }

  /** Requests that always pass: other methods, bodies announced as empty, and JSON. */
  lemma HookPasses(verb: string, contentLength: Option<string>, contentType: Option<string>)
    ensures !StateChanging(verb) ==> !Rejects415(verb, contentLength, contentType)
    ensures contentLength.None? || contentLength == Some("") || contentLength == Some("0")
            ==> !Rejects415(verb, contentLength, contentType)
    ensures contentType.Some? && Includes(contentType.value, JsonType)
            ==> !Rejects415(verb, contentLength, contentType)
  {
  }

  /** A form post, the request a foreign page can send without a pre-flight, is refused:
      any state-changing request with a non-empty body and no content type, or a content
      type that merely differs from JSON. */
  lemma HookRejectsForms(verb: string, length: string, contentType: Option<string>)
    requires StateChanging(verb) && length != "" && length != "0"
    requires contentType.None? || !Includes(contentType.value, JsonType)
    ensures Rejects415(verb, Some(length), contentType)
  {
  }

  /** Adding `application/json` anywhere in the content type lifts the rejection. */
  lemma JsonAnywherePasses(verb: string, contentLength: Option<string>, before: string, after: string)
    ensures !Rejects415(verb, contentLength, Some(before + JsonType + after))
  {
    var ct := before + JsonType + after;
    assert ct[|before|..|before| + |JsonType|] == JsonType;
    assert OccursAt(ct, JsonType, |before|);
  }

  // ---------------------------------------------------------------- extractToken

  const Bearer := "Bearer "

  /** `extractToken`: the `Authorization` header after a `Bearer ` prefix, else the
      `cozystream_token` cookie, else nothing. */
  function ExtractToken(authorization: Option<string>, cookie: Option<string>): (r: Option<string>)
    ensures authorization.Some? && StartsWith(authorization.value, Bearer) ==> r.Some?
    ensures !(authorization.Some? && StartsWith(authorization.value, Bearer)) ==> r == cookie
  {
    if authorization.Some? && StartsWith(authorization.value, Bearer) then Some(authorization.value[|Bearer|..])
    else cookie
  }

  /** A bearer header carries its token back unchanged, whatever the cookie; the header
      is the token preceded by the prefix. */
  lemma BearerRoundTrip(token: string, cookie: Option<string>, header: string)
    ensures ExtractToken(Some(Bearer + token), cookie) == Some(token)
    ensures StartsWith(header, Bearer) ==> Bearer + ExtractToken(Some(header), cookie).value == header
  {
    assert (Bearer + token)[..|Bearer|] == Bearer;
    assert (Bearer + token)[|Bearer|..] == token;
  }

  // ---------------------------------------------------------------- start-up

  const SecretKey := "jwt_secret"

  /** The signing secret: the stored one, or `generated` (random bytes as hex), stored. */
  function BootSecret(st: Store, generated: string): (r: (Store, string))
    ensures GetSetting(st, SecretKey).Some? && GetSetting(st, SecretKey).value != "" ==> r == (st, st.settings[SecretKey])
    ensures r.0.settings == st.settings[SecretKey := r.1]
  {
    var stored := GetSetting(st, SecretKey);
    if stored.Some? && stored.value != "" then
      assert st.settings[SecretKey := stored.value] == st.settings;
      (st, stored.value)
    else (SetSetting(st, SecretKey, generated), generated)
  }

  /** The secret survives restarts: once generated it is the one every later start signs
      with, whatever random bytes that start draws. */
  lemma SecretStable(st: Store, first: string, second: string)
    requires first != ""
    ensures BootSecret(BootSecret(st, first).0, second) == BootSecret(st, first)
  {
  }

  /** The metadata key the process uses: the environment's when it has one, else the
      stored one. */
  function BootApiKey(st: Store, env: Option<string>): (r: Option<string>)
    ensures Given(env) ==> r == env
    ensures !Given(env) && Given(GetSetting(st, ApiKey)) ==> r == GetSetting(st, ApiKey)
    ensures !Given(env) && !Given(GetSetting(st, ApiKey)) ==> r == env
  {
    var stored := GetSetting(st, ApiKey);
    if Given(stored) && !Given(env) then stored else env
  }

  /** The paths of the first scan: the stored list when it is non-empty. `decode` is
      `JSON.parse` (`None` when it throws, which aborts start-up). */
  function BootScan(st: Store, decode: string -> Option<seq<string>>): (r: Option<Option<seq<string>>>)
    ensures !Given(GetSetting(st, PathsKey)) ==> r == Some(None)
    ensures r.Some? && r.value.Some? ==> |r.value.value| > 0 && Some(r.value.value) == decode(st.settings[PathsKey])
    ensures Given(GetSetting(st, PathsKey)) ==>
      var decoded := decode(st.settings[PathsKey]);
      && (decoded.None? <==> r.None?)
      && (decoded.Some? && |decoded.value| > 0 ==> r == Some(decoded))
      && (decoded == Some([]) ==> r == Some(None))
  {
    var raw := GetSetting(st, PathsKey);
    if !Given(raw) then Some(None)
    else
      var paths := decode(raw.value);
      if paths.None? then None
      else if |paths.value| > 0 then Some(paths)
      else Some(None)
  }

  /** After the settings route stores a path list (encoded so that `decode` reads it back),
      the next start scans exactly that list, or nothing when it is empty. */
  lemma BootScanAfterSave(st: Store, paths: seq<string>, encode: seq<string> -> string,
                          decode: string -> Option<seq<string>>)
    requires encode(paths) != "" && decode(encode(paths)) == Some(paths)
    ensures BootScan(SetSetting(st, PathsKey, encode(paths)), decode) == Some(if |paths| > 0 then Some(paths) else None)
  {
    assert GetSetting(SetSetting(st, PathsKey, encode(paths)), PathsKey) == Some(encode(paths));
  }
}
