/**
 * The authentication and dispatch decision of the sidecar's commitments
 * JSON-RPC endpoint: the signer and signature are read from one HTTP header
 * written as `<address>:<signature>`, then the request is routed on its
 * method name and, for an inclusion request, checked against the header
 * signer before it is forwarded.
 *
 * The cryptography and the JSON decoding the endpoint relies on are not
 * modelled; they are given as the functions of an `Env`.
 */
module CommitmentsServer {
  import opened Common

  /** An account address (20 bytes on the wire); no property here depends on its width. */
  type Address = seq<byte>

  /** A recoverable ECDSA signature. */
  datatype Signature = Signature(r: seq<byte>, s: seq<byte>, yParity: bool)

  /** A message digest (32 bytes on the wire); no property here depends on its width. */
  type Digest = seq<byte>

  /** A JSON value as the request and response bodies carry it. */
  datatype JsonValue =
    | JNull
    | JBool(b: bool)
    | JNumber(n: int)
    | JString(str: string)
    | JArray(elems: seq<JsonValue>)
    | JObject(members: seq<(string, JsonValue)>)

  /** A JSON-RPC request body. */
  datatype JsonPayload = JsonPayload(id: JsonValue, methodName: string, params: seq<JsonValue>)

  /** A successful JSON-RPC response body (version "2.0", no error member). */
  datatype JsonResponse = JsonResponse(id: JsonValue, result: JsonValue)

  /**
   * An inclusion request: its own fields, as parsed from the request body,
   * and the signature and signer the endpoint attaches to it.
   */
  datatype InclusionRequest = InclusionRequest(fields: JsonValue, signature: Option<Signature>, signer: Option<Address>)

  /** Why a request was rejected as invalid. */
  datatype RejectionError = ValidationFailed(reason: string)

  /** The endpoint's errors. */
  datatype Error =
    | NoSignature
    | MalformedHeader
    | InvalidSignature
    | UnknownMethod
    | Rejection(rejection: RejectionError)
    | RecoveryFailed
    | Internal

  /** The endpoint's constants: the signature header's name, the two method names and the package version. */
  datatype ApiConstants = ApiConstants(
    signatureHeader: string,
    getVersionMethod: string,
    requestInclusionMethod: string,
    pkgVersion: string)

  /**
   * What the endpoint calls but does not define: the address and signature
   * parsers, the JSON decoding of an inclusion request, its digest, public-key
   * recovery from a signature over a digest, and the commitment service the
   * checked request is forwarded to (its reply already encoded as JSON).
   */
  datatype Env = Env(
    parseAddress: string -> Option<Address>,
    parseSignature: string -> Option<Signature>,
    parseRequest: JsonValue -> Result<InclusionRequest, string>,
    digest: InclusionRequest -> Digest,
    recover: (Signature, Digest) -> Option<Address>,
    requestInclusion: InclusionRequest -> Result<JsonValue, Error>)

  // ---------------------------------------------------------------------
  // Headers
  // ---------------------------------------------------------------------

  /** One header line; names are stored lower-case, as the HTTP library normalises them. */
  datatype HeaderField = HeaderField(name: string, value: seq<byte>)

  type HeaderMap = seq<HeaderField>

  /** The value of the first header called `name`, if any. */
  function HeaderGet(headers: HeaderMap, name: string): (r: Option<seq<byte>>)
    ensures r.None? <==> forall i :: 0 <= i < |headers| ==> headers[i].name != name
    ensures r.Some? ==> exists i :: 0 <= i < |headers| && headers[i] == HeaderField(name, r.value) &&
                                    forall j :: 0 <= j < i ==> headers[j].name != name
  {
    if headers == [] then None
    else if headers[0].name == name then Some(headers[0].value)
    else
      var r := HeaderGet(headers[1..], name);
      assert forall i :: 1 <= i < |headers| ==> headers[i] == headers[1..][i - 1];
      r
  }

  /** A byte a header value may hold to be read as text: visible ASCII, space or tab. */
  predicate VisibleByte(b: byte) {
    b == 9 || 32 <= b <= 126
  }

  /** Text made only of visible ASCII characters, spaces and tabs. */
  predicate VisibleText(s: string) {
    forall i :: 0 <= i < |s| ==> s[i] == '\t' || ' ' <= s[i] <= '~'
  }

  /** The bytes of a visible text, one per character. */
  function Encode(s: string): (bytes: seq<byte>)
    requires VisibleText(s)
    ensures |bytes| == |s|
    ensures forall i :: 0 <= i < |bytes| ==> VisibleByte(bytes[i])
  {
    seq(|s|, i requires 0 <= i < |s| => s[i] as int as byte)
  }

  /**
   * A header value read as text: defined exactly when every byte is
   * visible, and then the text whose bytes the value is.
   */
  function ToStr(value: seq<byte>): (r: Option<string>)
    ensures r.Some? <==> forall i :: 0 <= i < |value| ==> VisibleByte(value[i])
    ensures r.Some? ==> VisibleText(r.value) && Encode(r.value) == value
  {
    if forall i :: 0 <= i < |value| ==> VisibleByte(value[i]) then
      var s := seq(|value|, i requires 0 <= i < |value| => value[i] as int as char);
      assert VisibleText(s);
      assert Encode(s) == value by {
        forall i | 0 <= i < |value| ensures Encode(s)[i] == value[i] {
        }
      }
      Some(s)
    else None
  }

  /** Reading back the bytes of a visible text gives that text. */
  lemma ToStrEncode(s: string)
    requires VisibleText(s)
    ensures ToStr(Encode(s)) == Some(s)
  {
    var r := ToStr(Encode(s));
    assert r.Some?;
    assert r.value == s by {
      forall i | 0 <= i < |s| ensures r.value[i] == s[i] {
        assert Encode(r.value)[i] == Encode(s)[i];
      }
    }
  }

  // ---------------------------------------------------------------------
  // Splitting on a separator
  // ---------------------------------------------------------------------

  /** The position of the first `c` in `s`. */
  function IndexOf(s: string, c: char): (i: nat)
    requires c in s
    ensures i < |s| && s[i] == c && c !in s[..i]
  {
    if s[0] == c then 0
    else
      var i := IndexOf(s[1..], c);
      assert s[..i + 1] == [s[0]] + s[1..][..i];
      1 + i
  }

  /** The pieces between the separators of `s`, as a string split yields them: always at least one. */
  function Split(s: string, sep: char): (parts: seq<string>)
    ensures |parts| >= 1
    ensures forall i :: 0 <= i < |parts| ==> sep !in parts[i]
    ensures Join(parts, sep) == s
    decreases |s|
  {
    if sep !in s then [s]
    else
      var i := IndexOf(s, sep);
      var rest := Split(s[i + 1..], sep);
      assert ([s[..i]] + rest)[1..] == rest;
      assert s == s[..i] + [sep] + s[i + 1..];
      [s[..i]] + rest
  }

  /** The pieces written back with the separator between them. */
  function Join(parts: seq<string>, sep: char): string {
    if |parts| == 0 then ""
    else if |parts| == 1 then parts[0]
    else parts[0] + [sep] + Join(parts[1..], sep)
  }

  /** Splitting text that starts with a separator-free piece and a separator yields that piece first. */
  lemma SplitAt(a: string, rest: string, sep: char)
    requires sep !in a
    ensures Split(a + [sep] + rest, sep) == [a] + Split(rest, sep)
  {
    var s := a + [sep] + rest;
    assert s[|a|] == sep;
    var i := IndexOf(s, sep);
    assert s[..i] == a;
    assert s[i + 1..] == rest;
  }

  /** Splitting undoes joining separator-free pieces. */
  lemma {:induction false} SplitJoin(parts: seq<string>, sep: char)
    requires |parts| >= 1
    requires forall i :: 0 <= i < |parts| ==> sep !in parts[i]
    ensures Split(Join(parts, sep), sep) == parts
  {
    if |parts| > 1 {
      SplitAt(parts[0], Join(parts[1..], sep), sep);
      SplitJoin(parts[1..], sep);
    }
  }

  // ---------------------------------------------------------------------
  // Authentication
  // ---------------------------------------------------------------------

  /**
   * The signer and signature written in the header text: the piece before
   * the first `:` must be an address and the piece after it (up to any
   * further `:`) a signature.
   */
  function ParseAuth(env: Env, auth: string): (r: Result<(Address, Signature), Error>)
    ensures r.Err? ==> r.error == MalformedHeader || r.error == InvalidSignature
    ensures r.Ok? ==> ':' in auth
  {
    var parts := Split(auth, ':');
    match env.parseAddress(parts[0])
    case None => Err(MalformedHeader)
    case Some(address) =>
      if |parts| < 2 then Err(MalformedHeader)
      else
        match env.parseSignature(parts[1])
        case None => Err(InvalidSignature)
        case Some(sig) => Ok((address, sig))
  }

  /**
   * `auth_from_headers`: a missing header is `NoSignature`, a value that is
   * not text `MalformedHeader`, and otherwise the text decides.
   */
  function AuthFromHeaders(k: ApiConstants, env: Env, headers: HeaderMap): (r: Result<(Address, Signature), Error>)
    ensures r == Err(NoSignature) <==> forall i :: 0 <= i < |headers| ==> headers[i].name != k.signatureHeader
    ensures r.Err? ==> r.error == NoSignature || r.error == MalformedHeader || r.error == InvalidSignature
  {
    match HeaderGet(headers, k.signatureHeader)
    case None => Err(NoSignature)
    case Some(value) =>
      match ToStr(value)
      case None => Err(MalformedHeader)
      case Some(auth) => ParseAuth(env, auth)
  }

  /** Text with no `:` has no signature part, so it is malformed whatever it holds. */
  lemma ParseAuthNoColon(env: Env, auth: string)
    requires ':' !in auth
    ensures ParseAuth(env, auth) == Err(MalformedHeader)
  {
  }

  /** An unparseable address is reported as malformed before the signature is looked at. */
  lemma ParseAuthBadAddress(env: Env, a: string, rest: string)
    requires ':' !in a && env.parseAddress(a).None?
    ensures ParseAuth(env, a + ":" + rest) == Err(MalformedHeader)
  {
    SplitAt(a, rest, ':');
  }

  /** A good address followed by an unparseable signature is an invalid signature. */
  lemma ParseAuthBadSignature(env: Env, a: string, s: string)
    requires ':' !in a && ':' !in s
    requires env.parseAddress(a).Some? && env.parseSignature(s).None?
    ensures ParseAuth(env, a + ":" + s) == Err(InvalidSignature)
  {
    SplitAt(a, s, ':');
  }

  /** Anything after a second `:` is ignored. */
  lemma ParseAuthIgnoresTrailing(env: Env, a: string, s: string, rest: string)
    requires ':' !in a && ':' !in s
    ensures ParseAuth(env, a + ":" + s + ":" + rest) == ParseAuth(env, a + ":" + s)
  {
    var long := Split(a + ":" + s + ":" + rest, ':');
    assert |long| >= 2 && long[0] == a && long[1] == s by {
      assert a + ":" + s + ":" + rest == a + [':'] + (s + [':'] + rest);
      SplitAt(a, s + ":" + rest, ':');
      SplitAt(s, rest, ':');
    }
    assert Split(a + ":" + s, ':') == [a, s] by {
      SplitAt(a, s, ':');
    }
  }

  /**
   * A header written as `<address>:<signature>` from texts the parsers
   * accept yields exactly that address and signature.
   */
  lemma AuthRoundTrip(k: ApiConstants, env: Env, headers: HeaderMap, a: string, s: string, addr: Address, sig: Signature)
    requires VisibleText(a + ":" + s)
    requires HeaderGet(headers, k.signatureHeader) == Some(Encode(a + ":" + s))
    requires ':' !in a && ':' !in s
    requires env.parseAddress(a) == Some(addr) && env.parseSignature(s) == Some(sig)
    ensures AuthFromHeaders(k, env, headers) == Ok((addr, sig))
  {
    ToStrEncode(a + ":" + s);
    SplitAt(a, s, ':');
  }

  /** A header value holding a byte that is not visible text is malformed. */
  lemma AuthNotText(k: ApiConstants, env: Env, headers: HeaderMap, value: seq<byte>, i: nat)
    requires HeaderGet(headers, k.signatureHeader) == Some(value)
    requires i < |value| && !VisibleByte(value[i])
    ensures AuthFromHeaders(k, env, headers) == Err(MalformedHeader)
  {
  }

  // ---------------------------------------------------------------------
  // Dispatch
  // ---------------------------------------------------------------------

  /**
   * The inclusion branch up to forwarding: the first parameter is parsed as
   * a request, the header signature is attached to it, the signer is
   * recovered from the signature over the request's digest, and the request
   * is admitted, carrying that signer, only when it is the header signer.
   */
  function AdmitInclusion(env: Env, params: seq<JsonValue>, signer: Address, signature: Signature): (r: Result<InclusionRequest, Error>)
    ensures params == [] ==> r == Err(Rejection(ValidationFailed("Bad params")))
    ensures r.Err? ==> r.error.Rejection? || r.error == RecoveryFailed || r.error == InvalidSignature
    ensures params != [] && env.parseRequest(params[0]).Err? ==>
      r == Err(Rejection(ValidationFailed(env.parseRequest(params[0]).error)))
    ensures params != [] && env.parseRequest(params[0]).Ok? ==>
      var signed := env.parseRequest(params[0]).value.(signature := Some(signature));
      (env.recover(signature, env.digest(signed)).None? ==> r == Err(RecoveryFailed)) &&
      (env.recover(signature, env.digest(signed)) == Some(signer) ==>
         r == Ok(signed.(signer := Some(signer)))) &&
      (env.recover(signature, env.digest(signed)).Some? && env.recover(signature, env.digest(signed)) != Some(signer) ==>
         r == Err(InvalidSignature))
    ensures r.Ok? <==>
      params != [] && env.parseRequest(params[0]).Ok? &&
      env.recover(signature, env.digest(env.parseRequest(params[0]).value.(signature := Some(signature)))) == Some(signer)
    ensures r.Ok? ==>
      r.value == env.parseRequest(params[0]).value.(signature := Some(signature), signer := Some(signer)) &&
      env.recover(signature, env.digest(r.value.(signer := env.parseRequest(params[0]).value.signer))) == Some(signer)
  {
    if params == [] then Err(Rejection(ValidationFailed("Bad params")))
    else
      match env.parseRequest(params[0])
      case Err(e) => Err(Rejection(ValidationFailed(e)))
      case Ok(request) =>
        var signed := request.(signature := Some(signature));
        match env.recover(signature, env.digest(signed))
        case None => Err(RecoveryFailed)
        case Some(recovered) =>
          if recovered != signer then Err(InvalidSignature)
          else Ok(signed.(signer := Some(recovered)))
  }

  /** The response to a forwarded request: the service's reply under the request's id, or its error. */
  function Reply(id: JsonValue, served: Result<JsonValue, Error>): (r: Result<JsonResponse, Error>)
    ensures r.Ok? <==> served.Ok?
    ensures r.Ok? ==> r.value.id == id && r.value.result == served.value
    ensures r.Err? ==> r.error == served.error
  {
    match served
    case Err(e) => Err(e)
    case Ok(result) => Ok(JsonResponse(id, result))
  }

  /** `handle_rpc`: authenticate, then route on the method name. */
  function HandleRpc(k: ApiConstants, env: Env, headers: HeaderMap, payload: JsonPayload): (r: Result<JsonResponse, Error>)
    ensures r.Ok? ==> AuthFromHeaders(k, env, headers).Ok? && r.value.id == payload.id
  {
    match AuthFromHeaders(k, env, headers)
    case Err(e) => Err(e)
    case Ok((signer, signature)) =>
      if payload.methodName == k.getVersionMethod then
        Ok(JsonResponse(payload.id, JString("bolt-sidecar-v" + k.pkgVersion)))
      else if payload.methodName == k.requestInclusionMethod then
        match AdmitInclusion(env, payload.params, signer, signature)
        case Err(e) => Err(e)
        case Ok(request) => Reply(payload.id, env.requestInclusion(request))
      else Err(UnknownMethod)
  }

  /** Authentication comes first: a header error is the answer to every request, whatever its method. */
  lemma AuthBeforeDispatch(k: ApiConstants, env: Env, headers: HeaderMap, payload: JsonPayload)
    requires AuthFromHeaders(k, env, headers).Err?
    ensures HandleRpc(k, env, headers, payload) == Err(AuthFromHeaders(k, env, headers).error)
  {
  }

  /** A request without the signature header, even for the version, is refused as unsigned. */
  lemma UnsignedRejected(k: ApiConstants, env: Env, headers: HeaderMap, payload: JsonPayload)
    requires forall i :: 0 <= i < |headers| ==> headers[i].name != k.signatureHeader
    ensures HandleRpc(k, env, headers, payload) == Err(NoSignature)
  {
  }

  /** An authenticated version request is answered with the package version under the request's id. */
  lemma VersionReply(k: ApiConstants, env: Env, headers: HeaderMap, payload: JsonPayload)
    requires AuthFromHeaders(k, env, headers).Ok? && payload.methodName == k.getVersionMethod
    ensures HandleRpc(k, env, headers, payload) == Ok(JsonResponse(payload.id, JString("bolt-sidecar-v" + k.pkgVersion)))
  {
  }

  /** An authenticated request for any other method is refused. */
  lemma UnknownMethodRejected(k: ApiConstants, env: Env, headers: HeaderMap, payload: JsonPayload)
    requires AuthFromHeaders(k, env, headers).Ok?
    requires payload.methodName != k.getVersionMethod && payload.methodName != k.requestInclusionMethod
    ensures HandleRpc(k, env, headers, payload) == Err(UnknownMethod)
  {
  }

  /** An authenticated inclusion request without parameters is refused as bad params. */
  lemma EmptyParamsRejected(k: ApiConstants, env: Env, headers: HeaderMap, payload: JsonPayload)
    requires AuthFromHeaders(k, env, headers).Ok?
    requires payload.methodName != k.getVersionMethod && payload.methodName == k.requestInclusionMethod
    requires payload.params == []
    ensures HandleRpc(k, env, headers, payload) == Err(Rejection(ValidationFailed("Bad params")))
  {
  }

  /**
   * When the signer recovered from the request differs from the header
   * signer the request is refused as an invalid signature and never
   * reaches the commitment service: the answer is the same whatever the
   * service would have replied.
   */
  lemma MismatchNotForwarded(
    k: ApiConstants, env: Env, headers: HeaderMap, payload: JsonPayload,
    forward: InclusionRequest -> Result<JsonValue, Error>)
    requires AuthFromHeaders(k, env, headers).Ok?
    requires payload.methodName != k.getVersionMethod && payload.methodName == k.requestInclusionMethod
    requires payload.params != [] && env.parseRequest(payload.params[0]).Ok?
    requires
      var (signer, signature) := AuthFromHeaders(k, env, headers).value;
      var signed := env.parseRequest(payload.params[0]).value.(signature := Some(signature));
      env.recover(signature, env.digest(signed)).Some? &&
      env.recover(signature, env.digest(signed)).value != signer
    ensures HandleRpc(k, env, headers, payload) == Err(InvalidSignature)
    ensures HandleRpc(k, env.(requestInclusion := forward), headers, payload) == Err(InvalidSignature)
  {
  }

  /**
   * The success path: an authenticated inclusion request whose first
   * parameter parses, and whose signature recovers to the header signer, is
   * forwarded with that signature and signer attached, and the service's
   * reply is the response.
   */
  lemma InclusionForwarded(k: ApiConstants, env: Env, headers: HeaderMap, payload: JsonPayload)
    requires AuthFromHeaders(k, env, headers).Ok?
    requires payload.methodName != k.getVersionMethod && payload.methodName == k.requestInclusionMethod
    requires payload.params != [] && env.parseRequest(payload.params[0]).Ok?
    requires
      var (signer, signature) := AuthFromHeaders(k, env, headers).value;
      env.recover(signature, env.digest(env.parseRequest(payload.params[0]).value.(signature := Some(signature)))) == Some(signer)
    ensures
      var (signer, signature) := AuthFromHeaders(k, env, headers).value;
      var request := env.parseRequest(payload.params[0]).value.(signature := Some(signature), signer := Some(signer));
      HandleRpc(k, env, headers, payload) == Reply(payload.id, env.requestInclusion(request))
  {
  }

  /**
   * A request that reaches the commitment service carries the header
   * signature and the header signer, that signer is the one recovered from
   * the signature, and the service's reply is the response.
   */
  lemma ForwardedRequestIsSigned(k: ApiConstants, env: Env, headers: HeaderMap, payload: JsonPayload)
    requires AuthFromHeaders(k, env, headers).Ok?
    requires payload.methodName != k.getVersionMethod && payload.methodName == k.requestInclusionMethod
    requires AdmitInclusion(env, payload.params, AuthFromHeaders(k, env, headers).value.0,
                            AuthFromHeaders(k, env, headers).value.1).Ok?
    ensures
      var (signer, signature) := AuthFromHeaders(k, env, headers).value;
      var request := AdmitInclusion(env, payload.params, signer, signature).value;
      request.signature == Some(signature) && request.signer == Some(signer) &&
      HandleRpc(k, env, headers, payload) == Reply(payload.id, env.requestInclusion(request))
  {
  }
}
