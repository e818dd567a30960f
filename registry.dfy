/** The decisions of the registry client of `pkg/registry.go`: endpoint and
    header construction, status classification, the credential cascade that
    yields a bearer token, and the tag-existence check that tries anonymous
    access first.

    The process environment is an explicit map, each HTTP round trip is a
    call of an abstract `Network`, and decoding the token response is an
    abstract `JsonDecoder`.
 */
module Registry {
  import opened Bytes
  import Base64
  import opened Format

  /** A registry and the image being asked about; `registryName` prefixes
      the environment variables that hold its credentials. */
  datatype RegistryClient = RegistryClient(registryName: string, registryUrl: string, imagePath: string)

  /** The process environment; a variable that is not set reads as "". */
  type Env = map<string, string>

  /** `os.Getenv`: the value of a set variable, and "" for one that is not set. */
  function Getenv(env: Env, key: string): (r: string)
    ensures key in env ==> r == env[key]
    ensures key !in env ==> r == ""
  {
    if key in env then env[key] else ""
  }

  datatype Method = Get | Head

  /** One HTTP request as the client issues it. */
  datatype Request = Request(verb: Method, endpoint: string, authorization: string)

  /** What a round trip yields: a failure to build, send or read it, or a
      status code with the response body. */
  datatype Response = TransportError | Status(code: int, body: seq<byte>)

  /** The HTTP client: the response to each request. */
  type Network = Request -> Response

  /** What `json.Unmarshal` into `{ token string }` yields; a body without a
      `token` field parses to the empty token. */
  datatype Decoded = ParseError | Parsed(token: string)

  type JsonDecoder = seq<byte> -> Decoded

  /** The kinds of error the client reports. */
  datatype Error =
    | Transport
    | UnexpectedAuthStatus(code: int)
    | Malformed
    | UnexpectedManifestStatus(code: int)
    | MissingCredentials(registry: string)
    | NoAuthToken(registry: string)
    | NoBearerToken(registry: string)

  datatype Result<T> = Ok(value: T) | Err(error: Error)

  const StatusOK := 200
  const StatusNotFound := 404

  /** The two endpoint templates, `authAPI` and `manifestAPI`, spelled as
      the literal text around each `%s`. */
  const AuthApi := "https://" + Verb + "/v2/auth?service=" + Verb + "&scope=repository:" + Verb + ":pull"
  const ManifestApi := "https://" + Verb + "/v2/" + Verb + "/manifests/" + Verb

  /** The one registry name with a fallback credential, and that credential's variable. */
  const GhcrName := "GHCR_IO"
  const GithubTokenVar := "GITHUB_TOKEN"

  // ----- endpoints, headers and variable names -----

  /** The token endpoint: the registry is both host and `service`, the image the pulled repository. */
  function AuthEndpoint(c: RegistryClient): (r: string)
    ensures r == "https://" + c.registryUrl + "/v2/auth?service=" + c.registryUrl
                 + "&scope=repository:" + c.imagePath + ":pull"
  {
    Fill3("https://", "/v2/auth?service=", "&scope=repository:", ":pull", c.registryUrl, c.registryUrl, c.imagePath);
    Sprintf(AuthApi, [c.registryUrl, c.registryUrl, c.imagePath])
  }

  /** The manifest endpoint of one tag of the image. */
  function ManifestEndpoint(c: RegistryClient, tag: string): (r: string)
    ensures r == "https://" + c.registryUrl + "/v2/" + c.imagePath + "/manifests/" + tag
  {
    Fill3("https://", "/v2/", "/manifests/", "", c.registryUrl, c.imagePath, tag);
    assert ManifestApi + "" == ManifestApi;
    assert "https://" + c.registryUrl + "/v2/" + c.imagePath + "/manifests/" + tag + ""
        == "https://" + c.registryUrl + "/v2/" + c.imagePath + "/manifests/" + tag;
    Sprintf(ManifestApi, [c.registryUrl, c.imagePath, tag])
  }

  /** `Sprintf("%s" + suffix, name)` for a suffix without a verb. */
  function Suffixed(name: string, suffix: string): (r: string)
    requires '%' !in suffix
    ensures r == name + suffix
  {
    Fill1("", suffix, name);
    assert "" + Verb + suffix == Verb + suffix && "" + name + suffix == name + suffix;
    Sprintf(Verb + suffix, [name])
  }

  /** The variable holding a ready bearer token. */
  function TokenVar(c: RegistryClient): (r: string)
    ensures r == c.registryName + "_TOKEN"
  {
    Suffixed(c.registryName, "_TOKEN")
  }

  /** The variable holding a ready auth token. */
  function AuthVar(c: RegistryClient): (r: string)
    ensures r == c.registryName + "_AUTH"
  {
    Suffixed(c.registryName, "_AUTH")
  }

  function UserVar(c: RegistryClient): (r: string)
    ensures r == c.registryName + "_USER"
  {
    Suffixed(c.registryName, "_USER")
  }

  function PasswordVar(c: RegistryClient): (r: string)
    ensures r == c.registryName + "_PASSWORD"
  {
    Suffixed(c.registryName, "_PASSWORD")
  }

  /** `Sprintf(lit + "%s", arg)` for a prefix without a verb. */
  function Prefixed(lit: string, arg: string): (r: string)
    requires '%' !in lit
    ensures r == lit + arg
  {
    Fill1(lit, "", arg);
    assert lit + Verb + "" == lit + Verb && lit + arg + "" == lit + arg;
    Sprintf(lit + Verb, [arg])
  }

  /** The `Authorization` value sent to the token endpoint. */
  function BasicAuthorization(auth: string): (r: string)
    ensures r == "Basic " + auth
  {
    Prefixed("Basic ", auth)
  }

  /** The `Authorization` value of a manifest check: empty for anonymous access. */
  function BearerAuthorization(bearer: string): (r: string)
    ensures bearer == "" ==> r == ""
    ensures bearer != "" ==> r == "Bearer " + bearer
  {
    if bearer == "" then "" else Prefixed("Bearer ", bearer)
  }

  /** Go's `Sprintf("%s:%s", user, pass)`. */
  function Credentials(user: string, pass: string): (r: string)
    ensures r == user + ":" + pass
  {
    Fill2("", ":", "", user, pass);
    assert "" + Verb + ":" + Verb + "" == Verb + ":" + Verb;
    assert "" + user + ":" + pass + "" == user + ":" + pass;
    Sprintf(Verb + ":" + Verb, [user, pass])
  }

  /** `base64.StdEncoding.EncodeToString([]byte(s))`. */
  function EncodeString(s: string): (r: string)
    ensures r == "" <==> s == ""
  {
    Base64.Encode(FromString(s))
  }

  // ----- the two requests -----

  /** The GET that exchanges an auth token for a bearer token. */
  function AuthRequest(c: RegistryClient, auth: string): (r: Request)
    ensures r.verb == Get
    ensures r.endpoint == "https://" + c.registryUrl + "/v2/auth?service=" + c.registryUrl
                          + "&scope=repository:" + c.imagePath + ":pull"
    ensures r.authorization == "Basic " + auth
  {
    Request(Get, AuthEndpoint(c), BasicAuthorization(auth))
  }

  /** The HEAD that asks whether a tag's manifest exists. */
  function ManifestRequest(c: RegistryClient, bearer: string, tag: string): (r: Request)
    ensures r.verb == Head
    ensures r.endpoint == "https://" + c.registryUrl + "/v2/" + c.imagePath + "/manifests/" + tag
    ensures r.authorization == if bearer == "" then "" else "Bearer " + bearer
  {
    Request(Head, ManifestEndpoint(c, tag), BearerAuthorization(bearer))
  }

  // ----- status classification -----

  /** `retrieveBearerToken`: success only on status 200 with a body that
      parses, and then the parsed token, which may be empty. */
  function RetrieveBearerToken(c: RegistryClient, net: Network, json: JsonDecoder, auth: string): (r: Result<string>)
    ensures var o := net(AuthRequest(c, auth));
      && (r.Ok? <==> o.Status? && o.code == StatusOK && json(o.body).Parsed?)
      && (r.Ok? ==> r.value == json(o.body).token)
      && (o.TransportError? ==> r == Err(Transport))
      && (o.Status? && o.code != StatusOK ==> r == Err(UnexpectedAuthStatus(o.code)))
      && (o.Status? && o.code == StatusOK && json(o.body).ParseError? ==> r == Err(Malformed))
  {
    match net(AuthRequest(c, auth))
    case TransportError => Err(Transport)
    case Status(code, body) =>
      if code != StatusOK then Err(UnexpectedAuthStatus(code))
      else match json(body)
        case ParseError => Err(Malformed)
        case Parsed(token) => Ok(token)
  }

  /** `checkManifestForTag`: 200 means found, 404 means absent, anything
      else, and a failed round trip, is an error. */
  function CheckManifestForTag(c: RegistryClient, net: Network, bearer: string, tag: string): (r: Result<bool>)
    ensures var o := net(ManifestRequest(c, bearer, tag));
      && (r == Ok(true) <==> o.Status? && o.code == StatusOK)
      && (r == Ok(false) <==> o.Status? && o.code == StatusNotFound)
      && (o.TransportError? ==> r == Err(Transport))
      && (o.Status? && o.code != StatusOK && o.code != StatusNotFound ==> r == Err(UnexpectedManifestStatus(o.code)))
  {
    match net(ManifestRequest(c, bearer, tag))
    case TransportError => Err(Transport)
    case Status(code, _) =>
      if code == StatusOK then Ok(true)
      else if code == StatusNotFound then Ok(false)
      else Err(UnexpectedManifestStatus(code))
  }

  // ----- the credential cascade -----

  /** `getAuthTokenFromCredentials`: base 64 of `user:password`, or an error
      when either variable is empty; a success is never empty. */
  function GetAuthTokenFromCredentials(c: RegistryClient, env: Env): (r: Result<string>)
    ensures var user, pass := Getenv(env, c.registryName + "_USER"), Getenv(env, c.registryName + "_PASSWORD");
      && (r.Err? <==> user == "" || pass == "")
      && (r.Err? ==> r.error == MissingCredentials(c.registryName))
      && (r.Ok? ==> r.value == EncodeString(user + ":" + pass) && r.value != "")
  {
    var user := Getenv(env, UserVar(c));
    var pass := Getenv(env, PasswordVar(c));
    if user == "" || pass == "" then Err(MissingCredentials(c.registryName))
    else Ok(EncodeString(Credentials(user, pass)))
  }

  /** `getBearerTokenFromAuthToken`: a set `_AUTH` is exchanged as it is and
      the user and password are not read; otherwise the credentials are
      derived and exchanged. An empty derived token (the `t == ""` check)
      cannot occur. */
  function GetBearerTokenFromAuthToken(c: RegistryClient, env: Env, net: Network, json: JsonDecoder): (r: Result<string>)
    ensures var a := Getenv(env, c.registryName + "_AUTH");
            var user, pass := Getenv(env, c.registryName + "_USER"), Getenv(env, c.registryName + "_PASSWORD");
      && (a != "" ==> r == RetrieveBearerToken(c, net, json, a))
      && (a == "" && (user == "" || pass == "") ==> r == Err(MissingCredentials(c.registryName)))
      && (a == "" && user != "" && pass != "" ==> r == RetrieveBearerToken(c, net, json, EncodeString(user + ":" + pass)))
    ensures r.Err? ==> !r.error.NoAuthToken?
  {
    var authToken := Getenv(env, AuthVar(c));
    if authToken == "" then
      match GetAuthTokenFromCredentials(c, env)
      case Err(e) => Err(e)
      case Ok(t) =>
        if t == "" then Err(NoAuthToken(c.registryName))
        else RetrieveBearerToken(c, net, json, t)
    else RetrieveBearerToken(c, net, json, authToken)
  }

  /** `getBearerToken`: a set `_TOKEN` is used as it is; otherwise the
      exchanged token, with `GITHUB_TOKEN` as the fallback of `GHCR_IO` when
      the exchange path fails; an empty result becomes an error. */
  function GetBearerToken(c: RegistryClient, env: Env, net: Network, json: JsonDecoder): (r: Result<string>)
    ensures r.Ok? ==> r.value != ""
    ensures var t := Getenv(env, c.registryName + "_TOKEN");
      t != "" ==> r == Ok(t)
    ensures var t := Getenv(env, c.registryName + "_TOKEN");
            var x := GetBearerTokenFromAuthToken(c, env, net, json);
            var gh := Getenv(env, GithubTokenVar);
      t == "" ==>
        && (x.Ok? && x.value != "" ==> r == x)
        && (x.Ok? && x.value == "" ==> r == Err(NoBearerToken(c.registryName)))
        && (x.Err? && c.registryName == GhcrName && gh != "" ==> r == Ok(EncodeString(gh)))
        && (x.Err? && (c.registryName != GhcrName || gh == "") ==> r == x)
  {
    var bearerToken := Getenv(env, TokenVar(c));
    if bearerToken != "" then Ok(bearerToken)
    else
      var exchanged :=
        match GetBearerTokenFromAuthToken(c, env, net, json)
        case Ok(t) => Ok(t)
        case Err(e) =>
          if c.registryName != GhcrName then Err(e)
          else
            var githubToken := Getenv(env, GithubTokenVar);
            if githubToken == "" then Err(e)
            else Ok(EncodeString(githubToken));
      match exchanged
      case Err(e) => Err(e)
      case Ok(t) => if t != "" then Ok(t) else Err(NoBearerToken(c.registryName))
  }

  // ----- the composition -----

  /** `IsTagExist`: the anonymous answer when there is one; otherwise the
      bearer token's error, or the answer to the check made with it. */
  function IsTagExist(c: RegistryClient, env: Env, net: Network, json: JsonDecoder, tag: string): (r: Result<bool>)
    ensures var anon := CheckManifestForTag(c, net, "", tag);
      anon.Ok? ==> r == anon
    ensures var anon := CheckManifestForTag(c, net, "", tag);
            var b := GetBearerToken(c, env, net, json);
      && (anon.Err? && b.Err? ==> r == Err(b.error))
      && (anon.Err? && b.Ok? ==> r == CheckManifestForTag(c, net, b.value, tag))
  {
    match CheckManifestForTag(c, net, "", tag)
    case Ok(found) => Ok(found)
    case Err(_) =>
      match GetBearerToken(c, env, net, json)
      case Err(e) => Err(e)
      case Ok(bearer) => CheckManifestForTag(c, net, bearer, tag)
  }
}
