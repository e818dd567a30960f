# Registry tag-existence client, modelled in Dafny

This project models the decisions of the registry client of
`pkg/registry.go`. The client asks an OCI/Docker registry whether an image
has a given tag. It tries a HEAD request on the tag's manifest
anonymously first. Only if that attempt errs does it obtain a bearer token
and ask once more with `Authorization: Bearer <token>`.

The bearer token comes from a fixed cascade of environment variables, in
this order:
1. `{NAME}_TOKEN`, used as it is.
2. Otherwise an auth token, exchanged for a bearer token. The auth token
   is `{NAME}_AUTH`, or else `base64(user:password)` from `{NAME}_USER`
   and `{NAME}_PASSWORD`. The exchange is a GET on the registry's
   `/v2/auth` endpoint with `Authorization: Basic <auth>`.
3. For the registry named `GHCR_IO` only, `base64(GITHUB_TOKEN)` when
   step 2 fails.

An empty bearer token is an error.

The model is pure, as the source is: every operation is a function of
explicit inputs.
- The process environment is a `map<string, string>`. A missing key
  reads as `""`, as `os.Getenv` does.
- The HTTP client is a function `Network` from a `Request` (verb,
  endpoint, `Authorization` value) to a `Response`. A response is
  `TransportError`, or `Status(code, body)`.
- Decoding the token response is a function `JsonDecoder` from the body
  to `ParseError` or `Parsed(token)`.
- Errors are a datatype of kinds. Two kinds carry the status code and
  three carry the registry name.

Files:
- `bytes.dfy` (module `Bytes`): octets, and Go's `[]byte(s)` as the UTF-8
  encoding of section 3 of RFC 3629.
- `base64.dfy` (module `Base64`): `base64.StdEncoding`, the padded
  alphabet of section 4 of RFC 4648, with a strict decoder and the
  round-trip lemma.
- `format.dfy` (module `Format`): `fmt.Sprintf` for templates whose only
  verb is `%s`.
- `registry.dfy` (module `Registry`): the client itself.
- `properties.dfy` (module `RegistryProperties`): lemmas that relate
  several operations.

Two behaviours of the code are easy to misread:
- An anonymous manifest check does not omit the `Authorization` header.
  It sends the header with an empty value, so the model's anonymous
  request carries `""` (pkg/registry.go:37, 68-71).
- The `GHCR_IO` fallback is not limited to a failed token exchange. It
  applies whenever the auth-token path fails, including when no
  credentials are set at all (pkg/registry.go:119-130).

## Model

| member | source | states |
|---|---|---|
| Registry.Getenv | pkg/registry.go:88-89 | `os.Getenv` gives the value of a set variable and `""` for one that is not set |
| Registry.AuthEndpoint | pkg/registry.go:51 | the token endpoint is `https://<url>/v2/auth?service=<url>&scope=repository:<image>:pull` |
| Registry.ManifestEndpoint | pkg/registry.go:67 | the manifest endpoint is `https://<url>/v2/<image>/manifests/<tag>` |
| Registry.TokenVar | pkg/registry.go:114 | the pre-supplied bearer variable is `<NAME>_TOKEN` |
| Registry.AuthVar | pkg/registry.go:98 | the pre-supplied auth variable is `<NAME>_AUTH` |
| Registry.UserVar | pkg/registry.go:86 | the user variable is `<NAME>_USER` |
| Registry.PasswordVar | pkg/registry.go:87 | the password variable is `<NAME>_PASSWORD` |
| Registry.Suffixed | pkg/registry.go:86-87 | `Sprintf("%s<suffix>", name)` is `name + suffix` |
| Registry.Prefixed | pkg/registry.go:52 | `Sprintf("<lit>%s", arg)` is `lit + arg` |
| Registry.BasicAuthorization | pkg/registry.go:52 | the exchange sends `Authorization: Basic <auth>` |
| Registry.BearerAuthorization | pkg/registry.go:68-71 | the manifest check sends `""` for an empty bearer and `Bearer <bearer>` otherwise |
| Registry.Credentials | pkg/registry.go:93 | the credential string is `user + ":" + pass` |
| Registry.EncodeString | pkg/registry.go:129 | `EncodeToString([]byte(s))` is empty exactly when `s` is |
| Registry.AuthRequest | pkg/registry.go:51-52 | the exchange is a GET on the token endpoint with `Basic <auth>` |
| Registry.ManifestRequest | pkg/registry.go:67-72 | the check is a HEAD on the manifest endpoint with the bearer header |
| Registry.RetrieveBearerToken | pkg/registry.go:50-64 | success exactly on status 200 with a body that parses, and then the parsed token, possibly empty; transport error, any other status and a parse failure give their own errors |
| Registry.CheckManifestForTag | pkg/registry.go:66-83 | `Ok(true)` exactly on 200, `Ok(false)` exactly on 404; a transport error and every other status are errors |
| Registry.GetAuthTokenFromCredentials | pkg/registry.go:85-95 | fails exactly when `_USER` or `_PASSWORD` is empty, with the missing-credentials error; otherwise it gives `base64(user:pass)`, which is never empty |
| Registry.GetBearerTokenFromAuthToken | pkg/registry.go:97-111 | a non-empty `_AUTH` goes to the exchange as it is; otherwise the derived token does, or the missing-credentials error results; the empty-auth-token error of line 106 never occurs |
| Registry.GetBearerToken | pkg/registry.go:113-135 | a non-empty `_TOKEN` is returned unchanged; otherwise the exchanged token, `base64(GITHUB_TOKEN)` for `GHCR_IO` with that variable set when the exchange path fails, or the original error; an empty exchanged token becomes an error; a success is never empty |
| Registry.IsTagExist | pkg/registry.go:137-147 | the anonymous answer when it has no error; otherwise the bearer error or exactly the authenticated check's result |
| Bytes.EncodeChar | pkg/registry.go:93 | one character becomes the shortest UTF-8 form: one octet exactly below U+0080, two exactly below U+0800, three exactly below U+10000, otherwise four; a lead octet of the length's class, then continuation octets |
| Bytes.DecodeEncodeChar | pkg/registry.go:93 | a character's octets decode back to it |
| Bytes.FromString | pkg/registry.go:93 | `[]byte(s)` has between `len(s)` and `4*len(s)` octets and is empty exactly when `s` is |
| Bytes.FromAsciiString | pkg/registry.go:93 | ASCII text converts octet for octet |
| Bytes.FromStringAppend | pkg/registry.go:93 | the conversion distributes over concatenation |
| Base64.Value | pkg/registry.go:93 | an alphabet character stands for a value below 64 |
| Base64.Symbol | pkg/registry.go:93 | each 6-bit value has an alphabet character other than the pad, which stands for that value |
| Base64.Encode | pkg/registry.go:93 | the encoding has `4 * ceil(n / 3)` characters, all from the alphabet or the pad, and is empty exactly for empty input |
| Base64.DecodeTriple | pkg/registry.go:93 | a full group of three octets decodes back |
| Base64.DecodeEncode | pkg/registry.go:93 | decoding the encoding gives back the octets |
| Base64.EncodeInjective | pkg/registry.go:93 | distinct octet sequences have distinct encodings |
| Format.Sprintf | pkg/registry.go:51-52 | `fmt.Sprintf` with `%s` verbs copies a template without `%` unchanged, whatever the arguments |
| Format.SprintfLiteral | pkg/registry.go:13-14 | text without `%` is copied and uses no argument |
| Format.SprintfStep | pkg/registry.go:13-14 | a `%s` takes the next argument verbatim |
| Format.Fill3 | pkg/registry.go:13-14 | a three-verb template yields its literals with the three arguments in order |
| Format.Fill2 | pkg/registry.go:93 | a two-verb template yields its literals with the two arguments in order |
| Format.Fill1 | pkg/registry.go:52 | a one-verb template yields its literals with the argument in place |
| RegistryProperties.EncodeXyz | pkg/registry.go:129 | `GITHUB_TOKEN=xyz` becomes the bearer `eHl6` |
| RegistryProperties.EncodeUserColonPass | pkg/registry.go:93 | `u:p` becomes the auth token `dTpw` |
| RegistryProperties.VariablesDistinct | pkg/registry.go:86-125 | the four variables of a registry are distinct; none is `GITHUB_TOKEN`, except `_TOKEN` when the registry is named `GITHUB` |
| RegistryProperties.DerivedAuthTokenExample | pkg/registry.go:88-94 | `_USER=u`, `_PASSWORD=p` derive `base64("u:p")` |
| RegistryProperties.TokenShortCircuits | pkg/registry.go:114-118 | a non-empty `_TOKEN` decides the result alone; no other variable, request or decoding matters |
| RegistryProperties.AuthTakesPrecedence | pkg/registry.go:98-110 | without `_TOKEN`, a set `_AUTH` is exchanged as `Basic <auth>`; `_USER` and `_PASSWORD` do not affect the result |
| RegistryProperties.GithubTokenOnlyForGhcr | pkg/registry.go:119-130 | `GITHUB_TOKEN` does not affect the bearer token of any registry but `GHCR_IO` (or one named `GITHUB`) |
| RegistryProperties.GhcrFallbackExample | pkg/registry.go:119-130 | for `GHCR_IO`, a failed exchange path with `GITHUB_TOKEN=xyz` yields the bearer `base64("xyz")` |
| RegistryProperties.AnonymousAnswerIsFinal | pkg/registry.go:139-141 | an anonymous 200 gives `Ok(true)` and a 404 gives `Ok(false)`, in any environment |
| RegistryProperties.AnonymousAnswerIgnoresCredentials | pkg/registry.go:139-141 | when the anonymous check answers, neither the environment, nor the decoder, nor any other request matters |
| RegistryProperties.PresuppliedTokenRetry | pkg/registry.go:142-146 | after a failed anonymous check, `_TOKEN=t` retries with `Bearer t` and returns that result |
| RegistryProperties.NoCredentialsReported | pkg/registry.go:142-145 | after a failed anonymous check with no credentials (and no `GHCR_IO` fallback), the result is the missing-credentials error |
| RegistryProperties.RetryIsAuthenticated | pkg/registry.go:142-146 | the retry carries a non-empty `Bearer` header, so it is never the anonymous request again |
| RegistryProperties.IsTagExistSound | pkg/registry.go:137-147 | every definitive answer is a 200 or 404 that the registry gave for that tag, to the anonymous request or to the bearer request |
| RegistryProperties.ServerErrorsAreErrors | pkg/registry.go:79-82 | when every manifest request gets 500, the result is an error, never "not found" |
| RegistryProperties.IsTagExistErrors | pkg/registry.go:137-147 | the possible error kinds; the empty-auth-token error is not among them |

## Left out

- `retrieve` (pkg/registry.go:32-48) is network I/O. Request construction, `HttpClient.Do`, reading and closing the body are replaced by the `Network` function. Their three failure paths (status -1) are the single `TransportError` response.
- `Network` is deterministic: the same request always gets the same response. Within one `IsTagExist` this constrains nothing, because the two manifest requests always differ (`RetryIsAuthenticated`).
- `os.Getenv` reads process-global state. The model passes the environment in as an explicit map.
- `json.Unmarshal` is a foreign library. The model keeps only its outcome: a parse error, or the `token` field (`""` when the field is absent).
- The text of the `fmt.Errorf` messages is not modelled. Errors are kinds that carry the status code or the registry name.
- `http.Client` configuration, timeouts and TLS belong to the caller and are not visible in the source.
- The `IRegistryClient` interface (pkg/registry.go:17-19) declares no behaviour of its own.
- Go strings that are not valid UTF-8 cannot be written as a Dafny `string`. For all other strings, `[]byte(s)` is their UTF-8 encoding.
- `Format.Sprintf` models only the `%s` verb and Go's `%!s(MISSING)` for a missing argument. Go's output for surplus arguments is not modelled; no call in the source has any.
- `Base64.Decode` is a strict decoder written as the inverse of the encoder. It rejects nonzero bits under the padding, which Go's non-strict decoder accepts. The client never decodes.
