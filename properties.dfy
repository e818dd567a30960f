/** What the registry client guarantees across its operations: the
    anonymous answer is final, the credential cascade keeps its order, the
    `GHCR_IO` fallback is confined to that registry, and every definitive
    answer is one the registry itself gave.
 */
module RegistryProperties {
  import opened Bytes
  import Base64
  import opened Registry

  /** A response that states the tag is present (`found`) or absent. */
  predicate Answers(o: Response, found: bool) {
    o.Status? && o.code == (if found then StatusOK else StatusNotFound)
  }

  // ----- concrete encodings -----

  /** Three octets make exactly one group: no padding. */
  lemma EncodeOneTriple(b0: byte, b1: byte, b2: byte)
    ensures Base64.Encode([b0, b1, b2]) == Base64.EncodeTriple(b0, b1, b2)
  {
    assert [b0, b1, b2][3..] == [];
    assert Base64.EncodeTriple(b0, b1, b2) + [] == Base64.EncodeTriple(b0, b1, b2);
  }

  /** `base64("xyz")`, the bearer token of the `GITHUB_TOKEN=xyz` example. */
  lemma EncodeXyz()
    ensures EncodeString("xyz") == "eHl6"
  {
    var octets: seq<byte> := [0x78, 0x79, 0x7A];
    assert FromString("xyz") == octets by {
      assert "xyz"[1..] == "yz" && "yz"[1..] == "z" && "z"[1..] == "";
    }
    assert Base64.Encode(octets) == "eHl6" by {
      EncodeOneTriple(0x78, 0x79, 0x7A);
      assert 0x78 / 4 == 30 && (0x78 % 4) * 16 + 0x79 / 16 == 7;
      assert (0x79 % 16) * 4 + 0x7A / 64 == 37 && 0x7A % 64 == 58;
      assert Base64.Symbol(30) == 'e' && Base64.Symbol(7) == 'H';
      assert Base64.Symbol(37) == 'l' && Base64.Symbol(58) == '6';
    }
  }

  /** `base64("u:p")`, the auth token of the `_USER=u`, `_PASSWORD=p` example. */
  lemma EncodeUserColonPass()
    ensures EncodeString("u:p") == "dTpw"
  {
    var octets: seq<byte> := [0x75, 0x3A, 0x70];
    assert FromString("u:p") == octets by {
      assert "u:p"[1..] == ":p" && ":p"[1..] == "p" && "p"[1..] == "";
    }
    assert Base64.Encode(octets) == "dTpw" by {
      EncodeOneTriple(0x75, 0x3A, 0x70);
      assert 0x75 / 4 == 29 && (0x75 % 4) * 16 + 0x3A / 16 == 19;
      assert (0x3A % 16) * 4 + 0x70 / 64 == 41 && 0x70 % 64 == 48;
      assert Base64.Symbol(29) == 'd' && Base64.Symbol(19) == 'T';
      assert Base64.Symbol(41) == 'p' && Base64.Symbol(48) == 'w';
    }
  }

  // ----- variable names -----

  /** Two names that end in different characters are different. */
  lemma LastCharDiffers(a: string, b: string)
    requires a != [] && b != [] && a[|a| - 1] != b[|b| - 1]
    ensures a != b
  {
  }

  /** The four variables of a registry are pairwise distinct, none of them is
      `GITHUB_TOKEN` except the `_TOKEN` of a registry named `GITHUB`. */
  lemma VariablesDistinct(c: RegistryClient)
    ensures TokenVar(c) != AuthVar(c) && TokenVar(c) != UserVar(c) && TokenVar(c) != PasswordVar(c)
    ensures AuthVar(c) != UserVar(c) && AuthVar(c) != PasswordVar(c) && UserVar(c) != PasswordVar(c)
    ensures AuthVar(c) != GithubTokenVar && UserVar(c) != GithubTokenVar && PasswordVar(c) != GithubTokenVar
    ensures TokenVar(c) == GithubTokenVar <==> c.registryName == "GITHUB"
  {
    var n := c.registryName;
    var t, a, u, p := n + "_TOKEN", n + "_AUTH", n + "_USER", n + "_PASSWORD";
    assert t[|t| - 1] == 'N' && a[|a| - 1] == 'H' && u[|u| - 1] == 'R' && p[|p| - 1] == 'D';
    assert GithubTokenVar[|GithubTokenVar| - 1] == 'N';
    LastCharDiffers(t, a);
    LastCharDiffers(t, u);
    LastCharDiffers(t, p);
    LastCharDiffers(a, u);
    LastCharDiffers(a, p);
    LastCharDiffers(u, p);
    LastCharDiffers(a, GithubTokenVar);
    LastCharDiffers(u, GithubTokenVar);
    LastCharDiffers(p, GithubTokenVar);
    if t == GithubTokenVar {
      assert |n| == 6;
      assert n == t[..6] == "GITHUB";
    }
  }

  // ----- the credential cascade -----

  /** `_USER=u` and `_PASSWORD=p` derive the auth token `base64("u:p")`. */
  lemma DerivedAuthTokenExample(c: RegistryClient, env: Env)
    requires Getenv(env, c.registryName + "_USER") == "u"
    requires Getenv(env, c.registryName + "_PASSWORD") == "p"
    ensures GetAuthTokenFromCredentials(c, env) == Ok("dTpw")
  {
    EncodeUserColonPass();
    assert "u" + ":" + "p" == "u:p";
  }

  /** A set `_TOKEN` decides the bearer token alone: the other variables, the
      network and the decoder are never consulted. */
  lemma TokenShortCircuits(c: RegistryClient, env: Env, env': Env, net: Network, net': Network,
                           json: JsonDecoder, json': JsonDecoder)
    requires Getenv(env, c.registryName + "_TOKEN") != ""
    requires Getenv(env', c.registryName + "_TOKEN") == Getenv(env, c.registryName + "_TOKEN")
    ensures GetBearerToken(c, env, net, json) == GetBearerToken(c, env', net', json')
                                              == Ok(Getenv(env, c.registryName + "_TOKEN"))
  {
  }

  /** Without `_TOKEN`, a set `_AUTH` is what goes to the exchange, as
      `Basic <auth>`, whatever `_USER` and `_PASSWORD` hold. */
  lemma AuthTakesPrecedence(c: RegistryClient, env: Env, net: Network, json: JsonDecoder, user: string, pass: string)
    requires Getenv(env, c.registryName + "_TOKEN") == ""
    requires Getenv(env, c.registryName + "_AUTH") != ""
    ensures var a := Getenv(env, c.registryName + "_AUTH");
      && GetBearerTokenFromAuthToken(c, env, net, json) == RetrieveBearerToken(c, net, json, a)
      && AuthRequest(c, a).authorization == "Basic " + a
      && GetBearerToken(c, env, net, json)
         == GetBearerToken(c, env[UserVar(c) := user][PasswordVar(c) := pass], net, json)
  {
    VariablesDistinct(c);
    var env' := env[UserVar(c) := user][PasswordVar(c) := pass];
    assert Getenv(env', TokenVar(c)) == "";
    assert Getenv(env', AuthVar(c)) == Getenv(env, AuthVar(c));
    assert Getenv(env', GithubTokenVar) == Getenv(env, GithubTokenVar);
  }

  /** `GITHUB_TOKEN` plays no part for any registry but `GHCR_IO` (a registry
      named `GITHUB` reads it as its own `_TOKEN`). */
  lemma GithubTokenOnlyForGhcr(c: RegistryClient, env: Env, net: Network, json: JsonDecoder, v: string)
    requires c.registryName != GhcrName && c.registryName != "GITHUB"
    ensures GetBearerToken(c, env, net, json) == GetBearerToken(c, env[GithubTokenVar := v], net, json)
  {
    VariablesDistinct(c);
    var env' := env[GithubTokenVar := v];
    assert Getenv(env', TokenVar(c)) == Getenv(env, TokenVar(c));
    assert Getenv(env', AuthVar(c)) == Getenv(env, AuthVar(c));
    assert Getenv(env', UserVar(c)) == Getenv(env, UserVar(c));
    assert Getenv(env', PasswordVar(c)) == Getenv(env, PasswordVar(c));
  }

  /** For `GHCR_IO`, a failed exchange with `GITHUB_TOKEN=xyz` gives the bearer `base64("xyz")`. */
  lemma GhcrFallbackExample(c: RegistryClient, env: Env, net: Network, json: JsonDecoder)
    requires c.registryName == GhcrName
    requires Getenv(env, c.registryName + "_TOKEN") == ""
    requires GetBearerTokenFromAuthToken(c, env, net, json).Err?
    requires Getenv(env, GithubTokenVar) == "xyz"
    ensures GetBearerToken(c, env, net, json) == Ok("eHl6")
  {
    EncodeXyz();
  }

  // ----- the composition -----

  /** An anonymous 200 or 404 is the answer, for every environment. */
  lemma AnonymousAnswerIsFinal(c: RegistryClient, env: Env, net: Network, json: JsonDecoder, tag: string)
    requires var o := net(ManifestRequest(c, "", tag)); o.Status? && (o.code == StatusOK || o.code == StatusNotFound)
    ensures IsTagExist(c, env, net, json, tag) == Ok(net(ManifestRequest(c, "", tag)).code == StatusOK)
  {
  }

  /** When the anonymous check answers, nothing else is consulted: neither
      the environment, nor the decoder, nor any other request. */
  lemma AnonymousAnswerIgnoresCredentials(c: RegistryClient, tag: string,
                                          env: Env, net: Network, json: JsonDecoder,
                                          env': Env, net': Network, json': JsonDecoder)
    requires CheckManifestForTag(c, net, "", tag).Ok?
    requires net'(ManifestRequest(c, "", tag)) == net(ManifestRequest(c, "", tag))
    ensures IsTagExist(c, env, net, json, tag) == IsTagExist(c, env', net', json', tag)
  {
  }

  /** A failed anonymous check and `_TOKEN=t` retry the check with `Bearer t`
      and return its outcome. */
  lemma PresuppliedTokenRetry(c: RegistryClient, env: Env, net: Network, json: JsonDecoder, tag: string)
    requires CheckManifestForTag(c, net, "", tag).Err?
    requires Getenv(env, c.registryName + "_TOKEN") != ""
    ensures var t := Getenv(env, c.registryName + "_TOKEN");
      && IsTagExist(c, env, net, json, tag) == CheckManifestForTag(c, net, t, tag)
      && ManifestRequest(c, t, tag).authorization == "Bearer " + t
  {
  }

  /** A failed anonymous check with no credentials at all reports the
      missing credentials of the registry. */
  lemma NoCredentialsReported(c: RegistryClient, env: Env, net: Network, json: JsonDecoder, tag: string)
    requires CheckManifestForTag(c, net, "", tag).Err?
    requires Getenv(env, c.registryName + "_TOKEN") == "" && Getenv(env, c.registryName + "_AUTH") == ""
    requires Getenv(env, c.registryName + "_USER") == "" || Getenv(env, c.registryName + "_PASSWORD") == ""
    requires c.registryName != GhcrName || Getenv(env, GithubTokenVar) == ""
    ensures IsTagExist(c, env, net, json, tag) == Err(MissingCredentials(c.registryName))
  {
  }

  /** The authenticated retry never repeats the anonymous request: it always
      carries a non-empty `Bearer` header. */
  lemma RetryIsAuthenticated(c: RegistryClient, env: Env, net: Network, json: JsonDecoder, tag: string)
    requires GetBearerToken(c, env, net, json).Ok?
    ensures var b := GetBearerToken(c, env, net, json).value;
      && ManifestRequest(c, b, tag).authorization == "Bearer " + b
      && ManifestRequest(c, b, tag) != ManifestRequest(c, "", tag)
  {
    var b := GetBearerToken(c, env, net, json).value;
    assert |ManifestRequest(c, b, tag).authorization| > 0;
  }

  /** Every definitive answer is one the registry gave for that tag, either
      to the anonymous request or to the request with the bearer token. */
  lemma IsTagExistSound(c: RegistryClient, env: Env, net: Network, json: JsonDecoder, tag: string)
    ensures var r := IsTagExist(c, env, net, json, tag);
            var b := GetBearerToken(c, env, net, json);
      r.Ok? ==>
        || Answers(net(ManifestRequest(c, "", tag)), r.value)
        || (b.Ok? && Answers(net(ManifestRequest(c, b.value, tag)), r.value))
  {
  }

  /** Some manifest request was answered with 200 or 404 whenever the
      outcome is definitive; so a registry answering 500 to every manifest
      request makes the outcome an error, not absence. */
  lemma ServerErrorsAreErrors(c: RegistryClient, env: Env, net: Network, json: JsonDecoder, tag: string)
    requires forall b :: net(ManifestRequest(c, b, tag)).Status? && net(ManifestRequest(c, b, tag)).code == 500
    ensures IsTagExist(c, env, net, json, tag).Err?
  {
    IsTagExistSound(c, env, net, json, tag);
    var b := GetBearerToken(c, env, net, json);
    assert net(ManifestRequest(c, "", tag)).code == 500;
    if b.Ok? {
      assert net(ManifestRequest(c, b.value, tag)).code == 500;
    }
  }

  /** The errors `IsTagExist` reports; the empty derived auth token is never among them. */
  lemma IsTagExistErrors(c: RegistryClient, env: Env, net: Network, json: JsonDecoder, tag: string)
    ensures var r := IsTagExist(c, env, net, json, tag);
      r.Err? ==>
        || r.error == Transport
        || r.error.UnexpectedManifestStatus?
        || r.error.UnexpectedAuthStatus?
        || r.error == Malformed
        || r.error == MissingCredentials(c.registryName)
        || r.error == NoBearerToken(c.registryName)
  {
  }
}
