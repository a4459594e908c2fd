/**
  Credential resolution: where the secret comes from, and the
  Authorization header built from it.
*/
module Credentials {
  import opened Wrappers
  import opened Config
  import Base64
  import Utf8

  /** The environment variable configured to hold the secret, if any. */
  function SecretEnvVar(cred: Credential): Option<string>
  {
    match cred
    case OauthClientCredentials(_, _, v) => v
    case SUser(_, v) => v
  }

  /** The principal: the client id for OAuth, the user name for the S-user. */
  function Principal(cred: Credential): (p: string)
    ensures cred.SUser? ==> p == cred.username
    ensures cred.OauthClientCredentials? ==> p == cred.clientId
  {
    match cred
    case OauthClientCredentials(clientId, _, _) => clientId
    case SUser(username, _) => username
  }

  /** Whether the configured variable was found in the environment; an empty value counts as found. */
  predicate SecretInEnvironment(cred: Credential, env: map<string, string>)
  {
    SecretEnvVar(cred).Some? && SecretEnvVar(cred).value in env
  }

  /**
    Secret selection: a value found in the environment wins and no prompt
    happens; otherwise the prompt is asked unless input is disabled; with
    neither, the run fails. `promptAnswer` is what the terminal prompt
    returns (None: it failed with an I/O error).
  */
  method ResolveSecret(cred: Credential, env: map<string, string>, noInput: bool, promptAnswer: Option<string>)
    returns (r: Result<string, SyncError>, prompted: bool)
    ensures prompted <==> !SecretInEnvironment(cred, env) && !noInput
    ensures SecretInEnvironment(cred, env) ==> r == Ok(env[SecretEnvVar(cred).value])
    ensures !SecretInEnvironment(cred, env) && !noInput ==>
      r == (if promptAnswer.Some? then Ok(promptAnswer.value) else Err(PromptFailed))
    ensures !SecretInEnvironment(cred, env) && noInput ==> r == Err(MissingSecret)
  {
    var password: Option<string> := None;
    match SecretEnvVar(cred) {
      case Some(key) =>
        if key in env {
          password := Some(env[key]);
        }
      case None =>
    }
    prompted := false;
    if !noInput && password.None? {
      prompted := true;
      match promptAnswer {
        case None =>
          r := Err(PromptFailed);
          return;
        case Some(pass) =>
          password := Some(pass);
      }
    }
    match password {
      case Some(p) => r := Ok(p);
      case None => r := Err(MissingSecret);
    }
  }

  /** The Basic scheme header (section 2 of RFC 7617): the base64 of the UTF-8 of user ":" pass. */
  function BasicAuth(user: string, pass: string): (header: string)
    ensures |header| >= 6 && header[..6] == "Basic "
    ensures Base64.Decode(header[6..]).Some?
    ensures Utf8.Decode(Base64.Decode(header[6..]).value) == Some(user + ":" + pass)
  {
    var payload := Utf8.Encode(user + ":" + pass);
    Base64.DecodeEncode(payload);
    Utf8.DecodeEncode(user + ":" + pass);
    var header := "Basic " + Base64.Encode(payload);
    assert header[6..] == Base64.Encode(payload);
    header
  }

  /**
    BasicAuth's contract determines the header: the Base64 and UTF-8
    decoders accept only encoder output, so any header with the "Basic "
    prefix whose payload decodes to user ":" pass is BasicAuth(user, pass).
  */
  lemma {:induction false} BasicAuthDetermined(user: string, pass: string, header: string)
    requires |header| >= 6 && header[..6] == "Basic "
    requires Base64.Decode(header[6..]).Some?
    requires Utf8.Decode(Base64.Decode(header[6..]).value) == Some(user + ":" + pass)
    ensures header == BasicAuth(user, pass)
  {
    var bytes := Base64.Decode(header[6..]).value;
    Base64.EncodeDecode(header[6..]);
    Utf8.EncodeDecode(bytes);
    assert header == header[..6] + header[6..];
  }

  /** The Bearer scheme header (section 2.1 of RFC 6750). */
  function BearerAuth(token: string): (header: string)
    ensures |header| >= 7 && header[..7] == "Bearer " && header[7..] == token
  {
    "Bearer " + token
  }

  /** `s` cut at its first ':'; None when it has none. */
  function SplitAtColon(s: string): Option<(string, string)>
    decreases |s|
  {
    if s == [] then None
    else if s[0] == ':' then Some(([], s[1..]))
    else match SplitAtColon(s[1..])
      case None => None
      case Some((user, pass)) => Some(([s[0]] + user, pass))
  }

  /** How a server reads a Basic header back into user and password. */
  function ParseBasic(header: string): Option<(string, string)>
  {
    if |header| < 6 || header[..6] != "Basic " then None
    else match Base64.Decode(header[6..])
      case None => None
      case Some(bytes) =>
        match Utf8.Decode(bytes)
        case None => None
        case Some(text) => SplitAtColon(text)
  }

  /** A colon-free user name is cut off exactly at the separating colon. */
  lemma {:induction false} SplitAtColonCredentials(user: string, pass: string)
    requires ':' !in user
    ensures SplitAtColon(user + ":" + pass) == Some((user, pass))
    decreases |user|
  {
    if user == [] {
      assert user + ":" + pass == [':'] + pass;
    } else {
      assert (user + ":" + pass)[1..] == user[1..] + ":" + pass;
      SplitAtColonCredentials(user[1..], pass);
      assert [user[0]] + user[1..] == user;
    }
  }

  /**
    The server recovers exactly the user and password from a Basic header,
    provided the user name has no colon (section 2 of RFC 7617 rules those out).
  */
  lemma BasicAuthRoundTrip(user: string, pass: string)
    requires ':' !in user
    ensures ParseBasic(BasicAuth(user, pass)) == Some((user, pass))
  {
    SplitAtColonCredentials(user, pass);
  }

  /** The URL of the OAuth client-credentials token request. */
  function TokenRequestUrl(tokenEndpointUrl: string): (url: string)
    ensures |url| >= |tokenEndpointUrl| && url[..|tokenEndpointUrl|] == tokenEndpointUrl
    ensures url[|tokenEndpointUrl|..] == "?grant_type=client_credentials"
  {
    tokenEndpointUrl + "?grant_type=client_credentials"
  }

  /**
    The OAuth client-credentials token request: its URL and its
    Authorization header, the Basic header of the client id and the secret.
  */
  function TokenRequest(cred: Credential, secret: string): (req: (string, string))
    requires cred.OauthClientCredentials?
    ensures req.0 == TokenRequestUrl(cred.tokenEndpointUrl)
    ensures |req.1| >= 6 && req.1[..6] == "Basic "
    ensures Base64.Decode(req.1[6..]).Some?
    ensures Utf8.Decode(Base64.Decode(req.1[6..]).value) == Some(cred.clientId + ":" + secret)
  {
    (TokenRequestUrl(cred.tokenEndpointUrl), BasicAuth(cred.clientId, secret))
  }

  /**
    The Authorization header of every API call. For OAuth,
    `tokenResponse` is the `access_token` of the token endpoint's answer to
    TokenRequest(cred, secret); None when that request or its body failed.
  */
  function Authorization(cred: Credential, secret: string, tokenResponse: Option<string>): (r: Result<string, SyncError>)
    ensures cred.SUser? ==> r == Ok(BasicAuth(cred.username, secret))
    ensures cred.OauthClientCredentials? ==> (r.Ok? <==> tokenResponse.Some?)
    ensures cred.OauthClientCredentials? && r.Ok? ==>
      |r.value| >= 7 && r.value[..7] == "Bearer " && r.value[7..] == tokenResponse.value
    ensures r.Err? ==> r.error == TokenExchangeFailed
  {
    match cred
    case OauthClientCredentials(_, _, _) =>
      if tokenResponse.None? then Err(TokenExchangeFailed) else Ok(BearerAuth(tokenResponse.value))
    case SUser(_, _) =>
      Ok(BasicAuth(Principal(cred), secret))
  }

  /**
    The S-user header carries exactly the configured user name and the
    resolved secret; the OAuth token request carries the client id and the
    secret the same way.
  */
  lemma AuthorizationCarriesCredentials(cred: Credential, secret: string, tokenResponse: Option<string>)
    requires ':' !in Principal(cred)
    ensures cred.SUser? ==> ParseBasic(Authorization(cred, secret, tokenResponse).value) == Some((cred.username, secret))
    ensures cred.OauthClientCredentials? ==> ParseBasic(TokenRequest(cred, secret).1) == Some((cred.clientId, secret))
  {
    BasicAuthRoundTrip(Principal(cred), secret);
  }
}
