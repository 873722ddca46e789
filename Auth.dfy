/** The admin authentication middleware: password comparison and the bearer-token guard. */
module Auth {
  import opened Wrappers
  import opened Strings
  import opened ErrorHandling

  /** `verifyPassword`: strict equality with the configured admin password; an unset
      configuration is `None`, which only an absent password would equal. */
  function VerifyPassword(password: Option<string>, configured: Option<string>): (ok: bool)
    ensures ok <==> password == configured
  {
    password == configured
  }

  /** The claims of a verified token (`{ admin, timestamp }` when issued by this server). */
  datatype Claims = Claims(admin: bool, timestamp: Option<int>)

  /** What `jwt.verify` does with a token: decode it, or throw. Token cryptography is not
      modelled; the verifier is a parameter. */
  datatype Verified = Decoded(claims: Claims) | Thrown(error: Failure)

  const TokenRequiredMessage := "인증 토큰이 필요합니다"
  const AdminRequiredMessage := "관리자 권한이 필요합니다"

  /** `authHeader && authHeader.split(' ')[1]`, kept only when truthy: the second
      space-separated field of a non-empty header, if it exists and is not empty. */
  function BearerToken(header: Option<string>): (t: Option<string>)
    ensures t.Some? ==> t.value != "" && ' ' !in t.value
  {
    if header.None? || header.value == "" then None
    else
      var fields := Split(header.value, ' ');
      if |fields| >= 2 && fields[1] != "" then Some(fields[1]) else None
  }

  /** The usual header shape yields its token. */
  lemma BearerTokenOfScheme(scheme: string, token: string)
    requires ' ' !in scheme && ' ' !in token && token != ""
    ensures BearerToken(Some(scheme + " " + token)) == Some(token)
  {
    SplitJoin([scheme, token], ' ');
    assert Join([scheme, token], " ") == scheme + " " + token;
  }

  /** Only the second field counts: anything after a further space is ignored. */
  lemma BearerTokenIgnoresRest(scheme: string, token: string, rest: string)
    requires ' ' !in scheme && ' ' !in token && token != ""
    ensures BearerToken(Some(scheme + " " + token + " " + rest)) == Some(token)
  {
    var s1 := " " + token + " " + rest;
    var s2 := " " + rest;
    assert s1[0] == ' ' && s1[1..] == token + s2;
    assert Split(s1, ' ') == [""] + Split(token + s2, ' ');
    SplitPrefix(token, s2, ' ');
    assert s2[0] == ' ' && s2[1..] == rest;
    assert Split(s2, ' ') == [""] + Split(rest, ' ');
    assert Split(token + s2, ' ')[0] == token;
    SplitPrefix(scheme, s1, ' ');
    assert scheme + " " + token + " " + rest == scheme + s1;
    assert Split(scheme + s1, ' ')[1] == token;
  }

  /** A header without a space has no second field, so no token. */
  lemma NoSpaceNoToken(header: string)
    requires ' ' !in header
    ensures BearerToken(Some(header)) == None
  {
    SplitJoin([header], ' ');
  }

  /** What `authenticateToken` does with the request: pass an error to `next`, or set
      `req.user` and continue. */
  datatype AuthOutcome = Forward(error: Failure) | Proceed(user: Claims)

  /** The guard sequence as a decision: no token is a 401, a verify failure is forwarded
      unchanged, a token without the admin claim is a 403, otherwise the request proceeds
      with the decoded claims. */
  function AuthDecision(header: Option<string>, verify: string -> Verified): (r: AuthOutcome)
    ensures BearerToken(header).None? ==> r == Forward(AppError(TokenRequiredMessage, 401, None))
    ensures BearerToken(header).Some? && verify(BearerToken(header).value).Thrown? ==>
      r == Forward(verify(BearerToken(header).value).error)
    ensures r.Proceed? <==>
      BearerToken(header).Some? && verify(BearerToken(header).value).Decoded? && verify(BearerToken(header).value).claims.admin
    ensures r.Proceed? ==> r.user == verify(BearerToken(header).value).claims
  {
    match BearerToken(header)
    case None => Forward(AppError(TokenRequiredMessage, 401, None))
    case Some(token) =>
      match verify(token)
      case Thrown(e) => Forward(e)
      case Decoded(c) => if !c.admin then Forward(AppError(AdminRequiredMessage, 403, None)) else Proceed(c)
  }

  /** The part of the request the guard writes. */
  class Request {
    var user: Option<Claims>

    constructor ()
      ensures user == None
    {
      user := None;
    }
  }

  /** `authenticateToken(req, res, next)`: returns the error handed to `next`, if any, and
      sets `req.user` exactly when the request proceeds. */
  method AuthenticateToken(req: Request, header: Option<string>, verify: string -> Verified)
    returns (forwarded: Option<Failure>)
    modifies req
    ensures AuthDecision(header, verify).Forward? ==>
      forwarded == Some(AuthDecision(header, verify).error) && req.user == old(req.user)
    ensures AuthDecision(header, verify).Proceed? ==>
      forwarded == None && req.user == Some(AuthDecision(header, verify).user)
  {
    var token := BearerToken(header);
    if token.None? {
      return Some(AppError(TokenRequiredMessage, 401, None));
    }
    var decoded := verify(token.value);
    if decoded.Thrown? {
      return Some(decoded.error);
    }
    if !decoded.claims.admin {
      return Some(AppError(AdminRequiredMessage, 403, None));
    }
    req.user := Some(decoded.claims);
    forwarded := None;
  }

  /** An expired or forged token reaches the error handler, which answers 401. */
  lemma VerifyFailureAnswered401(header: Option<string>, verify: string -> Verified, env: Option<string>)
    requires BearerToken(header).Some?
    requires verify(BearerToken(header).value).Thrown?
    requires verify(BearerToken(header).value).error.name in {"JsonWebTokenError", "TokenExpiredError"}
    ensures Answer(AuthDecision(header, verify).error, env).0 == 401
  {
  }
}
