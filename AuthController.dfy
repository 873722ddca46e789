/** The login and token-check handlers. */
module AuthController {
  import opened Wrappers
  import opened ErrorHandling
  import opened Auth

  const PasswordRequiredMessage := "비밀번호를 입력해주세요"
  const WrongPasswordMessage := "비밀번호가 올바르지 않습니다"
  const LoginMessage := "로그인 성공"

  datatype LoginBody = LoginBody(success: bool, message: string, token: string)

  datatype LoginOutcome = LoginFailed(error: Failure) | LoggedIn(body: LoginBody)

  /** `password` is the request body's field (`None` when missing or `null`); `token` is what
      the token generator returns. */
  function Login(password: Option<string>, configured: Option<string>, token: string): (r: LoginOutcome)
    ensures (password.None? || password == Some("")) ==> r == LoginFailed(AppError(PasswordRequiredMessage, 400, None))
    ensures password.Some? && password != Some("") && password != configured ==>
      r == LoginFailed(AppError(WrongPasswordMessage, 401, None))
    ensures r.LoggedIn? <==> password.Some? && password.value != "" && password == configured
    ensures r.LoggedIn? ==> r.body == LoginBody(true, LoginMessage, token)
  {
    if password.None? || password.value == "" then LoginFailed(AppError(PasswordRequiredMessage, 400, None))
    else if !VerifyPassword(password, configured) then LoginFailed(AppError(WrongPasswordMessage, 401, None))
    else LoggedIn(LoginBody(true, LoginMessage, token))
  }

  /** Without a configured admin password, or with an empty one, nobody can log in. */
  lemma NoConfiguredPasswordNoLogin(password: Option<string>, token: string)
    ensures !Login(password, None, token).LoggedIn?
    ensures !Login(password, Some(""), token).LoggedIn?
  {
  }

  datatype TokenCheck = TokenCheck(success: bool, admin: bool, authenticated: bool)

  /** `verifyToken`: reached only past the guard, it always confirms. */
  function VerifyToken(): (r: TokenCheck)
    ensures r.success && r.admin && r.authenticated
  {
    TokenCheck(true, true, true)
  }
}
