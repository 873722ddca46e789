/** The server's error type and the error-to-response mapping of its Express error handler. */
module ErrorHandling {
  import opened Wrappers

  /** An error reaching the handler. `statusCode` and `code` are `None` when the error does
      not carry them (JavaScript `undefined`); `name` is the constructor's name ("Error" for an
      `AppError` or a plain `Error`); `stack` is the captured stack text, if any. */
  datatype Failure = Failure(
    message: string,
    statusCode: Option<int>,
    isOperational: bool,
    code: Option<string>,
    name: string,
    stack: Option<string>)

  /** `new AppError(message, statusCode)`: an operational error with that status. */
  function AppError(message: string, statusCode: int, stack: Option<string>): (r: Failure)
    ensures r.statusCode == Some(statusCode) && r.isOperational
    ensures r.message == message && r.code == None && r.name == "Error"
  {
    Failure(message, Some(statusCode), true, None, "Error", stack)
  }

  /** `new Error(message)`: neither a status nor the operational mark. */
  function PlainError(message: string, stack: Option<string>): (r: Failure)
    ensures r.statusCode == None && !r.isOperational && r.code == None && r.name == "Error"
  {
    Failure(message, None, false, None, "Error", stack)
  }

  const MaskedMessage := "Internal server error"
  const DuplicateMessage := "이미 존재하는 데이터입니다"
  const MissingReferenceMessage := "참조된 데이터가 존재하지 않습니다"
  const InvalidTokenMessage := "유효하지 않은 토큰입니다"
  const ExpiredTokenMessage := "토큰이 만료되었습니다"

  /** The JSON body of an error response; `stack` is present only in development. */
  datatype ErrorBody = ErrorBody(success: bool, message: string, stack: Option<string>)

  /** A recognised database error code (`err.code`). */
  predicate IsCode(err: Failure, c: string)
  {
    err.code == Some(c)
  }

  /** The status and message the handler answers with, stated by precedence: a JWT error name
      decides first, then a MySQL error code, then the error's own status (500 when it has
      none) with its message masked in production unless the error is operational. */
  function Answer(err: Failure, env: Option<string>): (r: (int, string))
  {
    if err.name == "TokenExpiredError" then (401, ExpiredTokenMessage)
    else if err.name == "JsonWebTokenError" then (401, InvalidTokenMessage)
    else if IsCode(err, "ER_NO_REFERENCED_ROW_2") then (400, MissingReferenceMessage)
    else if IsCode(err, "ER_DUP_ENTRY") then (409, DuplicateMessage)
    else
      (err.statusCode.GetOr(500),
       if env == Some("production") && !err.isOperational then MaskedMessage else err.message)
  }

  /** The handler: start from the error's status and message, mask, then let each recognised
      code and name override in turn; the body carries the stack only in development. */
  method HandleError(err: Failure, env: Option<string>) returns (status: int, body: ErrorBody)
    ensures (status, body.message) == Answer(err, env)
    ensures !body.success
    ensures body.stack == (if env == Some("development") then err.stack else None)
  {
    status := err.statusCode.GetOr(500);
    var message := err.message;
    if env == Some("production") && !err.isOperational {
      message := MaskedMessage;
    }
    if err.code == Some("ER_DUP_ENTRY") {
      status := 409;
      message := DuplicateMessage;
    }
    if err.code == Some("ER_NO_REFERENCED_ROW_2") {
      status := 400;
      message := MissingReferenceMessage;
    }
    if err.name == "JsonWebTokenError" {
      status := 401;
      message := InvalidTokenMessage;
    }
    if err.name == "TokenExpiredError" {
      status := 401;
      message := ExpiredTokenMessage;
    }
    var stack := if env == Some("development") then err.stack else None;
    body := ErrorBody(false, message, stack);
  }

  /** An `AppError` is answered with its own status and message in every environment. */
  lemma AppErrorAnswered(message: string, statusCode: int, stack: Option<string>, env: Option<string>)
    ensures Answer(AppError(message, statusCode, stack), env) == (statusCode, message)
  {
  }

  /** An error without status, code or JWT name is a 500; in production its message is hidden,
      elsewhere it is passed through. */
  lemma PlainErrorAnswered(message: string, stack: Option<string>, env: Option<string>)
    ensures Answer(PlainError(message, stack), env).0 == 500
    ensures Answer(PlainError(message, stack), env).1 ==
      (if env == Some("production") then MaskedMessage else message)
  {
  }

  /** The JWT names win over a database code and over masking. */
  lemma TokenNamesOverride(err: Failure, env: Option<string>)
    requires err.name == "JsonWebTokenError" || err.name == "TokenExpiredError"
    ensures Answer(err, env).0 == 401
    ensures Answer(err, env).1 == (if err.name == "JsonWebTokenError" then InvalidTokenMessage else ExpiredTokenMessage)
  {
  }

  /** A duplicate-entry error is a 409 with a fixed message unless it also carries a JWT name,
      whatever its own status, operational mark and the environment. */
  lemma DuplicateEntryConflict(err: Failure, env: Option<string>)
    requires IsCode(err, "ER_DUP_ENTRY")
    ensures err.name != "JsonWebTokenError" && err.name != "TokenExpiredError" ==>
      Answer(err, env) == (409, DuplicateMessage)
  {
  }

  /** Which status can come out: the error's own status or one of 400, 401, 409, 500. */
  lemma AnswerStatusSource(err: Failure, env: Option<string>)
    ensures Answer(err, env).0 in {400, 401, 409, 500} || Some(Answer(err, env).0) == err.statusCode
  {
  }
}
