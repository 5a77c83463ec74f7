/**
 * The application's last middleware: it turns an error that reached it (a
 * database error, a JWT error, anything a handler throws) into an HTTP status
 * and the `error` text of the JSON body.
 */
module ErrorHandler {
  import opened Common

  /** An error as the handler sees it: its `name`, its `message` and an optional `statusCode`. */
  datatype AppError = AppError(name: string, message: string, statusCode: Option<int>)

  datatype Reply = Reply(status: int, message: string)

  const UniqueMarker := "Unique constraint failed"

  /** The database client's errors, by the phrase their messages carry. */
  const UniqueViolation := AppError("PrismaClientKnownRequestError", "Unique constraint failed on the fields", None)
  const ForeignKeyViolation := AppError("PrismaClientKnownRequestError", "Foreign key constraint failed on the field", None)
  const InvalidArgument := AppError("PrismaClientValidationError", "Invalid value provided for a query argument", None)

  /**
   * The outcome written as a decision list, most decisive case first: each
   * later rule of the handler overrides the earlier ones.
   */
  function Classify(err: AppError): (r: Reply)
    ensures err.name == "TokenExpiredError" ==> r == Reply(401, "Token expiré")
    ensures err.name == "JsonWebTokenError" ==> r == Reply(401, "Token invalide")
    ensures err.name != "TokenExpiredError" && err.name != "JsonWebTokenError" && Contains(err.message, UniqueMarker) ==>
      r == Reply(400, "Cette valeur existe déjà")
    ensures err.name == "ValidationError" && !Contains(err.message, UniqueMarker) ==> r == Reply(400, "Données invalides")
    ensures r.status == 400 && !Contains(err.message, UniqueMarker) && err.name != "ValidationError" ==>
      err.statusCode == Some(400)
    ensures r.status != 500 ==> r.status == 400 || r.status == 401 || (err.statusCode.Some? && r.status == err.statusCode.value)
    ensures r.message != ""
  {
    if err.name == "TokenExpiredError" then Reply(401, "Token expiré")
    else if err.name == "JsonWebTokenError" then Reply(401, "Token invalide")
    else if Contains(err.message, UniqueMarker) then Reply(400, "Cette valeur existe déjà")
    else if err.name == "ValidationError" then Reply(400, "Données invalides")
    else
      Reply(
        if err.statusCode.None? || err.statusCode == Some(0) then 500 else err.statusCode.value,
        if err.message == "" then "Erreur serveur" else err.message)
  }

  /** `errorHandler`: the copied error record is overwritten rule by rule, then read. */
  method HandleError(err: AppError) returns (status: int, message: string)
    ensures Reply(status, message) == Classify(err)
  {
    var code, text := err.statusCode, err.message;
    if err.name == "ValidationError" {
      code, text := Some(400), "Données invalides";
    }
    if Contains(err.message, UniqueMarker) {
      code, text := Some(400), "Cette valeur existe déjà";
    }
    if err.name == "JsonWebTokenError" {
      code, text := Some(401), "Token invalide";
    }
    if err.name == "TokenExpiredError" {
      code, text := Some(401), "Token expiré";
    }
    status := if code.None? || code == Some(0) then 500 else code.value;
    message := if text == "" then "Erreur serveur" else text;
  }

  /** The answer a handler's thrown error ends in. */
  function Respond<T>(err: AppError): Response<T> {
    Refused(Classify(err).status, Classify(err).message)
  }

  /** A duplicate key is a client error. */
  lemma UniqueViolationReply()
    ensures Classify(UniqueViolation) == Reply(400, "Cette valeur existe déjà")
  {
    assert IsPrefix(UniqueMarker, UniqueViolation.message);
  }

  /**
   * An error no rule matches keeps its own status and message, with 500 and
   * "Erreur serveur" for falsy ones.
   */
  lemma UnmatchedReply(err: AppError)
    requires !Contains(err.message, UniqueMarker)
    requires err.name != "ValidationError" && err.name != "JsonWebTokenError" && err.name != "TokenExpiredError"
    ensures Classify(err) == Reply(
      if err.statusCode.None? || err.statusCode == Some(0) then 500 else err.statusCode.value,
      if err.message == "" then "Erreur serveur" else err.message)
  {
  }

  /** A later rule wins: a JWT error whose message mentions a unique violation is still a 401. */
  lemma LaterRuleOverrides(message: string, statusCode: Option<int>)
    requires Contains(message, UniqueMarker)
    ensures Classify(AppError("ValidationError", message, statusCode)) == Reply(400, "Cette valeur existe déjà")
    ensures Classify(AppError("JsonWebTokenError", message, statusCode)) == Reply(401, "Token invalide")
  {
  }
}
