/** The development-only reset of the `users` table (`handlerResetUsers`,
    main.go and users.go carry the same code). */
module Admin {
  import opened Models

  const DevPlatform := "dev"

  /** The answer as the code writes it. After a failed delete the handler
      writes the 500 error and, having no `return`, goes on to write the
      `deleted: true` document as well; the client sees status 500 (the later
      `WriteHeader(200)` is ignored) followed by both documents. */
  function ResetUsersReplyAsWritten(platform: string, deleteFailed: bool): (resp: Response)
    ensures platform != "dev" ==> resp == Failure(403, "Cannot reset users outside of development")
    ensures platform == "dev" ==> resp.Response? && DeletedBody(true) in resp.bodies
  {
    if platform != DevPlatform then Failure(403, "Cannot reset users outside of development")
    else if deleteFailed then Response(500, [ErrorBody("Error deleting all users"), DeletedBody(true)])
    else Response(200, [DeletedBody(true)])
  }

  /** As written, a failed delete is reported as an error and as a deletion in
      the same answer. */
  lemma FailedResetClaimsDeletion()
    ensures var resp := ResetUsersReplyAsWritten("dev", true);
            resp.status == 500 && ErrorBody("Error deleting all users") in resp.bodies &&
            DeletedBody(true) in resp.bodies
  {
  }

  /** The answer with the missing `return` after the 500 error. */
  function ResetUsersReply(platform: string, deleteFailed: bool): (resp: Response)
    ensures resp.Response? && |resp.bodies| == 1
  {
    if platform != DevPlatform then Failure(403, "Cannot reset users outside of development")
    else if deleteFailed then Failure(500, "Error deleting all users")
    else Response(200, [DeletedBody(true)])
  }

  /** The reset is refused with 403 on every platform but exactly "dev", and
      reports a deletion exactly when it is allowed and the delete succeeded;
      it agrees with the code as written everywhere but after a failed delete. */
  lemma ResetReportsTruthfully(platform: string, deleteFailed: bool)
    ensures ResetUsersReply(platform, deleteFailed).status == 403 <==> platform != "dev"
    ensures DeletedBody(true) in ResetUsersReply(platform, deleteFailed).bodies <==>
              platform == "dev" && !deleteFailed
    ensures ResetUsersReply(platform, deleteFailed).status == 200 <==> platform == "dev" && !deleteFailed
    ensures !(platform == "dev" && deleteFailed) ==>
              ResetUsersReply(platform, deleteFailed) == ResetUsersReplyAsWritten(platform, deleteFailed)
  {
  }
}
