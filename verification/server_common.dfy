/** What the two server entry points share: the answer of a CORS `origin`
    callback and the properties of a thrown error that their error handlers
    read. */
module ServerCommon {
  import opened Js

  /** `callback(null, true)` or `callback(new Error(message), false)`. */
  datatype CorsDecision = Allow | Deny(message: string)

  const DenyMessage := "The CORS policy for this site does not allow access from the specified Origin."

  const DefaultErrorMessage := "Internal Server Error"

  /** `err.statusCode`, `err.status`, `err.message` and `err.stack`, each of
      which may be undefined. */
  datatype JsError = JsError(statusCode: Option<int>, status: Option<int>, message: Option<string>, stack: Option<string>)
}
