/** The request-independent decisions of the server entry point `index.js`:
    an exact-membership CORS `origin` callback and a simpler error handler. */
module IndexServer {
  import opened Js
  import opened ServerCommon

  /** The literal allow list before `.filter(Boolean)`; an unset FRONTEND_URL
      is `undefined`. */
  function RawAllowList(frontendUrl: Option<string>): seq<Option<string>> {
    [ Some("http://localhost:3000"),
      Some("https://delipucashserver.vercel.app"),
      Some("http://localhost:8081"),
      Some("exp://192.168.0.117:8081"),
      frontendUrl ]
  }

  predicate NonEmpty(u: string) {
    u != ""
  }

  /** `allowedOrigins`. */
  function AllowList(frontendUrl: Option<string>): (r: seq<string>)
    ensures forall u :: u in r <==> Some(u) in RawAllowList(frontendUrl) && u != ""
  {
    FilterTruthy(RawAllowList(frontendUrl), NonEmpty)
  }

  predicate IsFixedOrigin(u: string) {
    || u == "http://localhost:3000" || u == "https://delipucashserver.vercel.app"
    || u == "http://localhost:8081" || u == "exp://192.168.0.117:8081"
  }

  /** The list holds the four fixed origins and FRONTEND_URL when it is set
      and non-empty; an unset one is dropped. */
  lemma AllowListContents(frontendUrl: Option<string>)
    ensures forall u :: u in AllowList(frontendUrl) <==>
      IsFixedOrigin(u) || (TruthyString(frontendUrl) && u == frontendUrl.value)
  {
    var raw := RawAllowList(frontendUrl);
    forall u ensures Some(u) in raw <==> IsFixedOrigin(u) || (frontendUrl.Some? && u == frontendUrl.value) {
      if Some(u) in raw {
        var i :| 0 <= i < |raw| && raw[i] == Some(u);
      }
      if u == "http://localhost:3000" { assert raw[0] == Some(u); }
      if u == "https://delipucashserver.vercel.app" { assert raw[1] == Some(u); }
      if u == "http://localhost:8081" { assert raw[2] == Some(u); }
      if u == "exp://192.168.0.117:8081" { assert raw[3] == Some(u); }
      if frontendUrl.Some? && u == frontendUrl.value { assert raw[4] == Some(u); }
    }
  }

  /** `xs.indexOf(x)`: the first position holding `x` under `===`, or -1. */
  function IndexOf(xs: seq<string>, x: string): (i: int)
    ensures -1 <= i < |xs|
    ensures i == -1 <==> x !in xs
    ensures i >= 0 ==> xs[i] == x && x !in xs[..i]
  {
    if |xs| == 0 then -1
    else if xs[0] == x then 0
    else
      var j := IndexOf(xs[1..], x);
      assert xs == [xs[0]] + xs[1..];
      if j == -1 then -1
      else
        assert xs[..j + 1] == [xs[0]] + xs[1..][..j];
        j + 1
  }

  /** The `origin` callback: no origin is fine, a listed origin is fine, and
      anything else is refused, whatever the environment. */
  function OriginDecision(frontendUrl: Option<string>, origin: Option<string>): (d: CorsDecision)
    ensures d == Allow || d == Deny(DenyMessage)
    ensures d == Allow <==>
      !TruthyString(origin) || IsFixedOrigin(origin.value)
      || (TruthyString(frontendUrl) && origin.value == frontendUrl.value)
  {
    AllowListContents(frontendUrl);
    if !TruthyString(origin) then Allow
    else if IndexOf(AllowList(frontendUrl), origin.value) == -1 then Deny(DenyMessage)
    else Allow
  }

  /** `res.status(statusCode).json({ success, statusCode, message, ...stack })`;
      the stack is present only outside production and when the error has one. */
  datatype ErrorReply = ErrorReply(httpStatus: int, success: bool, statusCode: int, message: string, stack: Option<string>)

  /** The error handler: `statusCode || 500` (no `status` fallback) and
      `message || 'Internal Server Error'`. */
  function ErrorResponse(nodeEnv: Option<string>, err: JsError): (r: ErrorReply)
    ensures r.httpStatus != 0 && r.message != "" && !r.success
    ensures r.statusCode == r.httpStatus
    ensures TruthyNumber(err.statusCode) ==> r.httpStatus == err.statusCode.value
    ensures !TruthyNumber(err.statusCode) ==> r.httpStatus == 500
    ensures TruthyString(err.message) ==> r.message == err.message.value
    ensures !TruthyString(err.message) ==> r.message == DefaultErrorMessage
    ensures nodeEnv == Some("production") ==> r.stack == None
    ensures nodeEnv != Some("production") ==> r.stack == err.stack
  {
    var status := if TruthyNumber(err.statusCode) then err.statusCode.value else 500;
    var message := if TruthyString(err.message) then err.message.value else DefaultErrorMessage;
    ErrorReply(status, false, status, message, if nodeEnv != Some("production") then err.stack else None)
  }
}
