/** How the two entry points differ: `index.js` allows a subset of what
    `api/index.js` allows, has no development override and no `err.status`
    fallback. */
module CorsComparison {
  import opened Js
  import opened ServerCommon
  import ApiServer
  import IndexServer

  /** Every origin the exact-membership list lets through, the pattern list
      lets through too, in every environment: the one index-only entry, an
      `exp://` address, falls under the API's `exp://` prefix. */
  lemma IndexAllowsNoMoreThanApi(frontendUrl: Option<string>, nodeEnv: Option<string>, origin: Option<string>)
    requires IndexServer.OriginDecision(frontendUrl, origin) == Allow
    ensures ApiServer.OriginDecision(ApiServer.Env(frontendUrl, nodeEnv), origin) == Allow
  {
    ApiServer.OriginAllowedIff(ApiServer.Env(frontendUrl, nodeEnv), origin);
    if TruthyString(origin) && origin.value == "exp://192.168.0.117:8081" {
      assert StartsWith(origin.value, "exp://");
    }
  }

  /** The inclusion is strict: another Expo address passes the API's prefix
      pattern but is not on the exact list. */
  lemma ApiAllowsMoreThanIndex()
    ensures ApiServer.OriginDecision(ApiServer.Env(None, Some("production")), Some("exp://10.0.0.2:19000")) == Allow
    ensures IndexServer.OriginDecision(None, Some("exp://10.0.0.2:19000")) == Deny(DenyMessage)
  {
    var o := "exp://10.0.0.2:19000";
    assert StartsWith(o, "exp://");
    ApiServer.ListedIsAccepted(None, o);
    assert !IndexServer.IsFixedOrigin(o);
  }

  /** No development override in `index.js`: an unlisted origin that the API
      lets through in development is refused there. */
  lemma IndexHasNoDevelopmentOverride(frontendUrl: Option<string>)
    requires frontendUrl != Some("http://example.test")
    ensures ApiServer.OriginDecision(ApiServer.Env(frontendUrl, Some("development")), Some("http://example.test")) == Allow
    ensures IndexServer.OriginDecision(frontendUrl, Some("http://example.test")) == Deny(DenyMessage)
  {
    var o := "http://example.test";
    assert |o| == 19;
    assert !IndexServer.IsFixedOrigin(o);
  }

  /** `index.js` ignores `err.status`; `api/index.js` falls back to it. With
      a truthy `statusCode` both agree; the API falls back to `status` when
      `statusCode` is falsy and `index.js` answers 500. */
  lemma ErrorStatusFallbacks(nodeEnv: Option<string>, err: JsError, status: Option<int>)
    ensures IndexServer.ErrorResponse(nodeEnv, err.(status := status)).httpStatus
         == IndexServer.ErrorResponse(nodeEnv, err).httpStatus
    ensures TruthyNumber(err.statusCode) ==>
      ApiServer.ErrorResponse(nodeEnv, err).httpStatus == IndexServer.ErrorResponse(nodeEnv, err).httpStatus
    ensures !TruthyNumber(err.statusCode) && TruthyNumber(err.status) ==>
      ApiServer.ErrorResponse(nodeEnv, err).httpStatus == err.status.value
      && IndexServer.ErrorResponse(nodeEnv, err).httpStatus == 500
  {
  }
}
