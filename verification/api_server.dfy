/** The request-independent decisions of the mobile API entry point
    (`api/index.js`): the CORS `origin` callback and the global error
    handler's status, message and debug fields. */
module ApiServer {
  import opened Js
  import opened ServerCommon

  /** The environment variables the two decisions read. */
  datatype Env = Env(frontendUrl: Option<string>, nodeEnv: Option<string>)

  /** The RegExp entries of the allow list. `SchemePrefix(p)` is a regex
      `^p.*` with no end anchor; `VercelApp` is `^https:\/\/.*\.vercel\.app$`. */
  datatype OriginPattern = SchemePrefix(scheme: string) | VercelApp

  /** An allow-list entry: a string compared with `===`, or a RegExp. */
  datatype AllowEntry = Exact(origin: string) | Pattern(pattern: OriginPattern)

  const VercelPrefix := "https://"
  const VercelSuffix := ".vercel.app"

  /** The literal allow list before `.filter(Boolean)`; an unset FRONTEND_URL
      is `undefined`. */
  function RawAllowList(frontendUrl: Option<string>): seq<Option<AllowEntry>> {
    [ Some(Exact("http://localhost:3000")),
      Some(Exact("http://localhost:8081")),
      Some(Exact("https://localhost:8081")),
      Some(Exact("https://delipucashserver.vercel.app")),
      if frontendUrl.Some? then Some(Exact(frontendUrl.value)) else None,
      Some(Pattern(SchemePrefix("exp://"))),
      Some(Pattern(VercelApp)),
      Some(Pattern(SchemePrefix("capacitor://"))),
      Some(Pattern(SchemePrefix("ionic://"))),
      Some(Pattern(SchemePrefix("file://"))) ]
  }

  /** A string entry is falsy when empty; a RegExp object is always truthy. */
  predicate TruthyEntry(e: AllowEntry) {
    !(e.Exact? && e.origin == "")
  }

  /** `allowedOrigins`: the literal list after `.filter(Boolean)`. */
  function AllowList(frontendUrl: Option<string>): (r: seq<AllowEntry>)
    ensures forall e :: e in r ==> TruthyEntry(e)
    ensures forall e :: e in r <==> Some(e) in RawAllowList(frontendUrl) && TruthyEntry(e)
  {
    FilterTruthy(RawAllowList(frontendUrl), TruthyEntry)
  }

  /** The fixed string entries. */
  predicate IsFixedOrigin(u: string) {
    || u == "http://localhost:3000" || u == "http://localhost:8081" || u == "https://localhost:8081"
    || u == "https://delipucashserver.vercel.app"
  }

  /** The RegExp entries. */
  predicate IsListedPattern(p: OriginPattern) {
    || p == SchemePrefix("exp://") || p == VercelApp || p == SchemePrefix("capacitor://")
    || p == SchemePrefix("ionic://") || p == SchemePrefix("file://")
  }

  /** The allow list holds the fixed strings, FRONTEND_URL when it is set and
      non-empty (an unset one is dropped and matches nothing), and the five
      RegExps. */
  lemma AllowListContents(frontendUrl: Option<string>)
    ensures forall u :: Exact(u) in AllowList(frontendUrl) <==>
      IsFixedOrigin(u) || (TruthyString(frontendUrl) && u == frontendUrl.value)
    ensures forall p :: Pattern(p) in AllowList(frontendUrl) <==> IsListedPattern(p)
  {
    forall u ensures Some(Exact(u)) in RawAllowList(frontendUrl) <==>
      IsFixedOrigin(u) || (frontendUrl.Some? && u == frontendUrl.value)
    {
      RawExactEntry(frontendUrl, u);
    }
    forall p ensures Some(Pattern(p)) in RawAllowList(frontendUrl) <==> IsListedPattern(p) {
      RawPatternEntry(frontendUrl, p);
    }
  }

  lemma RawExactEntry(frontendUrl: Option<string>, u: string)
    ensures Some(Exact(u)) in RawAllowList(frontendUrl) <==>
      IsFixedOrigin(u) || (frontendUrl.Some? && u == frontendUrl.value)
  {
    var raw := RawAllowList(frontendUrl);
    if Some(Exact(u)) in raw {
      var i :| 0 <= i < |raw| && raw[i] == Some(Exact(u));
      assert i < 5;
    }
    if u == "http://localhost:3000" { assert raw[0] == Some(Exact(u)); }
    if u == "http://localhost:8081" { assert raw[1] == Some(Exact(u)); }
    if u == "https://localhost:8081" { assert raw[2] == Some(Exact(u)); }
    if u == "https://delipucashserver.vercel.app" { assert raw[3] == Some(Exact(u)); }
    if frontendUrl.Some? && u == frontendUrl.value { assert raw[4] == Some(Exact(u)); }
  }

  lemma RawPatternEntry(frontendUrl: Option<string>, p: OriginPattern)
    ensures Some(Pattern(p)) in RawAllowList(frontendUrl) <==> IsListedPattern(p)
  {
    var raw := RawAllowList(frontendUrl);
    if Some(Pattern(p)) in raw {
      var i :| 0 <= i < |raw| && raw[i] == Some(Pattern(p));
      assert 5 <= i;
    }
    if p == SchemePrefix("exp://") { assert raw[5] == Some(Pattern(p)); }
    if p == VercelApp { assert raw[6] == Some(Pattern(p)); }
    if p == SchemePrefix("capacitor://") { assert raw[7] == Some(Pattern(p)); }
    if p == SchemePrefix("ionic://") { assert raw[8] == Some(Pattern(p)); }
    if p == SchemePrefix("file://") { assert raw[9] == Some(Pattern(p)); }
  }

  /** The language of `^scheme.*` read as a regular expression: the scheme,
      then a run of non-line-terminators, then (no `$`) anything at all. */
  ghost predicate SchemeRegexLanguage(scheme: string, o: string) {
    exists m, t :: o == scheme + m + t && NoLineTerminator(m)
  }

  /** The language of `^https:\/\/.*\.vercel\.app$`. */
  ghost predicate VercelRegexLanguage(o: string) {
    exists m :: o == VercelPrefix + m + VercelSuffix && NoLineTerminator(m)
  }

  /** The Vercel test as string operations: the prefix, the suffix, and a
      middle (possibly empty) without line terminators, which `.` does not
      match. */
  predicate VercelShape(o: string) {
    && |VercelPrefix| + |VercelSuffix| <= |o|
    && StartsWith(o, VercelPrefix) && EndsWith(o, VercelSuffix)
    && NoLineTerminator(o[|VercelPrefix|..|o| - |VercelSuffix|])
  }

  /** A `^scheme.*` with no end anchor accepts exactly the strings that start
      with the scheme. */
  lemma SchemePatternIsRegex(scheme: string, o: string)
    ensures StartsWith(o, scheme) <==> SchemeRegexLanguage(scheme, o)
  {
    if StartsWith(o, scheme) {
      var e: string := [];
      assert o == scheme + e + o[|scheme|..];
    }
    if SchemeRegexLanguage(scheme, o) {
      var m, t :| o == scheme + m + t && NoLineTerminator(m);
      assert o[..|scheme|] == scheme;
    }
  }

  lemma VercelPatternIsRegex(o: string)
    ensures VercelShape(o) <==> VercelRegexLanguage(o)
  {
    if VercelShape(o) {
      var m := o[|VercelPrefix|..|o| - |VercelSuffix|];
      assert o == VercelPrefix + m + VercelSuffix;
    }
    if VercelRegexLanguage(o) {
      var m :| o == VercelPrefix + m + VercelSuffix && NoLineTerminator(m);
      assert o[..|VercelPrefix|] == VercelPrefix;
      assert o[|o| - |VercelSuffix|..] == VercelSuffix;
      assert o[|VercelPrefix|..|o| - |VercelSuffix|] == m;
    }
  }

  /** What `.test(origin)` answers for each RegExp entry: membership in the
      language of that regular expression. */
  function PatternAccepts(p: OriginPattern, o: string): (r: bool)
    ensures p.SchemePrefix? ==> (r <==> SchemeRegexLanguage(p.scheme, o))
    ensures p.VercelApp? ==> (r <==> VercelRegexLanguage(o))
  {
    match p
    case SchemePrefix(scheme) =>
      SchemePatternIsRegex(scheme, o);
      StartsWith(o, scheme)
    case VercelApp =>
      VercelPatternIsRegex(o);
      VercelShape(o)
  }

  /** One entry of `allowedOrigins.some(...)`: strings by `===`, RegExps by `.test`. */
  predicate EntryAccepts(e: AllowEntry, o: string) {
    match e
    case Exact(a) => a == o
    case Pattern(p) => PatternAccepts(p, o)
  }

  /** `entries.some(...)`, walked front to back. */
  function AnyAccepts(entries: seq<AllowEntry>, o: string): (r: bool)
    ensures r <==> exists i :: 0 <= i < |entries| && EntryAccepts(entries[i], o)
  {
    if |entries| == 0 then false
    else if EntryAccepts(entries[0], o) then true
    else
      var rest := AnyAccepts(entries[1..], o);
      assert forall i :: 1 <= i < |entries| ==> entries[i] == entries[1..][i - 1];
      rest
  }

  /** The `origin` callback: no origin is always fine; a listed origin is
      fine; an unlisted one is fine only in development. */
  function OriginDecision(env: Env, origin: Option<string>): (d: CorsDecision)
    ensures d == Allow || d == Deny(DenyMessage)
    ensures !TruthyString(origin) ==> d == Allow
    ensures TruthyString(origin) ==>
      (d == Allow <==> (exists e :: e in AllowList(env.frontendUrl) && EntryAccepts(e, origin.value))
                       || env.nodeEnv == Some("development"))
  {
    if !TruthyString(origin) then Allow
    else if AnyAccepts(AllowList(env.frontendUrl), origin.value) then Allow
    else if env.nodeEnv == Some("development") then Allow
    else Deny(DenyMessage)
  }

  /** The origins some entry of the list accepts, spelled out: the fixed
      strings, the set FRONTEND_URL, the four scheme prefixes and the Vercel
      pattern. */
  predicate ListedOrigin(frontendUrl: Option<string>, o: string) {
    || IsFixedOrigin(o)
    || (TruthyString(frontendUrl) && o == frontendUrl.value)
    || StartsWith(o, "exp://") || StartsWith(o, "capacitor://")
    || StartsWith(o, "ionic://") || StartsWith(o, "file://")
    || PatternAccepts(VercelApp, o)
  }

  /** An entry of the list accepts the origin exactly when it is listed. */
  lemma ListAcceptsIff(frontendUrl: Option<string>, o: string)
    ensures (exists e :: e in AllowList(frontendUrl) && EntryAccepts(e, o)) <==> ListedOrigin(frontendUrl, o)
  {
    if e :| e in AllowList(frontendUrl) && EntryAccepts(e, o) {
      AcceptedIsListed(frontendUrl, e, o);
    }
    if ListedOrigin(frontendUrl, o) {
      ListedIsAccepted(frontendUrl, o);
    }
  }

  lemma AcceptedIsListed(frontendUrl: Option<string>, e: AllowEntry, o: string)
    requires e in AllowList(frontendUrl) && EntryAccepts(e, o)
    ensures ListedOrigin(frontendUrl, o)
  {
    AllowListContents(frontendUrl);
    match e
    case Exact(u) =>
    case Pattern(p) => assert IsListedPattern(p);
  }

  lemma ListedIsAccepted(frontendUrl: Option<string>, o: string)
    requires ListedOrigin(frontendUrl, o)
    ensures exists e :: e in AllowList(frontendUrl) && EntryAccepts(e, o)
  {
    AllowListContents(frontendUrl);
    var list := AllowList(frontendUrl);
    if IsFixedOrigin(o) || (TruthyString(frontendUrl) && o == frontendUrl.value) {
      assert Exact(o) in list && EntryAccepts(Exact(o), o);
    } else if StartsWith(o, "exp://") {
      PatternListed(frontendUrl, SchemePrefix("exp://"), o);
    } else if StartsWith(o, "capacitor://") {
      PatternListed(frontendUrl, SchemePrefix("capacitor://"), o);
    } else if StartsWith(o, "ionic://") {
      PatternListed(frontendUrl, SchemePrefix("ionic://"), o);
    } else if StartsWith(o, "file://") {
      PatternListed(frontendUrl, SchemePrefix("file://"), o);
    } else {
      PatternListed(frontendUrl, VercelApp, o);
    }
  }

  lemma PatternListed(frontendUrl: Option<string>, p: OriginPattern, o: string)
    requires IsListedPattern(p) && PatternAccepts(p, o)
    ensures exists e :: e in AllowList(frontendUrl) && EntryAccepts(e, o)
  {
    RawPatternEntry(frontendUrl, p);
    assert Pattern(p) in AllowList(frontendUrl) && EntryAccepts(Pattern(p), o);
  }

  /** The whole decision spelled out: which origins the API lets through. */
  lemma OriginAllowedIff(env: Env, origin: Option<string>)
    ensures OriginDecision(env, origin) == Allow <==>
      || !TruthyString(origin)
      || ListedOrigin(env.frontendUrl, origin.value)
      || env.nodeEnv == Some("development")
  {
    if TruthyString(origin) {
      ListAcceptsIff(env.frontendUrl, origin.value);
    }
  }

  /** `.some` is an existential: reordering the entries changes nothing. */
  lemma ReorderedListSameAnswer(xs: seq<AllowEntry>, ys: seq<AllowEntry>, o: string)
    requires multiset(xs) == multiset(ys)
    ensures AnyAccepts(xs, o) == AnyAccepts(ys, o)
  {
    if AnyAccepts(xs, o) {
      var i :| 0 <= i < |xs| && EntryAccepts(xs[i], o);
      assert xs[i] in multiset(ys);
      var j :| 0 <= j < |ys| && ys[j] == xs[i];
    }
    if AnyAccepts(ys, o) {
      var j :| 0 <= j < |ys| && EntryAccepts(ys[j], o);
      assert ys[j] in multiset(xs);
      var i :| 0 <= i < |xs| && xs[i] == ys[j];
    }
  }

  /** Adding entries can only widen what is accepted. */
  lemma WiderListAcceptsMore(xs: seq<AllowEntry>, ys: seq<AllowEntry>, o: string)
    requires forall e :: e in xs ==> e in ys
    requires AnyAccepts(xs, o)
    ensures AnyAccepts(ys, o)
  {
    var i :| 0 <= i < |xs| && EntryAccepts(xs[i], o);
    assert xs[i] in ys;
    var j :| 0 <= j < |ys| && ys[j] == xs[i];
  }

  /** An unset FRONTEND_URL and an empty one both drop out of the list; a set
      one adds exactly its own value to the allowed origins. */
  lemma FrontendUrlAddsItself(nodeEnv: Option<string>, u: string, origin: Option<string>)
    ensures OriginDecision(Env(Some(""), nodeEnv), origin) == OriginDecision(Env(None, nodeEnv), origin)
    ensures OriginDecision(Env(Some(u), nodeEnv), origin) == Allow <==>
      OriginDecision(Env(None, nodeEnv), origin) == Allow || (u != "" && origin == Some(u))
  {
    OriginAllowedIff(Env(Some(""), nodeEnv), origin);
    OriginAllowedIff(Env(None, nodeEnv), origin);
    OriginAllowedIff(Env(Some(u), nodeEnv), origin);
  }

  /** In development every origin passes; elsewhere an origin that no entry
      accepts is refused with the CORS error. */
  lemma DevelopmentOverride(env: Env, o: string)
    requires o != ""
    requires !AnyAccepts(AllowList(env.frontendUrl), o)
    ensures OriginDecision(env, Some(o)) == (if env.nodeEnv == Some("development") then Allow else Deny(DenyMessage))
  {
  }

  /** The `stack` and `details` fields spread in outside production. */
  datatype Debug = Debug(stack: Option<string>, details: JsError)

  /** `res.status(statusCode).json({ success, error: { message, ...debug } })`. */
  datatype ErrorReply = ErrorReply(httpStatus: int, success: bool, message: string, debug: Option<Debug>)

  /** The global error handler: `statusCode || status || 500` and
      `message || 'Internal Server Error'` under JavaScript truthiness. */
  function ErrorResponse(nodeEnv: Option<string>, err: JsError): (r: ErrorReply)
    ensures r.httpStatus != 0 && r.message != "" && !r.success
    ensures TruthyNumber(err.statusCode) ==> r.httpStatus == err.statusCode.value
    ensures !TruthyNumber(err.statusCode) && TruthyNumber(err.status) ==> r.httpStatus == err.status.value
    ensures !TruthyNumber(err.statusCode) && !TruthyNumber(err.status) ==> r.httpStatus == 500
    ensures TruthyString(err.message) ==> r.message == err.message.value
    ensures !TruthyString(err.message) ==> r.message == DefaultErrorMessage
    ensures r.debug.Some? <==> nodeEnv != Some("production")
    ensures r.debug.Some? ==> r.debug.value == Debug(err.stack, err)
  {
    var status := if TruthyNumber(err.statusCode) then err.statusCode.value
                  else if TruthyNumber(err.status) then err.status.value
                  else 500;
    var message := if TruthyString(err.message) then err.message.value else DefaultErrorMessage;
    ErrorReply(status, false, message, if nodeEnv != Some("production") then Some(Debug(err.stack, err)) else None)
  }
}
