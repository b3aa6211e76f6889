# Response interactions and server decisions of the DelipuCash mobile API

This Dafny project models the response-interaction engine of the DelipuCash
server, the part of `controllers/responseController.mjs` behind the
`/api/responses` routes. It covers likes, dislikes, threaded replies and the
aggregate "response with counts" view. It also models the two small pure
decisions in the server entry points: the CORS `origin` callback and the
error handler's status and message defaults. `api/index.js` has a pattern
allow list with a development override. `index.js` has an exact-membership
allow list.

The store is modelled as values. A `Store` holds:

- the responses and users, as maps from id;
- a set of (userId, responseId) like pairs;
- a set of (userId, responseId) dislike pairs;
- a sequence of reply rows, in insertion order.

The unique key on (userId, responseId) is what makes the like and dislike
tables sets. Every ORM call is one atomic set or sequence operation, and a
handler is a pure function from a store to a `Step`, which is a new store
plus an `Outcome`. The outcome values map onto HTTP statuses:

- `Ok(payload)`: 200, or 201 for a posted reply;
- `NotFound(ResponseMissing | UserMissing)`: 404;
- `Invalid`: 400, for blank reply text;
- `Failed`: the 500 of the handler's catch block.

Counts are never stored. Each handler recomputes them from the rows of the
post-state, as the source does.

Modules:

- `Js`: `undefined` as `Option`, truthiness, `filter(Boolean)`,
  `String.prototype.trim` with the ECMAScript white-space and line-terminator
  sets, and prefix and suffix tests.
- `ResponseStore`: the data model, the derived counts and the counting
  lemmas.
- `ReplyOrder`: the `createdAt` ascending order of the reply listing, as a
  stable insertion sort.
- `ResponseController`: the five handlers.
- `ResponseProperties`: properties that relate several calls.
- `ServerCommon`, `ApiServer`, `IndexServer`: the CORS callbacks and the
  error handlers.
- `CorsComparison`: how the two entry points differ.

Choices made where the code is silent or leans on the ORM:

- `userId` in a like, dislike or reply body may be undefined. The user lookup
  `findUnique({ where: { id: undefined } })` is then rejected by the ORM. That
  throws into the catch block, so the model answers `Failed`, after the
  response check.
- A reply's `id` and `createdAt` are assigned by the database and are
  parameters of `SubmitReply`. If the id collides with a stored reply, the
  create throws and the model answers `Failed`. A constraint failure is never
  treated as success.
- The ORM leaves the order of replies with equal `createdAt` open. The model
  fixes it to store order, and `ReplyOrder.SortKeepsTies` states this.
- `isLiked` and `isDisliked` are the truthiness of the body fields, modelled
  as `bool`.

In three places the code does less than one might expect; the model follows
the code:

- The opposite reaction is deleted only when a new like (or dislike) row is
  actually created (`controllers/responseController.mjs:41-56`). So mutual
  exclusion is preserved. A repeated like or dislike does not restore it;
  only clearing the reaction (`isLiked: false` or `isDisliked: false`)
  removes the stray row.
  `ResponseProperties.ReactionDoesNotRestoreExclusive` shows that any pair in
  both tables stays in both after a repeated like or dislike.
- A unique-constraint conflict on create is not swallowed as a benign no-op.
  It reaches the catch block and becomes a 500. Sequentially, the
  check-then-create cannot conflict, so this path only appears in the model
  as the reply-id collision.
- The aggregate read treats an empty `userId` like an absent one, because it
  checks `if (userId)`. The like handler, in contrast, looks the empty id up.
  `ResponseProperties.EmptyUserIdDisagrees` shows the two disagreeing.

## Model

| member | source | states |
|---|---|---|
| `ResponseController.LikeResponse` | controllers/responseController.mjs:5-106 | Checks the response before the user: "Response not found" wins, and a missing user is a 404. An undefined userId is a 500. On any failure the store is unchanged. When both lookups succeed: a like of an already-liked pair changes nothing, including dislikes. A fresh like adds exactly that pair to likes and removes exactly that pair from dislikes. An unlike removes only that pair from likes. The returned counts are the rows of the response in the post-state, and isLiked/isDisliked are post-state membership. The message follows the request flag, not whether anything changed: "Response liked successfully" when isLiked is truthy, "Like removed successfully" otherwise. |
| `ResponseController.DislikeResponse` | controllers/responseController.mjs:109-210 | The mirror image of LikeResponse, with the dislike and like tables swapped; the message is "Response disliked successfully" or "Dislike removed successfully" by the isDisliked flag. |
| `ResponseController.SubmitReply` | controllers/responseController.mjs:213-275 | Answers Invalid exactly when the text is missing or entirely ECMAScript white space, before any lookup and with no row added. Next comes the response check, then the user check; an undefined userId is a 500 (`Failed`), not a 404. On success it appends exactly one reply with the trimmed (and non-empty) text, the caller's id and the database-assigned id and time. It returns the author's profile and a replyCount equal to the previous count for that response plus one. A colliding id is a 500 (`Failed`) rather than a success. The success message is "Reply posted successfully". |
| `ResponseController.GetRepliesForResponse` | controllers/responseController.mjs:278-318 | Read-only. NotFound exactly when the response is missing. Otherwise: exactly the replies of that response (same multiset, same members), oldest first, replies with equal createdAt in store order, and `count` equal to the list length. |
| `ResponseController.GetResponseWithCounts` | controllers/responseController.mjs:321-398 | Read-only. NotFound exactly when the response is missing. Otherwise: the response row, its author's profile when the author exists (none otherwise), with like, dislike and reply counts taken from the rows. isLiked/isDisliked are false when userId is absent or empty, and row membership of the caller's pair otherwise. |
| `ResponseProperties.ReactPreservesExclusive` | controllers/responseController.mjs:30-169 | If no pair is in both likes and dislikes before a like or dislike call, none is after it, and the answer never reports both liked and disliked. |
| `ResponseProperties.ReactionDoesNotRestoreExclusive` | controllers/responseController.mjs:30-160 | For every store where the response and user exist, a pair already in both tables stays in both after liking or disliking it again, and the answer reports it as both liked and disliked, because the opposite row is only removed after a fresh insert. |
| `ResponseProperties.ReactIdempotent` | controllers/responseController.mjs:30-169 | Repeating any like or dislike call (set or clear) on its own result leaves the store and the answer exactly as the first call did. |
| `ResponseProperties.FreshReactionCounts` | controllers/responseController.mjs:41-74 | A fresh like (or dislike) adds one to that response's count in its own table. It subtracts one from the opposite count exactly when the caller had the opposite reaction. |
| `ResponseProperties.LikeThenUnlike` | controllers/responseController.mjs:30-74 | Liking and then unliking, starting from no like, restores the like table and the like count and reports not liked. |
| `ResponseProperties.SwitchLikeToDislike` | controllers/responseController.mjs:134-205 | From an exclusive store where the caller likes: a dislike lowers the like count by one and raises the dislike count by one, and reports disliked and not liked. |
| `ResponseProperties.TwoUsersScenario` | controllers/responseController.mjs:5-210 | U1 likes R1, then U2 likes R1, then U1 dislikes R1. The answers are (1,0,liked), then a like count of 2, then (1,1,disliked and not liked). |
| `ResponseProperties.RepliesForSorted` | controllers/responseController.mjs:294-308 | The replies of one response, taken from an oldest-first table, are oldest-first. |
| `ResponseProperties.ListingFollowsStoreOrder` | controllers/responseController.mjs:294-313 | When the reply table is oldest-first, the listing is exactly the response's replies in store order, with the matching count. |
| `ResponseProperties.SubmitKeepsChronology` | controllers/responseController.mjs:244-259 | A reply posted no earlier than every stored reply keeps the table oldest-first. |
| `ResponseProperties.PostThenListAppends` | controllers/responseController.mjs:244-308 | On a clock that never runs backwards, a posted reply appears at the end of its response's listing and nothing before it moves. So replies posted in order are listed in that order. When the new reply's createdAt equals a stored one, this relies on the model's store-order tie rule. |
| `ResponseProperties.ReplyCountsAgree` | controllers/responseController.mjs:261-357 | The listing's count, the aggregate's replyCount and a posted reply's replyCount all agree. |
| `ResponseProperties.ReactionAgreesWithAggregate` | controllers/responseController.mjs:346-384 | After a successful like or dislike by a non-empty user id, the aggregate read shows the same counts and status that the call returned. |
| `ResponseProperties.EmptyUserIdDisagrees` | controllers/responseController.mjs:359-384 | With a user whose id is "", the like handler records and reports a like. The aggregate read for userId "" still reports not liked. |
| `ResponseProperties.BlankReplyRejected` | controllers/responseController.mjs:221-223 | Reply text made only of spaces, a tab and a newline is refused as blank, with the store unchanged, whatever the response and user. |
| `ResponseProperties.RunPreservesExclusive` | controllers/responseController.mjs:30-169 | After any sequence of the five requests from an exclusive store, the store is exclusive, and no aggregate read reports both liked and disliked. |
| `ResponseStore.RepliesForAppend` | controllers/responseController.mjs:261-264 | Appending a reply extends its own response's replies by exactly that reply and leaves every other response's replies unchanged. |
| `ResponseStore.AddPairCount` | controllers/responseController.mjs:67-74 | Inserting an absent pair adds one to the count of its own response and nothing to others. |
| `ResponseStore.RemovePairCount` | controllers/responseController.mjs:67-74 | Deleting a present pair subtracts one from its own response's count. Any other delete changes no count. |
| `ReplyOrder.SortByCreation` | controllers/responseController.mjs:305-307 | The listing order is ascending createdAt and is a permutation of its input. |
| `ReplyOrder.SortKeepsTies` | controllers/responseController.mjs:305-307 | Replies sharing a createdAt come out in the order they were stored. The source asks only for ascending createdAt, so this tie order is the model's choice, not a promise of the program. |
| `ReplyOrder.SortOfSorted` | controllers/responseController.mjs:305-307 | Replies already oldest-first are returned unchanged. |
| `Js.Trim` | controllers/responseController.mjs:246 | `trim()` returns the infix of the input whose removed prefix and suffix are all ECMAScript white space or line terminators. The result neither starts nor ends with such a character. |
| `Js.TrimBlankIff` | controllers/responseController.mjs:221 | `!text.trim()` holds exactly when every character of the text is white space or a line terminator. |
| `Js.TrimIdempotent` | controllers/responseController.mjs:246 | Trimming the stored (already trimmed) text again changes nothing. |
| `Js.FilterTruthy` | api/index.js:67 | `filter(Boolean)` keeps exactly the present, truthy entries. |
| `ApiServer.AllowList` | api/index.js:51-67 | `allowedOrigins` after `.filter(Boolean)`: an entry is in the list exactly when it is one of the literal entries and truthy, so an unset or empty FRONTEND_URL is dropped and every RegExp is kept. |
| `ApiServer.AllowListContents` | api/index.js:51-67 | The allow list holds the four fixed strings and the five RegExps. It also holds FRONTEND_URL when that is set and non-empty; an unset one is dropped. |
| `ApiServer.PatternAccepts` | api/index.js:62-80 | `allowed.test(origin)` for each RegExp entry is membership in that regular expression's language: for `^scheme.*`, the scheme followed by non-line-terminators and then anything; for the Vercel pattern, `https://`, a middle with no line terminator, then `.vercel.app` at the end. |
| `ApiServer.SchemePatternIsRegex` | api/index.js:62-66 | The prefix test used for `^exp:\/\/.*` and its siblings accepts exactly the language of the regex. That is the scheme, then non-line-terminators, then anything, since there is no end anchor. |
| `ApiServer.VercelPatternIsRegex` | api/index.js:63 | The prefix/suffix/middle test that `PatternAccepts` uses accepts exactly the language of `^https:\/\/.*\.vercel\.app$`. That is `https://`, then a possibly empty middle with no line terminator, then `.vercel.app`. |
| `ApiServer.AnyAccepts` | api/index.js:75-83 | `.some` is true exactly when some entry accepts the origin: strings by equality, RegExps by their test. |
| `ApiServer.OriginDecision` | api/index.js:70-95 | A missing or empty origin is allowed. A present one is allowed exactly when some list entry accepts it or NODE_ENV is `development`. Otherwise the answer is the CORS error. |
| `ApiServer.ListAcceptsIff` | api/index.js:51-83 | Some entry accepts the origin exactly when it is: a fixed string; the set FRONTEND_URL; starts with `exp://`, `capacitor://`, `ionic://` or `file://`; or matches the Vercel pattern. |
| `ApiServer.OriginAllowedIff` | api/index.js:70-95 | The full allow/deny decision in terms of the origin and the environment, in both directions. |
| `ApiServer.ReorderedListSameAnswer` | api/index.js:75-83 | Reordering the entries never changes the answer. |
| `ApiServer.WiderListAcceptsMore` | api/index.js:75-83 | Adding entries can only widen the accepted origins. |
| `ApiServer.FrontendUrlAddsItself` | api/index.js:59-67 | An empty FRONTEND_URL decides like an unset one. A set one allows exactly its own value on top. |
| `ApiServer.DevelopmentOverride` | api/index.js:85-94 | An origin no entry accepts is allowed in development and refused with the CORS message otherwise. |
| `ApiServer.ErrorResponse` | api/index.js:173-189 | The status is `statusCode`, else `status`, else 500, under JavaScript falsiness, and is never 0. The message is `err.message`, else 'Internal Server Error'. stack and details are present exactly when NODE_ENV is not `production`. |
| `IndexServer.AllowList` | index.js:39-45 | `allowedOrigins` after `.filter(Boolean)`: an origin is in the list exactly when it is one of the literal entries and non-empty, so an unset or empty FRONTEND_URL is dropped. |
| `IndexServer.AllowListContents` | index.js:39-45 | The list holds the four fixed origins, plus FRONTEND_URL when that is set and non-empty. |
| `IndexServer.IndexOf` | index.js:52 | `indexOf` is -1 exactly when the origin is not in the list. Otherwise it is the first position holding it. |
| `IndexServer.OriginDecision` | index.js:47-57 | Allowed exactly when the origin is missing or empty, or is an exact member of the filtered list. There is no pattern and no environment override. |
| `IndexServer.ErrorResponse` | index.js:97-109 | The status is `statusCode`, else 500, and is echoed in the body. The message is `err.message`, else 'Internal Server Error'. The stack is dropped in production. |
| `CorsComparison.IndexAllowsNoMoreThanApi` | index.js:39-56 | Every origin `index.js` allows, `api/index.js` allows too, in every environment. |
| `CorsComparison.ApiAllowsMoreThanIndex` | api/index.js:62 | An Expo origin other than the listed one passes the API's prefix pattern and is refused by `index.js`. |
| `CorsComparison.IndexHasNoDevelopmentOverride` | index.js:52-54 | With the same FRONTEND_URL on both sides (any value other than the origin itself), an unlisted origin that the API allows in development is refused by `index.js`. |
| `CorsComparison.ErrorStatusFallbacks` | index.js:98 | `index.js` ignores `err.status`. Both handlers agree when `statusCode` is truthy. When only `status` is truthy, the API uses it and `index.js` answers 500. |

## Left out

- Database I/O and connection handling (`config/db.mjs`). The ORM client `lib/prisma.mjs` is not part of this model. Both are abstracted as the set and sequence store.
- Store failures other than the two modelled ones (an undefined userId, a colliding reply id). Examples are connectivity loss and timeouts. Store operations are otherwise total.
- Concurrency and the unique-constraint race between two simultaneous likes. Handlers run one at a time, and the code has no special handling for the race.
- Express routing and mounting (`routes/responseRoutes.mjs`, the `app.use` tables), the root and 404 handlers, and preflight handling. These are wiring.
- `routes/healthRoutes.mjs`, which depends on a live database probe, timestamps and process statistics.
- `config/mobileApiConfig.js`, a constant endpoint table.
- `test/responseEndpoints.test.js`: manual fetch scripts without assertions.
- Console logging, security and cache headers, body-size limits, and the other CORS options (methods, headers, maxAge).
- `ResponseController.GetRepliesForResponse`: the author profile joined onto each listed reply is not modelled. The listing returns the reply rows; the posted reply and the aggregate view do carry the author profile.
- Request fields of unexpected JavaScript types. A truthy non-string `replyText` makes `trim` throw (a 500); a falsy one such as `null` is a 400. A repeated `userId` query parameter arrives as an array. Only absent and string values are modelled.
- NaN or non-integer `statusCode`/`status` values, and status codes Express would refuse. Numbers are integers, and falsiness is absence or 0.
- The response messages of the 404, 400 and 500 bodies. Outcomes carry which entity was missing, not the text.
- `ResponseController.GetRepliesForResponse`: the order of replies with equal `createdAt` is left open by the source's `orderBy: { createdAt: 'asc' }`. The model fixes it to store order, so `ReplyOrder.SortKeepsTies` and `ResponseProperties.PostThenListAppends` state the model's tie rule, not a guarantee of the program.
