/** The five handlers of `controllers/responseController.mjs`, each as a pure
    transition from a store to a new store and an outcome. Every ORM call is
    one atomic set or sequence operation; the handlers run one at a time. */
module ResponseController {
  import opened Js
  import opened ResponseStore
  import opened ReplyOrder

  /** Which lookup came back empty: "Response not found" or "User not found" (404). */
  datatype Missing = ResponseMissing | UserMissing

  /** A handler's answer: the payload (200, or 201 for a posted reply), a 404,
      the 400 for blank reply text, or the 500 of the catch block. */
  datatype Outcome<+T> = Ok(value: T) | NotFound(missing: Missing) | Invalid | Failed

  datatype Step<+T> = Step(store: Store, outcome: Outcome<T>)

  /** Body of a like or dislike answer. */
  datatype ReactionView = ReactionView(
    message: string, likeCount: nat, dislikeCount: nat, isLiked: bool, isDisliked: bool)

  /** Body of a posted reply: the row, its author's public profile, and the
      number of replies the response now has. */
  datatype PostedReply = PostedReply(message: string, reply: Reply, author: Profile, replyCount: nat)

  /** Body of the reply listing. */
  datatype ReplyList = ReplyList(replies: seq<Reply>, count: nat)

  /** Body of the aggregate read: the response row (with its author's profile
      when the author exists) merged with live counts and the caller's status. */
  datatype ResponseView = ResponseView(
    id: Id, response: ResponseRow, author: Option<Profile>,
    likeCount: nat, dislikeCount: nat, replyCount: nat, isLiked: bool, isDisliked: bool)

  /** Both lookups of a reaction or reply succeed. */
  predicate Proceeds(s: Store, responseId: Id, userId: Option<Id>) {
    responseId in s.responses && userId.Some? && userId.value in s.users
  }

  function ReactionMessage(k: Reaction, on: bool): string {
    match k
    case Like => if on then "Response liked successfully" else "Like removed successfully"
    case Dislike => if on then "Response disliked successfully" else "Dislike removed successfully"
  }

  /** The tables after setting (`on`) or clearing reaction `k` for pair `p`.
      Setting creates the row and deletes the opposite reaction only when the
      row did not exist yet; clearing deletes the row from `k`'s table alone. */
  function ApplyReaction(s: Store, k: Reaction, p: Pair, on: bool): Store {
    if on then
      if p in Table(s, k) then s
      else WithTable(WithTable(s, k, Table(s, k) + {p}), k.Opposite(), Table(s, k.Opposite()) - {p})
    else WithTable(s, k, Table(s, k) - {p})
  }

  /** The read-back after the mutation: counts from the rows, status from the
      caller's own rows. */
  function ReadBack(s: Store, k: Reaction, p: Pair, on: bool): ReactionView {
    ReactionView(ReactionMessage(k, on), LikeCount(s, p.responseId), DislikeCount(s, p.responseId),
                 p in s.likes, p in s.dislikes)
  }

  /** The shared body of `likeResponse` and `dislikeResponse`. An undefined
      `userId` makes the user lookup throw, which the catch block turns into
      a 500. */
  function React(s: Store, k: Reaction, responseId: Id, userId: Option<Id>, on: bool): Step<ReactionView> {
    if responseId !in s.responses then Step(s, NotFound(ResponseMissing))
    else if userId.None? then Step(s, Failed)
    else if userId.value !in s.users then Step(s, NotFound(UserMissing))
    else
      var p := Pair(userId.value, responseId);
      var s' := ApplyReaction(s, k, p, on);
      Step(s', Ok(ReadBack(s', k, p, on)))
  }

  /** POST /:responseId/like with `{ userId, isLiked }`; `isLiked` is the
      truthiness of the body field. */
  function LikeResponse(s: Store, responseId: Id, userId: Option<Id>, isLiked: bool): (r: Step<ReactionView>)
    ensures responseId !in s.responses ==> r == Step(s, NotFound(ResponseMissing))
    ensures responseId in s.responses && userId.None? ==> r == Step(s, Failed)
    ensures responseId in s.responses && userId.Some? && userId.value !in s.users
            ==> r == Step(s, NotFound(UserMissing))
    ensures r.outcome.Ok? <==> Proceeds(s, responseId, userId)
    ensures r.outcome.Ok? ==>
      var p := Pair(userId.value, responseId);
      && r.store.responses == s.responses && r.store.users == s.users && r.store.replies == s.replies
      && (isLiked && p in s.likes ==> r.store == s)
      && (isLiked && p !in s.likes ==> r.store.likes == s.likes + {p} && r.store.dislikes == s.dislikes - {p})
      && (!isLiked ==> r.store.likes == s.likes - {p} && r.store.dislikes == s.dislikes)
    ensures r.outcome.Ok? ==>
      var p := Pair(userId.value, responseId);
      var v := r.outcome.value;
      && v.likeCount == |set q | q in r.store.likes && q.responseId == responseId|
      && v.dislikeCount == |set q | q in r.store.dislikes && q.responseId == responseId|
      && v.isLiked == (p in r.store.likes) && v.isDisliked == (p in r.store.dislikes)
      && v.isLiked == isLiked
      && v.message == (if isLiked then "Response liked successfully" else "Like removed successfully")
  {
    React(s, Like, responseId, userId, isLiked)
  }

  /** POST /:responseId/dislike with `{ userId, isDisliked }`: the mirror image
      of `LikeResponse`. */
  function DislikeResponse(s: Store, responseId: Id, userId: Option<Id>, isDisliked: bool): (r: Step<ReactionView>)
    ensures responseId !in s.responses ==> r == Step(s, NotFound(ResponseMissing))
    ensures responseId in s.responses && userId.None? ==> r == Step(s, Failed)
    ensures responseId in s.responses && userId.Some? && userId.value !in s.users
            ==> r == Step(s, NotFound(UserMissing))
    ensures r.outcome.Ok? <==> Proceeds(s, responseId, userId)
    ensures r.outcome.Ok? ==>
      var p := Pair(userId.value, responseId);
      && r.store.responses == s.responses && r.store.users == s.users && r.store.replies == s.replies
      && (isDisliked && p in s.dislikes ==> r.store == s)
      && (isDisliked && p !in s.dislikes ==> r.store.dislikes == s.dislikes + {p} && r.store.likes == s.likes - {p})
      && (!isDisliked ==> r.store.dislikes == s.dislikes - {p} && r.store.likes == s.likes)
    ensures r.outcome.Ok? ==>
      var p := Pair(userId.value, responseId);
      var v := r.outcome.value;
      && v.likeCount == |set q | q in r.store.likes && q.responseId == responseId|
      && v.dislikeCount == |set q | q in r.store.dislikes && q.responseId == responseId|
      && v.isLiked == (p in r.store.likes) && v.isDisliked == (p in r.store.dislikes)
      && v.isDisliked == isDisliked
      && v.message == (if isDisliked then "Response disliked successfully" else "Dislike removed successfully")
  {
    React(s, Dislike, responseId, userId, isDisliked)
  }

  /** Some stored reply already carries this id. */
  predicate ReplyIdTaken(rs: seq<Reply>, id: Id) {
    exists i :: 0 <= i < |rs| && rs[i].id == id
  }

  /** POST /:responseId/replies with `{ userId, replyText }`. The database
      assigns `newId` and `now`; a `newId` that collides with a stored reply
      makes the create throw, which the catch block turns into a 500. */
  function SubmitReply(s: Store, responseId: Id, userId: Option<Id>, replyText: Option<string>,
                       newId: Id, now: int): (r: Step<PostedReply>)
    ensures r.outcome.Invalid? <==> replyText.None? || AllTrimmable(replyText.value)
    ensures !r.outcome.Ok? ==> r.store == s
    ensures !r.outcome.Invalid? && responseId !in s.responses ==> r.outcome == NotFound(ResponseMissing)
    ensures !r.outcome.Invalid? && responseId in s.responses && userId.None? ==> r.outcome == Failed
    ensures !r.outcome.Invalid? && responseId in s.responses && userId.Some? && userId.value !in s.users
            ==> r.outcome == NotFound(UserMissing)
    ensures !r.outcome.Invalid? && Proceeds(s, responseId, userId) && ReplyIdTaken(s.replies, newId)
            ==> r.outcome == Failed
    ensures r.outcome.Ok? <==>
      !r.outcome.Invalid? && Proceeds(s, responseId, userId) && !ReplyIdTaken(s.replies, newId)
    ensures r.outcome.Ok? ==>
      var posted := r.outcome.value;
      && posted.reply == Reply(newId, responseId, userId.value, Trim(replyText.value), now)
      && posted.reply.text != []
      && r.store == s.(replies := s.replies + [posted.reply])
      && posted.author == s.users[userId.value]
      && posted.replyCount == ReplyCount(s, responseId) + 1
      && posted.message == "Reply posted successfully"
  {
    if replyText.None? then Step(s, Invalid)
    else
      TrimBlankIff(replyText.value);
      if Trim(replyText.value) == [] then Step(s, Invalid)
      else if responseId !in s.responses then Step(s, NotFound(ResponseMissing))
      else if userId.None? then Step(s, Failed)
      else if userId.value !in s.users then Step(s, NotFound(UserMissing))
      else if ReplyIdTaken(s.replies, newId) then Step(s, Failed)
      else
        var reply := Reply(newId, responseId, userId.value, Trim(replyText.value), now);
        var s' := s.(replies := s.replies + [reply]);
        RepliesForAppend(s.replies, reply, responseId);
        Step(s', Ok(PostedReply("Reply posted successfully", reply, s.users[userId.value], ReplyCount(s', responseId))))
  }

  /** GET /:responseId/replies: the response's replies, oldest first. */
  function GetRepliesForResponse(s: Store, responseId: Id): (r: Step<ReplyList>)
    ensures r.store == s
    ensures r.outcome.Ok? <==> responseId in s.responses
    ensures !r.outcome.Ok? ==> r.outcome == NotFound(ResponseMissing)
    ensures r.outcome.Ok? ==>
      var list := r.outcome.value;
      && list.count == |list.replies|
      && SortedByCreation(list.replies)
      && multiset(list.replies) == multiset(RepliesFor(s.replies, responseId))
      && (forall x :: x in list.replies <==> x in s.replies && x.responseId == responseId)
      && (forall t :: CreatedAt(list.replies, t) == CreatedAt(RepliesFor(s.replies, responseId), t))
  {
    if responseId !in s.responses then Step(s, NotFound(ResponseMissing))
    else
      var mine := RepliesFor(s.replies, responseId);
      var sorted := SortByCreation(mine);
      assert forall x :: x in sorted <==> x in mine by {
        forall x ensures x in sorted <==> x in mine {
          assert x in sorted <==> x in multiset(sorted);
        }
      }
      assert forall t :: CreatedAt(sorted, t) == CreatedAt(mine, t) by {
        forall t ensures CreatedAt(sorted, t) == CreatedAt(mine, t) {
          SortKeepsTies(mine, t);
        }
      }
      Step(s, Ok(ReplyList(sorted, |sorted|)))
  }

  /** GET /:responseId?userId=: the response merged with its live counts and,
      when `userId` is truthy, the caller's own reaction status. */
  function GetResponseWithCounts(s: Store, responseId: Id, userId: Option<Id>): (r: Step<ResponseView>)
    ensures r.store == s
    ensures r.outcome.Ok? <==> responseId in s.responses
    ensures !r.outcome.Ok? ==> r.outcome == NotFound(ResponseMissing)
    ensures r.outcome.Ok? ==>
      var v := r.outcome.value;
      && v.id == responseId && v.response == s.responses[responseId]
      && v.author == (if v.response.authorId in s.users then Some(s.users[v.response.authorId]) else None)
      && v.likeCount == |set q | q in s.likes && q.responseId == responseId|
      && v.dislikeCount == |set q | q in s.dislikes && q.responseId == responseId|
      && v.replyCount == |RepliesFor(s.replies, responseId)|
      && (!TruthyString(userId) ==> !v.isLiked && !v.isDisliked)
      && (TruthyString(userId) ==>
            && v.isLiked == (Pair(userId.value, responseId) in s.likes)
            && v.isDisliked == (Pair(userId.value, responseId) in s.dislikes))
  {
    if responseId !in s.responses then Step(s, NotFound(ResponseMissing))
    else
      var row := s.responses[responseId];
      var author := if row.authorId in s.users then Some(s.users[row.authorId]) else None;
      var p := Pair(if userId.Some? then userId.value else "", responseId);
      var isLiked := TruthyString(userId) && p in s.likes;
      var isDisliked := TruthyString(userId) && p in s.dislikes;
      Step(s, Ok(ResponseView(responseId, row, author, LikeCount(s, responseId), DislikeCount(s, responseId),
                              ReplyCount(s, responseId), isLiked, isDisliked)))
  }
}
