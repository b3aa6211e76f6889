/** Properties that relate several handler calls: mutual exclusion of like and
    dislike, idempotence, how counts move, the toggle and switch round trips,
    chronological reply listing, and agreement between the handlers' views. */
module ResponseProperties {
  import opened Js
  import opened ResponseStore
  import opened ReplyOrder
  import opened ResponseController

  /** A like or dislike call never puts a pair in both tables when none was
      there before. */
  lemma ReactPreservesExclusive(s: Store, k: Reaction, responseId: Id, userId: Option<Id>, on: bool)
    requires Exclusive(s)
    ensures Exclusive(React(s, k, responseId, userId, on).store)
    ensures React(s, k, responseId, userId, on).outcome.Ok? ==>
      var v := React(s, k, responseId, userId, on).outcome.value;
      !(v.isLiked && v.isDisliked)
  {
    if Proceeds(s, responseId, userId) {
      var p := Pair(userId.value, responseId);
      var s' := ApplyReaction(s, k, p, on);
      forall q | q in s'.likes ensures q !in s'.dislikes {
        assert q in s.likes || q == p;
        assert q in s.dislikes ==> q !in s.likes;
      }
    }
  }

  /** Exclusion is kept, not restored: when a pair already sits in both tables,
      liking it again leaves it in both, because the dislike is only deleted
      after a like row is freshly created. */
  lemma ReactionDoesNotRestoreExclusive(s: Store, responseId: Id, u: Id)
    requires Proceeds(s, responseId, Some(u))
    requires Pair(u, responseId) in s.likes && Pair(u, responseId) in s.dislikes
    ensures !Exclusive(s)
    ensures
      var r := LikeResponse(s, responseId, Some(u), true);
      && r.outcome.Ok? && r.store == s && !Exclusive(r.store)
      && r.outcome.value.isLiked && r.outcome.value.isDisliked
    ensures
      var r := DislikeResponse(s, responseId, Some(u), true);
      && r.outcome.Ok? && r.store == s && !Exclusive(r.store)
      && r.outcome.value.isLiked && r.outcome.value.isDisliked
  {
    assert Pair(u, responseId) in s.likes * s.dislikes;
  }

  /** A second identical like or dislike call changes nothing and answers
      exactly as the first one did. */
  lemma ReactIdempotent(s: Store, k: Reaction, responseId: Id, userId: Option<Id>, on: bool)
    ensures
      var first := React(s, k, responseId, userId, on);
      React(first.store, k, responseId, userId, on) == first
  {
    var first := React(s, k, responseId, userId, on);
    if Proceeds(s, responseId, userId) {
      var p := Pair(userId.value, responseId);
      assert ApplyReaction(first.store, k, p, on) == first.store by {
        if on {
          assert p in Table(first.store, k);
        } else {
          assert Table(first.store, k) - {p} == Table(first.store, k);
        }
      }
    }
  }

  /** Counts of a fresh reaction: the reacted table of the response gains one
      row and the opposite table loses the caller's row if there was one. */
  lemma FreshReactionCounts(s: Store, k: Reaction, responseId: Id, u: Id)
    requires Proceeds(s, responseId, Some(u))
    requires Pair(u, responseId) !in Table(s, k)
    ensures
      var r := React(s, k, responseId, Some(u), true);
      var mine := |PairsFor(Table(r.store, k), responseId)|;
      var theirs := |PairsFor(Table(r.store, k.Opposite()), responseId)|;
      && mine == |PairsFor(Table(s, k), responseId)| + 1
      && theirs == |PairsFor(Table(s, k.Opposite()), responseId)|
                   - (if Pair(u, responseId) in Table(s, k.Opposite()) then 1 else 0)
  {
    var p := Pair(u, responseId);
    AddPairCount(Table(s, k), p, responseId);
    RemovePairCount(Table(s, k.Opposite()), p, responseId);
  }

  /** Liking and then unliking a response the caller did not like returns the
      like table to where it started: same like count, not liked. */
  lemma LikeThenUnlike(s: Store, responseId: Id, u: Id)
    requires Proceeds(s, responseId, Some(u))
    requires Pair(u, responseId) !in s.likes
    ensures
      var liked := LikeResponse(s, responseId, Some(u), true);
      var unliked := LikeResponse(liked.store, responseId, Some(u), false);
      && unliked.outcome.Ok?
      && unliked.store.likes == s.likes
      && unliked.outcome.value.likeCount == LikeCount(s, responseId)
      && !unliked.outcome.value.isLiked
  {
    var p := Pair(u, responseId);
    var liked := LikeResponse(s, responseId, Some(u), true);
    assert liked.store.likes - {p} == s.likes;
  }

  /** Switching from like to dislike: the like count drops by one, the dislike
      count rises by one, and the caller now dislikes but does not like. */
  lemma SwitchLikeToDislike(s: Store, responseId: Id, u: Id)
    requires Exclusive(s)
    requires Proceeds(s, responseId, Some(u))
    requires Pair(u, responseId) in s.likes
    ensures
      var r := DislikeResponse(s, responseId, Some(u), true);
      && r.outcome.Ok?
      && r.outcome.value.likeCount == LikeCount(s, responseId) - 1
      && r.outcome.value.dislikeCount == DislikeCount(s, responseId) + 1
      && !r.outcome.value.isLiked && r.outcome.value.isDisliked
  {
    FreshReactionCounts(s, Dislike, responseId, u);
  }

  /** A store with response R1 by U3, users U1 and U2, no reactions and no
      replies. */
  function ScenarioStart(): Store {
    Store(map["R1" := ResponseRow("U3", "")],
          map["U1" := Profile("U1", "", ""), "U2" := Profile("U2", "", "")], {}, {}, [])
  }

  lemma ScenarioFirstLike()
    ensures LikeResponse(ScenarioStart(), "R1", Some("U1"), true)
         == Step(ScenarioStart().(likes := {Pair("U1", "R1")}),
                 Ok(ReactionView("Response liked successfully", 1, 0, true, false)))
  {
    assert PairsFor({Pair("U1", "R1")}, "R1") == {Pair("U1", "R1")};
    assert PairsFor({}, "R1") == {};
  }

  lemma ScenarioSecondLike()
    ensures LikeResponse(ScenarioStart().(likes := {Pair("U1", "R1")}), "R1", Some("U2"), true)
         == Step(ScenarioStart().(likes := {Pair("U1", "R1"), Pair("U2", "R1")}),
                 Ok(ReactionView("Response liked successfully", 2, 0, true, false)))
  {
    var u1, u2 := Pair("U1", "R1"), Pair("U2", "R1");
    assert {u1} + {u2} == {u1, u2};
    assert PairsFor({u1, u2}, "R1") == {u1, u2};
    assert PairsFor({}, "R1") == {};
  }

  lemma ScenarioSwitch()
    ensures DislikeResponse(ScenarioStart().(likes := {Pair("U1", "R1"), Pair("U2", "R1")}), "R1", Some("U1"), true)
         == Step(ScenarioStart().(likes := {Pair("U2", "R1")}, dislikes := {Pair("U1", "R1")}),
                 Ok(ReactionView("Response disliked successfully", 1, 1, false, true)))
  {
    var u1, u2 := Pair("U1", "R1"), Pair("U2", "R1");
    assert {u1, u2} - {u1} == {u2};
    assert PairsFor({u2}, "R1") == {u2};
    assert PairsFor({u1}, "R1") == {u1};
  }

  /** Two users like R1, then U1 switches to dislike. */
  lemma TwoUsersScenario()
    ensures
      var a := LikeResponse(ScenarioStart(), "R1", Some("U1"), true);
      var b := LikeResponse(a.store, "R1", Some("U2"), true);
      var c := DislikeResponse(b.store, "R1", Some("U1"), true);
      && a.outcome == Ok(ReactionView("Response liked successfully", 1, 0, true, false))
      && b.outcome.Ok? && b.outcome.value.likeCount == 2 && b.outcome.value.dislikeCount == 0
      && c.outcome == Ok(ReactionView("Response disliked successfully", 1, 1, false, true))
  {
    ScenarioFirstLike();
    ScenarioSecondLike();
    ScenarioSwitch();
  }

  /** A reply of spaces, tabs and a newline is refused as blank and stores
      nothing, whether or not the response and user exist. */
  lemma BlankReplyRejected(s: Store, responseId: Id, userId: Option<Id>, newId: Id, now: int)
    ensures SubmitReply(s, responseId, userId, Some(" \t \n"), newId, now) == Step(s, Invalid)
  {
    SpacesTabNewlineAreBlank();
    var r := SubmitReply(s, responseId, userId, Some(" \t \n"), newId, now);
    assert r.outcome.Invalid? && r.store == s;
  }

  lemma SpacesTabNewlineAreBlank()
    ensures AllTrimmable(" \t \n")
  {
    var table := WhiteSpace + LineTerminators;
    assert table[4] == ' ' && table[0] == '\t' && table[21] == '\n';
    InTableIff(' ', table);
    InTableIff('\t', table);
    InTableIff('\n', table);
    assert IsTrimmable(' ') && IsTrimmable('\t') && IsTrimmable('\n');
    var text := " \t \n";
    assert text[0] == ' ' && text[1] == '\t' && text[2] == ' ' && text[3] == '\n';
  }

  /** The replies of one response keep the order of the whole table, so an
      oldest-first table gives an oldest-first slice. */
  lemma {:induction false} RepliesForSorted(rs: seq<Reply>, responseId: Id)
    requires SortedByCreation(rs)
    ensures SortedByCreation(RepliesFor(rs, responseId))
  {
    if |rs| > 0 {
      SortedTail(rs);
      RepliesForSorted(rs[1..], responseId);
      var rest := RepliesFor(rs[1..], responseId);
      if rs[0].responseId == responseId {
        if |rest| > 0 {
          assert rest[0] in rs[1..];
        }
        SortedCons(rs[0], rest);
      }
    }
  }

  /** When replies were stored oldest first, the listing returns exactly the
      response's replies in store order. */
  lemma ListingFollowsStoreOrder(s: Store, responseId: Id)
    requires responseId in s.responses
    requires SortedByCreation(s.replies)
    ensures GetRepliesForResponse(s, responseId).outcome
         == Ok(ReplyList(RepliesFor(s.replies, responseId), ReplyCount(s, responseId)))
  {
    RepliesForSorted(s.replies, responseId);
    SortOfSorted(RepliesFor(s.replies, responseId));
  }

  /** A reply posted no earlier than every stored one keeps the table oldest
      first. */
  lemma SubmitKeepsChronology(s: Store, responseId: Id, userId: Option<Id>, replyText: Option<string>,
                              newId: Id, now: int)
    requires SortedByCreation(s.replies)
    requires forall i :: 0 <= i < |s.replies| ==> s.replies[i].createdAt <= now
    ensures SortedByCreation(SubmitReply(s, responseId, userId, replyText, newId, now).store.replies)
  {
  }

  /** Posting on a clock that never runs backwards puts the new reply at the
      end of its response's listing, after every earlier reply: replies R1,
      R2, R3 posted in that order are listed in that order. */
  lemma PostThenListAppends(s: Store, responseId: Id, userId: Option<Id>, replyText: Option<string>,
                            newId: Id, now: int)
    requires SortedByCreation(s.replies)
    requires forall i :: 0 <= i < |s.replies| ==> s.replies[i].createdAt <= now
    requires SubmitReply(s, responseId, userId, replyText, newId, now).outcome.Ok?
    ensures
      var posted := SubmitReply(s, responseId, userId, replyText, newId, now);
      var before := GetRepliesForResponse(s, responseId).outcome;
      var after := GetRepliesForResponse(posted.store, responseId).outcome;
      && before.Ok? && after.Ok?
      && after.value.replies == before.value.replies + [posted.outcome.value.reply]
  {
    var posted := SubmitReply(s, responseId, userId, replyText, newId, now);
    SubmitKeepsChronology(s, responseId, userId, replyText, newId, now);
    ListingFollowsStoreOrder(s, responseId);
    ListingFollowsStoreOrder(posted.store, responseId);
    RepliesForAppend(s.replies, posted.outcome.value.reply, responseId);
  }

  /** The three reply counts the handlers report agree: the listing's `count`,
      the aggregate's `replyCount`, and (after a post) the posted `replyCount`. */
  lemma ReplyCountsAgree(s: Store, responseId: Id, userId: Option<Id>, replyText: Option<string>,
                         newId: Id, now: int)
    requires responseId in s.responses
    ensures GetRepliesForResponse(s, responseId).outcome.value.count
         == GetResponseWithCounts(s, responseId, None).outcome.value.replyCount
    ensures
      var posted := SubmitReply(s, responseId, userId, replyText, newId, now);
      posted.outcome.Ok? ==>
        posted.outcome.value.replyCount
        == GetResponseWithCounts(posted.store, responseId, None).outcome.value.replyCount
  {
    var mine := RepliesFor(s.replies, responseId);
    assert |SortByCreation(mine)| == |mine| by {
      assert |multiset(SortByCreation(mine))| == |multiset(mine)|;
    }
    var posted := SubmitReply(s, responseId, userId, replyText, newId, now);
    if posted.outcome.Ok? {
      RepliesForAppend(s.replies, posted.outcome.value.reply, responseId);
    }
  }

  /** After a successful like or dislike, reading the response back for the
      same (non-empty) user id shows the counts and status that call returned. */
  lemma ReactionAgreesWithAggregate(s: Store, k: Reaction, responseId: Id, u: Id, on: bool)
    requires u != ""
    requires Proceeds(s, responseId, Some(u))
    ensures
      var r := React(s, k, responseId, Some(u), on);
      var v := GetResponseWithCounts(r.store, responseId, Some(u)).outcome.value;
      && r.outcome.Ok?
      && v.likeCount == r.outcome.value.likeCount && v.dislikeCount == r.outcome.value.dislikeCount
      && v.isLiked == r.outcome.value.isLiked && v.isDisliked == r.outcome.value.isDisliked
  {
    var r := React(s, k, responseId, Some(u), on);
    assert responseId in r.store.responses;
  }

  /** An empty user id is a user the like handler can find but the aggregate
      read treats as absent: the two disagree on the caller's status. */
  lemma EmptyUserIdDisagrees()
    ensures
      var s := Store(map["r1" := ResponseRow("a", "")], map["" := Profile("", "", "")], {}, {}, []);
      var liked := LikeResponse(s, "r1", Some(""), true);
      && liked.outcome.Ok? && liked.outcome.value.isLiked
      && !GetResponseWithCounts(liked.store, "r1", Some("")).outcome.value.isLiked
  {
  }

  /** The requests the response routes accept. */
  datatype Request =
    | LikeRequest(responseId: Id, userId: Option<Id>, isLiked: bool)
    | DislikeRequest(responseId: Id, userId: Option<Id>, isDisliked: bool)
    | ReplyRequest(responseId: Id, userId: Option<Id>, replyText: Option<string>, newId: Id, now: int)
    | ListRepliesRequest(responseId: Id)
    | ViewRequest(responseId: Id, userId: Option<Id>)

  function Handle(s: Store, req: Request): Store {
    match req
    case LikeRequest(r, u, on) => LikeResponse(s, r, u, on).store
    case DislikeRequest(r, u, on) => DislikeResponse(s, r, u, on).store
    case ReplyRequest(r, u, t, id, now) => SubmitReply(s, r, u, t, id, now).store
    case ListRepliesRequest(r) => GetRepliesForResponse(s, r).store
    case ViewRequest(r, u) => GetResponseWithCounts(s, r, u).store
  }

  function Run(s: Store, reqs: seq<Request>): Store
    decreases |reqs|
  {
    if |reqs| == 0 then s else Run(Handle(s, reqs[0]), reqs[1..])
  }

  /** Mutual exclusion holds after any sequence of requests that starts from a
      store where it holds; so no read ever reports a caller as both liking
      and disliking. */
  lemma {:induction false} RunPreservesExclusive(s: Store, reqs: seq<Request>, responseId: Id, userId: Option<Id>)
    requires Exclusive(s)
    ensures Exclusive(Run(s, reqs))
    ensures GetResponseWithCounts(Run(s, reqs), responseId, userId).outcome.Ok? ==>
      var v := GetResponseWithCounts(Run(s, reqs), responseId, userId).outcome.value;
      !(v.isLiked && v.isDisliked)
    decreases |reqs|
  {
    if |reqs| > 0 {
      match reqs[0] {
        case LikeRequest(r, u, on) => ReactPreservesExclusive(s, Like, r, u, on);
        case DislikeRequest(r, u, on) => ReactPreservesExclusive(s, Dislike, r, u, on);
        case _ =>
      }
      RunPreservesExclusive(Handle(s, reqs[0]), reqs[1..], responseId, userId);
    }
  }
}
