/** The persistent state the response-interaction handlers read and write,
    abstracted from its relational tables: responses and users are looked up
    by id, likes and dislikes are sets of (user, response) pairs (the
    composite-unique key makes each a set), and replies are an append-only
    sequence in insertion order. Counts are never stored: they are derived
    from the rows on every read. */
module ResponseStore {
  import opened Js

  type Id = string

  /** The public slice of an AppUser that the handlers select. */
  datatype Profile = Profile(id: Id, firstName: string, lastName: string)

  /** A Response row: who wrote it and what it says. */
  datatype ResponseRow = ResponseRow(authorId: Id, content: string)

  /** A ResponseLike or ResponseDislike row, keyed by (userId, responseId). */
  datatype Pair = Pair(userId: Id, responseId: Id)

  /** A ResponseReply row; `id` and `createdAt` are assigned by the database. */
  datatype Reply = Reply(id: Id, responseId: Id, userId: Id, text: string, createdAt: int)

  datatype Store = Store(
    responses: map<Id, ResponseRow>,
    users: map<Id, Profile>,
    likes: set<Pair>,
    dislikes: set<Pair>,
    replies: seq<Reply>)

  /** The two reaction tables, so that like and dislike are written once. */
  datatype Reaction = Like | Dislike {
    function Opposite(): Reaction {
      if this == Like then Dislike else Like
    }
  }

  function Table(s: Store, k: Reaction): set<Pair> {
    if k == Like then s.likes else s.dislikes
  }

  function WithTable(s: Store, k: Reaction, t: set<Pair>): Store {
    if k == Like then s.(likes := t) else s.(dislikes := t)
  }

  /** Mutual exclusion: no (user, response) pair both likes and dislikes. */
  predicate Exclusive(s: Store) {
    s.likes !! s.dislikes
  }

  /** The rows of a reaction table that belong to one response. */
  function PairsFor(t: set<Pair>, responseId: Id): set<Pair> {
    set p | p in t && p.responseId == responseId
  }

  function LikeCount(s: Store, responseId: Id): nat {
    |PairsFor(s.likes, responseId)|
  }

  function DislikeCount(s: Store, responseId: Id): nat {
    |PairsFor(s.dislikes, responseId)|
  }

  /** The replies of one response, in store order. */
  function RepliesFor(rs: seq<Reply>, responseId: Id): (r: seq<Reply>)
    ensures |r| <= |rs|
    ensures forall x :: x in r <==> x in rs && x.responseId == responseId
  {
    if |rs| == 0 then []
    else
      var rest := RepliesFor(rs[1..], responseId);
      assert forall x :: x in rs <==> x == rs[0] || x in rs[1..];
      if rs[0].responseId == responseId then [rs[0]] + rest else rest
  }

  function ReplyCount(s: Store, responseId: Id): nat {
    |RepliesFor(s.replies, responseId)|
  }

  /** Appending a reply extends the replies of its own response by exactly
      that reply and leaves every other response's replies as they were. */
  lemma {:induction false} RepliesForAppend(rs: seq<Reply>, x: Reply, responseId: Id)
    ensures RepliesFor(rs + [x], responseId)
         == RepliesFor(rs, responseId) + (if x.responseId == responseId then [x] else [])
  {
    if |rs| == 0 {
      assert rs + [x] == [x];
    } else {
      assert (rs + [x])[1..] == rs[1..] + [x];
      RepliesForAppend(rs[1..], x, responseId);
    }
  }

  /** Adding a pair of this response that was absent adds one to its count;
      adding a pair of another response changes nothing. */
  lemma AddPairCount(t: set<Pair>, p: Pair, responseId: Id)
    requires p !in t
    ensures |PairsFor(t + {p}, responseId)|
         == |PairsFor(t, responseId)| + (if p.responseId == responseId then 1 else 0)
  {
    if p.responseId == responseId {
      assert PairsFor(t + {p}, responseId) == PairsFor(t, responseId) + {p};
    } else {
      assert PairsFor(t + {p}, responseId) == PairsFor(t, responseId);
    }
  }

  /** Removing a pair of this response that was present takes one from its
      count; removing anything else changes nothing. */
  lemma RemovePairCount(t: set<Pair>, p: Pair, responseId: Id)
    ensures |PairsFor(t - {p}, responseId)|
         == |PairsFor(t, responseId)| - (if p in t && p.responseId == responseId then 1 else 0)
  {
    if p in t && p.responseId == responseId {
      assert PairsFor(t - {p}, responseId) == PairsFor(t, responseId) - {p};
    } else {
      assert PairsFor(t - {p}, responseId) == PairsFor(t, responseId);
    }
  }
}
