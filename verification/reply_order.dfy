/** The `orderBy: { createdAt: 'asc' }` of the reply listing: replies sorted
    oldest first. Replies created at the same instant keep the order in which
    they were stored (a stable insertion sort). */
module ReplyOrder {
  import opened ResponseStore

  predicate SortedByCreation(rs: seq<Reply>) {
    forall i, j :: 0 <= i < j < |rs| ==> rs[i].createdAt <= rs[j].createdAt
  }

  /** The replies created at instant `t`, in sequence order. */
  function CreatedAt(rs: seq<Reply>, t: int): seq<Reply> {
    if |rs| == 0 then []
    else (if rs[0].createdAt == t then [rs[0]] else []) + CreatedAt(rs[1..], t)
  }

  lemma SortedCons(a: Reply, rs: seq<Reply>)
    requires SortedByCreation(rs)
    requires |rs| == 0 || a.createdAt <= rs[0].createdAt
    ensures SortedByCreation([a] + rs)
  {
    var r := [a] + rs;
    forall i, j | 0 <= i < j < |r| ensures r[i].createdAt <= r[j].createdAt {
      if i == 0 {
        assert r[j] == rs[j - 1];
        assert rs[0].createdAt <= rs[j - 1].createdAt;
      } else {
        assert r[i] == rs[i - 1] && r[j] == rs[j - 1];
      }
    }
  }

  lemma SortedTail(rs: seq<Reply>)
    requires SortedByCreation(rs) && |rs| > 0
    ensures SortedByCreation(rs[1..])
  {
    forall i, j | 0 <= i < j < |rs| - 1
      ensures rs[1..][i].createdAt <= rs[1..][j].createdAt
    {
      assert rs[1..][i] == rs[i + 1] && rs[1..][j] == rs[j + 1];
    }
  }

  /** Places `x` in front of the first reply that is not older than it. */
  function Insert(x: Reply, rs: seq<Reply>): (r: seq<Reply>)
    requires SortedByCreation(rs)
    ensures SortedByCreation(r)
    ensures multiset(r) == multiset(rs) + multiset{x}
    ensures |r| == |rs| + 1
    ensures r[0] == x || (|rs| > 0 && r[0] == rs[0])
  {
    if |rs| == 0 || x.createdAt <= rs[0].createdAt then
      SortedCons(x, rs);
      [x] + rs
    else
      SortedTail(rs);
      var rest := Insert(x, rs[1..]);
      assert |rs| >= 2 ==> rs[0].createdAt <= rs[1].createdAt;
      SortedCons(rs[0], rest);
      assert rs == [rs[0]] + rs[1..];
      [rs[0]] + rest
  }

  function SortByCreation(rs: seq<Reply>): (r: seq<Reply>)
    ensures SortedByCreation(r)
    ensures multiset(r) == multiset(rs)
  {
    if |rs| == 0 then []
    else
      assert rs == [rs[0]] + rs[1..];
      Insert(rs[0], SortByCreation(rs[1..]))
  }

  lemma CreatedAtCons(a: Reply, rs: seq<Reply>, t: int)
    ensures CreatedAt([a] + rs, t) == (if a.createdAt == t then [a] else []) + CreatedAt(rs, t)
  {
    assert ([a] + rs)[1..] == rs;
  }

  lemma InsertStep(x: Reply, rs: seq<Reply>)
    requires SortedByCreation(rs) && |rs| > 0 && rs[0].createdAt < x.createdAt
    ensures SortedByCreation(rs[1..])
    ensures Insert(x, rs) == [rs[0]] + Insert(x, rs[1..])
  {
    SortedTail(rs);
  }

  lemma {:induction false} InsertKeepsTies(x: Reply, rs: seq<Reply>, t: int)
    requires SortedByCreation(rs)
    ensures CreatedAt(Insert(x, rs), t)
         == (if x.createdAt == t then [x] else []) + CreatedAt(rs, t)
  {
    if |rs| == 0 || x.createdAt <= rs[0].createdAt {
      CreatedAtCons(x, rs, t);
    } else {
      InsertStep(x, rs);
      var rest := Insert(x, rs[1..]);
      InsertKeepsTies(x, rs[1..], t);
      CreatedAtCons(rs[0], rest, t);
      var tail := CreatedAt(rs[1..], t);
      assert CreatedAt(rs, t) == (if rs[0].createdAt == t then [rs[0]] else []) + tail;
      // rs[0] is strictly older than x, so at most one of them is at t.
      if x.createdAt == t {
        assert CreatedAt(rest, t) == [x] + tail;
        assert CreatedAt(rs, t) == tail;
      } else {
        assert CreatedAt(rest, t) == tail;
      }
    }
  }

  /** Stability: the replies that share a creation instant come out in the
      order they went in. */
  lemma {:induction false} SortKeepsTies(rs: seq<Reply>, t: int)
    ensures CreatedAt(SortByCreation(rs), t) == CreatedAt(rs, t)
  {
    if |rs| > 0 {
      SortKeepsTies(rs[1..], t);
      InsertKeepsTies(rs[0], SortByCreation(rs[1..]), t);
    }
  }

  /** Replies that are already oldest-first come back unchanged. */
  lemma {:induction false} SortOfSorted(rs: seq<Reply>)
    requires SortedByCreation(rs)
    ensures SortByCreation(rs) == rs
  {
    if |rs| > 0 {
      SortedTail(rs);
      SortOfSorted(rs[1..]);
      assert rs == [rs[0]] + rs[1..];
    }
  }
}
