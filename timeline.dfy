/**
 * The feed queries: select messages by author, order by timestamp descending,
 * limit to 100. The messages table is a sequence of rows; the order SQL gives
 * to equal timestamps is not fixed, so the lemmas below only state properties
 * that hold for every tie order.
 */
module Timeline {
  import opened Types
  import Graph

  /** `.limit(100)` on both feeds. */
  const FeedLimit: nat := 100

  /** Non-increasing timestamps: `order_by(Message.timestamp.desc())`. */
  predicate NewestFirst(s: seq<Message>) {
    forall i, j :: 0 <= i < j < |s| ==> s[i].timestamp >= s[j].timestamp
  }

  /** The primary-key column of a sequence of rows. */
  function Ids(ms: seq<Message>): set<MessageId> {
    set m | m in ms :: m.id
  }

  /** The primary key holds: no two rows share an id. */
  predicate DistinctIds(ms: seq<Message>) {
    forall i, j :: 0 <= i < j < |ms| ==> ms[i].id != ms[j].id
  }

  /** The three row filters the routes use. */
  datatype Filter = AuthorIn(authors: set<UserId>) | IdIsNot(id: MessageId) | AuthorIsNot(author: UserId)

  predicate Keeps(keep: Filter, m: Message) {
    match keep
    case AuthorIn(authors) => m.author in authors
    case IdIsNot(id) => m.id != id
    case AuthorIsNot(author) => m.author != author
  }

  /** The rows `keep` keeps, in table order. */
  function Select(ms: seq<Message>, keep: Filter): (r: seq<Message>)
    ensures forall m :: m in r <==> m in ms && Keeps(keep, m)
    ensures |r| <= |ms|
  {
    if ms == [] then []
    else if Keeps(keep, ms[0]) then [ms[0]] + Select(ms[1..], keep)
    else Select(ms[1..], keep)
  }

  /** `filter(Message.user_id.in_(authors))`. */
  function Authored(ms: seq<Message>, authors: set<UserId>): (r: seq<Message>)
    ensures forall m :: m in r <==> m in ms && m.author in authors
  {
    Select(ms, AuthorIn(authors))
  }

  /** The rows left after `db.session.delete(msg)`. */
  function WithoutMessage(ms: seq<Message>, id: MessageId): (r: seq<Message>)
    ensures forall m :: m in r <==> m in ms && m.id != id
  {
    Select(ms, IdIsNot(id))
  }

  /** The rows left after the author's account is deleted (the cascade). */
  function WithoutAuthor(ms: seq<Message>, u: UserId): (r: seq<Message>)
    ensures forall m :: m in r <==> m in ms && m.author != u
  {
    Select(ms, AuthorIsNot(u))
  }

  lemma {:induction false} SelectKeepsDistinctIds(ms: seq<Message>, keep: Filter)
    requires DistinctIds(ms)
    ensures DistinctIds(Select(ms, keep))
  {
    if ms != [] {
      SelectKeepsDistinctIds(ms[1..], keep);
      if Keeps(keep, ms[0]) {
        var rest := Select(ms[1..], keep);
        forall j | 0 <= j < |rest| ensures rest[j].id != ms[0].id {
          assert rest[j] in ms[1..];
          var k :| 0 <= k < |ms[1..]| && ms[1..][k] == rest[j];
          assert ms[k + 1] == rest[j];
        }
      }
    }
  }

  lemma {:induction false} SelectAll(ms: seq<Message>, keep: Filter)
    requires forall m :: m in ms ==> Keeps(keep, m)
    ensures Select(ms, keep) == ms
  {
    if ms != [] {
      SelectAll(ms[1..], keep);
    }
  }

  lemma PrependNewest(x: Message, s: seq<Message>)
    requires NewestFirst(s)
    requires forall y :: y in s ==> y.timestamp <= x.timestamp
    ensures NewestFirst([x] + s)
  {
    var r := [x] + s;
    forall i, j | 0 <= i < j < |r| ensures r[i].timestamp >= r[j].timestamp {
      assert r[j] == s[j - 1];
      if i > 0 {
        assert r[i] == s[i - 1];
      } else {
        assert r[j] in s;
      }
    }
  }

  /** A message id that survives the author cascade still names a stored message. */
  lemma WithoutAuthorKeepsOtherIds(ms: seq<Message>, u: UserId, id: MessageId)
    requires id in Ids(ms) && id !in Ids(Authored(ms, {u}))
    ensures id in Ids(WithoutAuthor(ms, u))
  {
    var m :| m in ms && m.id == id;
    assert m in WithoutAuthor(ms, u);
  }

  /** Insert `m` into a newest-first sequence, ahead of rows with the same timestamp. */
  function InsertNewest(m: Message, s: seq<Message>): (r: seq<Message>)
    requires NewestFirst(s)
    ensures NewestFirst(r)
    ensures forall x :: x in r <==> x == m || x in s
    ensures multiset(r) == multiset(s) + multiset{m}
  {
    if s == [] || s[0].timestamp <= m.timestamp then
      assert forall y :: y in s ==> y.timestamp <= m.timestamp by {
        forall y | y in s ensures y.timestamp <= m.timestamp {
          var k :| 0 <= k < |s| && s[k] == y;
          assert s[0].timestamp >= s[k].timestamp;
        }
      }
      PrependNewest(m, s);
      [m] + s
    else
      var rest := InsertNewest(m, s[1..]);
      assert s == [s[0]] + s[1..];
      assert forall y :: y in rest ==> y.timestamp <= s[0].timestamp by {
        forall y | y in rest ensures y.timestamp <= s[0].timestamp {
          if y != m {
            var k :| 0 <= k < |s[1..]| && s[1..][k] == y;
            assert s[0].timestamp >= s[k + 1].timestamp;
          }
        }
      }
      PrependNewest(s[0], rest);
      [s[0]] + rest
  }

  /** The rows reordered newest first. */
  function SortNewestFirst(s: seq<Message>): (r: seq<Message>)
    ensures NewestFirst(r)
    ensures multiset(r) == multiset(s)
  {
    if s == [] then []
    else
      assert s == [s[0]] + s[1..];
      InsertNewest(s[0], SortNewestFirst(s[1..]))
  }

  /** `.limit(100)`: the first min(100, |s|) rows. */
  function Newest(s: seq<Message>): (r: seq<Message>)
    ensures |r| == if |s| <= FeedLimit then |s| else FeedLimit
    ensures r == s[..|r|]
  {
    if |s| <= FeedLimit then s else s[..FeedLimit]
  }

  /** The feed of the given authors: filter, order newest first, limit. */
  function Feed(ms: seq<Message>, authors: set<UserId>): (r: seq<Message>)
    ensures NewestFirst(r) && |r| <= FeedLimit
    ensures forall m :: m in r ==> m in ms && m.author in authors
    ensures multiset(r) <= multiset(Authored(ms, authors))
  {
    var sorted := SortNewestFirst(Authored(ms, authors));
    forall m | m in sorted ensures m in ms && m.author in authors {
      assert m in multiset(sorted);
    }
    var r := Newest(sorted);
    assert sorted == r + sorted[|r|..];
    assert multiset(sorted) == multiset(r) + multiset(sorted[|r|..]);
    r
  }

  /** The home page query: the viewer and everyone the viewer follows. */
  function HomeFeed(ms: seq<Message>, edges: set<Graph.FollowEdge>, u: UserId): (r: seq<Message>)
    ensures NewestFirst(r) && |r| <= FeedLimit
    ensures forall m :: m in r ==> m in ms && (m.author == u || Graph.IsFollowing(edges, u, m.author))
    ensures multiset(r) <= multiset(Authored(ms, Graph.Following(edges, u) + {u}))
  {
    Feed(ms, Graph.Following(edges, u) + {u})
  }

  /** The profile page query: `filter(Message.user_id == user_id)`. */
  function ProfileFeed(ms: seq<Message>, u: UserId): (r: seq<Message>)
    ensures NewestFirst(r) && |r| <= FeedLimit
    ensures forall m :: m in r ==> m in ms && m.author == u
    ensures multiset(r) <= multiset(Authored(ms, {u}))
  {
    Feed(ms, {u})
  }

  /** A feed shows min(100, n) of the n matching rows, each at most as often as stored, and all of them when n <= 100. */
  lemma FeedSize(ms: seq<Message>, authors: set<UserId>)
    ensures multiset(Feed(ms, authors)) <= multiset(Authored(ms, authors))
    ensures |Authored(ms, authors)| <= FeedLimit ==> multiset(Feed(ms, authors)) == multiset(Authored(ms, authors))
    ensures |Feed(ms, authors)| == if |Authored(ms, authors)| <= FeedLimit then |Authored(ms, authors)| else FeedLimit
  {
    var sorted := SortNewestFirst(Authored(ms, authors));
    assert |sorted| == |multiset(sorted)| == |Authored(ms, authors)|;
  }

  /** A matching message left out of a feed is no newer than any message the feed shows. */
  lemma FeedKeepsNewest(ms: seq<Message>, authors: set<UserId>, m: Message, f: Message)
    requires m in ms && m.author in authors
    requires m !in Feed(ms, authors)
    requires f in Feed(ms, authors)
    ensures m.timestamp <= f.timestamp
  {
    var matching := Authored(ms, authors);
    var sorted := SortNewestFirst(matching);
    assert m in matching;
    assert m in multiset(sorted);
    var k :| 0 <= k < |sorted| && sorted[k] == m;
    var feed := Feed(ms, authors);
    var j :| 0 <= j < |feed| && feed[j] == f;
    assert |sorted| > FeedLimit && feed == sorted[..FeedLimit];
    assert sorted[j] == f;
    assert k >= FeedLimit;
  }

  /** Every message of the viewer or a followed user is in the home feed or older than all of it. */
  lemma HomeFeedKeepsNewest(ms: seq<Message>, edges: set<Graph.FollowEdge>, u: UserId, m: Message, f: Message)
    requires m in ms && (m.author == u || Graph.IsFollowing(edges, u, m.author))
    requires m !in HomeFeed(ms, edges, u)
    requires f in HomeFeed(ms, edges, u)
    ensures m.timestamp <= f.timestamp
  {
    FeedKeepsNewest(ms, Graph.Following(edges, u) + {u}, m, f);
  }

  /**
   * The profile feed is exactly the newest of the user's own messages: all of
   * them when there are at most 100, otherwise 100 of them, each at most as
   * often as stored, with none left out newer.
   */
  lemma ProfileFeedExact(ms: seq<Message>, u: UserId)
    ensures multiset(ProfileFeed(ms, u)) <= multiset(Authored(ms, {u}))
    ensures |Authored(ms, {u})| <= FeedLimit ==> multiset(ProfileFeed(ms, u)) == multiset(Authored(ms, {u}))
    ensures |ProfileFeed(ms, u)| == if |Authored(ms, {u})| <= FeedLimit then |Authored(ms, {u})| else FeedLimit
    ensures forall m, f :: m in ms && m.author == u && m !in ProfileFeed(ms, u) && f in ProfileFeed(ms, u) ==> m.timestamp <= f.timestamp
  {
    FeedSize(ms, {u});
    forall m, f | m in ms && m.author == u && m !in ProfileFeed(ms, u) && f in ProfileFeed(ms, u)
      ensures m.timestamp <= f.timestamp
    {
      FeedKeepsNewest(ms, {u}, m, f);
    }
  }

  /** After a message is deleted it is in nobody's profile feed. */
  lemma DeletedMessageLeavesProfile(ms: seq<Message>, id: MessageId, u: UserId)
    ensures forall m :: m in ProfileFeed(WithoutMessage(ms, id), u) ==> m.id != id
  {
  }

  /** After a user's messages cascade away, their profile feed is empty. */
  lemma DeletedAuthorHasEmptyProfile(ms: seq<Message>, u: UserId)
    ensures ProfileFeed(WithoutAuthor(ms, u), u) == []
  {
  }

  lemma InsertAhead(m: Message, s: seq<Message>)
    requires NewestFirst(s) && (s == [] || s[0].timestamp <= m.timestamp)
    ensures InsertNewest(m, s) == [m] + s
  {
  }

  lemma InsertBehind(m: Message, s: seq<Message>)
    requires NewestFirst(s) && s != [] && s[0].timestamp > m.timestamp
    ensures InsertNewest(m, s) == [s[0]] + InsertNewest(m, s[1..])
  {
  }

  lemma SortStep(s: seq<Message>)
    requires s != []
    ensures SortNewestFirst(s) == InsertNewest(s[0], SortNewestFirst(s[1..]))
  {
  }

  lemma SortPairExample(m2: Message, m3: Message)
    requires m2.timestamp < m3.timestamp
    ensures SortNewestFirst([m2, m3]) == [m3, m2]
  {
    var one, two := [m3], [m2, m3];
    assert two[1..] == one && one[1..] == [];
    SortStep(one);
    InsertAhead(m3, []);
    assert SortNewestFirst(one) == one;
    SortStep(two);
    InsertBehind(m2, one);
    InsertAhead(m2, []);
  }

  lemma InsertLastExample(m1: Message, m2: Message, m3: Message)
    requires m1.timestamp < m2.timestamp < m3.timestamp
    ensures InsertNewest(m1, [m3, m2]) == [m3, m2, m1]
  {
    assert [m3, m2][1..] == [m2] && [m2][1..] == [];
    InsertBehind(m1, [m3, m2]);
    InsertBehind(m1, [m2]);
    InsertAhead(m1, []);
  }

  lemma SortOrderExample(m1: Message, m2: Message, m3: Message)
    requires m1.timestamp < m2.timestamp < m3.timestamp
    ensures SortNewestFirst([m1, m2, m3]) == [m3, m2, m1]
  {
    assert [m1, m2, m3][1..] == [m2, m3];
    SortStep([m1, m2, m3]);
    SortPairExample(m2, m3);
    InsertLastExample(m1, m2, m3);
  }

  /** Three followed messages stamped 1, 2 and 3 come back as [third, second, first]. */
  lemma HomeFeedOrderExample()
    ensures HomeFeed([Message(1, 2, 1, "one"), Message(2, 2, 2, "two"), Message(3, 3, 3, "three")],
                     {(1, 2), (1, 3)}, 1)
         == [Message(3, 3, 3, "three"), Message(2, 2, 2, "two"), Message(1, 2, 1, "one")]
  {
    var m1, m2, m3 := Message(1, 2, 1, "one"), Message(2, 2, 2, "two"), Message(3, 3, 3, "three");
    var edges: set<Graph.FollowEdge> := {(1, 2), (1, 3)};
    assert Graph.Following(edges, 1) + {1} == {1, 2, 3};
    SelectAll([m1, m2, m3], AuthorIn({1, 2, 3}));
    SortOrderExample(m1, m2, m3);
  }
}
