/** The social graph and the likes relation as plain sets of rows. */
module Graph {
  import opened Types

  /** A row of the follows table: (follower, followed). */
  type FollowEdge = (UserId, UserId)

  /** A row of the likes table: (user, liked message). */
  type LikeRow = (UserId, MessageId)

  predicate IsFollowing(edges: set<FollowEdge>, a: UserId, b: UserId) {
    (a, b) in edges
  }

  /** `user.following`: the users `u` follows. */
  function Following(edges: set<FollowEdge>, u: UserId): (r: set<UserId>)
    ensures forall v :: v in r <==> IsFollowing(edges, u, v)
  {
    var r := set e | e in edges && e.0 == u :: e.1;
    assert forall v :: v in r <==> IsFollowing(edges, u, v) by {
      forall v ensures v in r <==> IsFollowing(edges, u, v) {
        if IsFollowing(edges, u, v) {
          assert (u, v).1 == v;
        }
      }
    }
    r
  }

  /** `user.followers`: the users following `u`. */
  function Followers(edges: set<FollowEdge>, u: UserId): (r: set<UserId>)
    ensures forall v :: v in r <==> IsFollowing(edges, v, u)
  {
    var r := set e | e in edges && e.1 == u :: e.0;
    assert forall v :: v in r <==> IsFollowing(edges, v, u) by {
      forall v ensures v in r <==> IsFollowing(edges, v, u) {
        if IsFollowing(edges, v, u) {
          assert (v, u).0 == v;
        }
      }
    }
    r
  }

  /** `user.liked_messages`, as message ids. */
  function LikedBy(likes: set<LikeRow>, u: UserId): (r: set<MessageId>)
    ensures forall m :: m in r <==> (u, m) in likes
  {
    var r := set l | l in likes && l.0 == u :: l.1;
    assert forall m :: m in r <==> (u, m) in likes by {
      forall m ensures m in r <==> (u, m) in likes {
        if (u, m) in likes {
          assert (u, m).1 == m;
        }
      }
    }
    r
  }

  /** `following.append`: add the one edge (a, b). */
  function Follow(edges: set<FollowEdge>, a: UserId, b: UserId): (r: set<FollowEdge>)
    ensures IsFollowing(r, a, b)
    ensures forall x: UserId, y: UserId :: (x, y) != (a, b) ==> (IsFollowing(r, x, y) <==> IsFollowing(edges, x, y))
  {
    edges + {(a, b)}
  }

  /** `following.remove`: drop the one edge (a, b). */
  function Unfollow(edges: set<FollowEdge>, a: UserId, b: UserId): (r: set<FollowEdge>)
    ensures !IsFollowing(r, a, b)
    ensures forall x: UserId, y: UserId :: (x, y) != (a, b) ==> (IsFollowing(r, x, y) <==> IsFollowing(edges, x, y))
  {
    edges - {(a, b)}
  }

  /** Insert `x` when absent, delete it when present. */
  function Toggle(s: set<LikeRow>, x: LikeRow): (r: set<LikeRow>)
    ensures x in r <==> x !in s
    ensures forall y :: y != x ==> (y in r <==> y in s)
  {
    if x in s then s - {x} else s + {x}
  }

  /** Every edge touching `u` dropped (the cascade of a user deletion). */
  function WithoutUser(edges: set<FollowEdge>, u: UserId): (r: set<FollowEdge>)
    ensures forall e :: e in r <==> e in edges && e.0 != u && e.1 != u
  {
    set e | e in edges && e.0 != u && e.1 != u
  }

  /** The like rows left once the users `gone` and the messages `deleted` are removed (the cascade). */
  function DropLikes(likes: set<LikeRow>, gone: set<UserId>, deleted: set<MessageId>): (r: set<LikeRow>)
    ensures forall l :: l in r <==> l in likes && l.0 !in gone && l.1 !in deleted
  {
    set l | l in likes && l.0 !in gone && l.1 !in deleted
  }

  /** Following is directed: a new edge a -> b never makes b follow a. */
  lemma FollowIsOneWay(edges: set<FollowEdge>, a: UserId, b: UserId)
    requires a != b && !IsFollowing(edges, b, a)
    ensures a in Followers(Follow(edges, a, b), b)
    ensures b in Following(Follow(edges, a, b), a)
    ensures a !in Following(Follow(edges, a, b), b)
  {
  }

  /** Following someone not yet followed, then unfollowing them, restores the edges. */
  lemma UnfollowUndoesFollow(edges: set<FollowEdge>, a: UserId, b: UserId)
    requires !IsFollowing(edges, a, b)
    ensures Unfollow(Follow(edges, a, b), a, b) == edges
  {
  }

  /** Toggling a like twice restores the likes. */
  lemma ToggleTwice(s: set<LikeRow>, x: LikeRow)
    ensures Toggle(Toggle(s, x), x) == s
  {
  }

  /** A new edge a -> b raises a's following count and b's followers count by one, and no other count. */
  lemma FollowCounts(edges: set<FollowEdge>, a: UserId, b: UserId)
    requires !IsFollowing(edges, a, b)
    ensures |Following(Follow(edges, a, b), a)| == |Following(edges, a)| + 1
    ensures |Followers(Follow(edges, a, b), b)| == |Followers(edges, b)| + 1
    ensures forall w :: w != a ==> Following(Follow(edges, a, b), w) == Following(edges, w)
    ensures forall w :: w != b ==> Followers(Follow(edges, a, b), w) == Followers(edges, w)
  {
    var after := Follow(edges, a, b);
    assert Following(after, a) == Following(edges, a) + {b};
    assert Followers(after, b) == Followers(edges, b) + {a};
    forall w | w != a ensures Following(after, w) == Following(edges, w) {
    }
    forall w | w != b ensures Followers(after, w) == Followers(edges, w) {
    }
  }

  /** Dropping the edge a -> b lowers a's following count and b's followers count by one, and no other count. */
  lemma UnfollowCounts(edges: set<FollowEdge>, a: UserId, b: UserId)
    requires IsFollowing(edges, a, b)
    ensures |Following(Unfollow(edges, a, b), a)| == |Following(edges, a)| - 1
    ensures |Followers(Unfollow(edges, a, b), b)| == |Followers(edges, b)| - 1
    ensures forall w :: w != a ==> Following(Unfollow(edges, a, b), w) == Following(edges, w)
    ensures forall w :: w != b ==> Followers(Unfollow(edges, a, b), w) == Followers(edges, w)
  {
    var after := Unfollow(edges, a, b);
    assert Following(after, a) == Following(edges, a) - {b};
    assert Followers(after, b) == Followers(edges, b) - {a};
    forall w | w != a ensures Following(after, w) == Following(edges, w) {
    }
    forall w | w != b ensures Followers(after, w) == Followers(edges, w) {
    }
  }

  /** Toggling the like (u, m) moves u's like count by exactly one and leaves every other user's likes alone. */
  lemma ToggleLikeCounts(likes: set<LikeRow>, u: UserId, m: MessageId)
    ensures (u, m) in likes ==> |LikedBy(Toggle(likes, (u, m)), u)| == |LikedBy(likes, u)| - 1
    ensures (u, m) !in likes ==> |LikedBy(Toggle(likes, (u, m)), u)| == |LikedBy(likes, u)| + 1
    ensures forall w :: w != u ==> LikedBy(Toggle(likes, (u, m)), w) == LikedBy(likes, w)
  {
    var after := Toggle(likes, (u, m));
    if (u, m) in likes {
      assert LikedBy(after, u) == LikedBy(likes, u) - {m};
    } else {
      assert LikedBy(after, u) == LikedBy(likes, u) + {m};
    }
    forall w | w != u ensures LikedBy(after, w) == LikedBy(likes, w) {
    }
  }
}
