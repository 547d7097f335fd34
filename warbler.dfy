/**
 * The Flask routes of Warbler over one store holding the four tables
 * (users, messages, follows, likes). `user` is the logged-in user the request
 * hook put in `g.user`, passed explicitly; every route that writes returns
 * `Unauthorized` and changes nothing when it is `None`.
 */
module Warbler {
  import opened Types
  import Graph
  import Timeline

  class Store {
    var users: map<UserId, Account>
    var messages: seq<Message>
    var follows: set<Graph.FollowEdge>
    var likes: set<Graph.LikeRow>
    var nextUserId: nat       // the users id sequence
    var nextMessageId: nat    // the messages id sequence

    /** Keys are fresh, usernames and emails unique, and every foreign key resolves. */
    ghost predicate Valid()
      reads this
    {
      && (forall id :: id in users ==> id < nextUserId)
      && (forall a, b :: a in users && b in users && a != b ==>
            users[a].username != users[b].username && users[a].email != users[b].email)
      && (forall m :: m in messages ==> m.author in users && m.id < nextMessageId)
      && Timeline.DistinctIds(messages)
      && (forall e :: e in follows ==> e.0 in users && e.1 in users)
      && (forall l :: l in likes ==> l.0 in users && l.1 in Timeline.Ids(messages))
    }

    /** What `add_user_to_g` guarantees of `g.user`: none, or a stored user. */
    predicate LoggedInOrAnonymous(user: Option<UserId>)
      reads this
    {
      user.Some? ==> user.value in users
    }

    /** The username or the email of `form` already belongs to a user. */
    predicate Taken(form: SignupForm)
      reads this
    {
      exists id :: id in users && (users[id].username == form.username || users[id].email == form.email)
    }

    constructor ()
      ensures Valid()
      ensures users == map[] && messages == [] && follows == {} && likes == {}
    {
      users, messages, follows, likes := map[], [], {}, {};
      nextUserId, nextMessageId := 0, 0;
    }

    /** `add_user_to_g`: the session's user id, when it still names a user. */
    function CurrentUser(session: Option<UserId>): (user: Option<UserId>)
      reads this
      ensures LoggedInOrAnonymous(user)
      ensures user.Some? <==> session.Some? && session.value in users
      ensures user.Some? ==> user == session
    {
      if session.Some? && session.value in users then session else None
    }

    /** `signup`: a valid form with an unused username and email creates a user and logs it in. */
    method SignUp(form: Option<SignupForm>) returns (r: Response, login: Option<UserId>)
      requires Valid()
      modifies this`users, this`nextUserId
      ensures Valid()
      ensures form.None? ==>
        r == SignupFormPage(false) && login == None && users == old(users) && nextUserId == old(nextUserId)
      ensures form.Some? && old(Taken(form.value)) ==>
        r == SignupFormPage(true) && login == None && users == old(users) && nextUserId == old(nextUserId)
      ensures form.Some? && !old(Taken(form.value)) ==>
        && r == Redirect(Root)
        && login == Some(old(nextUserId)) && old(nextUserId) !in old(users)
        && users == old(users)[old(nextUserId) := Account(form.value.username, form.value.email)]
        && nextUserId == old(nextUserId) + 1
    {
      if form.None? {
        return SignupFormPage(false), None;
      }
      if Taken(form.value) {
        return SignupFormPage(true), None;
      }
      var id := nextUserId;
      users := users[id := Account(form.value.username, form.value.email)];
      nextUserId := nextUserId + 1;
      r, login := Redirect(Root), Some(id);
    }

    /** `add_follow`: add the edge (user, target); an unknown target is an error. */
    method Follow(user: Option<UserId>, target: UserId) returns (r: Response)
      requires Valid() && LoggedInOrAnonymous(user)
      modifies this`follows
      ensures Valid()
      ensures user.None? ==> r == Unauthorized && follows == old(follows)
      ensures user.Some? && target !in users ==> r == JsonError(FollowError) && follows == old(follows)
      ensures user.Some? && target in users ==> follows == Graph.Follow(old(follows), user.value, target)
      ensures user.Some? && target in users && !Graph.IsFollowing(old(follows), user.value, target) ==>
        r == DbUpdate(true)
    {
      if user.None? {
        return Unauthorized;
      }
      if target !in users {
        return JsonError(FollowError);
      }
      follows := Graph.Follow(follows, user.value, target);
      r := DbUpdate(true);
    }

    /** `stop_following`: remove the edge (user, target); a missing edge is an error. */
    method Unfollow(user: Option<UserId>, target: UserId) returns (r: Response)
      requires Valid() && LoggedInOrAnonymous(user)
      modifies this`follows
      ensures Valid()
      ensures user.None? ==> r == Unauthorized && follows == old(follows)
      ensures user.Some? && Graph.IsFollowing(old(follows), user.value, target) ==>
        r == DbUpdate(true) && follows == Graph.Unfollow(old(follows), user.value, target)
      ensures user.Some? && !Graph.IsFollowing(old(follows), user.value, target) ==>
        r == JsonError(FollowError) && follows == old(follows)
    {
      if user.None? {
        return Unauthorized;
      }
      if !Graph.IsFollowing(follows, user.value, target) {
        return JsonError(FollowError);
      }
      follows := Graph.Unfollow(follows, user.value, target);
      r := DbUpdate(true);
    }

    /** `message_like`: flip the like (user, message); an unknown message fails the commit. */
    method ToggleLike(user: Option<UserId>, messageId: MessageId) returns (r: Response)
      requires Valid() && LoggedInOrAnonymous(user)
      modifies this`likes
      ensures Valid()
      ensures user.None? ==> r == Unauthorized && likes == old(likes)
      ensures user.Some? && messageId !in Timeline.Ids(messages) ==> r == DbUpdate(false) && likes == old(likes)
      ensures user.Some? && messageId in Timeline.Ids(messages) ==>
        r == DbUpdate(true) && likes == Graph.Toggle(old(likes), (user.value, messageId))
    {
      if user.None? {
        return Unauthorized;
      }
      if messageId !in Timeline.Ids(messages) {
        return DbUpdate(false);
      }
      likes := Graph.Toggle(likes, (user.value, messageId));
      r := DbUpdate(true);
    }

    /** `messages_add`: a validated text becomes the user's newest message, stamped `now`. */
    method AddMessage(user: Option<UserId>, form: Option<string>, now: nat) returns (r: Response)
      requires Valid() && LoggedInOrAnonymous(user)
      modifies this`messages, this`nextMessageId
      ensures Valid()
      ensures user.None? ==> r == Unauthorized && messages == old(messages) && nextMessageId == old(nextMessageId)
      ensures user.Some? && form.None? ==>
        r == MessageFormPage && messages == old(messages) && nextMessageId == old(nextMessageId)
      ensures user.Some? && form.Some? ==>
        && r == Redirect(UserPage(user.value))
        && old(nextMessageId) !in old(Timeline.Ids(messages))
        && messages == old(messages) + [Message(old(nextMessageId), user.value, now, form.value)]
        && nextMessageId == old(nextMessageId) + 1
    {
      if user.None? {
        return Unauthorized;
      }
      if form.None? {
        return MessageFormPage;
      }
      var msg := Message(nextMessageId, user.value, now, form.value);
      messages := messages + [msg];
      nextMessageId := nextMessageId + 1;
      r := Redirect(UserPage(user.value));
    }

    /** `messages_destroy`: any logged-in user deletes the message; its likes go with it. */
    method DeleteMessage(user: Option<UserId>, messageId: MessageId) returns (r: Response)
      requires Valid() && LoggedInOrAnonymous(user)
      modifies this`messages, this`likes
      ensures Valid()
      ensures user.None? ==> r == Unauthorized && messages == old(messages) && likes == old(likes)
      ensures user.Some? && messageId !in old(Timeline.Ids(messages)) ==>
        r == ServerError && messages == old(messages) && likes == old(likes)
      ensures user.Some? && messageId in old(Timeline.Ids(messages)) ==>
        && r == Redirect(UserPage(user.value))
        && messages == Timeline.WithoutMessage(old(messages), messageId)
        && likes == Graph.DropLikes(old(likes), {}, {messageId})
      ensures user.Some? ==> messageId !in Timeline.Ids(messages)
      ensures user.Some? ==> forall a, m :: m in Timeline.ProfileFeed(messages, a) ==> m.id != messageId
    {
      if user.None? {
        return Unauthorized;
      }
      if messageId in Timeline.Ids(messages) {
        ghost var before := messages;
        messages := Timeline.WithoutMessage(messages, messageId);
        likes := Graph.DropLikes(likes, {}, {messageId});
        Timeline.SelectKeepsDistinctIds(before, Timeline.IdIsNot(messageId));
        forall l | l in likes ensures l.1 in Timeline.Ids(messages) {
          var m :| m in before && m.id == l.1;
          assert m in messages;
        }
        r := Redirect(UserPage(user.value));
      } else {
        r := ServerError;
      }
    }

    /** `delete_user`: the account goes, with its messages, its edges and the likes they touch. */
    method DeleteUser(user: Option<UserId>) returns (r: Response)
      requires Valid() && LoggedInOrAnonymous(user)
      modifies this`users, this`messages, this`follows, this`likes
      ensures Valid()
      ensures user.None? ==>
        && r == Unauthorized
        && users == old(users) && messages == old(messages) && follows == old(follows) && likes == old(likes)
      ensures user.Some? ==>
        && r == Redirect(Signup)
        && users == old(users) - {user.value}
        && messages == Timeline.WithoutAuthor(old(messages), user.value)
        && follows == Graph.WithoutUser(old(follows), user.value)
        && likes == Graph.DropLikes(old(likes), {user.value},
                                    Timeline.Ids(Timeline.Authored(old(messages), {user.value})))
      ensures user.Some? ==> Timeline.ProfileFeed(messages, user.value) == [] && CurrentUser(user) == None
    {
      if user.None? {
        return Unauthorized;
      }
      var u := user.value;
      ghost var before := messages;
      var authoredIds := Timeline.Ids(Timeline.Authored(messages, {u}));
      users := users - {u};
      messages := Timeline.WithoutAuthor(messages, u);
      follows := Graph.WithoutUser(follows, u);
      likes := Graph.DropLikes(likes, {u}, authoredIds);
      Timeline.SelectKeepsDistinctIds(before, Timeline.AuthorIsNot(u));
      forall l | l in likes ensures l.1 in Timeline.Ids(messages) {
        Timeline.WithoutAuthorKeepsOtherIds(before, u, l.1);
      }
      Timeline.DeletedAuthorHasEmptyProfile(before, u);
      r := Redirect(Signup);
    }

    /** `return_like_count`: how many stored messages the user likes. */
    function LikesCount(user: Option<UserId>, uid: UserId): (r: Response)
      requires Valid()
      reads this
      ensures user.None? ==> r == Unauthorized
      ensures user.Some? && uid !in users ==> r == JsonError(NoUserFound)
      ensures user.Some? && uid in users ==>
        r == JsonCount(|set id | id in Timeline.Ids(messages) && (uid, id) in likes|)
    {
      if user.None? then Unauthorized
      else if uid !in users then JsonError(NoUserFound)
      else
        assert Graph.LikedBy(likes, uid) == set id | id in Timeline.Ids(messages) && (uid, id) in likes;
        JsonCount(|Graph.LikedBy(likes, uid)|)
    }

    /** `return_following_count`: how many users the user follows. */
    function FollowingCount(user: Option<UserId>, uid: UserId): (r: Response)
      requires Valid()
      reads this
      ensures user.None? ==> r == Unauthorized
      ensures user.Some? && uid !in users ==> r == JsonError(NoUserFound)
      ensures user.Some? && uid in users ==>
        r == JsonCount(|set v | v in users && Graph.IsFollowing(follows, uid, v)|)
    {
      if user.None? then Unauthorized
      else if uid !in users then JsonError(NoUserFound)
      else
        assert Graph.Following(follows, uid) == set v | v in users && Graph.IsFollowing(follows, uid, v);
        JsonCount(|Graph.Following(follows, uid)|)
    }

    /** `return_followers_count`: how many users follow the user. */
    function FollowersCount(user: Option<UserId>, uid: UserId): (r: Response)
      requires Valid()
      reads this
      ensures user.None? ==> r == Unauthorized
      ensures user.Some? && uid !in users ==> r == JsonError(NoUserFound)
      ensures user.Some? && uid in users ==>
        r == JsonCount(|set v | v in users && Graph.IsFollowing(follows, v, uid)|)
    {
      if user.None? then Unauthorized
      else if uid !in users then JsonError(NoUserFound)
      else
        assert Graph.Followers(follows, uid) == set v | v in users && Graph.IsFollowing(follows, v, uid);
        JsonCount(|Graph.Followers(follows, uid)|)
    }

    /** `users_show`: the newest 100 messages of one user, which needs a logged-in viewer for its likes. */
    function UsersShow(user: Option<UserId>, uid: UserId): (view: ProfileView)
      reads this
      ensures uid !in users ==> view == NotFound
      ensures uid in users && user.None? ==> view == ProfileError
      ensures uid in users && user.Some? ==> view.Profile? && view.user == uid
      ensures view.Profile? ==>
        && user.Some? && view.likes == Graph.LikedBy(likes, user.value)
        && view.messages == Timeline.ProfileFeed(messages, uid)
        && multiset(view.messages) <= multiset(Timeline.Authored(messages, {uid}))
        && |view.messages| == (if |Timeline.Authored(messages, {uid})| <= Timeline.FeedLimit
                               then |Timeline.Authored(messages, {uid})| else Timeline.FeedLimit)
        && Timeline.NewestFirst(view.messages)
        && (forall m :: m in view.messages ==> m in messages && m.author == uid)
        && (forall m, f :: m in messages && m.author == uid && m !in view.messages && f in view.messages ==>
              m.timestamp <= f.timestamp)
    {
      if uid !in users then NotFound
      else if user.None? then ProfileError
      else
        Timeline.ProfileFeedExact(messages, uid);
        Profile(uid, Timeline.ProfileFeed(messages, uid), Graph.LikedBy(likes, user.value))
    }

    /** Following a user and then unfollowing them succeeds twice and restores the edges. */
    method FollowThenUnfollow(user: Option<UserId>, target: UserId) returns (first: Response, second: Response)
      requires Valid() && LoggedInOrAnonymous(user)
      requires user.Some? && target in users && !Graph.IsFollowing(follows, user.value, target)
      modifies this`follows
      ensures Valid()
      ensures first == DbUpdate(true) && second == DbUpdate(true)
      ensures follows == old(follows)
    {
      first := Follow(user, target);
      second := Unfollow(user, target);
      Graph.UnfollowUndoesFollow(old(follows), user.value, target);
    }

    /** Pressing the star twice succeeds twice and restores the likes. */
    method LikeTwice(user: Option<UserId>, messageId: MessageId) returns (first: Response, second: Response)
      requires Valid() && LoggedInOrAnonymous(user)
      requires user.Some? && messageId in Timeline.Ids(messages)
      modifies this`likes
      ensures Valid()
      ensures first == DbUpdate(true) && second == DbUpdate(true)
      ensures likes == old(likes)
    {
      first := ToggleLike(user, messageId);
      second := ToggleLike(user, messageId);
      Graph.ToggleTwice(old(likes), (user.value, messageId));
    }

    /** `homepage`: anonymous visitors see no messages; a user sees the feed of everyone in following_ids. */
    method Homepage(user: Option<UserId>) returns (view: HomeView)
      ensures user.None? ==> view == AnonHome
      ensures user.Some? ==>
        view == Home(Timeline.HomeFeed(messages, follows, user.value), Graph.LikedBy(likes, user.value))
    {
      if user.None? {
        return AnonHome;
      }
      var me := user.value;
      var following := Graph.Following(follows, me);
      // the followed users' ids, then the viewer's own id
      var ids: seq<UserId> := [];
      var rest := following;
      while rest != {}
        invariant rest <= following
        invariant forall v :: v in ids <==> v in following && v !in rest
        decreases rest
      {
        var v :| v in rest;
        ids := ids + [v];
        rest := rest - {v};
      }
      ids := ids + [me];
      // the followed users' ids a second time
      rest := following;
      while rest != {}
        invariant rest <= following
        invariant forall v :: v in ids <==> v in following || v == me
        decreases rest
      {
        var v :| v in rest;
        ids := ids + [v];
        rest := rest - {v};
      }
      var authors := set v | v in ids;
      assert authors == following + {me};
      view := Home(Timeline.Feed(messages, authors), Graph.LikedBy(likes, me));
    }
  }
}
