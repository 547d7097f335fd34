# Warbler social graph, likes and timelines in Dafny

Warbler is a small Flask application: users post short messages, follow each
other and like messages. Its only logic beyond page rendering is in the route
handlers of `app.py`. They maintain four tables (users, messages, follows,
likes) and answer two feed queries. This project models those tables as one
`Warbler.Store` object and the routes as its methods and functions:

- `types.dfy`: ids, the `Message` row, the route responses (`jsonify(dbupdate=...)`,
  `jsonify(error=...)`, `jsonify(count=...)`, redirects, forms shown again, an
  uncaught exception) and the two page views.
- `graph.dfy` (module `Graph`): follow edges and like rows as sets; the
  `following`, `followers` and `liked_messages` relations; the single-edge
  updates; and lemmas on how each update moves the counts.
- `timeline.dfy` (module `Timeline`): the feed query: select by author, order by
  timestamp descending, limit 100. Includes lemmas that a feed is ordered,
  bounded, drawn only from the right authors, and keeps the newest messages.
- `warbler.dfy` (module `Warbler`): class `Store`. Its fields are the four tables
  and the two id sequences. `Valid()` is the invariant: ids are fresh,
  usernames and emails are unique, and every foreign key resolves. Each
  mutating route is a method with a `modifies` frame naming exactly the tables
  it writes. The count routes and the profile page are functions of the state.
  The home page is a method, because `homepage` builds `following_ids` with a
  loop.

The logged-in user (`g.user`) is an explicit `Option<UserId>` parameter.
`CurrentUser` models the request hook that resolves the session id to a stored
user, and every route requires what that hook guarantees. With no user, every
route that takes the logged-in user and writes returns `Unauthorized` before changing anything, and the home
page is the anonymous page without messages.

Behaviour the code has that a reader might not expect:
- Unfollowing a user who is not followed, or who does not exist, is an error:
  `following.remove` raises and the route answers with the error JSON. It is
  not an idempotent no-op.
- Any logged-in user may delete any message: there is no authorship check.
- Self-follow is not rejected.
- `users_show` reads `g.user.liked_messages` without the login guard. For an
  anonymous viewer of an existing user the route raises, and the model returns
  `ProfileError`.
- `messages_destroy` on an unknown id passes `None` to `db.session.delete`,
  which raises before the commit. The model answers `ServerError` and changes
  nothing.
- `message_like` on an unknown message id inserts a like row whose foreign key
  fails at commit. The route answers `dbupdate=False`, and the model leaves the
  likes unchanged.

## Model

| member | source | states |
|---|---|---|
| Warbler.Store.CurrentUser | app.py:33-41 | the request's user is the session's id exactly when that id names a stored user, and none otherwise |
| Warbler.Store.SignUp | app.py:61-94 | an invalid form re-renders with no change; a username or email already in use re-renders with the "taken" flash and no change; otherwise exactly one user with a fresh id is added and logged in, and the invariant holds |
| Warbler.Store.Follow | app.py:192-208 | no login: Unauthorized, edges unchanged; unknown target: the error JSON, edges unchanged; otherwise the edge set becomes old edges plus (user, target) and nothing else; a first follow answers dbupdate true; only the follows table is written |
| Warbler.Store.Unfollow | app.py:213-229 | no login: Unauthorized; an existing edge is removed alone, answering dbupdate true; a missing edge or unknown target gives the error JSON with edges unchanged |
| Warbler.Store.ToggleLike | app.py:383-404 | no login: Unauthorized; unknown message: dbupdate false with likes unchanged; otherwise likes are the old likes with (user, message) flipped, answering dbupdate true |
| Warbler.Store.AddMessage | app.py:339-359 | no login: Unauthorized; form not valid: form shown again, no change; otherwise exactly one message with a fresh id, the user as author and the given timestamp is appended, and the route redirects to the user's page |
| Warbler.Store.DeleteMessage | app.py:369-381 | no login: Unauthorized; any logged-in user deletes the message and its likes, with no authorship check; afterwards the id is in no table and in no profile feed |
| Warbler.Store.DeleteUser | app.py:265-278 | no login: Unauthorized; otherwise the user, all their messages, every edge touching them and every like by them or on their messages are removed; their profile feed is empty and their session no longer resolves |
| Warbler.Store.LikesCount | app.py:294-306 | no login: Unauthorized; unknown user: "No user found"; otherwise the count is the number of stored messages the user likes |
| Warbler.Store.FollowingCount | app.py:308-320 | no login: Unauthorized; unknown user: "No user found"; otherwise the count is the number of users this user follows |
| Warbler.Store.FollowersCount | app.py:322-334 | no login: Unauthorized; unknown user: "No user found"; otherwise the count is the number of users following this user |
| Warbler.Store.UsersShow | app.py:146-165 | unknown user: not found; no login: error; otherwise the page shows the user's profile feed: min(100, n) of the user's n messages, a sub-multiset of them (no row shown more often than stored), newest first, all stored and by that user, and every message of theirs not shown is no newer than all shown; the likes are the viewer's |
| Warbler.Store.Homepage | app.py:432-456 | anonymous: the page without messages; logged in: the feed of the id list built by the two loops, which as a set is the user plus everyone they follow, with the user's liked ids |
| Warbler.Store.FollowThenUnfollow | app.py:201-227 | follow then unfollow of a user not yet followed both answer dbupdate true, and the edges end where they started |
| Warbler.Store.LikeTwice | app.py:390-404 | pressing the like star twice answers dbupdate true twice, and the likes end where they started |
| Graph.Following | app.py:317 | `user.following`: v is in the set exactly when the edge (u, v) is stored |
| Graph.Followers | app.py:331 | `user.followers`: v is in the set exactly when the edge (v, u) is stored |
| Graph.LikedBy | app.py:303 | `user.liked_messages`: m is in the set exactly when the like row (u, m) is stored |
| Graph.Follow | app.py:203 | after following, a follows b, and every other pair's membership is unchanged |
| Graph.Unfollow | app.py:224 | after unfollowing, a does not follow b, and every other pair's membership is unchanged |
| Graph.Toggle | app.py:392-397 | the toggled row's membership flips, and every other row's membership is unchanged |
| Graph.WithoutUser | app.py:275 | the edges left after a user is deleted are exactly the stored edges touching neither end at that user |
| Graph.DropLikes | app.py:378 | the like rows left after a message or account deletion are exactly those by no deleted user and on no deleted message |
| Graph.FollowIsOneWay | test_user_model.py:99-119 | a new edge a -> b makes a a follower of b and b followed by a, but does not make b follow a |
| Graph.UnfollowUndoesFollow | app.py:201-227 | unfollowing after following a user not yet followed restores the edge set |
| Graph.ToggleTwice | app.py:392-397 | toggling the same like twice restores the like set |
| Graph.FollowCounts | app.py:308-334 | a new edge a -> b raises a's following count and b's followers count by exactly one, and leaves every other user's sets unchanged |
| Graph.UnfollowCounts | app.py:308-334 | removing the edge a -> b lowers a's following count and b's followers count by exactly one, and leaves every other user's sets unchanged |
| Graph.ToggleLikeCounts | app.py:294-306 | toggling (u, m) lowers u's like count by one when the like was there and raises it by one otherwise, and leaves every other user's likes unchanged |
| Timeline.Select | app.py:444-446 | the selected rows are exactly the stored rows the filter keeps |
| Timeline.Authored | app.py:446 | the selected rows are exactly the stored messages whose author is in the set |
| Timeline.WithoutMessage | app.py:378 | the rows left are exactly the stored messages with another id |
| Timeline.WithoutAuthor | app.py:275 | the rows left are exactly the stored messages by other authors |
| Timeline.InsertNewest | app.py:447 | inserting into a newest-first sequence keeps it newest first and adds exactly that message |
| Timeline.SortNewestFirst | app.py:447 | the result is newest first and a permutation of the input |
| Timeline.SelectKeepsDistinctIds | app.py:378 | deleting rows keeps message ids unique |
| Timeline.Newest | app.py:448 | `.limit(100)`: the first min(100, n) of the n rows, in their order |
| Timeline.Feed | app.py:444-449 | a feed is ordered by timestamp, newest first, holds at most 100 messages, every message in it is stored and written by one of the selected authors, and as a multiset it is contained in the matching rows |
| Timeline.HomeFeed | app.py:440-449 | the home feed is newest first, holds at most 100 messages, and holds only stored messages by the user or by a user they follow, each at most as often as stored |
| Timeline.ProfileFeed | app.py:154-159 | the profile feed is newest first, holds at most 100 messages, and holds only stored messages by that user, each at most as often as stored |
| Timeline.FeedSize | app.py:444-449 | a feed holds min(100, n) of the n matching messages as a sub-multiset of them, and all of them when n is at most 100 |
| Timeline.FeedKeepsNewest | app.py:444-449 | a matching message left out of a feed is no newer than any message the feed shows |
| Timeline.HomeFeedKeepsNewest | app.py:440-449 | every message by the user or a followed user is in the home feed or no newer than all of it |
| Timeline.ProfileFeedExact | app.py:154-159 | the profile feed holds min(100, n) of the user's n messages as a sub-multiset of them (all of them when n is at most 100), and no message of theirs left out is newer than one shown |
| Timeline.DeletedMessageLeavesProfile | test_message_views.py:97-113 | after a message is deleted, no profile feed shows it |
| Timeline.DeletedAuthorHasEmptyProfile | test_message_model.py:72-78 | after a user's messages cascade away, their profile feed is empty |
| Timeline.HomeFeedOrderExample | app.py:444-449 | followed messages stamped 1, 2 and 3 come back as the third, then the second, then the first |

## Left out

- Flask plumbing (routing, templates, `flash`, the session cookie, `do_login` and `do_logout`, the debug toolbar, the cache headers of `add_header`) is I/O and is not modelled. A route's response is a value of `Response`, and a redirect is its target.
- Transactions, commit failures, rollback and database connectivity are not modelled. Each route is atomic on success and a no-op on the error paths the code has.
- Passwords, `User.signup`'s hashing, `User.authenticate`, `login` and the profile update in `profile` are not modelled. They rest on a hashing library and on `models.py`, which is not part of this model. `SignUp` stands for the signup route only: the uniqueness of username and email is the database constraint that the tests assert. Empty-password rejection and null columns are not modelled.
- The user search in `list_users` is not modelled. It relies on SQL `LIKE` matching, which the database implements.
- `show_following`, `users_followers`, `show_likes` and `messages_show` only render pages. They are not modelled; what they show is `Graph.Following`, `Graph.Followers` and `Graph.LikedBy`.
- Warbler.Store.Follow: the response to following a user already followed is not stated. It depends on the key of the follows table in `models.py`. The contract states only that the edges are unchanged, which holds either way.
- The cascades of follows and likes on account or message deletion are modelled as referential integrity requires. The foreign-key options live in `models.py`, which is not part of this model. The cascade of messages with their author is the behaviour the tests assert.
- Form validation (`UserAddForm`, `MessageForm`) lives in `forms.py`, which is not part of this model. A form arrives as `None` when it does not validate, and as the submitted values when it does. Message text length is not modelled.
- Timestamps are opaque naturals supplied by the caller, standing for the database default. Ids come from counters that stand for the database sequences.
- SQL leaves the order of messages with equal timestamps unspecified. The model breaks ties by table order, and no lemma depends on that choice.
- The browser side (`static/warbler.js`) is not modelled: it turns the star over only when `dbupdate` is true.
