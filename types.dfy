/** Entities of the Warbler store and the responses its routes produce. */
module Types {

  /** Primary keys of the users and messages tables. */
  type UserId = nat
  type MessageId = nat

  datatype Option<+T> = None | Some(value: T)

  /** A row of the messages table: timestamps are opaque, ordered naturals. */
  datatype Message = Message(id: MessageId, author: UserId, timestamp: nat, text: string)

  /** The identifying columns of a user row (password hash and profile fields left out). */
  datatype Account = Account(username: string, email: string)

  /** What the signup form hands over when it validates. */
  datatype SignupForm = SignupForm(username: string, email: string)

  /** Redirect targets: "/", "/signup" and "/users/<id>". */
  datatype Location = Root | Signup | UserPage(id: UserId)

  /** The response of a mutating or counting route. */
  datatype Response =
    | Unauthorized                       // flash "Access unauthorized." and redirect to "/"
    | DbUpdate(updated: bool)            // jsonify(dbupdate=...)
    | JsonError(error: string)           // jsonify(error=...)
    | JsonCount(count: nat)              // jsonify(count=...)
    | Redirect(to: Location)
    | SignupFormPage(usernameTaken: bool) // re-rendered signup form, with or without the flash
    | MessageFormPage                    // the new-message form, shown again
    | ServerError                        // an exception the route does not catch

  /** The home page: the anonymous page, or a feed with the viewer's liked message ids. */
  datatype HomeView = AnonHome | Home(messages: seq<Message>, likes: set<MessageId>)

  /** The profile page of one user. */
  datatype ProfileView =
    | NotFound                           // get_or_404 on an unknown user id
    | ProfileError                       // no logged-in user: g.user.liked_messages raises
    | Profile(user: UserId, messages: seq<Message>, likes: set<MessageId>)

  const FollowError: string := "error in database. unable to update following status."
  const NoUserFound: string := "No user found"
}
