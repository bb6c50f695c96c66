/** The documents of the three collections `users`, `sessions` and `comments`, and the
    `Critic` rows that the commenter report produces. Each accessor function below is the
    field a DAO filters on with `Filters.eq`. */
module Models {

  /** A user's preferences: string keys to opaque values. */
  type Preferences = map<string, string>

  /** A document of `users`. The password material is opaque to the DAO. */
  datatype User = User(name: string, email: string, hashedpw: string, preferences: Preferences)

  /** A document of `sessions`: the owner's id (`user_id`) and the session's token. */
  datatype Session = Session(userId: string, jwt: string)

  /** A document of `comments`. `id` is the string form of `_id`; `date` is a timestamp. */
  datatype Comment = Comment(id: string, movieId: string, name: string, email: string, text: string, date: int)

  /** A row of the commenter report: an author email and how many comments carry it. */
  datatype Critic = Critic(email: string, count: nat)

  /** The field `email` of `users`. */
  function UserEmail(u: User): string { u.email }

  /** The field `user_id` of `sessions`. */
  function SessionUserId(s: Session): string { s.userId }

  /** The field `_id` of `comments`. */
  function CommentId(c: Comment): string { c.id }

  /** The field `email` of `comments`. */
  function CommentEmail(c: Comment): string { c.email }

  /** The grouping key of a report row. */
  function CriticEmail(k: Critic): string { k.email }
}
