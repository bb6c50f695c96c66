# mflix data-access objects, modelled in Dafny

This project models the two data-access objects of the mflix application, `UserDao` and
`CommentDao`. They sit between the web layer and three MongoDB collections: `users`,
`sessions` and `comments`. The driver calls are library code. The rules the DAOs apply
around those calls belong to the application, and they are what the model captures:

- registration rejects an email that is already present;
- a login replaces the user's earlier sessions, so each user has at most one session;
- deleting a user first deletes the sessions keyed by that email;
- preferences are replaced as a whole map;
- a comment can be edited or deleted only by its author, whose email must be given and must match exactly;
- the commenter report groups comments by author email, counts them, sorts by count (largest first) and keeps the first 20.

Layout:

- `Driver.dfy` (module `Driver`) gives the driver primitives the DAOs use a meaning over
  in-memory collections. A collection is a sequence of documents in natural order.
  `find(eq(f, v)).first()` is the first match or none. `insertOne` appends.
  `deleteMany` removes every match. `deleteOne` and `updateOne` act on the first match only.
  This module also holds the exception kinds and the `Fault` input, which says which driver
  call of an operation fails.
- `Models.dfy` (module `Models`) holds the documents `User`, `Session` and `Comment`, and the
  `Critic` report row.
- `Users.dfy` (module `Users`) holds class `UserDao`, whose fields `users` and `sessions`
  the methods update in place.
- `Comments.dfy` (module `Comments`) holds class `CommentDao` with its field `comments`.
- `CommenterReport.dfy` (module `CommenterReport`) holds the report pipeline as functions,
  plus `IsLeaderboard`, the report's contract.

How exceptions and acknowledgements are modelled:

- A DAO method returns `Outcome<T>`: either `Ok(value)` or `Thrown(kind)`. The kinds are
  `MongoException`, `IllegalArgumentException` and `IncorrectDaoOperation`.
- A failing driver call throws `MongoException` and is modelled as having no effect (see
  "Left out" for writes that are applied and still throw). The calls before it keep
  their effect. So `deleteUser` can fail after the sessions are already gone, and
  `addComment` can throw after the comment is already stored.
- `wasAcknowledged()` and `isModifiedCountAvailable()` are true for every write that does not
  throw. So `updateComment`, `deleteComment`, `deleteUserSessions`, `deleteUser` and
  `updateUserPreferences` report true even when no document was changed. For example,
  `updateUserPreferences` reports true when no user has the given email.
- Null arguments that the code checks (`comment`, the caller's `email`, `userPreferences`)
  are `Option` values.

## Model

| member | source | states |
|---|---|---|
| `Driver.FirstIndex` | src/main/java/mflix/api/daos/UserDao.java:118 | the position `first()` acts on: none exactly when nothing matches, otherwise a matching position with no match before it |
| `Driver.FindFirst` | src/main/java/mflix/api/daos/CommentDao.java:66 | `find(eq(f, v)).first()`: null exactly when nothing matches, otherwise the document at the first matching position |
| `Driver.Select` | src/main/java/mflix/api/daos/CommentDao.java:193 | the documents matching `eq(f, v)`: exactly the stored documents with that field value |
| `Driver.DeleteMany` | src/main/java/mflix/api/daos/UserDao.java:136 | `deleteMany(eq(f, v))` keeps exactly the documents that do not match, and changes nothing when none matches |
| `Driver.DeleteOne` | src/main/java/mflix/api/daos/CommentDao.java:163 | `deleteOne(eq(f, v))` removes only the document at the first matching position, and changes nothing when none matches |
| `Driver.SelectAfterDeleteMany` | src/main/java/mflix/api/daos/UserDao.java:136 | after `deleteMany(eq(f, v))` nothing matches `v`, and the documents matching any other value are the same, in the same order |
| `Driver.SelectAppend` | src/main/java/mflix/api/daos/UserDao.java:103 | `insertOne(x)` adds `x` to the matches of its own key and changes no other key's matches |
| `Driver.FindFirstAppendFresh` | src/main/java/mflix/api/daos/UserDao.java:71-77 | after inserting a document whose key was absent, `first()` on that key returns it |
| `Driver.FindFirstUnique` | src/main/java/mflix/api/daos/CommentDao.java:66 | under a unique key, `first()` on a stored document's key returns that document |
| `Driver.UniqueKeysAppend` | src/main/java/mflix/api/daos/UserDao.java:68-71 | inserting a document only after finding its key absent keeps the key unique |
| `Driver.UniqueKeysDeleteMany` | src/main/java/mflix/api/daos/UserDao.java:152 | `deleteMany` on any filter keeps a key unique |
| `Driver.UniqueKeysDeleteOne` | src/main/java/mflix/api/daos/CommentDao.java:163 | under a unique key, after `deleteOne` nothing matches, the key stays unique, every non-matching document remains, and the size drops by one exactly when something matched |
| `Driver.UpdateFirstMatch` | src/main/java/mflix/api/daos/CommentDao.java:131 | `updateOne` that rewrites the first match but keeps its key keeps the key unique, and `first()` then returns the rewritten document |
| `Users.WithPreferences` | src/main/java/mflix/api/daos/UserDao.java:177 | `set("preferences", p)` makes the preferences exactly `p` and keeps name, email and password material |
| `Users.ReplaceSession` | src/main/java/mflix/api/daos/UserDao.java:99-102 | the sessions after `deleteMany(eq("user_id", u))` then `insertOne`: the new session comes last, and a session is kept exactly when it is the new one or belonged to another user |
| `Users.SessionReplacement` | src/main/java/mflix/api/daos/UserDao.java:92-104 | after delete-then-insert, the user's sessions are exactly `[Session(u, jwt)]`, every other user's sessions are unchanged and in order, and at most one session per user still holds |
| `Users.DeleteUserCascade` | src/main/java/mflix/api/daos/UserDao.java:146-156 | after both deletes, no user has the email and no session is keyed by it, every other user and session remains, and both uniqueness invariants still hold |
| `Users.UserDao.AddUser` | src/main/java/mflix/api/daos/UserDao.java:64-78 | a present email throws IncorrectDaoOperation and leaves users unchanged; a fresh email appends the user, `first()` then finds it, and the result is true; driver failures propagate raw; at most one user per email still holds |
| `Users.UserDao.CreateUserSession` | src/main/java/mflix/api/daos/UserDao.java:87-104 | with no failure, returns true and leaves exactly one session for the user, carrying `jwt`; other users' sessions never change; a failing insert leaves the user with no session |
| `Users.UserDao.GetUser` | src/main/java/mflix/api/daos/UserDao.java:116-119 | the first user with the email, or none exactly when no user has it; when emails are unique, it is the one stored user with that email |
| `Users.UserDao.GetUserSession` | src/main/java/mflix/api/daos/UserDao.java:127-132 | the first session with the `user_id`, or none exactly when there is none; when sessions are one per user, it is that session |
| `Users.UserDao.DeleteUserSessions` | src/main/java/mflix/api/daos/UserDao.java:134-138 | removes every session of the user, keeps all others in order, and returns true (acknowledged); a driver failure propagates and changes nothing |
| `Users.UserDao.DeleteUser` | src/main/java/mflix/api/daos/UserDao.java:146-159 | deletes the sessions keyed by the email, then the users with it; returns true exactly when neither call failed; a failure becomes false and leaves what was already deleted deleted; nothing else is removed |
| `Users.UserDao.UpdateUserPreferences` | src/main/java/mflix/api/daos/UserDao.java:169-185 | null preferences give false and no change; otherwise the first user with the email gets exactly the new map, no other user or field changes, the result is true even with no match, and a driver failure becomes IncorrectDaoOperation |
| `Comments.Edited` | src/main/java/mflix/api/daos/CommentDao.java:129 | the update sets `text` and `date` and keeps id, movie, name and author email |
| `Comments.OwnedBy` | src/main/java/mflix/api/daos/CommentDao.java:126-127 | the guard of updateComment and deleteComment: it passes only with a non-null email equal to the author email of a stored comment with that id, and fails when the email is null or no comment has the id |
| `Comments.OwnedByMeans` | src/main/java/mflix/api/daos/CommentDao.java:127 | the ownership check passes exactly when a comment with that id is stored and the given email is non-null and equals its author email |
| `Comments.CommentDao.GetComment` | src/main/java/mflix/api/daos/CommentDao.java:65-67 | a malformed id throws IllegalArgumentException; otherwise the comment with that id, or none exactly when no comment has it |
| `Comments.CommentDao.AddComment` | src/main/java/mflix/api/daos/CommentDao.java:80-102 | null gives null and no change; a fresh id appends exactly that comment and returns it; a duplicate id or a failing insert throws IncorrectDaoOperation with no change; a malformed id or a failing re-read throws IncorrectDaoOperation with the comment already stored |
| `Comments.CommentDao.UpdateComment` | src/main/java/mflix/api/daos/CommentDao.java:117-140 | an absent comment, a null email or another author's email gives false and no change; the author's email edits only that comment's text and date and gives true; a malformed id or a driver failure becomes IncorrectDaoOperation with no change |
| `Comments.CommentDao.DeleteComment` | src/main/java/mflix/api/daos/CommentDao.java:149-173 | a failed ownership check gives false and removes nothing; the author removes exactly that comment, after which `getComment` finds none and every other comment remains; a malformed id or a driver failure becomes IllegalArgumentException |
| `Comments.CommentDao.MostActiveCommenters` | src/main/java/mflix/api/daos/CommentDao.java:182-198 | the list copied from the pipeline's cursor meets the report's contract, whatever order ties come in; with at most 20 authors it lists every one of them |
| `CommenterReport.Authors` | src/main/java/mflix/api/daos/CommentDao.java:193 | the `$group` keys: each email that some comment carries, each exactly once |
| `CommenterReport.CountOf` | src/main/java/mflix/api/daos/CommentDao.java:193 | the size of an email's group: at most the number of comments, and positive exactly when some comment carries the email |
| `CommenterReport.CountOfAppend` | src/main/java/mflix/api/daos/CommentDao.java:193 | `sum("count", 1L)`: the empty collection counts 0 for every email, and each further comment adds one to its own email's count and nothing to any other |
| `CommenterReport.Tally` | src/main/java/mflix/api/daos/CommentDao.java:193 | one row per author email, whose count is the number of comments with that email; no other rows |
| `CommenterReport.InsertByCount` | src/main/java/mflix/api/daos/CommentDao.java:194 | inserting into a count-descending sequence yields the old rows plus exactly the new one (as a multiset), stays descending, and keeps emails distinct |
| `CommenterReport.SortByCount` | src/main/java/mflix/api/daos/CommentDao.java:194 | `sort(descending("count"))` returns a permutation of its input (same multiset of rows) in non-increasing count order, and keeps emails distinct |
| `CommenterReport.TopRowsOfSorted` | src/main/java/mflix/api/daos/CommentDao.java:194 | `limit(20)` applied to a sorted tally with one true-count row per author gives at most 20 rows with distinct emails and true counts, in non-increasing order, leaving out only authors whose count is no larger than the last row's of a full list |
| `CommenterReport.Leaderboard` | src/main/java/mflix/api/daos/CommentDao.java:193-195 | the pipeline's result meets the report's contract: at most 20 rows with distinct emails; each count is that author's true count; counts do not increase; an author left out means the list is full and the author's count is no larger than the last row's |
| `CommenterReport.FewAuthorsAllListed` | src/main/java/mflix/api/daos/CommentDao.java:193-194 | for every result the report's contract accepts, whatever its tie order: with at most 20 distinct author emails, it lists every one of them and has exactly as many rows as authors |

`Users.AccountLifecycle` and `Comments.CommentLifecycle` are client methods. They take a user and a comment through the steps a caller would, and check with assertions that the contracts above are enough to predict every result.

## Left out

- The framework wiring is not modelled: Spring, the `MongoClient` and database handles, the POJO codec registries and the loggers. These are configuration, not decisions of the DAOs.
- Write concern `MAJORITY` and read concern `MAJORITY` are not modelled. Every write and read is a plain sequential step, because replica-set durability has no sequential meaning.
- Concurrency is not modelled. Each DAO method is one atomic step, so the check-then-act windows in `createUserSession`, `addUser`, `updateComment` and `deleteComment` cannot be raced.
- ObjectId hex parsing is not modelled. `CommentDao.validId` is a constructor input saying which strings `new ObjectId` accepts. Ids are compared as strings, so two spellings of one ObjectId (upper- and lower-case hex) count as different ids.
- Driver failures on read-only calls are not modelled. `getUser`, `getUserSession`, `getComment` with a valid id and `mostActiveCommenters` take no `Fault`. None of them catches anything, so such a failure would propagate unchanged.
- AddUser, CreateUserSession, DeleteUserSessions, DeleteUser, UpdateUserPreferences, AddComment, UpdateComment and DeleteComment: a failing write is modelled as having had no effect. The real driver can throw after the server applied the write, for example when the reply is lost or when the `MAJORITY` write concern is not met after the primary applied an insert. The model does not capture a write that took effect and still threw.
- A failing `deleteMany` is all-or-nothing in this model. A real multi-document delete can stop partway.
- Null is modelled only where the code tests for it. A null user, user email, id, text or jwt is not modelled, and neither is a stored comment with no email (which `$group` would collect under a null key).
- The report's tie order is not fixed. `IsLeaderboard` allows any order among equal counts. `Leaderboard` is one such result and proves that the contract can be met. The facts about the report, such as `FewAuthorsAllListed`, are proved for every result the contract accepts.
- Session tokens are not unique. A comment inside `createUserSession`, after its `return true`, mentions a safeguard against duplicate tokens, but no such code exists, so no uniqueness of `jwt` is modelled or claimed.
- The wall clock is not modelled: `now` is a parameter of `UpdateComment`, and `date` is an integer timestamp.
- The `User`, `Session`, `Comment` and `Critic` classes are not part of this model. The records carry only the fields the DAOs read or write, and preference values are opaque strings.
- Unacknowledged writes are not modelled. With the default acknowledged write concern, `wasAcknowledged()` and `isModifiedCountAvailable()` are true whenever the call does not throw.
