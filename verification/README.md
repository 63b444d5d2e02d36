# Message.ly: users, credentials and message access control in Dafny

Message.ly is a small messaging service. Registered users send each other text messages. Each
user can read what they sent and received, and can mark received messages as read. This project
models the two parts of it that own data and decide who may do what:

- **The User model** (`models/user.js`) is modelled as the class `UserModel.UserStore`. It holds
  the `users` table as a map keyed by username and the `messages` table as a sequence of rows.
  It has one member per SQL statement:
  - `Register` inserts a row that holds the bcrypt hash of the password. `join_at` and
    `last_login_at` both get the current time.
  - `Authenticate` compares a password with the stored hash. It stamps `last_login_at` only
    when they match.
  - `UpdateLoginTimestamp` performs the UPDATE.
  - `All` and `Get` are the listing and profile queries.
  - `MessagesFrom` and `MessagesTo` are the correspondence queries. They are inner joins, and
    each row's other party is nested as `to_user` or `from_user`.
- **The message routes** (`routes/messages.js`) are modelled in the module `MessageRoutes`.
  Two pure policies decide access: `IsParticipant` (sender or recipient, for viewing) and
  `IsRecipient` (for marking read). `ViewMessage` checks `IsParticipant` and
  `MarkMessageRead` checks `IsRecipient`. Both fetch the stored message before they decide.
  Only `MarkMessageRead` makes a mutating call, and only on the allowed branch. `PostMessage`
  makes no lookup: it takes the sender from the caller identity.

The model stands in for several outside pieces:

- bcrypt is a `Password.PasswordHasher`: a pair of uninterpreted functions,
  `hash(plaintext, salt)` and `compare(plaintext, hash)`. The model states what it relies on
  about them as two predicates:
  - `Sound`: a password matches every hash made from it, and no hash equals its own plaintext.
  - `Distinguishes`: no other password matches.

  `Password.StandIn` is a concrete hasher that satisfies both predicates, which shows they are
  consistent.
- The random salt and `CURRENT_TIMESTAMP` are parameters (`salt`, `now`).
- The Message model (`models/message.js`) is not part of this model. Its three operations are
  the class `MessageModel.Ledger`:
  - `Get` returns a stored snapshot with the shape the routes document.
  - `Create` and `MarkRead` record the call they receive in `calls`. They promise nothing
    about what they store.

The method `UserModel.SignUpThenLogIn` is a verified example, not part of the model. It
registers a user, fails to log in with a wrong password, then logs in with the right one.

Dafny field names are camel-case versions of the SQL columns: `firstName` is `first_name`,
`joinAt` is `join_at`, `toUser` is `to_user`, and so on.

Modelling choices that follow the code or the database schema:

- `register` returns the hashed password along with the profile fields (its RETURNING clause
  and its doc comment say so). It does not leave the hash out.
- `messagesTo` nests `{username, first_name, last_name, phone}` as `from_user`. Its doc comment
  lists `id` where the code has `username`.
- The message routes use no logged-in guard. They read `res.locals.user.username` directly, so a
  request without a resolved identity fails with a TypeError (`NoCaller` here), not with an
  Unauthorized error. In the view and read routes this happens only after the message lookup,
  so an unknown id still answers NotFound first.
- A duplicate username is rejected by the users table's primary key, not by the code. The model
  returns `DuplicateUsername` and leaves both tables unchanged.
- `models/message.js` is not part of this model; `Message.get` is assumed to fail with NotFound
  for an unknown id.
- The id column is the messages table's primary key. The store invariant `Valid()` includes
  `DistinctIds(messages)`, and the constructor requires it of the initial table.

## Model

| member | source | states |
|---|---|---|
| `UserModel.NewRow` | models/user.js:20-26 | The inserted row copies username, first_name, last_name and phone unchanged. Its password column is `hash(password, salt)`, which for a sound hasher differs from the plaintext and is accepted by `compare`. `join_at` and `last_login_at` are the same current timestamp. |
| `UserModel.UserStore.Register` | models/user.js:18-29 | For a new username, the users table gains exactly that row and nothing else changes. The result is {username, hashed password, first_name, last_name, phone}. An existing username fails with DuplicateUsername and changes nothing. The store invariant holds: every stored password is the hash of a known plaintext. |
| `UserModel.UserStore.Authenticate` | models/user.js:33-47 | An unknown username fails with NotFound and changes nothing. Otherwise the result is `compare(password, stored hash)`. The table becomes the after-login table exactly when that is true, and stays as it was when it is false. For a sound hasher the registered password yields true. For a collision-free hasher any other password yields false. |
| `UserModel.AfterLogin` | models/user.js:51-57 | The UPDATE keeps the set of users. It changes no other user. For the named user it sets `last_login_at` to now and changes no other column. An unknown username changes nothing. It keeps the table keyed by username. |
| `UserModel.UserStore.UpdateLoginTimestamp` | models/user.js:51-57 | The users table becomes the after-login table; the messages table and the store invariant are preserved. |
| `UserModel.UserStore.All` | models/user.js:62-68 | Exactly one entry per stored user: the result has as many entries as there are users, every user appears, no username appears twice, and each entry is that user's {username, first_name, last_name} and nothing more. |
| `UserModel.UserStore.Get` | models/user.js:79-88 | Fails with NotFound iff the username is absent. Otherwise it returns that user's username, names, phone and both timestamps as stored. The result type has no password field. |
| `UserModel.Sent` | models/user.js:99-105 | The join of messages with `from_username = u` against users on `to_username`. Every entry comes from such a message whose recipient exists, reshaped with the recipient's profile. Every such message appears in the result. When message ids are distinct (the table's key), no two entries share an id, so each matching message appears exactly once. |
| `UserModel.Received` | models/user.js:126-132 | The mirror join: messages with `to_username = u` against users on `from_username`. Every entry comes from such a message whose sender exists, with the sender's profile, and every such message appears. When message ids are distinct, no two entries share an id, so each appears exactly once. |
| `UserModel.UserStore.MessagesFrom` | models/user.js:98-115 | Fails with NotFound iff no message is from `u` to an existing user. Otherwise an entry is in the result iff it is {id, body, sent_at, read_at, to_user} of such a message, and `to_user` is the recipient's {username, first_name, last_name, phone}. With the messages key in place, no two entries share an id: one entry per matching message. |
| `UserModel.UserStore.MessagesTo` | models/user.js:125-141 | Fails with NotFound iff no message is to `u` from an existing user. Otherwise an entry is in the result iff it is {id, body, sent_at, read_at, from_user} of such a message, and `from_user` is the sender's profile with `username`. With the messages key in place, no two entries share an id: one entry per matching message. |
| `UserModel.SentNamesRecipient` | models/user.js:102-112 | In a table keyed by username, each entry of messagesFrom matches a message from `u` with the same id, body and timestamps. That message is addressed to the username in the entry's `to_user`. |
| `UserModel.ReceivedNamesSender` | models/user.js:129-139 | In a table keyed by username, each entry of messagesTo matches a message to `u` with the same id, body and timestamps. That message was sent by the username in the entry's `from_user`. |
| `MessageModel.Ledger.Get` | routes/messages.js:10-23 | Returns the stored {id, body, sent_at, read_at, from_user, to_user} snapshot iff the id is stored, and NotFound otherwise. |
| `MessageModel.Ledger.Create` | routes/messages.js:30-39 | Records one create call with the given sender, recipient and body. The answer carries that same sender, recipient and body. |
| `MessageModel.Ledger.MarkRead` | routes/messages.js:43-54 | Records one markRead call for the id and answers with a receipt for that id. |
| `MessageRoutes.ParticipantsExactly` | routes/messages.js:24 | The view check admits the message's sender and its recipient. It rejects every caller who is neither. |
| `MessageRoutes.RecipientOnly` | routes/messages.js:53 | The read check admits exactly the recipient. A sender writing to someone else is rejected. Whoever may mark a message read may also view it. |
| `MessageRoutes.ViewMessage` | routes/messages.js:22-28 | The message is looked up first: an unknown id fails with NotFound. A missing caller identity then fails. The stored message is returned iff the caller is its sender or recipient. Any other caller gets Unauthorized and no message data. |
| `MessageRoutes.PostMessage` | routes/messages.js:36-40 | With a caller identity, exactly one create call is made. Its sender is the caller, and its recipient and body come from the request. A sender claimed in the request body is ignored. Without an identity, nothing is called and nothing changes. |
| `MessageRoutes.MarkMessageRead` | routes/messages.js:50-57 | The stored message is looked up first, and the caller is compared with its recipient, not with request data. `markRead` is called exactly once, and the receipt returned, iff the caller is that recipient. Every other outcome (NotFound, no identity, Unauthorized) leaves the message model untouched. |

## Left out

- bcrypt's algorithm, salt generation and the work factor (`BCRYPT_WORK_FACTOR`) are not modelled. Hashing is an uninterpreted pair of functions, and the salt is a parameter. `Distinguishes` is an idealization: real bcrypt ignores password bytes past the 72nd, so two long passwords can collide.
- `CURRENT_TIMESTAMP` is a caller-supplied `now`. Nothing is assumed about clocks moving forward.
- SQL execution, connection handling, async scheduling, concurrency between requests, and the `console.log` in `register` are not modelled. Database failures other than the duplicate-key violation are not modelled either.
- The order of rows returned by `all`, `messagesFrom` and `messagesTo` is not modelled. SQL leaves it unspecified. `All` picks users in an arbitrary order, and the join functions state membership, not order.
- The messages table has no foreign-key check in the model. Messages whose other party does not exist are dropped by the inner join, as the SQL does.
- `models/message.js` is not part of this model. Its three operations appear only as the `Ledger` interface.
- `MessageModel.Ledger.Create` does not state the new message's id or `sent_at`, or what becomes of the stored snapshots. The routes do not show them.
- `MessageModel.Ledger.MarkRead` does not state what `read_at` becomes or what `get` returns afterwards. The routes do not show what `markRead` stores.
- JWT signing and verification, `routes/auth.js`, `routes/users.js` and the `authenticateJWT`/`ensureLoggedIn`/`ensureCorrectUser` middleware are not modelled. `middleware/auth.js` is not part of this model. The caller identity it produces is an `Option<Username>` parameter of the handlers.
- The JSON wrapping of responses (`{message: …}`) and Express's `next(error)` plumbing are left out. A handler returns the value or the error.
