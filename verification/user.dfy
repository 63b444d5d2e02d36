/** The User model: registration, authentication and the read-only queries over the users
    and messages tables. The two tables are held in memory by a UserStore object; every
    SQL statement of the model becomes one member of that class. */
module UserModel {
  import opened Common
  import opened Password

  /** A row of the users table. `password` holds the bcrypt hash, never the plaintext. */
  datatype UserRow = UserRow(
    username: Username,
    password: string,
    firstName: string,
    lastName: string,
    phone: string,
    joinAt: Timestamp,
    lastLoginAt: Timestamp)

  /** A row of the messages table; `readAt` is NULL until the message is read. */
  datatype MessageRow = MessageRow(
    id: MessageId,
    fromUsername: Username,
    toUsername: Username,
    body: string,
    sentAt: Timestamp,
    readAt: Option<Timestamp>)

  /** The object register receives: {username, password, first_name, last_name, phone}. */
  datatype Registration = Registration(
    username: Username,
    password: string,
    firstName: string,
    lastName: string,
    phone: string)

  /** What register returns: RETURNING username, password, first_name, last_name, phone. */
  datatype Registered = Registered(
    username: Username,
    password: string,
    firstName: string,
    lastName: string,
    phone: string)

  /** An entry of all(): {username, first_name, last_name}. */
  datatype UserSummary = UserSummary(username: Username, firstName: string, lastName: string)

  /** The result of get(): {username, first_name, last_name, phone, join_at, last_login_at}. */
  datatype UserDetail = UserDetail(
    username: Username,
    firstName: string,
    lastName: string,
    phone: string,
    joinAt: Timestamp,
    lastLoginAt: Timestamp)

  /** An entry of messagesFrom(): {id, body, sent_at, read_at, to_user}. */
  datatype SentMessage = SentMessage(
    id: MessageId,
    body: string,
    sentAt: Timestamp,
    readAt: Option<Timestamp>,
    toUser: Profile)

  /** An entry of messagesTo(): {id, body, sent_at, read_at, from_user}. */
  datatype ReceivedMessage = ReceivedMessage(
    id: MessageId,
    body: string,
    sentAt: Timestamp,
    readAt: Option<Timestamp>,
    fromUser: Profile)

  /** The plaintext and salt a stored hash was made from; known to proofs only. */
  datatype Credential = Credential(password: string, salt: string)

  /** The users table's key is the row's own username column. */
  ghost predicate KeyedByUsername(users: map<Username, UserRow>) {
    forall u :: u in users ==> users[u].username == u
  }

  /** Two rows that differ in last_login_at at most. */
  ghost predicate SameExceptLogin(a: UserRow, b: UserRow) {
    a.(lastLoginAt := b.lastLoginAt) == b
  }

  function ProfileOf(row: UserRow): Profile {
    Profile(row.username, row.firstName, row.lastName, row.phone)
  }

  function SummaryOf(row: UserRow): UserSummary {
    UserSummary(row.username, row.firstName, row.lastName)
  }

  /** The row register INSERTs: the hash of the password and CURRENT_TIMESTAMP in both
      join_at and last_login_at. */
  function NewRow(h: PasswordHasher, reg: Registration, salt: string, now: Timestamp): (row: UserRow)
    ensures row.username == reg.username && row.firstName == reg.firstName
    ensures row.lastName == reg.lastName && row.phone == reg.phone
    ensures row.password == h.hash(reg.password, salt)
    ensures h.Sound() ==> row.password != reg.password && h.compare(reg.password, row.password)
    ensures row.joinAt == row.lastLoginAt == now
  {
    UserRow(reg.username, h.hash(reg.password, salt), reg.firstName, reg.lastName, reg.phone, now, now)
  }

  /** The table after `UPDATE users SET last_login_at=CURRENT_TIMESTAMP WHERE username = $1`:
      no other user and no other column changes, and an unknown username changes nothing. */
  function AfterLogin(users: map<Username, UserRow>, username: Username, now: Timestamp): (r: map<Username, UserRow>)
    ensures r.Keys == users.Keys
    ensures forall v :: v in users && v != username ==> r[v] == users[v]
    ensures username in users ==> r[username].lastLoginAt == now && SameExceptLogin(r[username], users[username])
    ensures KeyedByUsername(users) ==> KeyedByUsername(r)
  {
    if username in users then users[username := users[username].(lastLoginAt := now)] else users
  }

  /** The WHERE and JOIN conditions of messagesFrom: sent by `sender` to an existing user. */
  predicate SentBy(m: MessageRow, users: map<Username, UserRow>, sender: Username) {
    m.fromUsername == sender && m.toUsername in users
  }

  /** The WHERE and JOIN conditions of messagesTo: sent to `recipient` by an existing user. */
  predicate ReceivedBy(m: MessageRow, users: map<Username, UserRow>, recipient: Username) {
    m.toUsername == recipient && m.fromUsername in users
  }

  /** One joined row of messagesFrom, reshaped with the recipient nested as to_user. */
  function SentView(m: MessageRow, recipient: UserRow): SentMessage {
    SentMessage(m.id, m.body, m.sentAt, m.readAt, ProfileOf(recipient))
  }

  /** One joined row of messagesTo, reshaped with the sender nested as from_user. */
  function ReceivedView(m: MessageRow, sender: UserRow): ReceivedMessage {
    ReceivedMessage(m.id, m.body, m.sentAt, m.readAt, ProfileOf(sender))
  }

  /** The messages table's key: no two rows share an id. */
  ghost predicate DistinctIds(rows: seq<MessageRow>) {
    forall i, j :: 0 <= i < j < |rows| ==> rows[i].id != rows[j].id
  }

  /** Dropping the first row keeps the ids distinct, and no later row has the first row's id. */
  lemma TailIds(rows: seq<MessageRow>)
    requires |rows| > 0
    ensures DistinctIds(rows) ==> DistinctIds(rows[1..]) && forall m :: m in rows[1..] ==> m.id != rows[0].id
  {
    if DistinctIds(rows) {
      forall m | m in rows[1..] ensures m.id != rows[0].id {
        var k :| 0 <= k < |rows[1..]| && rows[1..][k] == m;
        assert rows[k + 1] == m;
      }
    }
  }

  /** The inner join of messages (filtered on from_username) with users on to_username. */
  function Sent(rows: seq<MessageRow>, users: map<Username, UserRow>, sender: Username): (r: seq<SentMessage>)
    ensures |r| <= |rows|
    ensures forall e :: e in r ==>
      exists m :: m in rows && SentBy(m, users, sender) && e == SentView(m, users[m.toUsername])
    ensures forall m :: m in rows && SentBy(m, users, sender) ==> SentView(m, users[m.toUsername]) in r
    ensures DistinctIds(rows) ==> forall i, j :: 0 <= i < j < |r| ==> r[i].id != r[j].id
  {
    if rows == [] then []
    else
      TailIds(rows);
      var rest := Sent(rows[1..], users, sender);
      assert forall k :: 0 <= k < |rest| ==> rest[k] in rest;
      var m := rows[0];
      if SentBy(m, users, sender) then [SentView(m, users[m.toUsername])] + rest else rest
  }

  /** The inner join of messages (filtered on to_username) with users on from_username. */
  function Received(rows: seq<MessageRow>, users: map<Username, UserRow>, recipient: Username): (r: seq<ReceivedMessage>)
    ensures |r| <= |rows|
    ensures forall e :: e in r ==>
      exists m :: m in rows && ReceivedBy(m, users, recipient) && e == ReceivedView(m, users[m.fromUsername])
    ensures forall m :: m in rows && ReceivedBy(m, users, recipient) ==> ReceivedView(m, users[m.fromUsername]) in r
    ensures DistinctIds(rows) ==> forall i, j :: 0 <= i < j < |r| ==> r[i].id != r[j].id
  {
    if rows == [] then []
    else
      TailIds(rows);
      var rest := Received(rows[1..], users, recipient);
      assert forall k :: 0 <= k < |rest| ==> rest[k] in rest;
      var m := rows[0];
      if ReceivedBy(m, users, recipient) then [ReceivedView(m, users[m.fromUsername])] + rest else rest
  }

  /** With the table keyed by username, the nested to_user of every sent message is the
      message's own recipient, and the entry carries that message's columns. */
  lemma SentNamesRecipient(rows: seq<MessageRow>, users: map<Username, UserRow>, sender: Username, e: SentMessage)
    requires KeyedByUsername(users)
    requires e in Sent(rows, users, sender)
    ensures exists m :: (m in rows && m.fromUsername == sender && m.toUsername == e.toUser.username
                         && m.id == e.id && m.body == e.body && m.sentAt == e.sentAt && m.readAt == e.readAt)
  {
  }

  /** With the table keyed by username, the nested from_user of every received message is
      the message's own sender, and the entry carries that message's columns. */
  lemma ReceivedNamesSender(rows: seq<MessageRow>, users: map<Username, UserRow>, recipient: Username, e: ReceivedMessage)
    requires KeyedByUsername(users)
    requires e in Received(rows, users, recipient)
    ensures exists m :: (m in rows && m.toUsername == recipient && m.fromUsername == e.fromUser.username
                         && m.id == e.id && m.body == e.body && m.sentAt == e.sentAt && m.readAt == e.readAt)
  {
  }

  /** Some entry of `r` is the one for user `u`. */
  ghost predicate Listed(r: seq<UserSummary>, u: Username) {
    exists i :: 0 <= i < |r| && r[i].username == u
  }

  /** `r` lists exactly the users named in `done`, once each, as all() projects them. */
  ghost predicate Lists(r: seq<UserSummary>, done: set<Username>, table: map<Username, UserRow>) {
    && |r| == |done|
    && (forall i :: 0 <= i < |r| ==> r[i].username in done && r[i].username in table && r[i] == SummaryOf(table[r[i].username]))
    && (forall u :: u in done ==> Listed(r, u))
    && (forall i, j :: 0 <= i < j < |r| ==> r[i].username != r[j].username)
  }

  /** Appending the summary of one more user keeps the listing exact. */
  lemma ListsExtend(r: seq<UserSummary>, done: set<Username>, table: map<Username, UserRow>, u: Username)
    requires KeyedByUsername(table) && Lists(r, done, table)
    requires u in table && u !in done
    ensures Lists(r + [SummaryOf(table[u])], done + {u}, table)
  {
    var r' := r + [SummaryOf(table[u])];
    assert r'[|r|].username == u;
    assert forall i :: 0 <= i < |r| ==> r'[i] == r[i];
    forall v | v in done + {u} ensures Listed(r', v) {
      if v == u {
        assert r'[|r|].username == v;
      } else {
        var i :| 0 <= i < |r| && r[i].username == v;
        assert r'[i].username == v;
      }
    }
  }

  /** A listing of every key is the whole of all(): one summary per user, each user once. */
  lemma ListsAll(r: seq<UserSummary>, table: map<Username, UserRow>)
    requires Lists(r, table.Keys, table)
    ensures |r| == |table|
    ensures forall i :: 0 <= i < |r| ==> r[i].username in table && r[i] == SummaryOf(table[r[i].username])
    ensures forall u :: u in table ==> exists i :: 0 <= i < |r| && r[i].username == u
    ensures forall i, j :: 0 <= i < j < |r| ==> r[i].username != r[j].username
  {
    forall u | u in table ensures exists i :: 0 <= i < |r| && r[i].username == u {
      assert Listed(r, u);
    }
  }

  /** The users and messages tables, with the password hasher the model is configured with. */
  class UserStore {
    const hasher: PasswordHasher
    var users: map<Username, UserRow>
    var messages: seq<MessageRow>
    /** The plaintext and salt behind each stored hash. */
    ghost var credentials: map<Username, Credential>

    ghost predicate Valid()
      reads this
    {
      && KeyedByUsername(users)
      && DistinctIds(messages)
      && credentials.Keys == users.Keys
      && forall u :: u in users ==> users[u].password == hasher.hash(credentials[u].password, credentials[u].salt)
    }

    constructor (hasher: PasswordHasher, messages: seq<MessageRow>)
      requires DistinctIds(messages)
      ensures Valid()
      ensures this.hasher == hasher && users == map[] && this.messages == messages
    {
      this.hasher := hasher;
      this.users := map[];
      this.messages := messages;
      this.credentials := map[];
    }

    /** register: INSERT a row holding the hash of the password (salted by `salt`) and `now` as
        both join_at and last_login_at. An existing username violates the table's key and
        nothing is inserted. */
    method Register(reg: Registration, salt: string, now: Timestamp) returns (r: Result<Registered>)
      requires Valid()
      modifies this
      ensures Valid() && messages == old(messages)
      ensures reg.username in old(users) ==>
        r == Err(DuplicateUsername) && users == old(users) && credentials == old(credentials)
      ensures reg.username !in old(users) ==>
        && users == old(users)[reg.username := NewRow(hasher, reg, salt, now)]
        && credentials == old(credentials)[reg.username := Credential(reg.password, salt)]
        && r == Ok(Registered(reg.username, hasher.hash(reg.password, salt), reg.firstName, reg.lastName, reg.phone))
    {
      if reg.username in users {
        return Err(DuplicateUsername);
      }
      var row := NewRow(hasher, reg, salt, now);
      users := users[reg.username := row];
      credentials := credentials[reg.username := Credential(reg.password, salt)];
      r := Ok(Registered(row.username, row.password, row.firstName, row.lastName, row.phone));
    }

    /** authenticate: NotFound for an unknown username; otherwise the result of comparing the
        password with the stored hash, stamping last_login_at only when they match. */
    method Authenticate(username: Username, password: string, now: Timestamp) returns (r: Result<bool>)
      requires Valid()
      modifies this
      ensures Valid() && messages == old(messages) && credentials == old(credentials)
      ensures username !in old(users) ==> r == Err(NotFound)
      ensures username in old(users) ==> r == Ok(hasher.compare(password, old(users)[username].password))
      ensures users == if r == Ok(true) then AfterLogin(old(users), username, now) else old(users)
      ensures hasher.Sound() && username in old(users) && password == old(credentials)[username].password ==>
        r == Ok(true)
      ensures hasher.Distinguishes() && username in old(users) && password != old(credentials)[username].password ==>
        r == Ok(false)
    {
      if username !in users {
        return Err(NotFound);
      }
      var valid := hasher.compare(password, users[username].password);
      if valid {
        UpdateLoginTimestamp(username, now);
      }
      r := Ok(valid);
    }

    /** updateLoginTimestamp: set last_login_at of the named user to `now`. */
    method UpdateLoginTimestamp(username: Username, now: Timestamp)
      requires Valid()
      modifies this
      ensures Valid() && messages == old(messages) && credentials == old(credentials)
      ensures users == AfterLogin(old(users), username, now)
    {
      users := AfterLogin(users, username, now);
    }

    /** all: one {username, first_name, last_name} per stored user, in an order the table
        scan chooses. */
    method All() returns (r: seq<UserSummary>)
      requires KeyedByUsername(users)
      ensures |r| == |users|
      ensures forall i :: 0 <= i < |r| ==> r[i].username in users && r[i] == SummaryOf(users[r[i].username])
      ensures forall u :: u in users ==> exists i :: 0 <= i < |r| && r[i].username == u
      ensures forall i, j :: 0 <= i < j < |r| ==> r[i].username != r[j].username
    {
      var table := users;
      r := [];
      var pending := table.Keys;
      ghost var done: set<Username> := {};
      while pending != {}
        invariant done !! pending && done + pending == table.Keys
        invariant Lists(r, done, table)
        decreases |pending|
      {
        var u :| u in pending;
        ListsExtend(r, done, table, u);
        r := r + [SummaryOf(table[u])];
        pending := pending - {u};
        done := done + {u};
      }
      assert done == table.Keys;
      ListsAll(r, table);
    }

    /** get: the stored profile without the password; NotFound for an unknown username. */
    function Get(username: Username): (r: Result<UserDetail>)
      requires KeyedByUsername(users)
      reads this
      ensures r.Err? <==> username !in users
      ensures r.Err? ==> r.error == NotFound
      ensures r.Ok? ==> && r.value.username == username
                        && r.value.firstName == users[username].firstName
                        && r.value.lastName == users[username].lastName
                        && r.value.phone == users[username].phone
                        && r.value.joinAt == users[username].joinAt
                        && r.value.lastLoginAt == users[username].lastLoginAt
    {
      if username !in users then Err(NotFound)
      else
        var row := users[username];
        Ok(UserDetail(row.username, row.firstName, row.lastName, row.phone, row.joinAt, row.lastLoginAt))
    }

    /** messagesFrom: every message sent by `username` to an existing user, with the recipient's
        profile as to_user; NotFound exactly when there is none. */
    function MessagesFrom(username: Username): (r: Result<seq<SentMessage>>)
      reads this
      ensures r.Err? <==> forall m :: m in messages ==> !SentBy(m, users, username)
      ensures r.Err? ==> r.error == NotFound
      ensures r.Ok? ==> forall e :: e in r.value <==>
        exists m :: m in messages && SentBy(m, users, username) && e == SentView(m, users[m.toUsername])
      ensures r.Ok? && DistinctIds(messages) ==>
        forall i, j :: 0 <= i < j < |r.value| ==> r.value[i].id != r.value[j].id
    {
      var sent := Sent(messages, users, username);
      if sent == [] then Err(NotFound)
      else
        assert sent[0] in sent;
        Ok(sent)
    }

    /** messagesTo: every message sent to `username` by an existing user, with the sender's
        profile as from_user; NotFound exactly when there is none. */
    function MessagesTo(username: Username): (r: Result<seq<ReceivedMessage>>)
      reads this
      ensures r.Err? <==> forall m :: m in messages ==> !ReceivedBy(m, users, username)
      ensures r.Err? ==> r.error == NotFound
      ensures r.Ok? ==> forall e :: e in r.value <==>
        exists m :: m in messages && ReceivedBy(m, users, username) && e == ReceivedView(m, users[m.fromUsername])
      ensures r.Ok? && DistinctIds(messages) ==>
        forall i, j :: 0 <= i < j < |r.value| ==> r.value[i].id != r.value[j].id
    {
      var received := Received(messages, users, username);
      if received == [] then Err(NotFound)
      else
        assert received[0] in received;
        Ok(received)
    }
  }

  /** Registering and then logging in with the same password succeeds and stamps the login;
      logging in with another password fails and changes nothing. */
  method SignUpThenLogIn()
  {
    var store := new UserStore(StandIn(), []);
    var reg := store.Register(Registration("u1", "p1", "A", "B", "555"), "salt", 1);
    assert reg.Ok?;
    var wrong := store.Authenticate("u1", "p2", 2);
    assert wrong == Ok(false);
    assert store.users["u1"].lastLoginAt == 1;
    var right := store.Authenticate("u1", "p1", 3);
    assert right == Ok(true);
    assert store.users["u1"].lastLoginAt == 3 && store.users["u1"].joinAt == 1;
  }
}
