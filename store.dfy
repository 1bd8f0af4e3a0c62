/** The persisted state the handlers act on: the `users`, `admin` and
    `messages` tables, as maps from primary key to row with MySQL's
    auto-increment counters, and the uploads directory, as the set of file
    names in it. */
module Store {
  import opened PhpBuiltins

  /** How an admin password is stored: a self-describing modern hash (one
      `password_get_info` recognises) or a legacy unsalted MD5 digest. */
  datatype StoredPassword = Modern(hash: string) | Legacy(digest: string)

  datatype User = User(
    email: string,
    passwordHash: string,
    firstName: string,
    lastName: string,
    dateOfBirth: string,
    jobType: string,
    photo: Option<string>,   // NULL when None
    idNumber: string,
    createdAt: int,
    updatedAt: int)

  datatype Admin = Admin(username: string, password: StoredPassword)

  datatype MessageStatus = Unread | Read

  datatype Message = Message(
    firstName: string,
    lastName: string,
    phone: string,
    email: string,
    body: string,
    status: MessageStatus,
    createdAt: int)

  /** `SELECT id FROM users WHERE email = ?` finds a row. */
  predicate EmailInUse(users: map<int, User>, email: string) {
    exists id :: id in users && users[id].email == email
  }

  /** `SELECT id FROM users WHERE id_number = ?` finds a row. */
  predicate IdNumberInUse(users: map<int, User>, idNumber: string) {
    exists id :: id in users && users[id].idNumber == idNumber
  }

  /** The UNIQUE constraints on `users.email` and `users.id_number`. */
  ghost predicate UsersUnique(users: map<int, User>) {
    && (forall a, b :: a in users && b in users && users[a].email == users[b].email ==> a == b)
    && (forall a, b :: a in users && b in users && users[a].idNumber == users[b].idNumber ==> a == b)
  }

  /** Adding a row under a new key whose email and ID number no row has yet
      keeps both UNIQUE constraints. */
  lemma InsertKeepsUnique(users: map<int, User>, id: int, u: User)
    requires UsersUnique(users) && id !in users
    requires !EmailInUse(users, u.email) && !IdNumberInUse(users, u.idNumber)
    ensures UsersUnique(users[id := u])
  {
  }

  /** Another row than `self` already has this email. */
  predicate EmailTakenByOther(users: map<int, User>, email: string, self: int) {
    exists id :: id in users && id != self && users[id].email == email
  }

  /** Rewriting a row keeps both UNIQUE constraints when no other row has its
      new email and its ID number is the one it had. */
  lemma ReplaceKeepsUnique(users: map<int, User>, id: int, u: User)
    requires UsersUnique(users) && id in users
    requires !EmailTakenByOther(users, u.email, id) && u.idNumber == users[id].idNumber
    ensures UsersUnique(users[id := u])
  {
  }

  /** The messages table after `UPDATE messages SET status = 'read' WHERE id = ?`:
      the named row, if there is one, is read; every other row is as it was. */
  function MarkedRead(messages: map<int, Message>, id: int): (r: map<int, Message>)
    ensures r.Keys == messages.Keys
    ensures id in messages ==> r[id] == messages[id].(status := Read)
    ensures forall k :: k in messages && k != id ==> r[k] == messages[k]
  {
    if id in messages then messages[id := messages[id].(status := Read)] else messages
  }

  /** The UNIQUE constraint on `admin.username`. */
  ghost predicate AdminsUnique(admins: map<int, Admin>) {
    forall a, b :: a in admins && b in admins && admins[a].username == admins[b].username ==> a == b
  }

  class Database {
    var users: map<int, User>
    var admins: map<int, Admin>
    var messages: map<int, Message>
    /** The next AUTO_INCREMENT value of `users.id` and of `messages.id`. */
    var nextUserId: int
    var nextMessageId: int

    ghost predicate Valid()
      reads this
    {
      && nextUserId >= 1 && nextMessageId >= 1
      && (forall id :: id in users ==> 0 < id < nextUserId)
      && (forall id :: id in messages ==> 0 < id < nextMessageId)
      && UsersUnique(users)
      && AdminsUnique(admins)
    }

    /** The connection to tables as they stand: their rows and the next
        AUTO_INCREMENT values, which lie past every key in use. */
    constructor (users: map<int, User>, admins: map<int, Admin>, messages: map<int, Message>,
                 nextUserId: int, nextMessageId: int)
      requires UsersUnique(users) && AdminsUnique(admins)
      requires nextUserId >= 1 && (forall id :: id in users ==> 0 < id < nextUserId)
      requires nextMessageId >= 1 && (forall id :: id in messages ==> 0 < id < nextMessageId)
      ensures Valid()
      ensures this.users == users && this.admins == admins && this.messages == messages
      ensures this.nextUserId == nextUserId && this.nextMessageId == nextMessageId
    {
      this.users, this.admins, this.messages := users, admins, messages;
      this.nextUserId, this.nextMessageId := nextUserId, nextMessageId;
    }

    /** `INSERT INTO users ...`: the row goes under the next AUTO_INCREMENT
        key. The caller has checked that its email and ID number are unused,
        as the UNIQUE constraints demand. */
    method InsertUser(u: User) returns (id: int)
      requires Valid()
      requires !EmailInUse(users, u.email) && !IdNumberInUse(users, u.idNumber)
      modifies this`users, this`nextUserId
      ensures Valid()
      ensures id == old(nextUserId) && id !in old(users)
      ensures users == old(users)[id := u] && nextUserId == old(nextUserId) + 1
    {
      id := nextUserId;
      InsertKeepsUnique(users, id, u);
      users := users[id := u];
      nextUserId := nextUserId + 1;
    }

    /** `DELETE FROM users WHERE id = ?`. */
    method DeleteUserRow(id: int)
      requires Valid()
      modifies this`users
      ensures Valid()
      ensures users == old(users) - {id}
    {
      users := users - {id};
    }

    /** `INSERT INTO messages ...` under the next AUTO_INCREMENT key. */
    method InsertMessage(m: Message) returns (id: int)
      requires Valid()
      modifies this`messages, this`nextMessageId
      ensures Valid()
      ensures id == old(nextMessageId) && id !in old(messages)
      ensures messages == old(messages)[id := m] && nextMessageId == old(nextMessageId) + 1
    {
      id := nextMessageId;
      messages := messages[id := m];
      nextMessageId := nextMessageId + 1;
    }

    /** `UPDATE messages SET status = 'read' WHERE id = ?`. */
    method MarkMessageRead(id: int)
      requires Valid()
      modifies this`messages
      ensures Valid()
      ensures messages == MarkedRead(old(messages), id)
    {
      if id in messages {
        messages := messages[id := messages[id].(status := Read)];
      }
    }

    /** `DELETE FROM messages WHERE id = ?`. */
    method DeleteMessage(id: int)
      requires Valid()
      modifies this`messages
      ensures Valid()
      ensures messages == old(messages) - {id}
    {
      messages := messages - {id};
    }

    /** `UPDATE users SET ... WHERE id = ?` on an existing row; the new email
        is unused by any other row and the ID number is unchanged. */
    method UpdateUser(id: int, u: User)
      requires Valid() && id in users
      requires !EmailTakenByOther(users, u.email, id) && u.idNumber == users[id].idNumber
      modifies this`users
      ensures Valid()
      ensures users == old(users)[id := u]
    {
      ReplaceKeepsUnique(users, id, u);
      users := users[id := u];
    }
  }

  /** The `uploads/` directory. */
  class UploadDir {
    var files: set<string>

    constructor (files: set<string>)
      ensures this.files == files
    {
      this.files := files;
    }
  }

  /** A user row that names a photo names a file that exists. */
  ghost predicate PhotoPresent(u: User, files: set<string>) {
    TruthyOpt(u.photo) ==> u.photo.value in files
  }

  /** Every user row that names a photo names a file that exists. */
  ghost predicate PhotosPresent(users: map<int, User>, files: set<string>) {
    forall id :: id in users ==> PhotoPresent(users[id], files)
  }

  /** No two user rows name the same photo file. */
  ghost predicate PhotosDistinct(users: map<int, User>) {
    forall a, b :: a in users && b in users && TruthyOpt(users[a].photo) && users[a].photo == users[b].photo ==> a == b
  }
}
