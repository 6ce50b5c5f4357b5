/** The rows of app/models.py and the payloads of app/schemas.py, and the
    database session that the handlers share: both tables as maps from
    primary key to row, with the ids the database hands out next. */
module Models {
  import opened Http
  import opened Text

  /** A row of `users`. `createdAt` is the server's clock when it was inserted. */
  datatype User = User(id: int, email: string, hashedPassword: string, createdAt: int)

  /** A row of `notes`; `ownerId` refers to `users.id`. */
  datatype Note = Note(id: int, title: string, content: string, ownerId: int, createdAt: int)

  datatype UserCreate = UserCreate(email: string, password: string)

  datatype UserLogin = UserLogin(email: string, password: string)

  datatype NoteCreate = NoteCreate(title: string, content: string)

  /** A field left out of the request body is `None`. */
  datatype NoteUpdate = NoteUpdate(title: Option<string>, content: Option<string>)

  /** The body `login` answers with; `tokenType` is always "bearer". */
  datatype Token = Token(accessToken: string, tokenType: string)

  /** The `users` table: keyed by id, every email stored lower-cased, and the
      unique index on `email` holds. */
  predicate UsersWellFormed(users: map<int, User>) {
    && (forall id :: id in users ==> users[id].id == id && IsLowerAscii(users[id].email))
    && (forall a, b :: a in users && b in users && users[a].email == users[b].email ==> a == b)
  }

  /** The `notes` table: keyed by id. */
  predicate NotesWellFormed(notes: map<int, Note>) {
    forall id :: id in notes ==> notes[id].id == id
  }

  predicate EmailRegistered(users: map<int, User>, email: string) {
    exists id :: id in users && users[id].email == email
  }

  /** The notes of one user: the part of the store that user may see. */
  function OwnedBy(notes: map<int, Note>, userId: int): map<int, Note> {
    map id | id in notes && notes[id].ownerId == userId :: notes[id]
  }

  /** The database session. */
  class Database {
    var users: map<int, User>
    var notes: map<int, Note>
    var nextUserId: int
    var nextNoteId: int

    /** Both tables are well formed, the next ids are unused, and every note
        has an owner among the users. */
    ghost predicate Valid()
      reads this
    {
      && UsersWellFormed(users)
      && NotesWellFormed(notes)
      && (forall id :: id in users ==> id < nextUserId)
      && (forall id :: id in notes ==> id < nextNoteId)
      && (forall id :: id in notes ==> notes[id].ownerId in users)
    }

    constructor ()
      ensures Valid()
      ensures users == map[] && notes == map[]
    {
      users, notes := map[], map[];
      nextUserId, nextNoteId := 1, 1;
    }
  }
}
