/** app/routers/notes.py: the note handlers and the ownership guard. Read,
    update, delete and the PDF download go through the guard; list filters on
    the owner itself, and create makes the caller the owner. Read-only handlers take the `notes` table as it stands; the
    handlers that change it take the database session and say what the table
    is afterwards. Every handler receives the user `get_current_user`
    resolved. */
module NotesRouter {
  import opened Http
  import opened Models
  import opened Slug

  // ---------------------------------------------------------------------------
  // The ownership guard

  /** `_get_note_or_404`: the note with this id if the caller owns it, and
      404 "Note not found" otherwise, whether the id is unknown or the note
      belongs to someone else. */
  function GetNoteOr404(notes: map<int, Note>, noteId: int, userId: int): (r: Result<Note>)
    ensures r.Ok? <==> noteId in notes && notes[noteId].ownerId == userId
    ensures r.Ok? ==> r.value == notes[noteId]
    ensures r.Err? ==> r.error == NoteNotFound
  {
    if noteId in notes && notes[noteId].ownerId == userId then Ok(notes[noteId]) else Err(NoteNotFound)
  }

  /** The guard's answer depends only on the caller's own notes: two stores
      in which the caller owns the same notes give the same answer, so the
      answer reveals nothing about anyone else's notes. */
  lemma GetNoteOr404SeesOnlyOwnNotes(notes: map<int, Note>, other: map<int, Note>, noteId: int, userId: int)
    requires OwnedBy(notes, userId) == OwnedBy(other, userId)
    ensures GetNoteOr404(notes, noteId, userId) == GetNoteOr404(other, noteId, userId)
  {
    assert noteId in OwnedBy(notes, userId) <==> noteId in notes && notes[noteId].ownerId == userId;
    assert noteId in OwnedBy(other, userId) <==> noteId in other && other[noteId].ownerId == userId;
  }

  /** A note owned by another user looks exactly as if it were not there. */
  lemma ForeignNoteLooksAbsent(notes: map<int, Note>, noteId: int, userId: int)
    requires noteId in notes && notes[noteId].ownerId != userId
    ensures GetNoteOr404(notes, noteId, userId) == GetNoteOr404(notes - {noteId}, noteId, userId)
    ensures GetNoteOr404(notes, noteId, userId) == Err(NoteNotFound)
  {
    assert OwnedBy(notes, userId) == OwnedBy(notes - {noteId}, userId);
    GetNoteOr404SeesOnlyOwnNotes(notes, notes - {noteId}, noteId, userId);
  }

  /** A change that touches only the notes of `userId`, before and after,
      leaves every other user's notes as they were. */
  lemma ChangeByOwnerInvisibleToOthers(before: map<int, Note>, after: map<int, Note>, userId: int)
    requires forall id :: id in before && before[id].ownerId != userId ==> id in after && after[id] == before[id]
    requires forall id :: id in after && after[id].ownerId != userId ==> id in before && before[id] == after[id]
    ensures forall v :: v != userId ==> OwnedBy(after, v) == OwnedBy(before, v)
  {
    forall v | v != userId
      ensures OwnedBy(after, v) == OwnedBy(before, v)
    {
      forall id | id in after && after[id].ownerId == v
        ensures id in before && before[id] == after[id]
      {
      }
      forall id | id in before && before[id].ownerId == v
        ensures id in after && after[id] == before[id]
      {
      }
      assert OwnedBy(after, v).Keys == OwnedBy(before, v).Keys;
    }
  }

  // ---------------------------------------------------------------------------
  // list_notes

  /** Ordered by `created_at`, newest first. */
  predicate NewestFirst(s: seq<Note>) {
    forall i, j :: 0 <= i < j < |s| ==> s[i].createdAt >= s[j].createdAt
  }

  /** Puts `n` into a newest-first list in front of the first note that is
      not newer than it. */
  function InsertNewestFirst(s: seq<Note>, n: Note): (r: seq<Note>)
    ensures multiset(r) == multiset(s) + multiset{n}
    ensures |r| == |s| + 1 && (r[0] == n || (s != [] && r[0] == s[0]))
  {
    if s == [] || n.createdAt >= s[0].createdAt then [n] + s
    else
      assert s == [s[0]] + s[1..];
      [s[0]] + InsertNewestFirst(s[1..], n)
  }

  /** Inserting into a newest-first list keeps it newest first. */
  lemma {:induction false} InsertKeepsNewestFirst(s: seq<Note>, n: Note)
    requires NewestFirst(s)
    ensures NewestFirst(InsertNewestFirst(s, n))
  {
    if s != [] && n.createdAt < s[0].createdAt {
      var tail := InsertNewestFirst(s[1..], n);
      InsertKeepsNewestFirst(s[1..], n);
      assert tail[0].createdAt <= s[0].createdAt;
      var r := [s[0]] + tail;
      forall i, j | 0 <= i < j < |r|
        ensures r[i].createdAt >= r[j].createdAt
      {
        if i == 0 {
          assert r[j] == tail[j - 1];
        } else {
          assert r[i] == tail[i - 1] && r[j] == tail[j - 1];
        }
      }
    }
  }

  /** `list_notes`: every note of the caller, each once and no other, newest
      first. The loop stands for the query's filter on `owner_id` and its
      `order_by(created_at desc)`; notes created at the same moment may come
      in any order, as the query leaves their order open too. */
  method ListNotes(notes: map<int, Note>, currentUser: User) returns (r: seq<Note>)
    requires NotesWellFormed(notes)
    ensures multiset(r) == multiset(OwnedBy(notes, currentUser.id).Values)
    ensures NewestFirst(r)
  {
    r := [];
    var rest := notes.Keys;
    ghost var listed: set<Note> := {};
    while rest != {}
      invariant rest <= notes.Keys
      invariant forall n :: n in listed <==> n.id in notes && n.id !in rest && notes[n.id] == n && n.ownerId == currentUser.id
      invariant multiset(r) == multiset(listed)
      invariant NewestFirst(r)
      decreases |rest|
    {
      NonEmptyHasElement(rest);
      var id :| id in rest;
      var note := notes[id];
      if note.ownerId == currentUser.id {
        InsertKeepsNewestFirst(r, note);
        r := InsertNewestFirst(r, note);
        listed := listed + {note};
      }
      rest := rest - {id};
    }
    forall n ensures n in listed <==> n in OwnedBy(notes, currentUser.id).Values {
      OwnedValues(notes, currentUser.id, n);
    }
    assert listed == OwnedBy(notes, currentUser.id).Values;
  }

  lemma NonEmptyHasElement(s: set<int>)
    requires s != {}
    ensures exists x :: x in s
  {
    assert (forall x :: x !in s) ==> s == {};
  }

  /** In a well-formed table, a user's notes are the rows stored under their
      own id with that user as owner. */
  lemma OwnedValues(notes: map<int, Note>, userId: int, n: Note)
    requires NotesWellFormed(notes)
    ensures n in OwnedBy(notes, userId).Values <==> n.id in notes && notes[n.id] == n && n.ownerId == userId
  {
    var owned := OwnedBy(notes, userId);
    if n.id in notes && notes[n.id] == n && n.ownerId == userId {
      assert owned[n.id] == n;
    }
    assert (forall id :: id in owned ==> owned[id] != n) ==> n !in owned.Values;
  }

  // ---------------------------------------------------------------------------
  // create_note, read_note, update_note, delete_note

  /** `create_note`: one note is added, under a fresh id, with the payload's
      title and content and the caller as owner; every existing note is kept
      as it was. */
  method CreateNote(db: Database, payload: NoteCreate, currentUser: User, now: int) returns (note: Note)
    requires db.Valid()
    requires currentUser.id in db.users
    modifies db
    ensures db.Valid()
    ensures db.users == old(db.users) && db.nextUserId == old(db.nextUserId)
    ensures note == Note(old(db.nextNoteId), payload.title, payload.content, currentUser.id, now)
    ensures note.id !in old(db.notes)
    ensures db.notes == old(db.notes)[note.id := note]
    ensures db.nextNoteId == old(db.nextNoteId) + 1
    ensures OwnedBy(db.notes, currentUser.id) == OwnedBy(old(db.notes), currentUser.id)[note.id := note]
    ensures forall v :: v != currentUser.id ==> OwnedBy(db.notes, v) == OwnedBy(old(db.notes), v)
  {
    note := Note(db.nextNoteId, payload.title, payload.content, currentUser.id, now);
    ChangeByOwnerInvisibleToOthers(db.notes, db.notes[note.id := note], currentUser.id);
    db.notes := db.notes[note.id := note];
    db.nextNoteId := db.nextNoteId + 1;
  }

  /** `read_note`: the guard's answer for the caller. */
  function ReadNote(notes: map<int, Note>, noteId: int, currentUser: User): (r: Result<Note>)
    requires NotesWellFormed(notes)
    ensures r == GetNoteOr404(notes, noteId, currentUser.id)
    ensures r.Ok? ==> r.value.id == noteId && r.value.ownerId == currentUser.id
  {
    GetNoteOr404(notes, noteId, currentUser.id)
  }

  /** `update_note`: a payload with neither field set is refused with 400
      before the note is looked up; a note the caller does not own gives 404;
      in both cases nothing changes. Otherwise the fields that are set are
      written, and nothing else: not the note's other fields, not any other
      note. */
  method UpdateNote(db: Database, noteId: int, payload: NoteUpdate, currentUser: User) returns (r: Result<Note>)
    requires db.Valid()
    modifies db
    ensures db.Valid()
    ensures db.users == old(db.users) && db.nextUserId == old(db.nextUserId) && db.nextNoteId == old(db.nextNoteId)
    ensures payload.title.None? && payload.content.None? ==>
      r == Err(NoUpdates) && db.notes == old(db.notes)
    ensures (payload.title.Some? || payload.content.Some?) && GetNoteOr404(old(db.notes), noteId, currentUser.id).Err? ==>
      r == Err(NoteNotFound) && db.notes == old(db.notes)
    ensures (payload.title.Some? || payload.content.Some?) && GetNoteOr404(old(db.notes), noteId, currentUser.id).Ok? ==>
      var before := old(db.notes)[noteId];
      && r.Ok?
      && r.value.id == before.id && r.value.ownerId == before.ownerId && r.value.createdAt == before.createdAt
      && r.value.title == (if payload.title.Some? then payload.title.value else before.title)
      && r.value.content == (if payload.content.Some? then payload.content.value else before.content)
      && db.notes == old(db.notes)[noteId := r.value]
    ensures forall v :: v != currentUser.id ==> OwnedBy(db.notes, v) == OwnedBy(old(db.notes), v)
  {
    if payload.title.None? && payload.content.None? {
      return Err(NoUpdates);
    }
    var found := GetNoteOr404(db.notes, noteId, currentUser.id);
    if found.Err? {
      return Err(found.error);
    }
    var note := found.value;
    if payload.title.Some? {
      note := note.(title := payload.title.value);
    }
    if payload.content.Some? {
      note := note.(content := payload.content.value);
    }
    ChangeByOwnerInvisibleToOthers(db.notes, db.notes[noteId := note], currentUser.id);
    db.notes := db.notes[noteId := note];
    r := Ok(note);
  }

  /** `delete_note`: removes exactly the caller's note with that id; a note the
      caller does not own gives 404 and nothing changes. */
  method DeleteNote(db: Database, noteId: int, currentUser: User) returns (r: Result<()>)
    requires db.Valid()
    modifies db
    ensures db.Valid()
    ensures db.users == old(db.users) && db.nextUserId == old(db.nextUserId) && db.nextNoteId == old(db.nextNoteId)
    ensures GetNoteOr404(old(db.notes), noteId, currentUser.id).Err? ==>
      r == Err(NoteNotFound) && db.notes == old(db.notes)
    ensures GetNoteOr404(old(db.notes), noteId, currentUser.id).Ok? ==>
      r == Ok(()) && db.notes == old(db.notes) - {noteId}
    ensures forall v :: v != currentUser.id ==> OwnedBy(db.notes, v) == OwnedBy(old(db.notes), v)
  {
    var found := GetNoteOr404(db.notes, noteId, currentUser.id);
    if found.Err? {
      return Err(found.error);
    }
    ChangeByOwnerInvisibleToOthers(db.notes, db.notes - {noteId}, currentUser.id);
    db.notes := db.notes - {noteId};
    r := Ok(());
  }

  // ---------------------------------------------------------------------------
  // download_note_pdf

  /** The headers of the PDF download; the rendered bytes are not modelled. */
  datatype PdfDownload = PdfDownload(mediaType: string, filename: string, contentDisposition: string)

  /** The characters the PDF library's core fonts can draw: the code points
      up to U+00FF. */
  predicate IsLatin1(s: string) {
    forall i :: 0 <= i < |s| ==> s[i] as int <= 0xFF
  }

  /** `s.encode("latin-1", "replace").decode("latin-1")`: every character
      outside Latin-1 becomes '?'. */
  function Latin1Replace(s: string): (r: string)
    ensures |r| == |s| && IsLatin1(r)
    ensures IsLatin1(s) ==> r == s
  {
    seq(|s|, i requires 0 <= i < |s| => if s[i] as int <= 0xFF then s[i] else '?')
  }

  /** A PDF attachment named after the slug of `title`. Being a slug, the
      name cannot contain a quote, so it cannot break out of the quoted
      `filename` parameter of the header. */
  predicate IsAttachmentFor(d: PdfDownload, title: string) {
    var f := d.filename;
    && d.mediaType == "application/pdf"
    && |f| > 4 && f[|f| - 4..] == ".pdf"
    && f[..|f| - 4] == Slugify(title) && IsSlug(f[..|f| - 4])
    && '"' !in f
    && d.contentDisposition == "attachment; filename=\"" + f + "\""
  }

  /** The part of `download_note_pdf` after the guard: `shownTitle` is drawn
      in a core font, which raises for a character outside Latin-1, an
      exception nothing catches; the file is named after the note's own
      title. */
  function RenderDownload(shownTitle: string, title: string): (r: Result<PdfDownload>)
    ensures r.Err? <==> !IsLatin1(shownTitle)
    ensures r.Err? ==> r.error == InternalError
    ensures r.Ok? ==> IsAttachmentFor(r.value, title)
  {
    if !IsLatin1(shownTitle) then Err(InternalError)
    else
      var filename := Slugify(title) + ".pdf";
      PdfFilenameShape(title);
      Ok(PdfDownload("application/pdf", filename, "attachment; filename=\"" + filename + "\""))
  }

  /** `download_note_pdf` as written, served under both of its paths: the
      guard first, with its 404; then the title is drawn as it is, so a title
      outside Latin-1 fails with 500; otherwise an attachment named after the
      slug of the title. */
  function DownloadNotePdf(notes: map<int, Note>, noteId: int, currentUser: User): (r: Result<PdfDownload>)
    ensures GetNoteOr404(notes, noteId, currentUser.id).Err? ==> r == Err(NoteNotFound)
    ensures GetNoteOr404(notes, noteId, currentUser.id).Ok? ==>
      && (r.Err? <==> !IsLatin1(notes[noteId].title))
      && (r.Err? ==> r.error == InternalError)
      && (r.Ok? ==> IsAttachmentFor(r.value, notes[noteId].title))
  {
    match GetNoteOr404(notes, noteId, currentUser.id)
    case Err(e) => Err(e)
    case Ok(note) => RenderDownload(note.title, note.title)
  }

  /** `download_note_pdf` with the title passed through the same Latin-1
      replacement as the content: the guard's 404 is then its only failure,
      and every note the caller owns can be downloaded. */
  function DownloadNotePdfReplacingTitle(notes: map<int, Note>, noteId: int, currentUser: User): (r: Result<PdfDownload>)
    ensures r.Err? <==> GetNoteOr404(notes, noteId, currentUser.id).Err?
    ensures r.Err? ==> r.error == NoteNotFound
    ensures r.Ok? ==> IsAttachmentFor(r.value, notes[noteId].title)
    ensures GetNoteOr404(notes, noteId, currentUser.id).Ok? && IsLatin1(notes[noteId].title) ==>
      r == DownloadNotePdf(notes, noteId, currentUser)
  {
    match GetNoteOr404(notes, noteId, currentUser.id)
    case Err(e) => Err(e)
    case Ok(note) => RenderDownload(Latin1Replace(note.title), note.title)
  }

  /** A note titled "Alışveriş listesi", owned by the caller: the download as
      written fails with 500, the one with the title replaced succeeds. */
  lemma TitleOutsideLatin1Fails()
    ensures var notes := map[1 := Note(1, "Al\U{131}\U{15F}veri\U{15F} listesi", "", 7, 0)];
      var user := User(7, "a@x.com", "", 0);
      && GetNoteOr404(notes, 1, user.id).Ok?
      && DownloadNotePdf(notes, 1, user) == Err(InternalError)
      && DownloadNotePdfReplacingTitle(notes, 1, user).Ok?
  {
    var title := "Al\U{131}\U{15F}veri\U{15F} listesi";
    assert title[2] as int == 0x131;
  }

  lemma PdfFilenameShape(title: string)
    ensures var f := Slugify(title) + ".pdf";
      && |f| > 4 && f[|f| - 4..] == ".pdf"
      && f[..|f| - 4] == Slugify(title) && IsSlug(f[..|f| - 4])
      && '"' !in f
  {
    var slug := Slugify(title);
    var f := slug + ".pdf";
    SlugifyIsSlug(title);
    assert f[..|f| - 4] == slug;
    assert f[|f| - 4..] == ".pdf";
    assert '"' !in slug by {
      assert forall i :: 0 <= i < |slug| ==> slug[i] != '"';
    }
    assert '"' !in ".pdf";
  }
}
