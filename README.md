# Notes service: ownership and identity, in Dafny

This project models the access-control core of a small notes web service. The service is written in Python with FastAPI and SQLAlchemy.

- **Notes router.** Each user keeps notes there. The handlers are list, create, read, update, delete and PDF download. Read, update, delete and the PDF download go through one ownership guard, `_get_note_or_404`. List filters on the owner itself, and create makes the caller the owner.
- **Authentication module.** It checks email/password credentials and issues signed bearer tokens. It turns a token back into the user it names.
- **Auth router.** It offers sign-up, login and "who am I".

The modules follow the program:

| module | file | models |
|---|---|---|
| `Http` | http.dfy | `HTTPException` as an error value: status, detail and the `WWW-Authenticate` header. Also `Option` and `Result`, and the error constants the handlers raise. |
| `Text` | text.dfy | The Python built-ins the handlers rely on: `str.lower()`, `str.strip(chars)`, `str(n)` and `int(s)` on base-10 integers. |
| `Config` | config.dfy | The token lifetime at its default. The signing algorithm and secret live behind the token codec parameters. |
| `Models` | models.dfy | The `users` and `notes` rows and the request and response bodies. It also holds the `Database` class, which keeps both tables as maps from primary key to row and states their integrity invariant `Valid()`. |
| `Slug` | slug.dfy | `_slugify`, which names the PDF download. |
| `Auth` | auth.dfy | `create_access_token`, `authenticate_user` and `get_current_user`. |
| `AuthRouter` | auth_router.dfy | `signup`, `login` and `read_current_user`. |
| `NotesRouter` | notes_router.dfy | `_get_note_or_404`, the note handlers, and the part of `download_note_pdf` that decides between 404, a failed rendering and the attachment headers. |

**Read-only and state-changing handlers.**

- Read-only handlers are functions over the tables as they stand: the guard, `read_note`, `download_note_pdf`, `authenticate_user`, `get_current_user`, `login` and `read_current_user`.
- `list_notes` is a method with a loop that gathers the caller's notes and keeps them newest first.
- The handlers that commit a change are methods on the shared `Database` object. These are `signup`, `create_note`, `update_note` and `delete_note`. Each states the whole new state in terms of the old one, and each keeps `Valid()`.

**Libraries passed in as function parameters.**

- `hash(password)` stands for the password hasher. The salt it draws is folded into the function.
- `verify(plain, hashed)` stands for the hasher's check.
- `encode(claims)` stands for signing a claim set with the server's key.
- `decode(token, now)` stands for checking a token's signature and expiry at time `now`. It gives back the claims, or `None` where the codec raises `JWTError`.
- The clock value `now` is a parameter, in whole seconds since the epoch.

These functions are taken to be total: each gives a value for every input and never raises. Beyond that nothing is assumed about them, and the properties hold for every choice of them.

## Model

| member | source | states |
|---|---|---|
| `NotesRouter.GetNoteOr404` | app/routers/notes.py:15-23 | A note comes back exactly when a note with that id exists and the caller owns it, and it is that stored note. Every other case is 404 "Note not found". |
| `NotesRouter.GetNoteOr404SeesOnlyOwnNotes` | app/routers/notes.py:15-23 | Two stores in which the caller owns the same notes give the same answer. The guard's answer depends on nothing outside the caller's own notes. |
| `NotesRouter.ForeignNoteLooksAbsent` | app/routers/notes.py:18-22 | A note owned by someone else gets the same answer as a note that does not exist. That answer is 404. |
| `NotesRouter.ChangeByOwnerInvisibleToOthers` | app/routers/notes.py:51-104 | A change that keeps every note not owned by `userId`, both before and after, leaves every other user's notes exactly as they were. |
| `NotesRouter.OwnedValues` | app/routers/notes.py:36-41 | A note is among a user's notes exactly when it is stored under its own id with that user as owner. |
| `Slug.Slugify` | app/routers/notes.py:26-28 | `_slugify`: substitute, strip hyphens, lower-case, and fall back to "note" when nothing is left. The result is never empty, and it is never longer than the title unless it is the fallback. |
| `Slug.CollapseRuns` | app/routers/notes.py:27 | `re.sub(r"[^a-zA-Z0-9]+", "-", text)`: every maximal run of characters other than ASCII letters and digits becomes one hyphen. The result is never longer than the text. |
| `Slug.SlugifyIsSlug` | app/routers/notes.py:26-28 | The result of `_slugify` is never empty. It holds only `a-z`, `0-9` and `-`, has no hyphen at either end, and never has two hyphens in a row. |
| `Slug.SlugifyKeepsSlug` | app/routers/notes.py:26-28 | A string already of that shape is its own slug. |
| `Slug.SlugifyIdempotent` | app/routers/notes.py:26-28 | Slugifying twice gives the same result as slugifying once. |
| `Slug.SlugifyKeepsAlnums` | app/routers/notes.py:26-28 | A title with no ASCII letter or digit gets "note". Otherwise the slug's letters and digits are exactly the title's, in order and lower-cased. |
| `Slug.CollapseRunsShape` | app/routers/notes.py:27 | After the regular-expression substitution, the text holds only letters, digits and single hyphens. A run that was already replaced does not start with another hyphen. |
| `Slug.CollapseRunsKeeps` | app/routers/notes.py:27 | The substitution leaves text made of letters, digits and single hyphens unchanged. |
| `Slug.StripDashShape` | app/routers/notes.py:27 | Stripping the hyphens of a hyphenated string leaves either nothing, or a letter or digit at each end. |
| `Slug.LowerKeepsShape` | app/routers/notes.py:28 | Lower-casing a hyphenated string with non-hyphen ends gives a slug. |
| `Slug.SlugOfStripped` | app/routers/notes.py:28 | Lower-casing a stripped hyphenated string, with the "note" fallback for an empty result, gives a slug. |
| `Slug.AlnumOfCollapseRuns` | app/routers/notes.py:27 | The substitution keeps every letter and digit, in order. |
| `Slug.AlnumOfStripLeft` | app/routers/notes.py:27 | Stripping hyphens from the start keeps every letter and digit, in order. |
| `Slug.AlnumOfStripRight` | app/routers/notes.py:27 | Stripping hyphens from the end keeps every letter and digit, in order. |
| `Slug.AlnumOfStripDash` | app/routers/notes.py:27 | Stripping hyphens keeps every letter and digit, in order. |
| `Slug.AlnumOfLower` | app/routers/notes.py:28 | Lower-casing and picking out the letters and digits commute. |
| `NotesRouter.InsertNewestFirst` | app/routers/notes.py:39 | Inserting a note adds exactly that note to the multiset of the list. The new head is either the note itself or the old head. |
| `NotesRouter.InsertKeepsNewestFirst` | app/routers/notes.py:39 | Inserting into a list ordered by `created_at` descending keeps it so ordered. |
| `NotesRouter.ListNotes` | app/routers/notes.py:36-42 | The listing holds the caller's notes, each exactly once and nothing else (as a multiset equal to the caller's stored notes), ordered by `created_at` descending. |
| `NotesRouter.CreateNote` | app/routers/notes.py:51-59 | Exactly one note is added, under an id not used before, with the payload's title and content, the caller as owner and the current time. Every existing note is unchanged. The caller's view grows by that note, and every other user's view is unchanged. |
| `NotesRouter.ReadNote` | app/routers/notes.py:68-69 | The answer is the guard's answer. On success the note has the requested id and the caller as owner. |
| `NotesRouter.UpdateNote` | app/routers/notes.py:79-92 | A payload with neither field set gets 400 "No updates provided" before any lookup, and nothing changes. A note the caller does not own gets 404, and nothing changes. Otherwise only the fields that were set are written. The note's id, owner and creation time and all other notes stay as they were. |
| `NotesRouter.DeleteNote` | app/routers/notes.py:101-104 | Exactly the caller's note with that id is removed. A missing or foreign id gets 404 and the store is unchanged. |
| `NotesRouter.Latin1Replace` | app/routers/notes.py:134 | `encode("latin-1", "replace").decode("latin-1")`: the result has the same length and only Latin-1 characters, and Latin-1 text is left as it is. |
| `NotesRouter.RenderDownload` | app/routers/notes.py:128-144 | After the guard: drawing the title in a core font fails with 500 exactly when the drawn title has a character above U+00FF. Otherwise the answer is a PDF attachment named after the slug of the note's title. |
| `NotesRouter.DownloadNotePdf` | app/routers/notes.py:114-144 | As written. A note the caller does not own gets the guard's 404. An owned note whose title has a character above U+00FF gets 500. Otherwise the media type is `application/pdf`, and the file name is the slug of the title followed by `.pdf`, with no quote character. The header is `attachment; filename="<name>"`. |
| `NotesRouter.DownloadNotePdfReplacingTitle` | app/routers/notes.py:114-144 | The download with the title passed through the same Latin-1 replacement as the content. The guard's 404 is then its only failure, and the attachment is as above. For a Latin-1 title it answers exactly as the code as written does. |
| `NotesRouter.TitleOutsideLatin1Fails` | app/routers/notes.py:128-129 | For an owned note titled "Alışveriş listesi", the download as written answers 500, and the one with the title replaced succeeds. |
| `NotesRouter.PdfFilenameShape` | app/routers/notes.py:139 | The download's file name is a slug followed by `.pdf`, and it has no `"` in it. |
| `Auth.CreateAccessToken` | app/auth.py:26-31 | `create_access_token`: the encoding of the claims `AccessTokenClaims` describes. The caller's map is a value, so it is never changed. |
| `Auth.AccessTokenClaims` | app/auth.py:26-31 | The signed claims have the caller's keys plus `exp`. Every claim except `exp` is copied. `exp` is `now` plus 60 minutes, in seconds. |
| `Auth.FindUserByEmail` | app/auth.py:35 | A user is found exactly when one is stored under that email. It is the stored row with that email. |
| `Auth.AuthenticateUser` | app/auth.py:34-40 | A user comes back exactly when a stored user has the lower-cased email and the password verifies against that user's hash. That stored user is the one returned. In every other case the result is the same `None`, whether the email is unknown or the password is wrong. |
| `Auth.AuthenticateIgnoresCase` | app/auth.py:35 | Emails that differ only in letter case authenticate identically, and identically to their lower-cased form. |
| `Auth.SubjectId` | app/auth.py:54-57 | `int(payload.get("sub"))` with its `None` check: no id when `sub` is missing or null, the integer itself for an integer claim, and `int()` of the text for a string claim. |
| `Auth.GetCurrentUser` | app/auth.py:47-64 | Every failure is the single 401 credentials error with `WWW-Authenticate: Bearer`. On success the token decodes, its `sub` converts to the user's id, and the user is the stored row under that id. When the token decodes and its `sub` names a stored user, the call succeeds. |
| `Auth.GetCurrentUserFailures` | app/auth.py:52-63 | Each failure cause gives the same credentials error: an undecodable token, a missing `sub`, a null `sub`, a `sub` that `int()` rejects, or an id with no user. |
| `Auth.ResolveSubject` | app/auth.py:54-64 | A token whose claims carry `sub = str(id)` for a stored user resolves to that user. |
| `AuthRouter.AddUserKeepsUsersWellFormed` | app/models.py:14 | Adding a user under a new id, with a lower-case email not yet registered, keeps emails unique. Exactly that one email becomes registered. |
| `AuthRouter.Signup` | app/routers/auth.py:13-23 | A lower-cased email that is already stored gets 400 "Email already registered", and the store is unchanged. Otherwise exactly one user is added, under a fresh id. It has the lower-cased email, the hash of the password and the current time. The email-uniqueness invariant is kept. |
| `AuthRouter.SignupTwiceWithCaseVariant` | app/routers/auth.py:13-15 | On a fresh database, "a@x.com" signs up. Then "A@X.COM" is refused as already registered. |
| `AuthRouter.SubjectClaims` | app/routers/auth.py:35 | The claims `login` passes to `create_access_token`: exactly `sub = str(user.id)`. |
| `AuthRouter.Login` | app/routers/auth.py:27-36 | It fails exactly when `authenticate_user` finds nobody, with 401 "Incorrect email or password". Otherwise the token type is "bearer". The token is the encoding of exactly `sub = str(user.id)` and `exp = now + 3600`. |
| `AuthRouter.LoginThenResolve` | app/routers/auth.py:35 | While the codec still accepts the token (that is, before expiry), the token from a successful login resolves through `get_current_user` to the user who logged in. |
| `AuthRouter.ReadCurrentUser` | app/routers/auth.py:39-41 | The answer is exactly what `get_current_user` gives. On success it is a stored user. |
| `Text.Lower` | app/auth.py:35 | `str.lower()` on ASCII letters: the result has the same length and no upper-case letter, and every character that is not an upper-case letter is kept. |
| `Text.LowerIsCanonical` | app/auth.py:35 | `lower()` leaves no upper-case letter and leaves lower-case text alone. It is idempotent. |
| `Text.StripLeft` | app/routers/notes.py:27 | It removes the longest prefix made only of stripped characters, and nothing else. |
| `Text.StripRight` | app/routers/notes.py:27 | It removes the longest suffix made only of stripped characters, and nothing else. |
| `Text.Strip` | app/routers/notes.py:27 | `str.strip(chars)`: the result is no longer than the text, and it neither starts nor ends with a stripped character. |
| `Text.StripKeeps` | app/routers/notes.py:27 | A string that neither starts nor ends with a stripped character is left as it is. |
| `Text.NatToString` | app/routers/auth.py:35 | `str(n)` for `n >= 0` is a non-empty string of decimal digits. |
| `Text.IntToString` | app/routers/auth.py:35 | `str(n)`: non-empty, starts with `-` exactly when `n` is negative, and digits everywhere else. |
| `Text.NatToStringIsDigitString` | app/routers/auth.py:35 | `str(n)` for `n >= 0` is a digit string that `int()` accepts. |
| `Text.DigitsValueOfNatToString` | app/routers/auth.py:35 | Reading back the digits `str(n)` writes gives `n`. |
| `Text.IntToStringUnpadded` | app/routers/auth.py:35 | `str(n)` has no white space at either end. |
| `Text.ParseInt` | app/auth.py:57 | `int(s)` in base 10, `None` where Python raises `ValueError`. Text that is empty after stripping white space has no value, and a negative value comes only from text whose stripped form starts with `-`. |
| `Text.ParseIntRejectsSeparators` | app/auth.py:57 | `int()` refuses a number that U+001C precedes or U+001F follows, as these separators are not skipped as white space. |
| `Text.ParseMinus` | app/auth.py:57 | `int()` of unpadded text made of `-` and a digit string is minus the digits' value. |
| `Text.ParseNegative` | app/auth.py:57 | `int(str(n)) == n` for negative `n`. |
| `Text.ParseNonNegative` | app/auth.py:57 | `int(str(n)) == n` for `n >= 0`. |
| `Text.ParseIntOfIntToString` | app/auth.py:57 | `int(str(n)) == n` for every integer `n`. The `sub` that `login` writes is read back by `get_current_user`. |

## Findings

| source | as written | input that shows it | evidently intended | confidence | as-written member | corrected member |
|---|---|---|---|---|---|---|
| app/routers/notes.py:128-134 | The title is drawn in a core font, whose characters are Latin-1, with no replacement. Only the content gets the replacement that the comment at line 133 says avoids runtime errors. An owned note whose title has a character above U+00FF makes the PDF library raise after the ownership check, and the request fails with 500. | A note titled "Alışveriş listesi" (ı is U+0131, ş is U+015F), downloaded by its owner. | The title gets the same Latin-1 replacement as the content, so every note the caller owns can be downloaded, and the 404 of the guard is the only failure. | likely; not executed | `NotesRouter.TitleOutsideLatin1Fails` | `NotesRouter.DownloadNotePdfReplacingTitle` |

## Left out

- Password hashing (PBKDF2 through passlib) and JWT signing and decoding (python-jose) are foreign cryptographic libraries. They are the `hash`, `verify`, `encode` and `decode` parameters.
- The exact expiry comparison happens inside the JWT library, so no boundary is stated. `LoginThenResolve` takes the codec's acceptance of the token at the later time as a premise.
- The random salt of hashing is folded into the `hash` parameter.
- PDF rendering with fpdf and the streamed bytes are out. The download models the ownership check, the failure of drawing a title outside Latin-1, and the headers. The content is drawn after the Latin-1 replacement, so it cannot make the rendering fail.
- The 500 "PDF service not available" branch is out. It is only taken when the PDF library cannot be imported.
- SQLAlchemy sessions, `commit` and `refresh` are out. The tables are maps on a `Database` object. Every handler's change is applied at once, as a commit makes it visible.
- The `created_at` server default is the `now` parameter.
- `updated_at` is out. The database sets it on every update, and every note response carries it, but the model's `Note` has no such field.
- Ids come from counters that only grow. The database engine may reuse the largest id after a delete, and that is not modelled.
- FastAPI routing, dependency injection, status codes on success (201, 204), CORS, the health check and table creation are out.
- Auth.AuthenticateUser: takes `verify` to be total. The password library refuses a password longer than 4096 characters with `PasswordSizeError`, a `ValueError` that no handler catches. For such a password `login` answers 500 when the email is registered and 401 when it is not, so the two failures can be told apart there. The model has no such 500.
- AuthRouter.Login: takes `verify` to be total, as for `Auth.AuthenticateUser`. The 500 for a password over 4096 characters and a registered email is not modelled.
- AuthRouter.Signup: takes `hash` to be total. For a password over 4096 characters the service answers 500 instead of adding a user, and the model does not.
- NotesRouter.GetNoteOr404: ids are unbounded integers. The database driver stores 64-bit integers and raises `OverflowError` for a `note_id` outside the range from -2^63 to 2^63-1 before the lookup. The service then answers 500 where the model answers 404. The same holds for `read_note`, `update_note` (after its 400 check), `delete_note` and the download, which all go through this guard.
- Auth.GetCurrentUser: a `sub` whose integer is outside the 64-bit range makes the driver raise at the user lookup. The service then answers 500 where the model answers 401.
- The handlers receive the user that `get_current_user` resolved. `CreateNote` requires that this user is stored, as that resolution guarantees.
- `get_current_user` is declared `async` but awaits nothing. Requests run concurrently in the service, because FastAPI runs the plain handlers in a thread pool, but the model runs each handler as one atomic step.
- AuthRouter.Signup: runs as one atomic step. In the service two signups with the same email can both pass the lookup in app/routers/auth.py:13-14 before either commits. The second `commit` then breaks the unique index on `users.email` and raises an `IntegrityError` that no handler catches, so that request answers 500 where the model answers 400 `EmailTaken`.
- The cascade delete of a user's notes is out. No code path deletes a user.
- Reading settings from environment variables is out. The settings take their defaults, and the secret key lives behind `encode`/`decode`.
- Pydantic's email validation and normalisation are out. `EmailStr` rejects malformed addresses and rewrites the value: it strips blanks, takes the address out of a `Name <addr>` form and normalises the domain. The model's emails are the plain strings that `signup` and `authenticate_user` receive after that step.
- `Text.Lower`: lower-cases only ASCII letters. Python's `str.lower()` also maps other letters, so for non-ASCII emails the model may treat two emails as different where the service treats them as the same.
- `Text.ParseInt`: accepts ASCII digits only. Python's `int()` also accepts other Unicode decimal digits, and it refuses strings longer than 4300 digits. The white space it skips is Python's `str.isspace()` set without U+001C to U+001F, which `int()` does not skip.
- Claim values are limited to null, strings and integers. Floats, booleans, lists and objects that a decoded token might carry are out.
