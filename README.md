# Ownership-scoped note table

A Dafny model of the notes API of TungaNotesBackend: the Mongoose `Note`
schema (`models/Note.js`) and the five Express handlers of
`routes/notes.js` that list, read, create, update and delete a user's notes.

- `wrappers.dfy`, module `Wrappers`: the `Option` type used for absent
  request fields and failed casts.
- `note_schema.dfy`, module `NoteSchema`: the `Note` document (id,
  title, content, owning `user`, `createdAt`, `updatedAt`); the `trim: true`
  setter as `Trim`, which removes the whitespace JavaScript's
  `String.prototype.trim` removes; the `required` validators as `ValidText`;
  `ValidNote`, which every stored note satisfies; and `Normalize`, which
  assigns a string to a trimmed, required field.
- `note_routes.dfy`, module `NoteRoutes`: the handlers as methods of the
  class `NoteTable`. Its fields are the collection (`notes: map<NoteId, Note>`),
  a logical clock `now` and an id counter `nextId`. Each handler returns a
  tagged `Response`: `Ok`, `OkList`, `Created`, `Deleted`, `BadRequest`,
  `NotFound` or `StoreError`. The requesting user id (`req.user._id`) is a
  trusted parameter. The decisions of POST and PUT are the pure functions
  `NewNote` and `Edit`. The methods apply them to the table. The class
  invariant `Consistent` says that every stored note sits under its own id,
  has an id below the counter, passes the schema and has no timestamp past
  the clock. `ShoppingListScenario` runs two users through a
  create / get / update / delete / delete sequence as a client of these
  contracts.

Behaviour the model follows from the code:

- POST checks `!title || !content` (routes/notes.js:52). So only a missing or
  empty field gets 400. A whitespace-only field passes that check. The
  schema setter then trims it to `""`, `required` makes `save()` throw, and
  the catch answers 500 (routes/notes.js:65-67). The model returns
  `StoreError` and leaves the table unchanged (`NewNoteBlankFails`). PUT
  behaves the same way for a whitespace-only field (routes/notes.js:89-97).
- PUT never changes a field that is missing or `""`. It never changes the
  id, the owner or `createdAt`.
- `timestamps: true` stamps a new document with `updatedAt` equal to
  `createdAt`. On a later `save()` it refreshes `updatedAt` only when the
  document was modified, and assigning a field its current value does not
  modify it. So a PUT that changes nothing leaves `updatedAt`, and the
  clock, as they were. A PUT that changes title or content moves `updatedAt`
  strictly forward (`EditRefreshesUpdatedAt`).
- A `:id` that does not cast to an ObjectId makes the query throw. GET, PUT
  and DELETE then answer 500; in the model that is `NoteRef.Malformed` and
  `StoreError`.
- A note owned by another user is treated like a missing one: 404, with no
  content, and the table is left unchanged.

## Model

| member | source | states |
|---|---|---|
| NoteSchema.IsWhitespace | models/Note.js:8 | the characters `String.prototype.trim` removes: tab, line feed, vertical tab, form feed, carriage return, space, U+00A0, U+1680, U+2000 to U+200A, U+2028, U+2029, U+202F, U+205F, U+3000 and U+FEFF, all inside the Basic Multilingual Plane |
| NoteSchema.ValidText | models/Note.js:5-14 | a title or content the schema accepts: non-empty and with no whitespace at either end |
| NoteSchema.ValidTextIsFixpoint | models/Note.js:5-14 | a value is accepted exactly when it is non-empty and equal to its own trim |
| NoteSchema.ValidNote | models/Note.js:5-25 | a stored note: title and content pass `ValidText`, and `createdAt <= updatedAt`; the owner is always present because the user id type has no missing value |
| NoteRoutes.Supplied | routes/notes.js:52 | JavaScript truthiness of a body field as the route tests it: the field is present and is not `""` |
| NoteSchema.LeadingWhitespace | models/Note.js:8 | the count it returns is a prefix of whitespace, and the next character, if any, is not whitespace |
| NoteSchema.TrailingWhitespace | models/Note.js:8 | the index it returns starts a suffix of whitespace, and the character before it, if any, is not whitespace |
| NoteSchema.Trim | models/Note.js:5-14 | the trimmed value has no whitespace at either end and is no longer than the input |
| NoteSchema.TrimIsSlice | models/Note.js:8 | the trimmed value is one contiguous slice of the input, with only whitespace before and after it |
| NoteSchema.TrimSurrounded | models/Note.js:8 | trimming any whitespace-wrapped, already-trimmed string returns exactly that string, so trim removes exactly the outer whitespace |
| NoteSchema.TrimEmptyIff | models/Note.js:7-8 | trim yields `""` if and only if the input is all whitespace |
| NoteSchema.TrimIdempotent | models/Note.js:8 | a trimmed string is its own trim, and trimming twice equals trimming once |
| NoteSchema.Normalize | models/Note.js:5-14 | assigning a value to a trimmed, required field fails exactly when the value is all whitespace; otherwise the stored value is its trim and passes the validators |
| NoteSchema.NormalizeValid | models/Note.js:5-14 | a value that already passes the validators is stored unchanged |
| NoteSchema.NormalizeStable | models/Note.js:5-14 | assigning a stored value again stores the same value |
| NoteRoutes.InsertByRecency | routes/notes.js:15 | inserting into a list sorted newest `createdAt` first keeps it sorted and keeps exactly the old elements plus the new one |
| NoteRoutes.NewNote | routes/notes.js:49-64 | the reply is 400 exactly when the title or the content is missing or empty, whatever the other field is; it is 201 exactly when both are present and neither is all whitespace, and 500 otherwise; a created note has the given id, the requester as owner, the trimmed title and content, `createdAt == updatedAt ==` the tick, and passes the schema |
| NoteRoutes.NewNoteBlankFails | routes/notes.js:52-67 | once both fields are present, creation fails with 500 exactly when the title or the content is all whitespace |
| NoteRoutes.Edit | routes/notes.js:89-92 | the save fails exactly when a given field is all whitespace; a missing or empty field keeps its value and a given one becomes its trim; id, owner and `createdAt` never change; `updatedAt` becomes the tick exactly when title or content differs from before, and a result with the same title and content is the stored note itself; with no field given the note is untouched |
| NoteRoutes.EditIdempotent | routes/notes.js:89-92 | repeating the same PUT body on its result changes nothing, `updatedAt` included |
| NoteRoutes.EditRefreshesUpdatedAt | models/Note.js:25 | a PUT that changes title or content moves `updatedAt` strictly past its old value |
| NoteRoutes.OwnedByMembers | routes/notes.js:15 | a list with the same multiset of notes as the requester's notes holds exactly the notes the requester owns |
| NoteRoutes.ConsistentInsert | routes/notes.js:57-63 | saving a valid note under the next id with the next tick keeps every stored note consistent, and that id was free |
| NoteRoutes.ConsistentReplace | routes/notes.js:89-92 | replacing a stored note by a valid one under the same id keeps the collection consistent |
| NoteRoutes.NoteTable.List | routes/notes.js:13-21 | the reply holds each of the requester's notes exactly once and no other note, newest `createdAt` first |
| NoteRoutes.NoteTable.Get | routes/notes.js:26-42 | the note comes back if and only if it exists and the requester owns it; otherwise 404, and 500 for a malformed id |
| NoteRoutes.NoteTable.Create | routes/notes.js:47-69 | the reply is `NewNote` with a fresh id and the next tick; on 400 or 500 the table is unchanged; on 201 exactly the new note is added and every existing note is untouched |
| NoteRoutes.NoteTable.Update | routes/notes.js:74-98 | malformed id gives 500, a missing or foreign note 404, and a failed save 500, each leaving the table unchanged; otherwise only that note is replaced, by `Edit`'s result, and the clock moves only if the note changed |
| NoteRoutes.NoteTable.Delete | routes/notes.js:103-119 | an owned note is removed and every other note is left as it was, so a repeated delete returns 404; a missing or foreign note gives 404 and a malformed id 500, each leaving the table unchanged |

## Left out

- The auth middleware (routes/notes.js:3, 8): middleware/auth is not part of
  this model. The requesting user id is a trusted parameter.
- server.js: CORS, the database connection, the health check, static
  serving, the fallback 404/500 handlers and `listen` are framework and I/O
  plumbing.
- Store failures other than a cast error or a failed validation, such as a
  lost connection: the model raises `StoreError` only for a malformed id or
  a field that trims to nothing. List never fails.
- Real `Date` values: time is a natural-number clock. It moves one tick on a
  201 and on a PUT that changes its note. A delete and every failed request
  leave it unchanged.
- ObjectIds: ids are naturals issued by a counter. That gives freshness, not
  the ObjectId format.
- Request-body coercion: a field is either absent (`undefined` or `null`)
  or a string. Numbers, booleans and objects in the body are not modelled.
- The store's query engine: List is modelled as a loop that scans the map
  and inserts each owned note by recency. The order among notes with equal
  `createdAt` is whatever the scan gives, and the model promises nothing
  about it.
- JavaScript strings are UTF-16 code units and Dafny `char`s are Unicode
  scalar values. Every character `trim` removes lies in the Basic
  Multilingual Plane, so trimming agrees on both.
- HTTP status codes, response bodies and `console.error` logging: only the
  result tag is modelled.
- `async` handlers and concurrent requests: each handler is one atomic step.
