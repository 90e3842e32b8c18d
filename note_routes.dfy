/** The five handlers of routes/notes.js over an in-memory notes collection.
    Every handler is scoped to the requesting user (the id the auth
    middleware attaches as `req.user._id`, here a trusted parameter) and is
    one atomic step on the table. */
module NoteRoutes {
  import opened Wrappers
  import opened NoteSchema

  /** A `title` or `content` from the request body; `None` when the field
      was not sent. */
  type Field = Option<string>

  /** The `:id` route parameter after ObjectId casting; `Malformed` is a
      parameter the cast rejects, which makes the query throw. */
  datatype NoteRef = Ref(id: NoteId) | Malformed

  /** The handler's reply, reduced to its tag and payload: 200 with a note or
      a list, 201, the delete confirmation, 400, 404 and 500. */
  datatype Response =
    | Ok(note: Note)
    | OkList(notes: seq<Note>)
    | Created(note: Note)
    | Deleted
    | BadRequest
    | NotFound
    | StoreError

  /** The route's `if (title)` / `!title` test: a field counts as given when it
      is a non-empty string. */
  predicate Supplied(f: Field)
  {
    f.Some? && f.value != ""
  }

  /** The ownership filter `{ _id: id, user: u }` matches a stored note. */
  predicate Owns(notes: map<NoteId, Note>, u: UserId, id: NoteId)
  {
    id in notes && notes[id].user == u
  }

  /** Each document sits under its own `_id`. */
  predicate KeyedById(notes: map<NoteId, Note>)
  {
    forall k :: k in notes ==> notes[k].id == k
  }

  /** The notes the filter `{ user: u }` selects. */
  ghost function OwnedBy(notes: map<NoteId, Note>, u: UserId): set<Note>
  {
    set id | id in notes && notes[id].user == u :: notes[id]
  }

  /** Sorted as `sort({ createdAt: -1 })` leaves them: most recent first. */
  predicate NewestFirst(s: seq<Note>)
  {
    forall i, j :: 0 <= i < j < |s| ==> s[i].createdAt >= s[j].createdAt
  }

  /** Places `n` into a list sorted most recent first, keeping it sorted and
      keeping every element it already had. */
  function InsertByRecency(n: Note, s: seq<Note>): (r: seq<Note>)
    requires NewestFirst(s)
    ensures NewestFirst(r)
    ensures multiset(r) == multiset(s) + multiset{n}
    ensures r[0] == n || r[0] == s[0]
  {
    if s == [] || n.createdAt >= s[0].createdAt then
      PrependNewest(n, s);
      [n] + s
    else
      var rest := InsertByRecency(n, s[1..]);
      assert s == [s[0]] + s[1..];
      assert multiset(s) == multiset{s[0]} + multiset(s[1..]);
      PrependNewest(s[0], rest);
      [s[0]] + rest
  }

  lemma PrependNewest(x: Note, s: seq<Note>)
    requires NewestFirst(s)
    requires s == [] || x.createdAt >= s[0].createdAt
    ensures NewestFirst([x] + s)
  {
    forall i, j | 0 <= i < j < |[x] + s| ensures ([x] + s)[i].createdAt >= ([x] + s)[j].createdAt {
      if i == 0 && j > 1 { assert s[0].createdAt >= s[j - 1].createdAt; }
    }
  }

  /** What `new Note({ title, content, user })` followed by `save()` does
      once the route's presence check has run: 400 when either field is
      missing or empty, 500 when the setter trims either to nothing so that
      `required` throws, and otherwise the new note, stamped `t` for both
      timestamps. */
  function NewNote(id: NoteId, u: UserId, title: Field, content: Field, t: Time): (r: Response)
    ensures r.BadRequest? <==> !Supplied(title) || !Supplied(content)
    ensures r.Created? <==>
      Supplied(title) && Supplied(content) && !AllWhitespace(title.value) && !AllWhitespace(content.value)
    ensures r.BadRequest? || r.StoreError? || r.Created?
    ensures r.Created? ==>
      && r.note.id == id && r.note.user == u
      && r.note.title == Trim(title.value) && r.note.content == Trim(content.value)
      && r.note.createdAt == t && r.note.updatedAt == t
      && ValidNote(r.note)
  {
    if !Supplied(title) || !Supplied(content) then BadRequest
    else
      match (Normalize(title.value), Normalize(content.value))
      case (Some(ti), Some(co)) => Created(Note(id, ti, co, u, t, t))
      case _ => StoreError
  }

  /** Past the route's presence check, the save fails exactly when the
      title or the content is nothing but whitespace; the route then answers
      500, not 400. */
  lemma NewNoteBlankFails(id: NoteId, u: UserId, title: Field, content: Field, t: Time)
    requires Supplied(title) && Supplied(content)
    ensures NewNote(id, u, title, content, t) == StoreError
        <==> AllWhitespace(title.value) || AllWhitespace(content.value)
  {
  }

  /** The PUT handler's `if (title) note.title = title; if (content)
      note.content = content; save()` on a stored note `n`. A field that is
      missing or empty keeps its value; a given one goes through the setter
      and `required`. The save fails when either field trims to nothing.
      `updatedAt` becomes `t` only when the document actually changed, as
      the `timestamps` option does for a document that is not modified;
      id, owner and `createdAt` never change. */
  function Edit(n: Note, title: Field, content: Field, t: Time): (r: Option<Note>)
    requires ValidNote(n)
    ensures r.None? <==>
      (Supplied(title) && AllWhitespace(title.value)) || (Supplied(content) && AllWhitespace(content.value))
    ensures r.Some? ==>
      && r.value.id == n.id && r.value.user == n.user && r.value.createdAt == n.createdAt
      && r.value.title == (if Supplied(title) then Trim(title.value) else n.title)
      && r.value.content == (if Supplied(content) then Trim(content.value) else n.content)
      && r.value.updatedAt == (if r.value.title == n.title && r.value.content == n.content then n.updatedAt else t)
    ensures r.Some? && r.value.title == n.title && r.value.content == n.content ==> r == Some(n)
    ensures r.Some? && n.updatedAt <= t ==> ValidNote(r.value)
    ensures !Supplied(title) && !Supplied(content) ==> r == Some(n)
  {
    var ti := if Supplied(title) then Normalize(title.value) else Some(n.title);
    var co := if Supplied(content) then Normalize(content.value) else Some(n.content);
    if ti.None? || co.None? then None
    else if ti.value == n.title && co.value == n.content then Some(n)
    else Some(n.(title := ti.value, content := co.value, updatedAt := t))
  }

  /** Repeating the same PUT body changes nothing more: the second save
      finds every field already equal and leaves the note, `updatedAt`
      included, as the first one left it. */
  lemma EditIdempotent(n: Note, title: Field, content: Field, t: Time, t': Time)
    requires ValidNote(n) && n.updatedAt <= t
    requires Edit(n, title, content, t).Some?
    ensures Edit(Edit(n, title, content, t).value, title, content, t') == Edit(n, title, content, t)
  {
    var m := Edit(n, title, content, t).value;
    assert ValidNote(m);
    var ti := if Supplied(title) then Normalize(title.value) else Some(m.title);
    var co := if Supplied(content) then Normalize(content.value) else Some(m.content);
    assert ti == Some(m.title) && co == Some(m.content);
  }

  /** A PUT that changes title or content moves `updatedAt` strictly forward
      when the clock has moved past the note's last write. */
  lemma EditRefreshesUpdatedAt(n: Note, title: Field, content: Field, t: Time)
    requires ValidNote(n) && n.updatedAt < t
    requires Edit(n, title, content, t).Some?
    requires Edit(n, title, content, t).value.title != n.title
          || Edit(n, title, content, t).value.content != n.content
    ensures Edit(n, title, content, t).value.updatedAt > n.updatedAt
  {
  }

  /** Adding a note under a key not yet present adds it, when `u` owns it, to
      the notes `u` owns, and it was not among them before. */
  lemma OwnedByInsert(m: map<NoteId, Note>, u: UserId, n: Note)
    requires KeyedById(m)
    requires n.id !in m
    ensures n !in OwnedBy(m, u)
    ensures OwnedBy(m[n.id := n], u) == OwnedBy(m, u) + (if n.user == u then {n} else {})
  {
    var m' := m[n.id := n];
    forall x | x in OwnedBy(m', u)
      ensures x in OwnedBy(m, u) + (if n.user == u then {n} else {})
    {
      var k :| k in m' && m'[k].user == u && m'[k] == x;
      if k != n.id { assert k in m && m[k] == x; }
    }
    forall x | x in OwnedBy(m, u) ensures x in OwnedBy(m', u) && x != n {
      var k :| k in m && m[k].user == u && m[k] == x;
      assert k != n.id && m'[k] == x;
    }
    if n.user == u {
      assert m'[n.id] == n;
    }
  }

  /** One step of the scan behind List: moving key `id` from the unread keys
      to the read ones adds its note, when `u` owns it, to what was
      collected. */
  lemma OwnedByScanStep(notes: map<NoteId, Note>, u: UserId, rest: set<NoteId>, id: NoteId)
    requires KeyedById(notes) && rest <= notes.Keys && id in rest
    ensures multiset(OwnedBy(notes - (rest - {id}), u))
         == multiset(OwnedBy(notes - rest, u)) + (if notes[id].user == u then multiset{notes[id]} else multiset{})
  {
    var seen := notes - rest;
    assert notes - (rest - {id}) == seen[id := notes[id]];
    OwnedByInsert(seen, u, notes[id]);
  }

  /** A list with the same elements, counted, as the notes `u` owns holds
      exactly those notes. */
  lemma OwnedByMembers(notes: map<NoteId, Note>, u: UserId, s: seq<Note>)
    requires multiset(s) == multiset(OwnedBy(notes, u))
    ensures forall n :: n in s <==> n in notes.Values && n.user == u
  {
    forall n ensures n in s <==> n in notes.Values && n.user == u {
      assert n in s <==> n in multiset(s);
      if n in notes.Values && n.user == u {
        var k :| k in notes && notes[k] == n;
        assert n in OwnedBy(notes, u);
      }
    }
  }

  /** What the schema and the store keep true of every document: it sits
      under its own `_id`, that id was issued before `nextId`, it passes the
      schema validators, and no timestamp lies beyond the clock `now`. */
  predicate Consistent(notes: map<NoteId, Note>, nextId: NoteId, now: Time)
  {
    && KeyedById(notes)
    && forall id :: id in notes ==> Stored(notes[id], nextId, now)
  }

  predicate Stored(n: Note, nextId: NoteId, now: Time)
  {
    n.id < nextId && ValidNote(n) && n.updatedAt <= now
  }

  /** The counter has not been issued yet, so its id is free. */
  lemma ConsistentFreshId(notes: map<NoteId, Note>, nextId: NoteId, now: Time)
    requires Consistent(notes, nextId, now)
    ensures nextId !in notes
  {
    forall id | id in notes ensures id < nextId {
      assert Stored(notes[id], nextId, now);
    }
  }

  /** Saving a new valid note under the next id, stamped with the next
      tick, keeps the collection consistent. */
  lemma ConsistentInsert(notes: map<NoteId, Note>, nextId: NoteId, now: Time, n: Note)
    requires Consistent(notes, nextId, now)
    requires n.id == nextId && ValidNote(n) && n.updatedAt <= now + 1
    ensures nextId !in notes
    ensures Consistent(notes[nextId := n], nextId + 1, now + 1)
  {
    ConsistentFreshId(notes, nextId, now);
    forall id | id in notes ensures Stored(notes[id], nextId + 1, now + 1) {
      assert Stored(notes[id], nextId, now);
    }
  }

  /** Replacing a stored note by a valid one under the same id, with a
      timestamp no later than `now'`, keeps the collection consistent. */
  lemma ConsistentReplace(notes: map<NoteId, Note>, nextId: NoteId, now: Time, now': Time, n: Note)
    requires Consistent(notes, nextId, now) && now <= now'
    requires n.id in notes && ValidNote(n) && n.updatedAt <= now'
    ensures Consistent(notes[n.id := n], nextId, now')
  {
    assert Stored(notes[n.id], nextId, now);
    forall id | id in notes ensures Stored(notes[id], nextId, now') {
      assert Stored(notes[id], nextId, now);
    }
  }

  /** The notes collection, with the logical clock and the id counter. */
  class NoteTable {
    var notes: map<NoteId, Note>
    /** The last time handed out; a 201 and a PUT that changes its note
        take the next tick, a delete does not. */
    var now: Time
    /** The next id to issue, standing in for ObjectId generation. */
    var nextId: NoteId

    ghost predicate Valid()
      reads this
    {
      Consistent(notes, nextId, now)
    }

    constructor ()
      ensures Valid()
      ensures notes == map[] && now == 0 && nextId == 0
    {
      notes := map[];
      now := 0;
      nextId := 0;
    }

    /** GET `/`: `Note.find({ user: u }).sort({ createdAt: -1 })`. The reply
        holds each note `u` owns exactly once, no note of anyone else, most
        recent first. */
    method List(u: UserId) returns (r: Response)
      requires Valid()
      ensures r.OkList?
      ensures multiset(r.notes) == multiset(OwnedBy(notes, u))
      ensures forall n :: n in r.notes <==> n in notes.Values && n.user == u
      ensures NewestFirst(r.notes)
    {
      var rest := notes.Keys;
      var acc: seq<Note> := [];
      assert notes - rest == map[];
      while rest != {}
        invariant rest <= notes.Keys
        invariant NewestFirst(acc)
        invariant multiset(acc) == multiset(OwnedBy(notes - rest, u))
        decreases rest
      {
        var id :| id in rest;
        OwnedByScanStep(notes, u, rest, id);
        if notes[id].user == u {
          acc := InsertByRecency(notes[id], acc);
        }
        rest := rest - {id};
      }
      assert notes - rest == notes;
      OwnedByMembers(notes, u, acc);
      r := OkList(acc);
    }

    /** GET `/:id`: `Note.findOne({ _id: id, user: u })`. The note comes back
        only to its owner; for anyone else, and for a missing id, the reply
        is 404 and carries no note. */
    method Get(u: UserId, ref: NoteRef) returns (r: Response)
      requires Valid()
      ensures ref.Malformed? ==> r == StoreError
      ensures ref.Ref? && !Owns(notes, u, ref.id) ==> r == NotFound
      ensures ref.Ref? && Owns(notes, u, ref.id) ==> r == Ok(notes[ref.id])
      ensures r.Ok? ==> r.note.id == ref.id && r.note.user == u && ValidNote(r.note)
    {
      match ref
      case Malformed => r := StoreError;
      case Ref(id) =>
        if id in notes && notes[id].user == u {
          r := Ok(notes[id]);
        } else {
          r := NotFound;
        }
    }

    /** POST `/`: build the note with a fresh id and the next tick and save
        it. A missing or empty field is 400 and a field that trims to
        nothing is 500; both leave the table as it was. On 201 the table
        gains exactly the new note and every other note is untouched. */
    method Create(u: UserId, title: Field, content: Field) returns (r: Response)
      requires Valid()
      modifies this
      ensures Valid()
      ensures r == NewNote(old(nextId), u, title, content, old(now) + 1)
      ensures !r.Created? ==> notes == old(notes) && now == old(now) && nextId == old(nextId)
      ensures r.Created? ==>
        && r.note.id !in old(notes)
        && notes == old(notes)[r.note.id := r.note]
        && now == old(now) + 1 && nextId == old(nextId) + 1
    {
      var t := now + 1;
      r := NewNote(nextId, u, title, content, t);
      if r.Created? {
        ConsistentInsert(notes, nextId, now, r.note);
        notes := notes[nextId := r.note];
        now := t;
        nextId := nextId + 1;
      }
    }

    /** PUT `/:id`: find the note under the ownership filter, apply the body
        to it and save. A malformed id or a failed save is 500 and a note
        that is missing or owned by someone else is 404; these leave the
        table as it was. On 200 only that note changes, as `Edit` says, and
        the clock moves only if the note did. */
    method Update(u: UserId, ref: NoteRef, title: Field, content: Field) returns (r: Response)
      requires Valid()
      modifies this
      ensures Valid()
      ensures nextId == old(nextId)
      ensures ref.Malformed? ==> r == StoreError && notes == old(notes) && now == old(now)
      ensures ref.Ref? && !Owns(old(notes), u, ref.id) ==>
        r == NotFound && notes == old(notes) && now == old(now)
      ensures ref.Ref? && Owns(old(notes), u, ref.id) ==>
        match Edit(old(notes)[ref.id], title, content, old(now) + 1)
        case None => r == StoreError && notes == old(notes) && now == old(now)
        case Some(n) =>
          && r == Ok(n)
          && notes == old(notes)[ref.id := n]
          && now == (if n == old(notes)[ref.id] then old(now) else old(now) + 1)
    {
      match ref
      case Malformed => r := StoreError;
      case Ref(id) =>
        if id in notes && notes[id].user == u {
          var note := notes[id];
          var t := now + 1;
          var saved := Edit(note, title, content, t);
          match saved
          case None => r := StoreError;
          case Some(n) =>
            ConsistentReplace(notes, nextId, now, if n != note then t else now, n);
            notes := notes[id := n];
            if n != note { now := t; }
            r := Ok(n);
        } else {
          r := NotFound;
        }
    }

    /** DELETE `/:id`: `Note.findOneAndDelete({ _id: id, user: u })`. On
        success exactly that note is gone and the others stay; a missing
        note, or one owned by someone else, is 404 and nothing changes. */
    method Delete(u: UserId, ref: NoteRef) returns (r: Response)
      requires Valid()
      modifies this
      ensures Valid()
      ensures now == old(now) && nextId == old(nextId)
      ensures ref.Malformed? ==> r == StoreError && notes == old(notes)
      ensures ref.Ref? && !Owns(old(notes), u, ref.id) ==> r == NotFound && notes == old(notes)
      ensures ref.Ref? && Owns(old(notes), u, ref.id) ==>
        r == Deleted && notes == old(notes) - {ref.id} && ref.id !in notes
    {
      match ref
      case Malformed => r := StoreError;
      case Ref(id) =>
        if id in notes && notes[id].user == u {
          notes := notes - {id};
          r := Deleted;
        } else {
          r := NotFound;
        }
    }
  }

  /** A helper of `ShoppingListScenario` only: three facts about its fixed
      string literals (no surrounding whitespace, so the schema stores them
      as given). It states nothing about the model in general. */
  lemma ShoppingFieldsStable()
    ensures Normalize("Shopping") == Some("Shopping")
    ensures Normalize("milk, eggs") == Some("milk, eggs")
    ensures Normalize("milk, eggs, bread") == Some("milk, eggs, bread")
  {
    var shopping, eggs, bread := "Shopping", "milk, eggs", "milk, eggs, bread";
    assert shopping[0] == 'S' && shopping[|shopping| - 1] == 'g';
    NormalizeValid(shopping);
    assert eggs[0] == 'm' && eggs[|eggs| - 1] == 's';
    NormalizeValid(eggs);
    assert bread[0] == 'm' && bread[|bread| - 1] == 'd';
    NormalizeValid(bread);
  }

  /** Two users and one note, request by request: the note is invisible to
      the other user, a content-only update keeps the title, and a second
      delete of the same id finds nothing. */
  method ShoppingListScenario()
  {
    var table := new NoteTable();
    var alice, bob := 1, 2;
    ShoppingFieldsStable();
    var created := table.Create(alice, Some("Shopping"), Some("milk, eggs"));
    assert created.Created?;
    var id := created.note.id;

    var byBob := table.Get(bob, Ref(id));
    assert byBob == NotFound;
    var byAlice := table.Get(alice, Ref(id));
    assert byAlice.Ok? && byAlice.note.content == "milk, eggs";

    var updated := table.Update(alice, Ref(id), None, Some("milk, eggs, bread"));
    assert updated.Ok? && updated.note.title == "Shopping";
    assert updated.note.content == "milk, eggs, bread";
    assert updated.note.updatedAt > created.note.updatedAt;

    var first := table.Delete(alice, Ref(id));
    assert first == Deleted;
    var again := table.Delete(alice, Ref(id));
    assert again == NotFound;
  }
}
