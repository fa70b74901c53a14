/**
 * The note collection of the App component (src/App.jsx) and the pure list
 * transforms its handlers compute before handing the result to `setNotes`:
 * the replace-by-id `map` (lines 59 and 69), the append (line 60) and the
 * `filter` (line 82).
 */
module Notes {
  import opened Wrappers
  import opened Crypto

  /** Note identifiers are the strings `crypto.randomUUID` returns. */
  type Id = string

  /** A note record: exactly the four fields built at src/App.jsx:57. */
  datatype Note = Note(id: Id, title: string, content: string, decryptedContent: string)

  predicate HasId(notes: seq<Note>, id: Id) {
    exists i :: 0 <= i < |notes| && notes[i].id == id
  }

  /** No two notes of the collection share an id. */
  predicate UniqueIds(notes: seq<Note>) {
    forall i, j :: 0 <= i < j < |notes| ==> notes[i].id != notes[j].id
  }

  // ---------------------------------------------------------------------
  // Replace by id: `notes.map(n => n.id === id ? f(n) : n)`
  // ---------------------------------------------------------------------

  /** Applies `f` to every note whose id is `id`; every other note stays as it is, in place. */
  function MapById(notes: seq<Note>, id: Id, f: Note -> Note): (r: seq<Note>)
    ensures |r| == |notes|
    ensures forall i :: 0 <= i < |notes| && notes[i].id == id ==> r[i] == f(notes[i])
    ensures forall i :: 0 <= i < |notes| && notes[i].id != id ==> r[i] == notes[i]
  {
    if notes == [] then []
    else [if notes[0].id == id then f(notes[0]) else notes[0]] + MapById(notes[1..], id, f)
  }

  /** Mapping over an id that no note carries returns the collection unchanged. */
  lemma MapByIdAbsent(notes: seq<Note>, id: Id, f: Note -> Note)
    requires !HasId(notes, id)
    ensures MapById(notes, id, f) == notes
  {
  }

  // ---------------------------------------------------------------------
  // Remove by id: keep the notes whose id differs from the given one
  // ---------------------------------------------------------------------

  /** The notes whose id differs from `id`, in their original order. */
  function RemoveById(notes: seq<Note>, id: Id): (r: seq<Note>)
    ensures |r| <= |notes|
    ensures forall n :: n in r <==> n in notes && n.id != id
    ensures !HasId(r, id)
  {
    if notes == [] then []
    else
      assert notes == [notes[0]] + notes[1..];
      if notes[0].id == id then RemoveById(notes[1..], id)
      else [notes[0]] + RemoveById(notes[1..], id)
  }

  /** Removing an id that no note carries is a no-op. */
  lemma {:induction false} RemoveAbsent(notes: seq<Note>, id: Id)
    requires !HasId(notes, id)
    ensures RemoveById(notes, id) == notes
  {
    if notes != [] {
      assert notes[0].id != id;
      assert !HasId(notes[1..], id) by {
        forall i | 0 <= i < |notes[1..]| ensures notes[1..][i].id != id {
          assert notes[1..][i] == notes[i + 1];
        }
      }
      RemoveAbsent(notes[1..], id);
    }
  }

  /** Deleting the same id twice is the same as deleting it once. */
  lemma RemoveIdempotent(notes: seq<Note>, id: Id)
    ensures RemoveById(RemoveById(notes, id), id) == RemoveById(notes, id)
  {
    RemoveAbsent(RemoveById(notes, id), id);
  }

  /** Removal works piecewise, so the survivors keep their relative order. */
  lemma {:induction false} RemoveConcat(a: seq<Note>, b: seq<Note>, id: Id)
    ensures RemoveById(a + b, id) == RemoveById(a, id) + RemoveById(b, id)
  {
    if a != [] {
      assert (a + b)[0] == a[0];
      assert (a + b)[1..] == a[1..] + b;
      RemoveConcat(a[1..], b, id);
    } else {
      assert a + b == b;
    }
  }

  /** Deleting keeps the ids of the collection unique. */
  lemma {:induction false} RemoveKeepsUnique(notes: seq<Note>, id: Id)
    requires UniqueIds(notes)
    ensures UniqueIds(RemoveById(notes, id))
  {
    if notes != [] {
      var tail := notes[1..];
      assert UniqueIds(tail) by {
        forall i, j | 0 <= i < j < |tail| ensures tail[i].id != tail[j].id {
          assert tail[i] == notes[i + 1] && tail[j] == notes[j + 1];
        }
      }
      RemoveKeepsUnique(tail, id);
      var rest := RemoveById(tail, id);
      if notes[0].id != id {
        var r := [notes[0]] + rest;
        forall j | 0 < j < |r| ensures r[0].id != r[j].id {
          assert r[j] == rest[j - 1];
          assert rest[j - 1] in tail;
          var k :| 0 <= k < |tail| && tail[k] == rest[j - 1];
          assert tail[k] == notes[k + 1];
        }
      }
    }
  }

  /** With unique ids, deleting a present id removes exactly one note. */
  lemma {:induction false} RemoveOneOfUnique(notes: seq<Note>, id: Id)
    requires UniqueIds(notes)
    requires HasId(notes, id)
    ensures |RemoveById(notes, id)| == |notes| - 1
  {
    var tail := notes[1..];
    if notes[0].id == id {
      assert !HasId(tail, id) by {
        forall i | 0 <= i < |tail| ensures tail[i].id != id {
          assert tail[i] == notes[i + 1];
        }
      }
      RemoveAbsent(tail, id);
    } else {
      assert UniqueIds(tail) by {
        forall i, j | 0 <= i < j < |tail| ensures tail[i].id != tail[j].id {
          assert tail[i] == notes[i + 1] && tail[j] == notes[j + 1];
        }
      }
      var i :| 0 <= i < |notes| && notes[i].id == id;
      assert tail[i - 1] == notes[i];
      RemoveOneOfUnique(tail, id);
    }
  }

  // ---------------------------------------------------------------------
  // handleSave (src/App.jsx:54-60)
  // ---------------------------------------------------------------------

  /**
   * The collection `handleSave` hands to `setNotes`. The body is sealed under
   * `secret` and nothing is revealed. Without `editNote` the note gets the id
   * `freshId` (the value `crypto.randomUUID` returned) and is appended; with
   * `editNote` every note carrying its id is replaced. `salt` is the one the
   * cipher draws for this encryption.
   */
  function SavedNotes(notes: seq<Note>, editNote: Option<Note>, freshId: Id,
                      title: string, content: string, secret: string, salt: Salt,
                      cipher: Cipher): (r: seq<Note>)
    ensures editNote.None? ==> |r| == |notes| + 1 && r[..|notes|] == notes
    ensures editNote.Some? ==> |r| == |notes| && forall i :: 0 <= i < |notes| ==> r[i].id == notes[i].id
  {
    var id := if editNote.Some? then editNote.value.id else freshId;
    var newNote := Note(id, title, cipher.encrypt(content, secret, salt), "");
    if editNote.Some? then MapById(notes, id, _ => newNote) else notes + [newNote]
  }

  /** Creating appends exactly one sealed note at the end and keeps ids unique given a fresh id. */
  lemma SaveCreates(notes: seq<Note>, freshId: Id, title: string, content: string, secret: string,
                    salt: Salt, cipher: Cipher)
    ensures var r := SavedNotes(notes, None, freshId, title, content, secret, salt, cipher);
      && |r| == |notes| + 1
      && r[..|notes|] == notes
      && r[|notes|] == Note(freshId, title, cipher.encrypt(content, secret, salt), "")
      && (UniqueIds(notes) && !HasId(notes, freshId) ==> UniqueIds(r))
  {
  }

  /**
   * Editing keeps length, order and every id; notes carrying the edited id
   * become the sealed note, all others are unchanged; an edited id that is no
   * longer present changes nothing and appends nothing.
   */
  lemma SaveEdits(notes: seq<Note>, editNote: Note, freshId: Id,
                  title: string, content: string, secret: string, salt: Salt, cipher: Cipher)
    ensures var r := SavedNotes(notes, Some(editNote), freshId, title, content, secret, salt, cipher);
      && |r| == |notes|
      && (forall i :: 0 <= i < |notes| ==> r[i].id == notes[i].id)
      && (forall i :: 0 <= i < |notes| && notes[i].id == editNote.id ==>
            r[i] == Note(editNote.id, title, cipher.encrypt(content, secret, salt), ""))
      && (forall i :: 0 <= i < |notes| && notes[i].id != editNote.id ==> r[i] == notes[i])
      && (!HasId(notes, editNote.id) ==> r == notes)
      && (UniqueIds(notes) ==> UniqueIds(r))
  {
    var newNote := Note(editNote.id, title, cipher.encrypt(content, secret, salt), "");
    if !HasId(notes, editNote.id) {
      MapByIdAbsent(notes, editNote.id, _ => newNote);
    }
  }

  // ---------------------------------------------------------------------
  // handleDecrypt (src/App.jsx:66-73)
  // ---------------------------------------------------------------------

  /**
   * The collection after asking to reveal `note` with `secret`: the envelope
   * of the `note` argument is opened, and on success the plaintext is set on
   * every note of the collection carrying its id. On failure the collection
   * is left as it is.
   */
  function DecryptedNotes(notes: seq<Note>, note: Note, secret: string, cipher: Cipher): (r: seq<Note>)
    ensures |r| == |notes|
    ensures forall i :: 0 <= i < |notes| ==>
      r[i].id == notes[i].id && r[i].title == notes[i].title && r[i].content == notes[i].content
  {
    match cipher.decrypt(note.content, secret)
    case None => notes
    case Some(plain) => MapById(notes, note.id, (n: Note) => n.(decryptedContent := plain))
  }

  /**
   * A reveal touches only `decryptedContent`, and only of notes with the
   * matching id and only when decryption succeeds; a failed reveal changes
   * nothing.
   */
  lemma DecryptRevealsOnly(notes: seq<Note>, note: Note, secret: string, cipher: Cipher)
    ensures var r := DecryptedNotes(notes, note, secret, cipher);
      && |r| == |notes|
      && (forall i :: 0 <= i < |notes| ==>
            r[i].id == notes[i].id && r[i].title == notes[i].title && r[i].content == notes[i].content)
      && (cipher.decrypt(note.content, secret).None? ==> r == notes)
      && (cipher.decrypt(note.content, secret).Some? ==>
            forall i :: 0 <= i < |notes| ==>
              r[i].decryptedContent ==
                (if notes[i].id == note.id then cipher.decrypt(note.content, secret).value
                 else notes[i].decryptedContent))
      && (UniqueIds(notes) ==> UniqueIds(r))
  {
  }
}
