/**
 * The App component's state (src/App.jsx:28-34) and its event handlers as a
 * class. Each React state variable is a field, each setter call an
 * assignment; a handler's `modifies` clause names exactly the state variables
 * whose setters it calls, so every other one is unchanged. The dark-mode flag
 * and the rendering are not part of this model.
 */
module NotesApp {
  import opened Wrappers
  import opened Crypto
  import opened Notes

  /** The only value `decryptAction` is ever set to. */
  const EditAction := "edit"

  /**
   * The note the edit dialog is opened with when the passphrase dialog is
   * submitted with `secret` (src/App.jsx:93-97), or `None` when the edit
   * dialog is not opened: the action is not an edit, no note is selected, or
   * the passphrase does not open the selected note's envelope.
   */
  function EditTarget(action: Option<string>, selected: Option<Note>, secret: string, cipher: Cipher): (r: Option<Note>)
    ensures r.Some? <==>
      action == Some(EditAction) && selected.Some? && cipher.decrypt(selected.value.content, secret).Some?
    ensures r.Some? ==>
      && r.value.id == selected.value.id
      && r.value.title == selected.value.title
      && r.value.content == selected.value.content
      && r.value.decryptedContent == cipher.decrypt(selected.value.content, secret).value
  {
    if action == Some(EditAction) && selected.Some? then
      match cipher.decrypt(selected.value.content, secret)
      case None => None
      case Some(plain) => Some(selected.value.(decryptedContent := plain))
    else None
  }

  class App {
    /** The encrypt/decrypt pair the component calls. */
    const cipher: Cipher

    var notes: seq<Note>
    var openDialog: bool
    var editNote: Option<Note>
    var openDecryptDialog: bool
    var selectedNote: Option<Note>
    var decryptAction: Option<string>

    /**
     * The browser storage slot `'notes'`. The effect at src/App.jsx:50-52
     * writes the collection to it after every `setNotes`, as it is: revealed
     * plaintext included.
     */
    var storage: Option<seq<Note>>

    /**
     * The component's invariant: the storage slot mirrors the notes, and the
     * passphrase dialog is open exactly while a note is selected for editing.
     */
    ghost predicate Valid()
      reads this
    {
      && storage == Some(notes)
      && (openDecryptDialog <==> selectedNote.Some?)
      && (openDecryptDialog <==> decryptAction == Some(EditAction))
    }

    /**
     * Mounting the component: every state variable at its initial value,
     * then the load effect (src/App.jsx:45-48) takes whatever the storage
     * slot holds, or the empty list when it is empty. Revealed plaintext
     * persisted earlier is loaded as it is.
     */
    constructor (cipher: Cipher, stored: Option<seq<Note>>)
      ensures this.cipher == cipher
      ensures notes == (if stored.Some? then stored.value else [])
      ensures storage == Some(notes)
      ensures !openDialog && editNote == None
      ensures !openDecryptDialog && selectedNote == None && decryptAction == None
      ensures Valid()
    {
      this.cipher := cipher;
      notes := if stored.Some? then stored.value else [];
      storage := Some(notes);
      openDialog := false;
      editNote := None;
      openDecryptDialog := false;
      selectedNote := None;
      decryptAction := None;
    }

    /**
     * Saving the note dialog. `freshId` is the value `crypto.randomUUID`
     * returns; it is used, and must be new, only when no note is being
     * edited. `salt` is the one the cipher draws for this save. The dialog is
     * closed and the edit target cleared.
     */
    method HandleSave(title: string, content: string, secret: string, freshId: Id, salt: Salt)
      requires Valid()
      requires editNote.None? ==> !HasId(notes, freshId)
      modifies this`notes, this`storage, this`openDialog, this`editNote
      ensures Valid()
      ensures notes == SavedNotes(old(notes), old(editNote), freshId, title, content, secret, salt, cipher)
      ensures old(editNote).None? ==> |notes| == |old(notes)| + 1 && notes[..|old(notes)|] == old(notes)
      ensures old(editNote).Some? ==> |notes| == |old(notes)|
      ensures UniqueIds(old(notes)) ==> UniqueIds(notes)
      ensures storage == Some(notes)
      ensures !openDialog && editNote == None
    {
      var encryptedContent := cipher.encrypt(content, secret, salt);
      var id := if editNote.Some? then editNote.value.id else freshId;
      var newNote := Note(id, title, encryptedContent, "");
      var updatedNotes;
      if editNote.Some? {
        SaveEdits(notes, editNote.value, freshId, title, content, secret, salt, cipher);
        updatedNotes := MapById(notes, id, _ => newNote);
      } else {
        SaveCreates(notes, freshId, title, content, secret, salt, cipher);
        updatedNotes := notes + [newNote];
      }
      notes := updatedNotes;
      storage := Some(notes);
      openDialog := false;
      editNote := None;
    }

    /**
     * Revealing `note` with `secret`. Only a successful decryption calls
     * `setNotes`, so only then is the storage slot rewritten; a failure is
     * the alert, with no state change.
     */
    method HandleDecrypt(note: Note, secret: string)
      requires Valid()
      modifies this`notes, this`storage
      ensures Valid()
      ensures notes == DecryptedNotes(old(notes), note, secret, cipher)
      ensures cipher.decrypt(note.content, secret).None? ==> notes == old(notes) && storage == old(storage)
      ensures cipher.decrypt(note.content, secret).Some? ==> storage == Some(notes)
      ensures UniqueIds(old(notes)) ==> UniqueIds(notes)
    {
      DecryptRevealsOnly(notes, note, secret, cipher);
      var decrypted := cipher.decrypt(note.content, secret);
      if decrypted.Some? {
        var decryptedContent := decrypted.value;
        notes := MapById(notes, note.id, (n: Note) => n.(decryptedContent := decryptedContent));
        storage := Some(notes);
      }
    }

    /** Asking to edit `note` first asks for its passphrase. */
    method HandleEdit(note: Note)
      requires Valid()
      modifies this`selectedNote, this`decryptAction, this`openDecryptDialog
      ensures Valid()
      ensures selectedNote == Some(note) && decryptAction == Some(EditAction) && openDecryptDialog
    {
      selectedNote := Some(note);
      decryptAction := Some(EditAction);
      openDecryptDialog := true;
    }

    /** Deleting every note with the given id; an absent id deletes nothing. */
    method HandleDelete(id: Id)
      requires Valid()
      modifies this`notes, this`storage
      ensures Valid()
      ensures notes == RemoveById(old(notes), id)
      ensures !HasId(old(notes), id) ==> notes == old(notes)
      ensures UniqueIds(old(notes)) ==> UniqueIds(notes)
      ensures storage == Some(notes)
    {
      if !HasId(notes, id) {
        RemoveAbsent(notes, id);
      }
      if UniqueIds(notes) {
        RemoveKeepsUnique(notes, id);
      }
      notes := RemoveById(notes, id);
      storage := Some(notes);
    }

    /** Closing the passphrase dialog returns it to idle. */
    method HandleDecryptDialogClose()
      requires Valid()
      modifies this`openDecryptDialog, this`selectedNote, this`decryptAction
      ensures Valid()
      ensures !openDecryptDialog && selectedNote == None && decryptAction == None
    {
      openDecryptDialog := false;
      selectedNote := None;
      decryptAction := None;
    }

    /**
     * Submitting the passphrase dialog. An edit whose passphrase opens the
     * selected note's envelope opens the note dialog on that note with its
     * plaintext filled in; otherwise the edit target and the note dialog are
     * left as they were. Either way the passphrase dialog returns to idle.
     */
    method HandleDecryptDialogSubmit(secret: string)
      requires Valid()
      modifies this`editNote, this`openDialog
      modifies this`openDecryptDialog, this`selectedNote, this`decryptAction
      ensures Valid()
      ensures var target := EditTarget(old(decryptAction), old(selectedNote), secret, cipher);
        && editNote == (if target.Some? then target else old(editNote))
        && openDialog == (target.Some? || old(openDialog))
      ensures !openDecryptDialog && selectedNote == None && decryptAction == None
    {
      if decryptAction == Some(EditAction) && selectedNote.Some? {
        var decrypted := cipher.decrypt(selectedNote.value.content, secret);
        if decrypted.Some? {
          editNote := Some(selectedNote.value.(decryptedContent := decrypted.value));
          openDialog := true;
        }
      }
      HandleDecryptDialogClose();
    }

    /** The add button (src/App.jsx:118) as written: it only opens the note dialog. */
    method OpenNoteDialog()
      requires Valid()
      modifies this`openDialog
      ensures Valid()
      ensures openDialog
    {
      openDialog := true;
    }

    /**
     * The add button as evidently intended: it opens the note dialog for a
     * new note, clearing any edit target a cancelled edit left behind.
     */
    method OpenNewNoteDialog()
      requires Valid()
      modifies this`openDialog, this`editNote
      ensures Valid()
      ensures openDialog && editNote == None
    {
      openDialog := true;
      editNote := None;
    }

    /** Cancelling the note dialog (src/App.jsx:123): the edit target is kept. */
    method CloseNoteDialog()
      requires Valid()
      modifies this`openDialog
      ensures Valid()
      ensures !openDialog
    {
      openDialog := false;
    }
  }

  /**
   * The add button as written, after a cancelled edit: the note is opened
   * for editing, its passphrase accepted, the note dialog cancelled, then
   * the add button pressed and the dialog saved. The save does not append a
   * new note: it overwrites the note whose edit was cancelled.
   */
  method AddAfterCancelledEdit(cipher: Cipher, note: Note, secret: string,
                               freshId: Id, title: string, content: string, newSecret: string, salt: Salt)
    returns (saved: seq<Note>)
    requires cipher.decrypt(note.content, secret).Some?
    ensures saved == [Note(note.id, title, cipher.encrypt(content, newSecret, salt), "")]
  {
    var app := new App(cipher, Some([note]));
    app.HandleEdit(note);
    app.HandleDecryptDialogSubmit(secret);
    app.CloseNoteDialog();
    app.OpenNoteDialog();
    app.HandleSave(title, content, newSecret, freshId, salt);
    saved := app.notes;
  }

  /**
   * The same interaction with the add button clearing the edit target:
   * the existing note is kept and the new one is appended after it.
   */
  method AddAfterCancelledEditFixed(cipher: Cipher, note: Note, secret: string,
                                    freshId: Id, title: string, content: string, newSecret: string, salt: Salt)
    returns (saved: seq<Note>)
    requires cipher.decrypt(note.content, secret).Some?
    requires freshId != note.id
    ensures saved == [note, Note(freshId, title, cipher.encrypt(content, newSecret, salt), "")]
  {
    var app := new App(cipher, Some([note]));
    app.HandleEdit(note);
    app.HandleDecryptDialogSubmit(secret);
    app.CloseNoteDialog();
    app.OpenNewNoteDialog();
    app.HandleSave(title, content, newSecret, freshId, salt);
    saved := app.notes;
  }

  /**
   * Revealed plaintext is persisted and survives a reload: after a
   * successful reveal the storage slot holds the note with its plaintext,
   * and a component mounted on that slot shows it again, still revealed.
   */
  method RevealSurvivesReload(cipher: Cipher, note: Note, secret: string)
    returns (reloaded: seq<Note>)
    requires cipher.decrypt(note.content, secret).Some?
    ensures reloaded == [note.(decryptedContent := cipher.decrypt(note.content, secret).value)]
  {
    var app := new App(cipher, Some([note]));
    app.HandleDecrypt(note, secret);
    var next := new App(cipher, app.storage);
    reloaded := next.notes;
  }
}
