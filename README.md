# Encrypted notes: the App component's note store and dialog flow

This project models the core of a browser note-taking application whose
whole logic lives in the `App` component (`src/App.jsx`). The component keeps
an ordered list of note records (`id`, `title`, ciphertext `content`, and a
transient `decryptedContent`). It mirrors that list to one browser storage
slot. Its handlers do four things:

- save a note: create it, or replace the note being edited;
- reveal a note's plaintext with a passphrase;
- delete a note;
- drive a two-step edit flow: ask for the passphrase, then open the note
  dialog on the decrypted note.

Layout:

- `wrappers.dfy`: module `Wrappers`, `Option` (JavaScript `null` or an object).
- `cipher.dfy`: module `Crypto`, the `Cipher` pair. It stands for `encryptText`
  and `decryptText` as two uninterpreted total functions. Encrypting takes the
  random salt the library draws as an explicit `Salt` argument, so two
  encryptions of the same text are not forced to be equal. Decrypting returns
  `None` where the library throws.
- `notes.dfy`: module `Notes`, the `Note` record and the pure list transforms
  the handlers compute. These are replace-by-id (`MapById`, the `map` at lines
  59 and 69), remove-by-id (`RemoveById`, the `filter` at line 82), and the
  collections after a save (`SavedNotes`) and a reveal (`DecryptedNotes`).
  Lemmas about them sit beside them.
- `app.dfy`: module `NotesApp`, class `App`. Each React state variable is a
  field and each handler is a method. A method's `modifies` clause names
  exactly the state variables whose setters the handler calls, so all other
  state is provably unchanged. The field `storage` is the browser storage slot.
  It is rewritten after every `setNotes`, as the effect at lines 50-52 does.
  The class invariant `Valid()` says that storage mirrors the notes and that
  the passphrase dialog is open exactly while a note is selected for editing.
  The constructor establishes it, and every handler requires and keeps it.

The model follows the code, which does less than a note store of this kind
often does:

- Notes carry only the four fields above. There are no tags, importance or
  timestamps.
- Loading does not reset `decryptedContent`.
- The persisting effect writes revealed plaintext to storage as it is.
  `RevealSurvivesReload` shows the consequence: a revealed note comes back
  revealed after a reload.
- Saving an edit whose id is no longer present does not report "not found".
  It leaves the notes unchanged and appends nothing. The dialog still closes,
  the edit target is still cleared and storage is still rewritten.
- A failed reveal is an alert, not an error value.
- A storage slot that cannot be parsed is not turned into an empty list. The
  parse throws (see Left out).

## Model

| member | source | states |
|---|---|---|
| `Notes.MapById` | src/App.jsx:59 | the replace-by-id `map` of lines 59 and 69: the result has the input's length; every note with the given id is replaced by `f` of it in place; every other note is unchanged |
| `Notes.MapByIdAbsent` | src/App.jsx:59 | mapping over an id no note carries returns the collection unchanged |
| `Notes.RemoveById` | src/App.jsx:81-84 | a note is in the result iff it is in the input and its id differs; the result is no longer than the input and carries no note with that id |
| `Notes.RemoveAbsent` | src/App.jsx:82 | deleting an absent id is a no-op |
| `Notes.RemoveIdempotent` | src/App.jsx:81-84 | deleting twice equals deleting once |
| `Notes.RemoveConcat` | src/App.jsx:82 | removal distributes over concatenation, so the surviving notes keep their relative order |
| `Notes.RemoveKeepsUnique` | src/App.jsx:82 | deleting preserves id uniqueness |
| `Notes.RemoveOneOfUnique` | src/App.jsx:82 | with unique ids, deleting a present id shortens the collection by exactly one |
| `Notes.SavedNotes` | src/App.jsx:54-60 | the list a save hands to `setNotes`: creating adds exactly one note after an unchanged prefix; editing keeps the length and every note's id (`SaveCreates` and `SaveEdits` state the rest) |
| `Notes.SaveCreates` | src/App.jsx:54-60 | saving without an edit target appends exactly one note at the end, `{freshId, title, encrypt(content, secret), ''}`; earlier notes are unchanged and in order; a fresh id keeps ids unique |
| `Notes.SaveEdits` | src/App.jsx:54-60 | saving with an edit target keeps length, order and every id; each note with the edited id becomes `{id, title, encrypt(content, secret), ''}`; all others are unchanged; an absent id changes nothing and appends nothing; uniqueness is preserved |
| `Notes.DecryptedNotes` | src/App.jsx:66-73 | the list a reveal hands to `setNotes`: same length, and every note keeps its id, title and content (`DecryptRevealsOnly` states the rest) |
| `Notes.DecryptRevealsOnly` | src/App.jsx:66-73 | a reveal keeps length and every note's id, title and content; on success only the `decryptedContent` of notes with the matching id becomes the plaintext; on failure the collection is unchanged; uniqueness is preserved |
| `NotesApp.EditTarget` | src/App.jsx:92-97 | the edit dialog opens iff the action is `'edit'`, a note is selected and its envelope decrypts; it opens on the selected note with the same id, title and content and the plaintext as `decryptedContent` |
| `NotesApp.App.constructor` | src/App.jsx:28-48 | every state variable starts at its initial value; the notes are the stored list (or empty when nothing is stored), loaded as they are; the dialog state is idle; the invariant `Valid()` holds |
| `NotesApp.App.HandleSave` | src/App.jsx:54-64 | the notes become `SavedNotes` of the old notes, sealed with this save's salt (append when creating, same length when editing); uniqueness is preserved given a fresh id; storage mirrors the notes; afterwards `openDialog` is false and `editNote` is null; nothing else changes |
| `NotesApp.App.HandleDecrypt` | src/App.jsx:66-73 | the notes become `DecryptedNotes` of the old notes; a failed decrypt leaves notes and storage untouched; a successful one is persisted; uniqueness is preserved |
| `NotesApp.App.HandleEdit` | src/App.jsx:75-79 | the selected note becomes the given note, the action becomes `'edit'` and the passphrase dialog opens; nothing else changes |
| `NotesApp.App.HandleDelete` | src/App.jsx:81-84 | the notes become `RemoveById` of the old notes; an absent id changes nothing; uniqueness is preserved; storage mirrors the notes |
| `NotesApp.App.HandleDecryptDialogClose` | src/App.jsx:86-90 | the passphrase dialog returns to idle (closed, no selected note, no action) |
| `NotesApp.App.HandleDecryptDialogSubmit` | src/App.jsx:92-103 | the edit target and note dialog change only as `EditTarget` says, otherwise they keep their old values; the notes are untouched; the passphrase dialog always ends idle, whatever the outcome or action |
| `NotesApp.App.OpenNoteDialog` | src/App.jsx:118 | the add button as written opens the note dialog and changes nothing else, the edit target included |
| `NotesApp.App.OpenNewNoteDialog` | src/App.jsx:118 | the corrected add button opens the note dialog with no edit target |
| `NotesApp.App.CloseNoteDialog` | src/App.jsx:123 | cancelling the note dialog closes it and keeps the edit target |
| `NotesApp.AddAfterCancelledEdit` | src/App.jsx:118-126 | edit, then passphrase, then cancel, then add, then save, as written: the collection still holds one note, the old note overwritten |
| `NotesApp.AddAfterCancelledEditFixed` | src/App.jsx:118-126 | the same steps with the corrected add button keep the old note and append the new one after it |
| `NotesApp.RevealSurvivesReload` | src/App.jsx:45-52 | after a successful reveal, storage holds the plaintext, and a reload shows the note still revealed |

## Left out

- AES encryption and decryption (src/App.jsx:18-25) belong to a foreign
  library and are uninterpreted functions. No round trip and no wrong-key
  behaviour is assumed.
- The random salt `CryptoJS.AES.encrypt` draws on every call (src/App.jsx:19)
  is not generated by the model. It is the `salt` parameter of `HandleSave`,
  and nothing says that two saves draw different salts. Saves given different
  salts have unrelated envelopes; saves given the same salt, text and
  passphrase have the same envelope. The model does not say how rarely the
  library repeats a salt.
- `crypto.randomUUID` (src/App.jsx:56) is a host random source. It becomes the
  `freshId` parameter of `HandleSave`, required to be new only when a note is
  created.
- JSON encoding of the storage slot (src/App.jsx:46, 51) is taken as exact.
  `JSON.parse` throwing on a malformed slot is not modelled. The browser
  storage API and React's effect scheduling are reduced to the `storage`
  field, written after each `setNotes`.
- The `alert` calls (src/App.jsx:71, 99) are user-interface side effects.
  They appear only as the failure branch leaving state unchanged.
- Dark-mode state and the theme (src/App.jsx:31, 36-43, 111) and all JSX
  rendering are not modelled.
- src/components/NoteList.jsx, NoteDialog.jsx, DecryptDialog.jsx and
  ErrorBoundary.jsx are view components with local form state and are not part
  of this model. So is vite-config.js.
- React batching of state updates inside one handler is not modelled. Each
  handler reads its state before it writes any, so applying the setters in
  order gives the same final state.

## Findings

| source | as written | input that shows it | evidently intended | confidence | as-written member | corrected member |
|---|---|---|---|---|---|---|
| src/App.jsx:118 | the add button only sets `openDialog`; cancelling the note dialog (line 123) does not clear `editNote` | a note `n` whose passphrase decrypts: edit `n`, submit the passphrase, cancel the note dialog, press add, save | the add button starts a new note, so the save appends one | medium (not executed) | `NotesApp.AddAfterCancelledEdit` | `NotesApp.AddAfterCancelledEditFixed` |

With the code as written, the save in that sequence replaces `n` and appends
nothing. `OpenNewNoteDialog` also clears the edit target, and with it the
same steps keep `n` and append the new note.
