/**
  The application object: the note list, the note blocks currently rendered
  from it, and the snapshots of the list it has handed to the per-user
  document store (each write replaces the whole document; the store, its
  asynchrony and its failures are outside the model).
*/
module NotesApp {
  import opened Wrappers
  import opened DateFormat
  import opened Notes
  import opened NoteViews

  /** What reading the user's document can yield. */
  datatype FetchResult = Found(stored: seq<Note>) | Missing | Failed

  class App {
    var notes: seq<Note>
    /** The note blocks inside the notes container, in order. */
    var views: seq<NoteView>
    /** Every list written to the document store, oldest first. */
    var writes: seq<seq<Note>>
    /** The host's local-time decomposition of a millisecond timestamp. */
    const calendar: int -> DateTime

    /** The rendered blocks always show the notes, one for one. */
    ghost predicate Valid()
      reads this
    {
      Shows(views, notes, calendar)
    }

    /** A fresh application: no notes and nothing rendered or written. */
    constructor (calendar: int -> DateTime)
      ensures Valid()
      ensures notes == [] && views == [] && writes == [] && this.calendar == calendar
    {
      this.calendar := calendar;
      notes := [];
      views := [];
      writes := [];
    }

    /** Hands the whole current list to the document store. */
    method SaveNotes()
      modifies this`writes
      ensures writes == old(writes) + [notes]
    {
      writes := writes + [notes];
    }

    /** Re-renders every block from the list. */
    method DisplayNotes()
      modifies this`views
      ensures views == Rendered(notes, calendar)
    {
      views := Rendered(notes, calendar);
    }

    /** Saves, then re-renders; the list itself is not touched. */
    method Render()
      modifies this`writes, this`views
      ensures writes == old(writes) + [notes]
      ensures views == Rendered(notes, calendar)
    {
      SaveNotes();
      DisplayNotes();
    }

    /** Appends a note, unless the text is empty, in which case nothing at
        all happens. The clock is read twice, once for the id (`idNow`) and
        once for the timestamp (`updatedNow`); the two readings may differ. */
    method AddNote(title: string, text: string, idNow: int, updatedNow: int)
      requires Valid()
      modifies this
      ensures Valid()
      ensures text == "" ==> notes == old(notes) && views == old(views) && writes == old(writes)
      ensures text != "" ==> |notes| == |old(notes)| + 1 && notes[..|old(notes)|] == old(notes)
      ensures text != "" ==> notes[|old(notes)|] == Note(idNow, title, text, updatedNow)
      ensures text != "" ==> views == Rendered(notes, calendar) && writes == old(writes) + [notes]
    {
      if text != "" {
        notes := notes + [Note(idNow, title, text, updatedNow)];
        Render();
      }
    }

    /** Rewrites, in place, the text of every note whose id is `id`; the
        title argument of `editNote` is ignored. */
    method EditNote(id: int, text: string)
      modifies this
      ensures notes == Edited(old(notes), id, text)
      ensures views == Rendered(notes, calendar) && writes == old(writes) + [notes]
    {
      var i := 0;
      while i < |notes|
        invariant 0 <= i <= |notes| == |old(notes)|
        invariant forall j :: 0 <= j < i ==> notes[j] == Edited(old(notes), id, text)[j]
        invariant notes[i..] == old(notes)[i..]
        invariant writes == old(writes)
      {
        assert notes[i] == old(notes)[i];
        if notes[i].id == id {
          notes := notes[i := notes[i].(text := text)];
        }
        i := i + 1;
      }
      Render();
    }

    /** Keeps only the notes whose id is not `id`. */
    method DeleteNote(id: int)
      modifies this
      ensures notes == Deleted(old(notes), id)
      ensures views == Rendered(notes, calendar) && writes == old(writes) + [notes]
    {
      notes := Deleted(notes, id);
      Render();
    }

    /** Loads the user's document after sign-in: a stored list replaces the
        notes and is rendered; a missing document is created empty while
        the notes in memory stay as they were; a failed read changes nothing. */
    method FetchNotes(result: FetchResult)
      requires Valid()
      modifies this
      ensures Valid()
      ensures result.Found? ==> notes == result.stored && views == Rendered(notes, calendar) && writes == old(writes)
      ensures result.Missing? ==> notes == old(notes) && views == old(views) && writes == old(writes) + [[]]
      ensures result.Failed? ==> notes == old(notes) && views == old(views) && writes == old(writes)
    {
      match result
      case Found(stored) =>
        notes := stored;
        DisplayNotes();
      case Missing =>
        writes := writes + [[]];
      case Failed =>
    }

    /** The pencil of block k is clicked: that block enters edit mode. */
    method EditNoteEvent(k: nat)
      requires Valid() && k < |views|
      modifies this`views
      ensures Valid()
      ensures views == old(views)[k := StartEdit(old(views)[k])]
    {
      views := views[k := StartEdit(views[k])];
    }

    /** The user types into the editable paragraph of block k (the browser's
        doing, not the application's). */
    method TypeInto(k: nat, text: string)
      requires Valid() && k < |views| && views[k].body.contentEditable == Some("true")
      modifies this`views
      ensures Valid()
      ensures views == old(views)[k := old(views)[k].(body := old(views)[k].body.(text := text))]
    {
      views := views[k := views[k].(body := views[k].body.(text := text))];
    }

    /** The check of block k is clicked: the block leaves edit mode, the
        note with the block's id takes the paragraph's current text, and the
        list is saved and rendered twice. */
    method ConfirmNoteEdit(k: nat)
      requires Valid() && k < |views|
      modifies this
      ensures Valid()
      ensures notes == Edited(old(notes), old(views[k].marker), old(views[k].body.text))
      ensures old(UniqueIds(notes)) ==> notes == old(notes[k := notes[k].(text := views[k].body.text)])
      ensures views == Rendered(notes, calendar)
      ensures writes == old(writes) + [notes] + [notes]
    {
      var v := views[k];
      assert UniqueIds(notes) ==> Edited(notes, v.marker, v.body.text) == notes[k := notes[k].(text := v.body.text)] by {
        EditThroughBlock(notes, views, calendar, k);
      }
      views := views[k := FinishEdit(v)];
      EditNote(v.marker, v.body.text);
      Render();
    }

    /** The trash icon of block k is clicked: the note with the block's id
        goes, and the list is saved and rendered twice. */
    method DeleteNoteEvent(k: nat)
      requires Valid() && k < |views|
      modifies this
      ensures Valid()
      ensures notes == Deleted(old(notes), old(views[k].marker))
      ensures old(UniqueIds(notes)) ==> notes == old(notes[..k] + notes[k + 1..])
      ensures views == Rendered(notes, calendar)
      ensures writes == old(writes) + [notes] + [notes]
    {
      var id := views[k].marker;
      assert UniqueIds(notes) ==> Deleted(notes, id) == notes[..k] + notes[k + 1..] by {
        DeleteThroughBlock(notes, views, calendar, k);
      }
      DeleteNote(id);
      Render();
    }
  }

  /** Confirming block k edits exactly note k when ids are unique, because
      block k carries note k's id. */
  lemma EditThroughBlock(ns: seq<Note>, vs: seq<NoteView>, calendar: int -> DateTime, k: nat)
    requires Shows(vs, ns, calendar) && k < |vs|
    ensures UniqueIds(ns) ==> Edited(ns, vs[k].marker, vs[k].body.text) == ns[k := ns[k].(text := vs[k].body.text)]
  {
    assert Displays(vs[k], ns[k], calendar);
    if UniqueIds(ns) {
      EditedAt(ns, k, vs[k].body.text);
    }
  }

  /** Deleting through block k removes exactly note k when ids are unique. */
  lemma DeleteThroughBlock(ns: seq<Note>, vs: seq<NoteView>, calendar: int -> DateTime, k: nat)
    requires Shows(vs, ns, calendar) && k < |vs|
    ensures UniqueIds(ns) ==> Deleted(ns, vs[k].marker) == ns[..k] + ns[k + 1..]
  {
    assert Displays(vs[k], ns[k], calendar);
    if UniqueIds(ns) {
      DeletedAt(ns, k);
    }
  }

  /** The add, edit, delete walk-through on a fresh application, concluded
      from the contracts alone. */
  method Walkthrough(calendar: int -> DateTime, idNow: int, updatedNow: int)
  {
    var app := new App(calendar);
    app.AddNote("T", "", idNow, updatedNow);
    assert app.notes == [];
    app.AddNote("T1", "hello", idNow, updatedNow);
    assert app.notes == [Note(idNow, "T1", "hello", updatedNow)];
    app.EditNoteEvent(0);
    assert IsEditing(app.views[0]);
    app.TypeInto(0, "world");
    app.ConfirmNoteEdit(0);
    assert app.notes == [Note(idNow, "T1", "world", updatedNow)];
    assert IsViewing(app.views[0]);
    app.DeleteNoteEvent(0);
    assert app.notes == [];
  }
}
