/**
 * The add screen's state holder: the form of a new note or task, its
 * validity, and the save (insert the note, then attach the chosen images to
 * the id the insert returned). Unlike the edit form, the status is not
 * editable: every new note is "Pendiente".
 */
module AddNote {
  import opened Data
  import opened Text
  import Store
  import EditNote

  /** The values of the form's editable fields. */
  datatype AddForm = AddForm(
    title: string,
    description: string,
    seleccionarTipo: string,
    fechaLimite: string,
    hora: string)

  /** The blank form the screen opens with. */
  const EMPTY_FORM: AddForm := AddForm("", "", NOTES_TAB, "", "")

  /** `isEntryValid`. */
  predicate ValidEntry(f: AddForm) {
    !IsBlank(f.title) && !IsBlank(f.description)
  }

  /** The form after `updateTipo(t)`: "Notes" clears date and time. */
  function WithTipo(f: AddForm, t: string): AddForm {
    if t == NOTES_TAB then f.(seleccionarTipo := t, fechaLimite := "", hora := "")
    else f.(seleccionarTipo := t)
  }

  /** The `noteToSave` expression of `saveNoteWithMultimedia`, with the
      form's fixed status `estado`. */
  function NoteToSave(f: AddForm, estado: string): Note {
    var tipo := if f.seleccionarTipo == NOTES_TAB then 1 else 2;
    Note(
      id := 0,
      title := IfBlank(f.title, UNTITLED),
      description := f.description,
      idTipo := tipo,
      fechaLimite := if tipo == 2 then NullIfBlank(f.fechaLimite) else None,
      hora := if tipo == 2 then NullIfBlank(f.hora) else None,
      estado := Some(estado))
  }

  /** The form is valid exactly when title and description each hold a
      non-whitespace character. */
  lemma ValidEntryIff(f: AddForm)
    ensures ValidEntry(f) <==> HasVisibleChar(f.title) && HasVisibleChar(f.description)
  {
    BlankIffTrimEmpty(f.title);
    BlankIffTrimEmpty(f.description);
  }

  /** "Notes" clears date and time; any other tab changes only the tab. */
  lemma WithTipoFields(f: AddForm, t: string)
    ensures WithTipo(f, t).seleccionarTipo == t
    ensures t == NOTES_TAB ==> WithTipo(f, t) == AddForm(f.title, f.description, t, "", "")
    ensures t != NOTES_TAB ==> WithTipo(f, t) == AddForm(f.title, f.description, t, f.fechaLimite, f.hora)
  {
  }

  /** The note to insert asks for a fresh key, is a plain note exactly when
      the tab is "Notes", and then carries no date or time. */
  lemma NoteToSaveType(f: AddForm)
    ensures NoteToSave(f, PENDIENTE).id == 0
    ensures NoteToSave(f, PENDIENTE).imageUri == None
    ensures NoteToSave(f, PENDIENTE).idTipo == 1 <==> f.seleccionarTipo == NOTES_TAB
    ensures NoteToSave(f, PENDIENTE).idTipo == 1 || NoteToSave(f, PENDIENTE).idTipo == 2
    ensures NoteToSave(f, PENDIENTE).idTipo == 1 ==>
      NoteToSave(f, PENDIENTE).fechaLimite == None && NoteToSave(f, PENDIENTE).hora == None
  {
  }

  /** On a task a blank date or time is stored as absent; non-blank values as they are. */
  lemma NoteToSaveTaskFields(f: AddForm)
    requires f.seleccionarTipo != NOTES_TAB
    ensures NoteToSave(f, PENDIENTE).fechaLimite == (if IsBlank(f.fechaLimite) then None else Some(f.fechaLimite))
    ensures NoteToSave(f, PENDIENTE).hora == (if IsBlank(f.hora) then None else Some(f.hora))
  {
  }

  /** With the form's fixed status, every new note is "Pendiente", plain notes
      included (the edit form saves no status on a plain note). */
  lemma NewNoteIsPending(f: AddForm)
    ensures NoteToSave(f, PENDIENTE).estado == Some(PENDIENTE)
    ensures f.seleccionarTipo == NOTES_TAB ==>
      NoteToSave(f, PENDIENTE).estado != EditNote.BuildNote(EditNote.FormFromNote(NoteToSave(f, PENDIENTE))).estado
  {
  }

  /** A valid form saves its own title and description. */
  lemma ValidFormSavesItsText(f: AddForm)
    requires ValidEntry(f)
    ensures NoteToSave(f, PENDIENTE).title == f.title
    ensures NoteToSave(f, PENDIENTE).description == f.description
  {
  }

  /** A task added with a valid form, whatever key it got, comes back unchanged
      from the edit form saved without changes; a plain note comes back with
      its status dropped. */
  lemma AddThenEdit(f: AddForm, key: int)
    requires ValidEntry(f)
    ensures f.seleccionarTipo != NOTES_TAB ==>
      EditNote.BuildNote(EditNote.FormFromNote(NoteToSave(f, PENDIENTE).(id := key))) == NoteToSave(f, PENDIENTE).(id := key)
    ensures f.seleccionarTipo == NOTES_TAB ==>
      EditNote.BuildNote(EditNote.FormFromNote(NoteToSave(f, PENDIENTE).(id := key))) == NoteToSave(f, PENDIENTE).(id := key, estado := None)
  {
    var n := NoteToSave(f, PENDIENTE).(id := key);
    assert !IsBlank(PENDIENTE) by { assert !IsWhitespace(PENDIENTE[0]); }
    if f.seleccionarTipo != NOTES_TAB {
      assert EditNote.IsCanonical(n);
      EditNote.CanonicalRoundTrip(n);
    } else {
      assert EditNote.IsCanonical(n.(estado := None));
      EditNote.CanonicalRoundTrip(n.(estado := None));
    }
  }

  /** `AddNoteViewModel`: the form's fields, over the store. */
  class AddNoteViewModel {
    const repository: Store.NoteStore
    var title: string
    var description: string
    var seleccionarTipo: string
    var fechaLimite: string
    var hora: string
    /** The status, fixed at "Pendiente": the screen cannot change it. */
    const estado: string

    /** The values of the editable fields. */
    function Form(): AddForm
      reads this
    {
      AddForm(title, description, seleccionarTipo, fechaLimite, hora)
    }

    constructor (repository: Store.NoteStore)
      ensures this.repository == repository
      ensures Form() == EMPTY_FORM
      ensures estado == PENDIENTE
    {
      this.repository := repository;
      title, description := "", "";
      seleccionarTipo, fechaLimite, hora := NOTES_TAB, "", "";
      estado := PENDIENTE;
    }

    /** `isEntryValid`. */
    predicate IsEntryValid(): (r: bool)
      reads this
      ensures r <==> HasVisibleChar(title) && HasVisibleChar(description)
    {
      ValidEntryIff(Form());
      ValidEntry(Form())
    }

    method UpdateTitle(newTitle: string)
      modifies this
      ensures Form() == old(Form()).(title := newTitle)
    {
      title := newTitle;
    }

    method UpdateDescription(newDescription: string)
      modifies this
      ensures Form() == old(Form()).(description := newDescription)
    {
      description := newDescription;
    }

    /** `updateTipo(t)`: "Notes" also clears date and time. */
    method UpdateTipo(newTipo: string)
      modifies this
      ensures Form() == WithTipo(old(Form()), newTipo)
    {
      seleccionarTipo := newTipo;
      if newTipo == NOTES_TAB {
        fechaLimite := "";
        hora := "";
      }
    }

    method UpdateFechaLimite(newDate: string)
      modifies this
      ensures Form() == old(Form()).(fechaLimite := newDate)
    {
      fechaLimite := newDate;
    }

    method UpdateHora(newTime: string)
      modifies this
      ensures Form() == old(Form()).(hora := newTime)
    {
      hora := newTime;
    }

    /** `saveNoteWithMultimedia(uris)`, its coroutine run to completion. An
        invalid form saves nothing. A valid one inserts the note, which gets
        the store's next key, then one image attachment per uri, in order,
        linked to that key cut to an `Int` (`newNoteId.toInt()`). The cut
        changes nothing while the key fits in an `Int`; past that, a row whose
        note does not exist is rejected by the foreign key and the rest are not
        tried. */
    method SaveNoteWithMultimedia(tempImageUris: seq<string>, now: int)
      requires repository.Valid()
      modifies repository
      ensures repository.Valid()
      ensures !IsEntryValid() ==> unchanged(repository)
      ensures IsEntryValid() ==>
        && repository.notes == old(repository.notes) + [NoteToSave(Form(), estado).(id := old(repository.nextNoteId))]
        && repository.nextNoteId == old(repository.nextNoteId) + 1
      ensures IsEntryValid() ==>
        var notaId := LongToInt(old(repository.nextNoteId));
        if notaId in Store.NoteIds(repository.notes) then
          && repository.multimedia ==
               old(repository.multimedia) + Store.ImageRows(notaId, tempImageUris, old(repository.nextMediaId), now)
          && repository.nextMediaId == old(repository.nextMediaId) + |tempImageUris|
        else
          && repository.multimedia == old(repository.multimedia)
          && repository.nextMediaId == old(repository.nextMediaId)
      ensures IsEntryValid() && old(repository.nextNoteId) <= INT_MAX ==>
        repository.multimedia ==
          old(repository.multimedia) + Store.ImageRows(old(repository.nextNoteId), tempImageUris, old(repository.nextMediaId), now)
    {
      if IsEntryValid() {
        var noteToSave := NoteToSave(Form(), estado);
        var newNoteId := repository.Insert(noteToSave);
        var notaId := LongToInt(newNoteId);
        if newNoteId <= INT_MAX {
          LongToIntInRange(newNoteId);
        }
        ghost var linked := notaId in Store.NoteIds(repository.notes);
        ghost var notesNow := repository.notes;
        ghost var firstId := repository.nextMediaId;
        var i := 0;
        while i < |tempImageUris|
          invariant 0 <= i <= |tempImageUris|
          invariant repository.Valid()
          invariant repository.notes == notesNow
          invariant repository.nextNoteId == old(repository.nextNoteId) + 1
          invariant linked ==>
            && repository.multimedia ==
                 old(repository.multimedia) + Store.ImageRows(notaId, tempImageUris[..i], firstId, now)
            && repository.nextMediaId == firstId + i
          invariant !linked ==> repository.multimedia == old(repository.multimedia) && repository.nextMediaId == firstId
        {
          var entry := Multimedia(id := 0, notaId := notaId, uriArchivo := tempImageUris[i], tipo := IMAGEN, fechaCreacion := now);
          var ok := repository.InsertMultimedia(entry);
          if !ok {
            return;
          }
          Store.ImageRowsExtend(notaId, tempImageUris, i, firstId, now);
          i := i + 1;
        }
        assert tempImageUris[..i] == tempImageUris;
      }
    }
  }
}
