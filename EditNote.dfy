/**
 * The edit screen's state holder: the form of an existing note or task, its
 * validity, the note it saves, and the save itself (update the note, then
 * attach the newly chosen images).
 */
module EditNote {
  import opened Data
  import opened Text
  import Store

  /** The values of the form's fields. */
  datatype EditForm = EditForm(
    noteId: int,
    title: string,
    description: string,
    seleccionarTipo: string,
    fechaLimite: string,
    hora: string,
    estado: string)

  /** `isEntryValid`. */
  predicate ValidEntry(f: EditForm) {
    !IsBlank(f.title) && !IsBlank(f.description)
  }

  /** `x ?: d`. */
  function OrElse(x: Option<string>, d: string): string {
    match x
    case Some(v) => v
    case None => d
  }

  /** The form `initializeState(note)` fills in. */
  function FormFromNote(note: Note): EditForm {
    EditForm(
      noteId := note.id,
      title := note.title,
      description := note.description,
      seleccionarTipo := if note.idTipo == 1 then NOTES_TAB else TASKS_TAB,
      fechaLimite := OrElse(note.fechaLimite, ""),
      hora := OrElse(note.hora, ""),
      estado := OrElse(note.estado, PENDIENTE))
  }

  /** The form after `updateTipo(t)`. */
  function WithTipo(f: EditForm, t: string): EditForm {
    if t == NOTES_TAB then f.(seleccionarTipo := t, fechaLimite := "", hora := "", estado := PENDIENTE)
    else f.(seleccionarTipo := t)
  }

  /** `buildUpdatedNote()`. */
  function BuildNote(f: EditForm): Note {
    var tipo := if f.seleccionarTipo == NOTES_TAB then 1 else 2;
    Note(
      id := f.noteId,
      title := IfBlank(f.title, UNTITLED),
      description := f.description,
      idTipo := tipo,
      fechaLimite := if tipo == 2 then NullIfBlank(f.fechaLimite) else None,
      hora := if tipo == 2 then NullIfBlank(f.hora) else None,
      estado := if tipo == 2 then Some(IfBlank(f.estado, PENDIENTE)) else None)
  }

  /** The shape of every note the edit form saves: no legacy image, a
      visible title, type 1 or 2, no task fields on a note, and on a task an
      optional non-blank date and time and a non-blank status. */
  predicate IsCanonical(n: Note) {
    && n.imageUri == None
    && !IsBlank(n.title)
    && (n.idTipo == 1 || n.idTipo == 2)
    && (n.idTipo == 1 ==> n.fechaLimite == None && n.hora == None && n.estado == None)
    && (n.idTipo == 2 ==>
          && (n.fechaLimite == None || !IsBlank(n.fechaLimite.value))
          && (n.hora == None || !IsBlank(n.hora.value))
          && n.estado.Some? && !IsBlank(n.estado.value))
  }

  /** The form is valid exactly when title and description each hold a
      non-whitespace character. */
  lemma ValidEntryIff(f: EditForm)
    ensures ValidEntry(f) <==> HasVisibleChar(f.title) && HasVisibleChar(f.description)
  {
    BlankIffTrimEmpty(f.title);
    BlankIffTrimEmpty(f.description);
  }

  /** `initializeState` copies the key, title and description, picks the tab
      from the type, and turns absent task fields into "" and an absent
      status into "Pendiente". */
  lemma FormFromNoteFields(note: Note)
    ensures FormFromNote(note).noteId == note.id
    ensures FormFromNote(note).title == note.title && FormFromNote(note).description == note.description
    ensures FormFromNote(note).seleccionarTipo == NOTES_TAB <==> note.idTipo == 1
    ensures note.fechaLimite == None ==> FormFromNote(note).fechaLimite == ""
    ensures note.fechaLimite != None ==> FormFromNote(note).fechaLimite == note.fechaLimite.value
    ensures note.hora == None ==> FormFromNote(note).hora == ""
    ensures note.hora != None ==> FormFromNote(note).hora == note.hora.value
    ensures note.estado == None ==> FormFromNote(note).estado == PENDIENTE
    ensures note.estado != None ==> FormFromNote(note).estado == note.estado.value
  {
  }

  /** "Notes" clears the task fields; any other tab changes only the tab. */
  lemma WithTipoFields(f: EditForm, t: string)
    ensures WithTipo(f, t).seleccionarTipo == t
    ensures t == NOTES_TAB ==> WithTipo(f, t) == EditForm(f.noteId, f.title, f.description, t, "", "", PENDIENTE)
    ensures t != NOTES_TAB ==> WithTipo(f, t) == EditForm(f.noteId, f.title, f.description, t, f.fechaLimite, f.hora, f.estado)
  {
  }

  /** The saved note is a plain note exactly when the tab is "Notes", and a
      plain note carries no date, time or status. */
  lemma BuildNoteType(f: EditForm)
    ensures BuildNote(f).idTipo == 1 <==> f.seleccionarTipo == NOTES_TAB
    ensures BuildNote(f).idTipo == 1 || BuildNote(f).idTipo == 2
    ensures BuildNote(f).idTipo == 1 ==>
      BuildNote(f).fechaLimite == None && BuildNote(f).hora == None && BuildNote(f).estado == None
  {
  }

  /** On a task, a blank date or time is stored as absent and a blank status as
      "Pendiente"; non-blank values are stored as they are. */
  lemma BuildNoteTaskFields(f: EditForm)
    requires f.seleccionarTipo != NOTES_TAB
    ensures BuildNote(f).fechaLimite == (if IsBlank(f.fechaLimite) then None else Some(f.fechaLimite))
    ensures BuildNote(f).hora == (if IsBlank(f.hora) then None else Some(f.hora))
    ensures BuildNote(f).estado == Some(if IsBlank(f.estado) then PENDIENTE else f.estado)
  {
  }

  /** The key is kept, the description copied verbatim, and the title replaced
      by the placeholder only when it is blank. */
  lemma BuildNoteKeepsText(f: EditForm)
    ensures BuildNote(f).id == f.noteId
    ensures BuildNote(f).description == f.description
    ensures BuildNote(f).imageUri == None
    ensures BuildNote(f).title == UNTITLED <==> IsBlank(f.title) || f.title == UNTITLED
  {
  }

  /** The only save path requires a valid form, so what it saves carries the
      form's own title, never the placeholder standing in for a blank one. */
  lemma ValidFormSavesItsTitle(f: EditForm)
    requires ValidEntry(f)
    ensures BuildNote(f).title == f.title
    ensures !IsBlank(BuildNote(f).title)
  {
  }

  /** Whatever the form holds, the saved note has the canonical shape. */
  lemma BuildNoteIsCanonical(f: EditForm)
    ensures IsCanonical(BuildNote(f))
  {
    assert !IsBlank(UNTITLED) by { assert !IsWhitespace(UNTITLED[0]); }
    assert !IsBlank(PENDIENTE) by { assert !IsWhitespace(PENDIENTE[0]); }
  }

  /** Round trip: opening a canonical note in the form and saving it without
      changes gives the same note back. */
  lemma CanonicalRoundTrip(n: Note)
    requires IsCanonical(n)
    ensures BuildNote(FormFromNote(n)) == n
  {
    var f := FormFromNote(n);
    if n.idTipo == 2 {
      match n.fechaLimite {
        case None => assert IsBlank(f.fechaLimite);
        case Some(v) =>
      }
      match n.hora {
        case None => assert IsBlank(f.hora);
        case Some(v) =>
      }
    }
  }

  /** Saving again without changes is the identity: the edit screen is
      idempotent on what it has saved. */
  lemma SaveTwiceIsSaveOnce(f: EditForm)
    ensures BuildNote(FormFromNote(BuildNote(f))) == BuildNote(f)
  {
    BuildNoteIsCanonical(f);
    CanonicalRoundTrip(BuildNote(f));
  }

  /** `EditNoteViewModel`: the form's fields, over the store. */
  class EditNoteViewModel {
    const repository: Store.NoteStore
    var noteId: int
    var title: string
    var description: string
    /** The uris of the note's stored attachments, shown by the screen. Only
        `loadMultimedia` writes it, and that asynchronous refresh is not part
        of this model, so here it keeps the value the constructor gives it. */
    var multimediaUris: seq<string>
    var seleccionarTipo: string
    var fechaLimite: string
    var hora: string
    var estado: string

    /** The values of the fields. */
    function Form(): EditForm
      reads this
    {
      EditForm(noteId, title, description, seleccionarTipo, fechaLimite, hora, estado)
    }

    constructor (repository: Store.NoteStore)
      ensures this.repository == repository
      ensures Form() == EditForm(0, "", "", NOTES_TAB, "", "", PENDIENTE)
      ensures multimediaUris == []
    {
      this.repository := repository;
      noteId, title, description := 0, "", "";
      multimediaUris := [];
      seleccionarTipo, fechaLimite, hora, estado := NOTES_TAB, "", "", PENDIENTE;
    }

    /** `isEntryValid`. */
    predicate IsEntryValid(): (r: bool)
      reads this
      ensures r <==> HasVisibleChar(title) && HasVisibleChar(description)
    {
      ValidEntryIff(Form());
      ValidEntry(Form())
    }

    /** `buildUpdatedNote()`. */
    function BuildUpdatedNote(): Note
      reads this
    {
      BuildNote(Form())
    }

    /** `initializeState(note)`. */
    method InitializeState(note: Note)
      modifies this
      ensures Form() == FormFromNote(note)
      ensures noteId == note.id && title == note.title && description == note.description
      ensures seleccionarTipo == (if note.idTipo == 1 then NOTES_TAB else TASKS_TAB)
      ensures fechaLimite == OrElse(note.fechaLimite, "") && hora == OrElse(note.hora, "")
      ensures estado == OrElse(note.estado, PENDIENTE)
      ensures multimediaUris == old(multimediaUris)
    {
      noteId := note.id;
      title := note.title;
      description := note.description;
      seleccionarTipo := if note.idTipo == 1 then NOTES_TAB else TASKS_TAB;
      fechaLimite := OrElse(note.fechaLimite, "");
      hora := OrElse(note.hora, "");
      estado := OrElse(note.estado, PENDIENTE);
    }

    method UpdateTitle(newTitle: string)
      modifies this
      ensures Form() == old(Form()).(title := newTitle)
      ensures multimediaUris == old(multimediaUris)
    {
      title := newTitle;
    }

    method UpdateDescription(newDescription: string)
      modifies this
      ensures Form() == old(Form()).(description := newDescription)
      ensures multimediaUris == old(multimediaUris)
    {
      description := newDescription;
    }

    /** `updateTipo(t)`: "Notes" also resets date, time and status. */
    method UpdateTipo(newTipo: string)
      modifies this
      ensures Form() == WithTipo(old(Form()), newTipo)
      ensures multimediaUris == old(multimediaUris)
    {
      seleccionarTipo := newTipo;
      if newTipo == NOTES_TAB {
        fechaLimite := "";
        hora := "";
        estado := PENDIENTE;
      }
    }

    method UpdateFechaLimite(newDate: string)
      modifies this
      ensures Form() == old(Form()).(fechaLimite := newDate)
      ensures multimediaUris == old(multimediaUris)
    {
      fechaLimite := newDate;
    }

    method UpdateHora(newTime: string)
      modifies this
      ensures Form() == old(Form()).(hora := newTime)
      ensures multimediaUris == old(multimediaUris)
    {
      hora := newTime;
    }

    method UpdateEstado(newStatus: string)
      modifies this
      ensures Form() == old(Form()).(estado := newStatus)
      ensures multimediaUris == old(multimediaUris)
    {
      estado := newStatus;
    }

    /** `updateNoteWithMultimedia(uris)`, its coroutine run to completion. An
        invalid form saves nothing. A valid one updates the note with key
        `noteId`, then inserts one image attachment of that note per uri, in
        order; the existing attachments stay. If no note has that key the
        foreign key rejects the first attachment and the rest are not tried. */
    method UpdateNoteWithMultimedia(newImageUris: seq<string>, now: int)
      requires repository.Valid()
      modifies repository
      ensures repository.Valid()
      ensures !IsEntryValid() ==> unchanged(repository)
      ensures IsEntryValid() ==>
        && repository.notes == Store.ReplaceNote(old(repository.notes), BuildUpdatedNote())
        && repository.nextNoteId == old(repository.nextNoteId)
      ensures IsEntryValid() && noteId in Store.NoteIds(old(repository.notes)) ==>
        && repository.multimedia ==
             old(repository.multimedia) + Store.ImageRows(noteId, newImageUris, old(repository.nextMediaId), now)
        && repository.nextMediaId == old(repository.nextMediaId) + |newImageUris|
      ensures IsEntryValid() && noteId !in Store.NoteIds(old(repository.notes)) ==>
        && repository.multimedia == old(repository.multimedia)
        && repository.nextMediaId == old(repository.nextMediaId)
    {
      if IsEntryValid() {
        var noteToUpdate := BuildUpdatedNote();
        Store.ReplaceKeepsIds(repository.notes, noteToUpdate);
        repository.Update(noteToUpdate);
        ghost var linked := noteId in Store.NoteIds(repository.notes);
        ghost var firstId := repository.nextMediaId;
        var i := 0;
        while i < |newImageUris|
          invariant 0 <= i <= |newImageUris|
          invariant repository.Valid()
          invariant repository.notes == Store.ReplaceNote(old(repository.notes), noteToUpdate)
          invariant repository.nextNoteId == old(repository.nextNoteId)
          invariant linked ==>
            && repository.multimedia ==
                 old(repository.multimedia) + Store.ImageRows(noteId, newImageUris[..i], firstId, now)
            && repository.nextMediaId == firstId + i
          invariant !linked ==> repository.multimedia == old(repository.multimedia) && repository.nextMediaId == firstId
        {
          var entry := Multimedia(id := 0, notaId := noteId, uriArchivo := newImageUris[i], tipo := IMAGEN, fechaCreacion := now);
          var ok := repository.InsertMultimedia(entry);
          if !ok {
            return;
          }
          Store.ImageRowsExtend(noteId, newImageUris, i, firstId, now);
          i := i + 1;
        }
        assert newImageUris[..i] == newImageUris;
      }
    }
  }
}
