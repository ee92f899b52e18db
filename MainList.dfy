/**
 * The main list screen's state holder: a free-text query and a type selector
 * (0 all, 1 notes only, 2 tasks only) that, combined with the stored notes,
 * give the visible list.
 */
module MainList {
  import opened Data
  import opened Text
  import Seqs
  import Store

  /** `it.idTipo == t`, the predicate of the two type filters. */
  function HasType(t: int): Note -> bool {
    (n: Note) => n.idTipo == t
  }

  /** The `when (filterId)` step: selector 1 keeps the notes, 2 the tasks,
      anything else the whole list. */
  function FilterByType(notes: seq<Note>, filterId: int): (r: seq<Note>)
    ensures forall i :: 0 <= i < |r| ==> r[i] in notes && TypeSelected(filterId, r[i])
    ensures forall i :: 0 <= i < |notes| && TypeSelected(filterId, notes[i]) ==> notes[i] in r
  {
    if filterId == 1 then Seqs.Filter(HasType(1), notes)
    else if filterId == 2 then Seqs.Filter(HasType(2), notes)
    else notes
  }

  /** Title or description contains `q`, ignoring case. */
  predicate MatchesQuery(n: Note, q: string) {
    ContainsIgnoreCase(n.title, q) || ContainsIgnoreCase(n.description, q)
  }

  function Matching(q: string): Note -> bool {
    (n: Note) => MatchesQuery(n, q)
  }

  /** The search step: trim the query; a blank query keeps everything,
      any other keeps the notes that match it. */
  function FilterByText(notes: seq<Note>, query: string): (r: seq<Note>)
    ensures forall i :: 0 <= i < |r| ==> r[i] in notes && TextSelected(Trim(query), r[i])
    ensures forall i :: 0 <= i < |notes| && TextSelected(Trim(query), notes[i]) ==> notes[i] in r
  {
    var t := Trim(query);
    if IsBlank(t) then notes else Seqs.Filter(Matching(t), notes)
  }

  /** The `combine` lambda: the type filter, then the search. */
  function FilterNotes(notes: seq<Note>, query: string, filterId: int): seq<Note> {
    FilterByText(FilterByType(notes, filterId), query)
  }

  // Reference definitions: the two steps as single predicates on a note.

  /** Whether selector `filterId` lets `n` through. */
  predicate TypeSelected(filterId: int, n: Note) {
    if filterId == 1 then n.idTipo == 1
    else if filterId == 2 then n.idTipo == 2
    else true
  }

  /** Whether the trimmed query `t` lets `n` through. */
  predicate TextSelected(t: string, n: Note) {
    IsBlank(t) || MatchesQuery(n, t)
  }

  /** Whether `n` is on the visible list for `query` and selector `filterId`. */
  predicate Visible(query: string, filterId: int, n: Note) {
    TypeSelected(filterId, n) && TextSelected(Trim(query), n)
  }

  function TypeSelector(filterId: int): Note -> bool {
    (n: Note) => TypeSelected(filterId, n)
  }

  function TextSelector(t: string): Note -> bool {
    (n: Note) => TextSelected(t, n)
  }

  function VisibleSelector(query: string, filterId: int): Note -> bool {
    (n: Note) => Visible(query, filterId, n)
  }

  /** The type step is the filter by `TypeSelected`. */
  lemma FilterByTypeIsFilter(notes: seq<Note>, filterId: int)
    ensures FilterByType(notes, filterId) == Seqs.Filter(TypeSelector(filterId), notes)
  {
    if filterId == 1 {
      Seqs.FilterCongruent(HasType(1), TypeSelector(filterId), notes);
    } else if filterId == 2 {
      Seqs.FilterCongruent(HasType(2), TypeSelector(filterId), notes);
    } else {
      Seqs.FilterKeepsAll(TypeSelector(filterId), notes);
    }
  }

  /** The search step is the filter by `TextSelected` on the trimmed query. */
  lemma FilterByTextIsFilter(notes: seq<Note>, query: string)
    ensures FilterByText(notes, query) == Seqs.Filter(TextSelector(Trim(query)), notes)
  {
    var t := Trim(query);
    if IsBlank(t) {
      Seqs.FilterKeepsAll(TextSelector(t), notes);
    } else {
      Seqs.FilterCongruent(Matching(t), TextSelector(t), notes);
    }
  }

  /** The visible list keeps, in order, exactly the notes that pass both tests. */
  lemma FilterNotesIsFilter(notes: seq<Note>, query: string, filterId: int)
    ensures FilterNotes(notes, query, filterId) == Seqs.Filter(VisibleSelector(query, filterId), notes)
  {
    var byType := FilterByType(notes, filterId);
    FilterByTypeIsFilter(notes, filterId);
    FilterByTextIsFilter(byType, query);
    Seqs.FilterFilter(TextSelector(Trim(query)), TypeSelector(filterId), notes);
    Seqs.FilterCongruent(
      Seqs.Both(TypeSelector(filterId), TextSelector(Trim(query))),
      VisibleSelector(query, filterId), notes);
  }

  /** Selector 1 shows only notes, and every note that matches the query;
      selector 2 the same for tasks. */
  lemma SelectorKeepsOnlyItsType(notes: seq<Note>, query: string, filterId: int)
    requires filterId == 1 || filterId == 2
    ensures forall i :: 0 <= i < |FilterNotes(notes, query, filterId)| ==>
      FilterNotes(notes, query, filterId)[i].idTipo == filterId
    ensures forall i :: 0 <= i < |notes| && notes[i].idTipo == filterId && TextSelected(Trim(query), notes[i]) ==>
      notes[i] in FilterNotes(notes, query, filterId)
  {
    FilterNotesIsFilter(notes, query, filterId);
  }

  /** Any selector other than 1 and 2, 0 included, lets every note through. */
  lemma OtherSelectorKeepsAll(notes: seq<Note>, filterId: int)
    requires filterId != 1 && filterId != 2
    ensures FilterByType(notes, filterId) == notes
  {
  }

  /** A query that is blank once trimmed shows the type-filtered list as it is. */
  lemma BlankQueryShowsTypeFiltered(notes: seq<Note>, query: string, filterId: int)
    requires IsBlank(query)
    ensures FilterNotes(notes, query, filterId) == FilterByType(notes, filterId)
  {
    TrimmedBlankIffBlank(query);
  }

  /** With a non-blank query, a note is shown exactly when it passes the type
      filter and its title or description contains the trimmed query, ignoring case. */
  lemma QueryShowsExactlyMatches(notes: seq<Note>, query: string, filterId: int)
    requires !IsBlank(query)
    ensures forall i :: 0 <= i < |FilterNotes(notes, query, filterId)| ==>
      var n := FilterNotes(notes, query, filterId)[i];
      n in notes && TypeSelected(filterId, n) && MatchesQuery(n, Trim(query))
    ensures forall i :: 0 <= i < |notes| && TypeSelected(filterId, notes[i]) && MatchesQuery(notes[i], Trim(query)) ==>
      notes[i] in FilterNotes(notes, query, filterId)
  {
    TrimmedBlankIffBlank(query);
    FilterNotesIsFilter(notes, query, filterId);
  }

  /** The visible list is an order-preserving subsequence of the notes, with no
      note added or repeated. */
  lemma FilterNotesIsSubsequence(notes: seq<Note>, query: string, filterId: int)
    ensures Seqs.IsSubsequence(FilterNotes(notes, query, filterId), notes)
    ensures multiset(FilterNotes(notes, query, filterId)) <= multiset(notes)
  {
    FilterNotesIsFilter(notes, query, filterId);
    Seqs.FilterIsSubsequence(VisibleSelector(query, filterId), notes);
    Seqs.SubsequenceMultiset(FilterNotes(notes, query, filterId), notes);
  }

  /** Whitespace around the query changes nothing. */
  lemma TrimmedQuerySameList(notes: seq<Note>, query: string, filterId: int)
    ensures FilterNotes(notes, query, filterId) == FilterNotes(notes, Trim(query), filterId)
  {
    var t := Trim(query);
    TrimIdempotent(query);
    var byType := FilterByType(notes, filterId);
    FilterByTextIsFilter(byType, query);
    FilterByTextIsFilter(byType, t);
  }

  /** The search and the type filter may be applied in either order. */
  lemma TypeAndTextCommute(notes: seq<Note>, query: string, filterId: int)
    ensures FilterByText(FilterByType(notes, filterId), query) == FilterByType(FilterByText(notes, query), filterId)
  {
    FilterByTypeIsFilter(notes, filterId);
    FilterByTextIsFilter(notes, query);
    FilterByTypeIsFilter(FilterByText(notes, query), filterId);
    FilterByTextIsFilter(FilterByType(notes, filterId), query);
    Seqs.FilterCommutes(TextSelector(Trim(query)), TypeSelector(filterId), notes);
  }

  /** The search ignores the case of the query: typing it in lower case
      shows the same list. */
  lemma QueryCaseIrrelevant(notes: seq<Note>, query: string, filterId: int)
    ensures FilterNotes(notes, Lowered(query), filterId) == FilterNotes(notes, query, filterId)
  {
    var t := Trim(query);
    TrimLowered(query);
    TrimLowered(t);
    assert Trim(Lowered(query)) == Lowered(t);
    var byType := FilterByType(notes, filterId);
    if !IsBlank(t) {
      forall i | 0 <= i < |byType| ensures Matching(Lowered(t))(byType[i]) == Matching(t)(byType[i]) {
        ContainsLoweredQuery(byType[i].title, t);
        ContainsLoweredQuery(byType[i].description, t);
      }
      Seqs.FilterCongruent(Matching(Lowered(t)), Matching(t), byType);
    }
  }

  /** The initial state (empty query, selector 0) shows every note. */
  lemma InitialStateShowsAll(notes: seq<Note>)
    ensures FilterNotes(notes, "", 0) == notes
  {
    BlankQueryShowsTypeFiltered(notes, "", 0);
    OtherSelectorKeepsAll(notes, 0);
  }

  /** `MainViewModel`: the query and the selector, over the store's notes. */
  class MainViewModel {
    const repository: Store.NoteStore
    /** `_searchText`. */
    var searchText: string
    /** `_filterType`. */
    var filterType: int

    constructor (repository: Store.NoteStore)
      ensures this.repository == repository
      ensures searchText == "" && filterType == 0
      ensures FilteredNotes() == repository.notes
    {
      this.repository := repository;
      searchText := "";
      filterType := 0;
      new;
      InitialStateShowsAll(this.repository.notes);
      assert FilteredNotes() == FilterNotes(this.repository.notes, "", 0);
    }

    /** `filteredNotes`: the list the screen shows for the present state. */
    function FilteredNotes(): (r: seq<Note>)
      reads this, repository
      ensures r == Seqs.Filter(VisibleSelector(searchText, filterType), repository.notes)
    {
      FilterNotesIsFilter(repository.notes, searchText, filterType);
      FilterNotes(repository.notes, searchText, filterType)
    }

    method UpdateSearchText(text: string)
      modifies this
      ensures searchText == text
      ensures filterType == old(filterType)
    {
      searchText := text;
    }

    method UpdateFilterType(filterId: int)
      modifies this
      ensures filterType == filterId
      ensures searchText == old(searchText)
    {
      filterType := filterId;
    }

    /** `deleteNote`: the store drops the note and, by the cascade, its attachments. */
    method DeleteNote(note: Note)
      requires repository.Valid()
      modifies repository
      ensures repository.Valid()
      ensures repository.notes == Store.WithoutNote(old(repository.notes), note.id)
      ensures repository.multimedia == Store.DetachMedia(old(repository.multimedia), note.id)
      ensures note.id !in Store.NoteIds(repository.notes)
    {
      repository.Delete(note);
    }
  }
}
