/**
 * The repository the view-models call (`insert`, `update`, `delete`,
 * `insertMultimedia`), as an in-memory store with the behaviour of the two
 * tables behind it: `notes` with an auto-generated key, and `multimedia`
 * with an auto-generated key and a foreign key to `notes` that cascades on
 * delete and rejects rows whose note does not exist.
 */
module Store {
  import opened Data
  import Seqs

  /** The ids of the stored notes. */
  function NoteIds(ns: seq<Note>): (ids: set<int>)
    ensures forall i :: 0 <= i < |ns| ==> ns[i].id in ids
    ensures forall x :: x in ids ==> exists i :: 0 <= i < |ns| && ns[i].id == x
  {
    set i | 0 <= i < |ns| :: ns[i].id
  }

  lemma NoteIdsAppend(ns: seq<Note>, n: Note)
    ensures NoteIds(ns + [n]) == NoteIds(ns) + {n.id}
  {
    var r := ns + [n];
    forall x | x in NoteIds(ns) ensures x in NoteIds(r) {
      var i :| 0 <= i < |ns| && ns[i].id == x;
      assert r[i].id == x;
    }
    assert r[|ns|].id == n.id;
  }

  function NoteKey(n: Note): int { n.id }
  function MediaKey(m: Multimedia): int { m.id }

  /** The filter predicates of the deletes: a different key, a different note. */
  function KeyIsNot(id: int): Note -> bool { (n: Note) => n.id != id }
  function MediaKeyIsNot(id: int): Multimedia -> bool { (m: Multimedia) => m.id != id }
  function OwnerIsNot(notaId: int): Multimedia -> bool { (m: Multimedia) => m.notaId != notaId }

  /** A key is left after the delete of `id` exactly when it was stored and is not `id`. */
  lemma KeyLeftAfterDelete(ns: seq<Note>, id: int, x: int)
    ensures x in NoteIds(Seqs.Filter(KeyIsNot(id), ns)) <==> x in NoteIds(ns) && x != id
  {
    var r := Seqs.Filter(KeyIsNot(id), ns);
    if x in NoteIds(ns) && x != id {
      var i :| 0 <= i < |ns| && ns[i].id == x;
      assert KeyIsNot(id)(ns[i]);
      var k :| 0 <= k < |r| && r[k] == ns[i];
      assert r[k].id == x;
    }
    if x in NoteIds(r) {
      var k :| 0 <= k < |r| && r[k].id == x;
      assert r[k] in ns && KeyIsNot(id)(r[k]);
    }
  }

  /** The rows left after deleting the note with primary key `id`. */
  function WithoutNote(ns: seq<Note>, id: int): (r: seq<Note>)
    ensures NoteIds(r) == NoteIds(ns) - {id}
    ensures forall i :: 0 <= i < |r| ==> r[i] in ns && r[i].id != id
    ensures forall i :: 0 <= i < |ns| && ns[i].id != id ==> ns[i] in r
  {
    var r := Seqs.Filter(KeyIsNot(id), ns);
    assert NoteIds(r) == NoteIds(ns) - {id} by {
      forall x ensures x in NoteIds(r) <==> x in NoteIds(ns) - {id} {
        KeyLeftAfterDelete(ns, id, x);
      }
    }
    r
  }

  /** The rows left after deleting the attachment with primary key `id`. */
  function WithoutMedia(ms: seq<Multimedia>, id: int): (r: seq<Multimedia>)
    ensures forall i :: 0 <= i < |r| ==> r[i] in ms && r[i].id != id
    ensures forall i :: 0 <= i < |ms| && ms[i].id != id ==> ms[i] in r
  {
    Seqs.Filter(MediaKeyIsNot(id), ms)
  }

  /** The attachments left once the cascade for note `notaId` has run. */
  function DetachMedia(ms: seq<Multimedia>, notaId: int): (r: seq<Multimedia>)
    ensures forall i :: 0 <= i < |r| ==> r[i].notaId != notaId && r[i] in ms
    ensures forall i :: 0 <= i < |ms| && ms[i].notaId != notaId ==> ms[i] in r
  {
    Seqs.Filter(OwnerIsNot(notaId), ms)
  }

  /** `@Update`: every row whose key is `n.id` becomes `n`; the others stay. */
  function ReplaceNote(ns: seq<Note>, n: Note): (r: seq<Note>)
    ensures |r| == |ns|
    ensures forall i :: 0 <= i < |ns| ==> r[i].id == ns[i].id
    ensures forall i :: 0 <= i < |ns| ==> r[i] == (if ns[i].id == n.id then n else ns[i])
  {
    seq(|ns|, i requires 0 <= i < |ns| => if ns[i].id == n.id then n else ns[i])
  }

  /** Every attachment refers to a stored note. */
  predicate MediaLinked(ms: seq<Multimedia>, ids: set<int>) {
    forall i :: 0 <= i < |ms| ==> ms[i].notaId in ids
  }

  /** Deleting a key nobody has changes nothing. */
  lemma DeleteMissingIsNoop(ns: seq<Note>, ms: seq<Multimedia>, id: int)
    requires id !in NoteIds(ns)
    requires MediaLinked(ms, NoteIds(ns))
    ensures WithoutNote(ns, id) == ns
    ensures DetachMedia(ms, id) == ms
  {
    Seqs.FilterKeepsAll(KeyIsNot(id), ns);
    Seqs.FilterKeepsAll(OwnerIsNot(id), ms);
  }

  /** An update leaves the set of keys as it was. */
  lemma ReplaceKeepsIds(ns: seq<Note>, n: Note)
    ensures NoteIds(ReplaceNote(ns, n)) == NoteIds(ns)
  {
    var r := ReplaceNote(ns, n);
    forall x | x in NoteIds(ns) ensures x in NoteIds(r) {
      var i :| 0 <= i < |ns| && ns[i].id == x;
      assert r[i].id == x;
    }
  }

  /** An update of a key that is not stored changes nothing. */
  lemma ReplaceMissingIsNoop(ns: seq<Note>, n: Note)
    requires n.id !in NoteIds(ns)
    ensures ReplaceNote(ns, n) == ns
  {
  }

  /** After an update of a stored key, that key holds exactly the new row. */
  lemma ReplaceStores(ns: seq<Note>, n: Note)
    requires Seqs.KeysDistinct(NoteKey, ns)
    requires n.id in NoteIds(ns)
    ensures n in ReplaceNote(ns, n)
    ensures forall i :: 0 <= i < |ns| && ReplaceNote(ns, n)[i].id == n.id ==> ReplaceNote(ns, n)[i] == n
  {
    var i :| 0 <= i < |ns| && ns[i].id == n.id;
    assert ReplaceNote(ns, n)[i] == n;
  }

  /** The table invariants: counters positive, keys distinct, non-zero and below
      their counter, every attachment pointing at a stored note. */
  ghost predicate Consistent(ns: seq<Note>, ms: seq<Multimedia>, nextNoteId: int, nextMediaId: int) {
    && 1 <= nextNoteId && 1 <= nextMediaId
    && Seqs.KeysDistinct(NoteKey, ns)
    && Seqs.KeysDistinct(MediaKey, ms)
    && (forall i :: 0 <= i < |ns| ==> ns[i].id != 0 && ns[i].id < nextNoteId)
    && (forall i :: 0 <= i < |ms| ==> ms[i].id != 0 && ms[i].id < nextMediaId)
    && MediaLinked(ms, NoteIds(ns))
  }

  /** Appending a row whose key is new and non-zero keeps the invariants. */
  lemma AppendKeepsConsistent(ns: seq<Note>, ms: seq<Multimedia>, nn: int, nm: int, note: Note)
    requires Consistent(ns, ms, nn, nm)
    requires note.id != 0 && note.id !in NoteIds(ns)
    ensures Consistent(ns + [note], ms, if note.id < nn then nn else note.id + 1, nm)
  {
    var r := ns + [note];
    NoteIdsAppend(ns, note);
    assert forall i :: 0 <= i < |ns| ==> r[i] == ns[i];
    forall i, j | 0 <= i < j < |r| ensures NoteKey(r[i]) != NoteKey(r[j]) {
      if j == |ns| {
        assert ns[i].id in NoteIds(ns);
      }
    }
  }

  lemma InsertFreshKeepsConsistent(ns: seq<Note>, ms: seq<Multimedia>, nn: int, nm: int, note: Note)
    requires Consistent(ns, ms, nn, nm)
    ensures nn !in NoteIds(ns)
    ensures Consistent(ns + [note.(id := nn)], ms, nn + 1, nm)
    ensures nn in NoteIds(ns + [note.(id := nn)])
  {
    AppendKeepsConsistent(ns, ms, nn, nm, note.(id := nn));
    NoteIdsAppend(ns, note.(id := nn));
  }

  lemma InsertReplacingKeepsConsistent(ns: seq<Note>, ms: seq<Multimedia>, nn: int, nm: int, note: Note)
    requires Consistent(ns, ms, nn, nm)
    requires note.id != 0
    ensures Consistent(WithoutNote(ns, note.id) + [note], DetachMedia(ms, note.id),
                       if note.id < nn then nn else note.id + 1, nm)
    ensures note.id in NoteIds(WithoutNote(ns, note.id) + [note])
  {
    DeleteKeepsConsistent(ns, ms, nn, nm, note.id);
    AppendKeepsConsistent(WithoutNote(ns, note.id), DetachMedia(ms, note.id), nn, nm, note);
    NoteIdsAppend(WithoutNote(ns, note.id), note);
  }

  lemma DeleteKeepsConsistent(ns: seq<Note>, ms: seq<Multimedia>, nn: int, nm: int, id: int)
    requires Consistent(ns, ms, nn, nm)
    ensures Consistent(WithoutNote(ns, id), DetachMedia(ms, id), nn, nm)
  {
    var kept := WithoutNote(ns, id);
    Seqs.FilterKeepsKeysDistinct(NoteKey, KeyIsNot(id), ns);
    Seqs.FilterKeepsKeysDistinct(MediaKey, OwnerIsNot(id), ms);
    forall i | 0 <= i < |kept| ensures kept[i].id != 0 && kept[i].id < nn {
      assert kept[i] in ns;
    }
    var ms' := DetachMedia(ms, id);
    forall i | 0 <= i < |ms'| ensures ms'[i].id != 0 && ms'[i].id < nm && ms'[i].notaId in NoteIds(kept) {
      assert ms'[i] in ms;
    }
  }

  /** Appending an attachment of a stored note under a new non-zero key keeps
      the invariants, raising the counter past an explicit key. */
  lemma AppendMediaKeepsConsistent(ns: seq<Note>, ms: seq<Multimedia>, nn: int, nm: int, m: Multimedia)
    requires Consistent(ns, ms, nn, nm)
    requires m.id != 0 && m.notaId in NoteIds(ns)
    requires forall i :: 0 <= i < |ms| ==> ms[i].id != m.id
    ensures Consistent(ns, ms + [m], nn, if m.id < nm then nm else m.id + 1)
  {
    var r := ms + [m];
    assert forall i :: 0 <= i < |ms| ==> r[i] == ms[i];
    assert r[|ms|] == m;
  }

  lemma InsertFreshMediaKeepsConsistent(ns: seq<Note>, ms: seq<Multimedia>, nn: int, nm: int, m: Multimedia)
    requires Consistent(ns, ms, nn, nm)
    requires m.notaId in NoteIds(ns)
    ensures Consistent(ns, ms + [m.(id := nm)], nn, nm + 1)
  {
    AppendMediaKeepsConsistent(ns, ms, nn, nm, m.(id := nm));
  }

  lemma InsertReplacingMediaKeepsConsistent(ns: seq<Note>, ms: seq<Multimedia>, nn: int, nm: int, m: Multimedia)
    requires Consistent(ns, ms, nn, nm)
    requires m.id != 0 && m.notaId in NoteIds(ns)
    ensures Consistent(ns, WithoutMedia(ms, m.id) + [m], nn, if m.id < nm then nm else m.id + 1)
  {
    var kept := WithoutMedia(ms, m.id);
    Seqs.FilterKeepsKeysDistinct(MediaKey, MediaKeyIsNot(m.id), ms);
    forall i | 0 <= i < |kept|
      ensures kept[i].id != 0 && kept[i].id < nm && kept[i].notaId in NoteIds(ns) && kept[i].id != m.id
    {
      assert kept[i] in ms && MediaKeyIsNot(m.id)(kept[i]);
    }
    assert Consistent(ns, kept, nn, nm);
    AppendMediaKeepsConsistent(ns, kept, nn, nm, m);
  }

  /** The attachments a run of image inserts with key 0 creates for note
      `notaId`: one per uri, in order, keyed from `firstId` on. */
  function ImageRows(notaId: int, uris: seq<string>, firstId: int, now: int): (rows: seq<Multimedia>)
    ensures |rows| == |uris|
    ensures forall k :: 0 <= k < |uris| ==>
      rows[k] == Multimedia(id := firstId + k, notaId := notaId, uriArchivo := uris[k], tipo := IMAGEN, fechaCreacion := now)
  {
    seq(|uris|, k requires 0 <= k < |uris| =>
      Multimedia(id := firstId + k, notaId := notaId, uriArchivo := uris[k], tipo := IMAGEN, fechaCreacion := now))
  }

  /** One more insert extends the run by one row. */
  lemma ImageRowsExtend(notaId: int, uris: seq<string>, i: int, firstId: int, now: int)
    requires 0 <= i < |uris|
    ensures ImageRows(notaId, uris[..i + 1], firstId, now) ==
      ImageRows(notaId, uris[..i], firstId, now) +
      [Multimedia(id := firstId + i, notaId := notaId, uriArchivo := uris[i], tipo := IMAGEN, fechaCreacion := now)]
  {
  }

  class NoteStore {
    /** The rows of table `notes`, in storage order. */
    var notes: seq<Note>
    /** The rows of table `multimedia`, in storage order. */
    var multimedia: seq<Multimedia>
    /** The key the next auto-generated note gets (`AUTOINCREMENT`: never reused). */
    var nextNoteId: int
    /** The key the next auto-generated attachment gets. */
    var nextMediaId: int

    ghost predicate Valid()
      reads this
    {
      Consistent(notes, multimedia, nextNoteId, nextMediaId)
    }

    constructor ()
      ensures Valid()
      ensures notes == [] && multimedia == []
      ensures nextNoteId == 1 && nextMediaId == 1
    {
      notes, multimedia := [], [];
      nextNoteId, nextMediaId := 1, 1;
    }

    /** `insert(note)` with `OnConflictStrategy.REPLACE`, returning the row id.
        Key 0 is a request for a fresh key; any other key replaces the row
        holding it (a delete, with its cascade, then an insert). */
    method Insert(note: Note) returns (rowId: int)
      requires Valid()
      modifies this
      ensures Valid()
      ensures nextMediaId == old(nextMediaId)
      ensures note.id == 0 ==>
        && rowId == old(nextNoteId) && rowId !in NoteIds(old(notes))
        && notes == old(notes) + [note.(id := rowId)]
        && multimedia == old(multimedia)
        && nextNoteId == old(nextNoteId) + 1
      ensures note.id != 0 ==>
        && rowId == note.id
        && notes == WithoutNote(old(notes), note.id) + [note]
        && multimedia == DetachMedia(old(multimedia), note.id)
        && nextNoteId == (if note.id < old(nextNoteId) then old(nextNoteId) else note.id + 1)
      ensures rowId in NoteIds(notes)
    {
      if note.id == 0 {
        rowId := nextNoteId;
        InsertFreshKeepsConsistent(notes, multimedia, nextNoteId, nextMediaId, note);
        notes := notes + [note.(id := rowId)];
        nextNoteId := nextNoteId + 1;
      } else {
        rowId := note.id;
        InsertReplacingKeepsConsistent(notes, multimedia, nextNoteId, nextMediaId, note);
        notes := WithoutNote(notes, note.id) + [note];
        multimedia := DetachMedia(multimedia, note.id);
        if nextNoteId <= note.id {
          nextNoteId := note.id + 1;
        }
      }
    }

    /** `update(note)`: the row with key `note.id` becomes `note`; no row, no change. */
    method Update(note: Note)
      requires Valid()
      modifies this
      ensures Valid()
      ensures notes == ReplaceNote(old(notes), note)
      ensures multimedia == old(multimedia)
      ensures nextNoteId == old(nextNoteId) && nextMediaId == old(nextMediaId)
    {
      ReplaceKeepsIds(notes, note);
      notes := ReplaceNote(notes, note);
    }

    /** `delete(note)`: removes the row with key `note.id` and, by the cascade,
        every attachment of it. */
    method Delete(note: Note)
      requires Valid()
      modifies this
      ensures Valid()
      ensures notes == WithoutNote(old(notes), note.id)
      ensures multimedia == DetachMedia(old(multimedia), note.id)
      ensures nextNoteId == old(nextNoteId) && nextMediaId == old(nextMediaId)
    {
      DeleteKeepsConsistent(notes, multimedia, nextNoteId, nextMediaId, note.id);
      notes := WithoutNote(notes, note.id);
      multimedia := DetachMedia(multimedia, note.id);
    }

    /** `insertMultimedia(m)` with `OnConflictStrategy.REPLACE`. The foreign key
        rejects an attachment whose note is not stored (`ok` is false and
        nothing changes: the constraint exception); otherwise key 0 gets a fresh
        key and any other key replaces the row holding it. */
    method InsertMultimedia(m: Multimedia) returns (ok: bool)
      requires Valid()
      modifies this
      ensures Valid()
      ensures notes == old(notes) && nextNoteId == old(nextNoteId)
      ensures ok <==> m.notaId in NoteIds(notes)
      ensures !ok ==> multimedia == old(multimedia) && nextMediaId == old(nextMediaId)
      ensures ok && m.id == 0 ==>
        && multimedia == old(multimedia) + [m.(id := old(nextMediaId))]
        && nextMediaId == old(nextMediaId) + 1
      ensures ok && m.id != 0 ==>
        && multimedia == WithoutMedia(old(multimedia), m.id) + [m]
        && nextMediaId == (if m.id < old(nextMediaId) then old(nextMediaId) else m.id + 1)
    {
      ok := m.notaId in NoteIds(notes);
      if ok {
        if m.id == 0 {
          InsertFreshMediaKeepsConsistent(notes, multimedia, nextNoteId, nextMediaId, m);
          multimedia := multimedia + [m.(id := nextMediaId)];
          nextMediaId := nextMediaId + 1;
        } else {
          InsertReplacingMediaKeepsConsistent(notes, multimedia, nextNoteId, nextMediaId, m);
          multimedia := WithoutMedia(multimedia, m.id) + [m];
          if nextMediaId <= m.id {
            nextMediaId := m.id + 1;
          }
        }
      }
    }
  }
}
