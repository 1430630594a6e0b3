/**
 * The notes panel: a list of notes, most recent first, and the id of the
 * note open in the editor. Notes are created empty, saved from the editor's
 * title and body fields, deleted, and searched case-insensitively.
 */
module Notes {
  import opened Wrappers
  import opened ArrayOps
  import opened JsString

  /** A note; `created` and `updated` are millisecond timestamps. */
  datatype Note = Note(id: string, title: string, body: string, created: int, updated: int)

  /** The first note with id `id`, the one `notes.find(x => x.id === id)` returns. */
  function IndexOfNote(notes: seq<Note>, id: string): (r: Option<nat>)
    ensures r.None? <==> forall i :: 0 <= i < |notes| ==> notes[i].id != id
    ensures r.Some? ==> r.value < |notes| && notes[r.value].id == id
    ensures r.Some? ==> forall j :: 0 <= j < r.value ==> notes[j].id != id
  {
    FindIndex(notes, (n: Note) => n.id == id)
  }

  /** The notes without those whose id is `id`. */
  function WithoutNote(notes: seq<Note>, id: string): (r: seq<Note>)
    ensures forall i :: 0 <= i < |r| ==> r[i].id != id && r[i] in notes
    ensures forall j :: 0 <= j < |notes| && notes[j].id != id ==> notes[j] in r
  {
    Filter(notes, (n: Note) => n.id != id)
  }

  /** Deleting keeps every other note, in the same relative order. */
  lemma WithoutNoteKeepsOrder(notes: seq<Note>, id: string)
    ensures SelectsExactly(notes, (n: Note) => n.id != id, WithoutNote(notes, id),
                           FilterPositions(notes, (n: Note) => n.id != id))
  {
    FilterSelectsExactly(notes, (n: Note) => n.id != id);
  }

  /**
   * The notes after the editor is saved into the note with id `id`: the
   * first such note takes the title, body and `updated` time given, every
   * other note and field is kept; with no such note nothing changes.
   */
  function SaveNote(notes: seq<Note>, id: string, title: string, body: string, now: int): (r: seq<Note>)
    ensures |r| == |notes|
    ensures forall i :: 0 <= i < |r| ==> r[i].id == notes[i].id && r[i].created == notes[i].created
    ensures IndexOfNote(notes, id).None? ==> r == notes
    ensures IndexOfNote(notes, id).Some? ==>
      var k := IndexOfNote(notes, id).value;
      && r[k] == notes[k].(title := title, body := body, updated := now)
      && forall i :: 0 <= i < |r| && i != k ==> r[i] == notes[i]
  {
    match IndexOfNote(notes, id)
    case None => notes
    case Some(k) => notes[k := notes[k].(title := title, body := body, updated := now)]
  }

  /**
   * Saving the same editor contents again, as back-to-back autosaves do, is
   * the same as saving once at the later time.
   */
  lemma SaveNoteTwice(notes: seq<Note>, id: string, title: string, body: string, t1: int, t2: int)
    ensures SaveNote(SaveNote(notes, id, title, body, t1), id, title, body, t2)
            == SaveNote(notes, id, title, body, t2)
  {
    var saved := SaveNote(notes, id, title, body, t1);
    FindIndexCongruent(notes, saved, (n: Note) => n.id == id, (n: Note) => n.id == id);
  }

  /** A save at a time no earlier than a note's creation keeps `created <= updated` for it. */
  lemma SaveNoteKeepsTimeOrder(notes: seq<Note>, id: string, title: string, body: string, now: int)
    requires forall i :: 0 <= i < |notes| ==> notes[i].created <= notes[i].updated
    requires forall i :: 0 <= i < |notes| ==> notes[i].created <= now
    ensures var r := SaveNote(notes, id, title, body, now);
      forall i :: 0 <= i < |r| ==> r[i].created <= r[i].updated
  {
  }

  /** Deleting a new note whose id no other note has gives back the list it was added to. */
  lemma DeleteUndoesNew(notes: seq<Note>, id: string, created: int, updated: int)
    requires IndexOfNote(notes, id).None?
    ensures WithoutNote([Note(id, "", "", created, updated)] + notes, id) == notes
  {
    var n := Note(id, "", "", created, updated);
    assert ([n] + notes)[1..] == notes;
    FilterKeepsAll(notes, (m: Note) => m.id != id);
  }

  /** The search test: the lower-cased title or body contains the lower-cased query. */
  predicate Matches(n: Note, query: string)
  {
    Includes(ToLower(n.title), ToLower(query)) || Includes(ToLower(n.body), ToLower(query))
  }

  /** The search box: the notes that match `query`, in list order. */
  function Search(notes: seq<Note>, query: string): (r: seq<Note>)
    ensures |r| <= |notes|
    ensures forall i :: 0 <= i < |r| ==> Matches(r[i], query) && r[i] in notes
    ensures forall j :: 0 <= j < |notes| && Matches(notes[j], query) ==> notes[j] in r
  {
    Filter(notes, (n: Note) => Matches(n, query))
  }

  /** The search keeps exactly the matching notes, in list order. */
  lemma SearchIsSubsequence(notes: seq<Note>, query: string)
    ensures SelectsExactly(notes, (n: Note) => Matches(n, query), Search(notes, query),
                           FilterPositions(notes, (n: Note) => Matches(n, query)))
  {
    FilterSelectsExactly(notes, (n: Note) => Matches(n, query));
  }

  /** An empty search box shows every note. */
  lemma SearchEmptyQuery(notes: seq<Note>)
    ensures Search(notes, "") == notes
  {
    forall i | 0 <= i < |notes|
      ensures Matches(notes[i], "")
    {
      IncludesEmpty(ToLower(notes[i].title));
    }
    FilterKeepsAll(notes, (n: Note) => Matches(n, ""));
  }

  /** The search ignores the case of ASCII letters in the query. */
  lemma SearchIgnoresCase(notes: seq<Note>, query: string)
    ensures Search(notes, query) == Search(notes, ToLower(query))
  {
    ToLowerIdempotent(query);
    FilterCongruent(notes, (n: Note) => Matches(n, query), (n: Note) => Matches(n, ToLower(query)));
  }

  /** The notes state: the module-level `notes` list and `activeNoteId`. */
  class Notebook {
    var notes: seq<Note>
    var activeId: Option<string>

    /** The active id is set and not empty (`if (!activeNoteId) return;` fails). */
    predicate HasActive()
      reads this
    {
      activeId.Some? && activeId.value != ""
    }

    /** The active id, when set, is that of a note in the list. */
    ghost predicate Valid()
      reads this
    {
      activeId.Some? ==> IndexOfNote(notes, activeId.value).Some?
    }

    /** `loadNotes`: the stored list, or no notes when nothing usable is stored; nothing is open. */
    constructor Load(stored: Option<seq<Note>>)
      ensures Valid()
      ensures notes == (if stored.Some? then stored.value else []) && activeId == None
    {
      notes := if stored.Some? then stored.value else [];
      activeId := None;
    }

    /**
     * `openNote`: with a note of id `id`, that note becomes active and is
     * returned for the editor; with none, nothing changes.
     */
    method Open(id: string) returns (shown: Option<Note>)
      requires Valid()
      modifies this
      ensures Valid() && notes == old(notes)
      ensures IndexOfNote(notes, id).None? ==> activeId == old(activeId) && shown == None
      ensures IndexOfNote(notes, id).Some? ==>
        activeId == Some(id) && shown == Some(notes[IndexOfNote(notes, id).value])
    {
      var found := IndexOfNote(notes, id);
      if found.None? {
        return None;
      }
      activeId := Some(id);
      shown := Some(notes[found.value]);
    }

    /**
     * `newNote`: an empty note goes in front and is opened. The id and the
     * two timestamps are the three clock readings the source takes.
     */
    method NewNote(id: string, created: int, updated: int)
      requires Valid()
      modifies this
      ensures Valid()
      ensures notes == [Note(id, "", "", created, updated)] + old(notes)
      ensures activeId == Some(id)
    {
      var n := Note(id, "", "", created, updated);
      notes := [n] + notes;
      var shown := Open(n.id);
    }

    /**
     * `saveActiveNote`: with an active note, its title and body become the
     * editor's and its `updated` becomes `now`; nothing else changes. With
     * no active id, or no note of that id, nothing changes at all.
     */
    method SaveActive(title: string, body: string, now: int)
      requires Valid()
      modifies this
      ensures Valid() && activeId == old(activeId)
      ensures !old(HasActive()) ==> notes == old(notes)
      ensures old(HasActive()) ==> notes == SaveNote(old(notes), activeId.value, title, body, now)
      ensures old(HasActive()) ==>
        var k := IndexOfNote(notes, activeId.value).value;
        notes[k].title == title && notes[k].body == body && notes[k].updated == now
    {
      if !HasActive() {
        return;
      }
      var found := IndexOfNote(notes, activeId.value);
      if found.None? {
        return;
      }
      var k := found.value;
      notes := notes[k := notes[k].(title := title, body := body, updated := now)];
      assert notes[k].id == activeId.value;
    }

    /**
     * `deleteActiveNote`: with an active id, every note of that id goes, the
     * others keep their order, and no note is active any more.
     */
    method DeleteActive()
      requires Valid()
      modifies this
      ensures Valid()
      ensures !old(HasActive()) ==> notes == old(notes) && activeId == old(activeId)
      ensures old(HasActive()) ==> notes == WithoutNote(old(notes), old(activeId).value) && activeId == None
    {
      if !HasActive() {
        return;
      }
      notes := WithoutNote(notes, activeId.value);
      activeId := None;
    }
  }
}
