# Zenstack board and notes, modelled in Dafny

Zenstack is a browser start-page widget (`index.js`) with a three-column task
board, a notes panel and a clock/weather strip. This project models the part
of it with logic in it:

- `escapeHtml`, which makes card and note titles safe to write into markup
  (module `Escape`);
- the task board: the module-level `board` list of cards `{id, title, column}`,
  its add, delete, edit and drop operations, and the split into the columns
  `todo`, `in-progress` and `done` that `renderBoard` draws (module `TaskBoard`,
  class `Board`);
- the notes panel: the `notes` list of `{id, title, body, created, updated}`
  and the `activeNoteId` cursor, with open, new, save, delete and the search
  box filter (module `Notes`, class `Notebook`).

The JavaScript library calls these rest on are modelled once and shared:
`Array.prototype.filter` and `find` (module `ArrayOps`; `find` is answered
with the index of the element, which the caller then updates in place) and
`String.prototype.trim`, `toLowerCase` and `includes` (module `JsString`).

The lists the source mutates in place (`unshift`, field assignment on a found
record, reassignment after `filter`) are `seq` fields of the two classes,
reassigned by methods whose postconditions give the new list as a function of
the old one. The pure parts (`escapeHtml`, the column split, the search) are
functions. Ids and timestamps, which the source takes from `Date.now()`, are
parameters; ids are not assumed unique, so delete removes every match while
drop, open and save act on the first match, as `filter` and `find` do.

Decisions worth knowing:

- The edit button's handler closes over the rendered card object, not its id,
  so `Board.EditTitle` names the card by its position in the board.
- `newNote` reads the clock three times (id, `created`, `updated`), so the
  model takes three values; they agree only when the reads fall in the same
  millisecond.
- `if (!activeNoteId) return;` is a truthiness test: an empty-string id counts
  as "no active note" (`Notebook.HasActive`).
- Neither the edit handler (index.js:33) nor `saveActiveNote` (index.js:105)
  rejects an empty title; the model follows suit.

## Model

| member | source | states |
|---|---|---|
| `Escape.EscapeHtml` | index.js:3-5 | the output holds no `<`, `>`, `"` or `'`, every `&` in it begins one of `&amp;`, `&quot;`, `&#39;`, `&lt;`, `&gt;`, and it is no shorter than the input |
| `Escape.UnescapeEscape` | index.js:3-5 | decoding the five references gives back the input exactly, so every other character passes through unchanged and in order |
| `Escape.EscapeAppend` | index.js:3-5 | escaping a concatenation is the concatenation of the escaped parts (each character is replaced where it stands) |
| `Escape.EscapePlainText` | index.js:3-5 | text with none of the five special characters is returned unchanged |
| `JsString.Trim` | index.js:44 | `trim` returns the slice of the input between leading and trailing white space, neither end of it white space, and it is empty exactly when the input is all white space |
| `JsString.TrimIdempotent` | index.js:44 | trimming a trimmed title changes nothing |
| `JsString.ToLower` | index.js:113 | lower-casing keeps the length, maps each ASCII capital `A`..`Z` to its small letter and keeps every other character |
| `JsString.Includes` | index.js:113 | `includes` holds exactly when the needle occurs at some position of the string |
| `ArrayOps.Filter` | index.js:24 | `filter` keeps only elements satisfying the predicate, and keeps every element that does |
| `ArrayOps.FilterSelectsExactly` | index.js:24 | the result of `filter` is exactly the elements at the satisfying positions, listed in increasing position order |
| `ArrayOps.FilterAppend` | index.js:31 | filtering a concatenation filters each part: relative order is kept |
| `ArrayOps.FilterMultiplicity` | index.js:31 | each element occurs in the result as often as in the input when it satisfies the predicate, and otherwise not at all |
| `ArrayOps.FindIndex` | index.js:56 | `find` answers the first position whose element satisfies the predicate, or nothing exactly when no element does |
| `TaskBoard.ColumnCards` | index.js:24 | a column shows only cards whose column field names it, and every such card |
| `TaskBoard.ColumnIsSubsequence` | index.js:20-24 | a column is exactly the subsequence of the board whose column field names it, in board order |
| `TaskBoard.LayoutPartitions` | index.js:20-24 | the three columns plus the cards of any other column account for every card once; when all cards are in the three columns, nothing is left over |
| `TaskBoard.ColumnsDisjoint` | index.js:20-24 | a card shown in one column is shown in no other, and a card of an unknown column is shown in none |
| `TaskBoard.IndexOfCard` | index.js:56 | the card `find` picks is the first with the id, or none exactly when no card has it |
| `TaskBoard.WithoutCard` | index.js:31 | after a delete no card has the id, and every card with another id remains |
| `TaskBoard.WithoutCardKeepsOrder` | index.js:31 | a delete keeps exactly the cards with other ids, in their relative order |
| `TaskBoard.WithoutMissingCard` | index.js:31 | deleting an id no card has leaves the board unchanged |
| `TaskBoard.DeleteUndoesAdd` | index.js:44 | deleting a newly added card whose id is not already taken gives back the earlier board |
| `TaskBoard.MoveCard` | index.js:56 | a drop sets the column of the first card with the id and changes no other card or field; with no such card nothing changes |
| `TaskBoard.MoveCardIdempotent` | index.js:56 | dropping the same card on the same column twice is the same as once |
| `TaskBoard.MoveCardShowsInColumn` | index.js:56 | after a drop the moved card is shown in the column it was dropped on |
| `TaskBoard.MoveCardKeepsPlaced` | index.js:56 | a drop on one of the three columns keeps every card in one of the three columns |
| `TaskBoard.Board.Load` | index.js:14-16 | the stored list, or an empty board when nothing usable is stored |
| `TaskBoard.Board.AddCard` | index.js:44 | a missing, empty or all-white-space title leaves the board unchanged; otherwise the board gains exactly one card, in front, with the trimmed title, column `todo`, the old cards following in order |
| `TaskBoard.Board.Delete` | index.js:31 | the board becomes the cards whose id differs from the given one, in order |
| `TaskBoard.Board.EditTitle` | index.js:32-34 | a cancelled prompt changes nothing; an answer, trimmed and possibly empty, becomes that card's title and nothing else changes |
| `TaskBoard.Board.Drop` | index.js:55-57 | the board becomes `MoveCard` of the old board |
| `TaskBoard.Board.View` | index.js:19-24 | the three rendered columns together hold at most the board's cards, and exactly as many when every card is placed |
| `Notes.IndexOfNote` | index.js:103 | the note `find` picks is the first with the id, or none exactly when no note has it |
| `Notes.WithoutNote` | index.js:106 | after a delete no note has the id, and every note with another id remains |
| `Notes.WithoutNoteKeepsOrder` | index.js:106 | a delete keeps exactly the notes with other ids, in their relative order |
| `Notes.SaveNote` | index.js:105 | a save sets title, body and `updated` of the first note with the id and changes no other note or field; with no such note nothing changes |
| `Notes.SaveNoteTwice` | index.js:105 | saving the same editor contents again equals a single save at the later time, so repeated autosaves are harmless |
| `Notes.SaveNoteKeepsTimeOrder` | index.js:105 | a save at a time no earlier than the notes' creation keeps `created <= updated` for every note |
| `Notes.DeleteUndoesNew` | index.js:104-106 | deleting a new note whose id is not already taken gives back the earlier list |
| `Notes.Search` | index.js:112-113 | the search returns only notes whose lower-cased title or body contains the lower-cased query, and every such note |
| `Notes.SearchIsSubsequence` | index.js:113 | the search result is exactly the matching notes in list order |
| `Notes.SearchEmptyQuery` | index.js:113 | an empty query returns every note |
| `Notes.SearchIgnoresCase` | index.js:113 | the query's ASCII case does not change the result |
| `Notes.Notebook.Load` | index.js:91-94 | the stored list, or no notes when nothing usable is stored; no note is active |
| `Notes.Notebook.Open` | index.js:103 | an unknown id leaves the active note unchanged; otherwise the id becomes active and the first note with it is shown |
| `Notes.Notebook.NewNote` | index.js:104 | an empty note with the given id and timestamps goes in front and becomes active |
| `Notes.Notebook.SaveActive` | index.js:105 | with no active id nothing changes; otherwise the notes become `SaveNote` of the old notes for the active id, and the active id stays; under the invariant the active note is always found, so its title, body and `updated` become the editor's values and `now` |
| `Notes.Notebook.DeleteActive` | index.js:106 | with no active id nothing changes; otherwise every note with the active id goes, the rest keep their order, and no note is active |

The notebook's invariant `Notes.Notebook.Valid` (an active id belongs to a
note in the list) is established by `Load` and kept by every operation.

## Left out

- DOM creation, `innerHTML` templating, event listeners, `prompt` and the drag-and-drop `dataTransfer` plumbing: UI glue; the model's operations take the values these deliver (the prompt's answer as an `Option`, the dropped id and target column as strings).
- `localStorage` and `JSON.parse`/`JSON.stringify` (`saveBoard`, `saveNotes`): I/O. Loading is modelled only as "a stored list, or empty when absent, unparseable or falsy"; a stored value that parses to a non-list, or records with missing fields, are not modelled.
- The clock, the weather fetch and geolocation (`setupClockWeather`): timers, network and asynchronous code.
- The 700 ms debounce of autosave: timing policy; only the `saveActiveNote` it ends in is modelled, and `Notes.SaveNoteTwice` covers back-to-back saves.
- `Date.now()` and `toLocaleString`: ids and timestamps are parameters; dates are never formatted.
- The notes list rendering (`renderNotes`, `title || 'Untitled'`) and the editor fields `openNote` and `deleteActiveNote` fill or clear: display only.
- JsString.ToLower: lower-cases the ASCII letters only, because Unicode case mapping is not modelled; the search is therefore modelled as ASCII-case-insensitive.
- Notes.Search: a stored note lacking a title or body is searched as if it were `''` in the source; the model's notes always carry both strings.
- Strings are sequences of Unicode scalar values, whereas JavaScript strings are UTF-16 code units, so a lone surrogate in a title or note cannot be represented; no modelled behaviour depends on this, since the five special characters, the `trim` set and the substring search all act on whole characters.
