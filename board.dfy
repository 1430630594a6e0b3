/**
 * The task board: a list of cards, each in one of three columns, kept most
 * recent first. Cards are added from the input box, deleted and edited from
 * the buttons on a rendered card, and moved by dropping them on a column.
 */
module TaskBoard {
  import opened Wrappers
  import opened ArrayOps
  import opened JsString

  const Todo: string := "todo"
  const InProgress: string := "in-progress"
  const Done: string := "done"

  /** A card as stored; `column` is free text, since stored data is not checked. */
  datatype Card = Card(id: string, title: string, column: string)

  /** One of the three columns the board renders. */
  predicate IsBoardColumn(col: string)
  {
    col == Todo || col == InProgress || col == Done
  }

  /** Every card sits in one of the three rendered columns. */
  predicate AllPlaced(cards: seq<Card>)
  {
    forall i :: 0 <= i < |cards| ==> IsBoardColumn(cards[i].column)
  }

  /** The cards shown in column `col`: `board.filter(c => c.column === col)`. */
  function ColumnCards(cards: seq<Card>, col: string): (r: seq<Card>)
    ensures forall i :: 0 <= i < |r| ==> r[i].column == col && r[i] in cards
    ensures forall j :: 0 <= j < |cards| && cards[j].column == col ==> cards[j] in r
  {
    Filter(cards, (c: Card) => c.column == col)
  }

  /** The cards no column shows. */
  function Unplaced(cards: seq<Card>): (r: seq<Card>)
    ensures forall i :: 0 <= i < |r| ==> !IsBoardColumn(r[i].column)
  {
    Filter(cards, (c: Card) => !IsBoardColumn(c.column))
  }

  /** What `renderBoard` lays out: the three columns, left to right. */
  datatype Columns = Columns(todo: seq<Card>, inProgress: seq<Card>, done: seq<Card>)

  function Layout(cards: seq<Card>): Columns
  {
    Columns(ColumnCards(cards, Todo), ColumnCards(cards, InProgress), ColumnCards(cards, Done))
  }

  /**
   * Each column is exactly the subsequence of the board whose column field
   * names it, in board order.
   */
  lemma ColumnIsSubsequence(cards: seq<Card>, col: string)
    ensures SelectsExactly(cards, (c: Card) => c.column == col, ColumnCards(cards, col),
                           FilterPositions(cards, (c: Card) => c.column == col))
  {
    FilterSelectsExactly(cards, (c: Card) => c.column == col);
  }

  /**
   * The three columns and the unplaced cards together account for every
   * card exactly once; so, when every card is placed, the columns partition
   * the board.
   */
  lemma {:induction false} LayoutPartitions(cards: seq<Card>)
    ensures |ColumnCards(cards, Todo)| + |ColumnCards(cards, InProgress)| + |ColumnCards(cards, Done)|
            + |Unplaced(cards)| == |cards|
    ensures AllPlaced(cards) ==> Unplaced(cards) == []
  {
    if cards != [] {
      LayoutPartitions(cards[1..]);
    }
  }

  /** A card in one column is in no other. */
  lemma ColumnsDisjoint(cards: seq<Card>, c: Card)
    ensures c in ColumnCards(cards, Todo) ==> c !in ColumnCards(cards, InProgress) && c !in ColumnCards(cards, Done)
    ensures c in ColumnCards(cards, InProgress) ==> c !in ColumnCards(cards, Done)
    ensures c in Unplaced(cards) ==> forall col :: IsBoardColumn(col) ==> c !in ColumnCards(cards, col)
  {
  }

  /** The first card with id `id`, the one `board.find(x => x.id === id)` returns. */
  function IndexOfCard(cards: seq<Card>, id: string): (r: Option<nat>)
    ensures r.None? <==> forall i :: 0 <= i < |cards| ==> cards[i].id != id
    ensures r.Some? ==> r.value < |cards| && cards[r.value].id == id
    ensures r.Some? ==> forall j :: 0 <= j < r.value ==> cards[j].id != id
  {
    FindIndex(cards, (c: Card) => c.id == id)
  }

  /** The board without the cards whose id is `id`. */
  function WithoutCard(cards: seq<Card>, id: string): (r: seq<Card>)
    ensures forall i :: 0 <= i < |r| ==> r[i].id != id && r[i] in cards
    ensures forall j :: 0 <= j < |cards| && cards[j].id != id ==> cards[j] in r
  {
    Filter(cards, (c: Card) => c.id != id)
  }

  /** Deleting keeps every other card, in the same relative order. */
  lemma WithoutCardKeepsOrder(cards: seq<Card>, id: string)
    ensures SelectsExactly(cards, (c: Card) => c.id != id, WithoutCard(cards, id),
                           FilterPositions(cards, (c: Card) => c.id != id))
  {
    FilterSelectsExactly(cards, (c: Card) => c.id != id);
  }

  /** Deleting an id no card has changes nothing. */
  lemma WithoutMissingCard(cards: seq<Card>, id: string)
    requires IndexOfCard(cards, id).None?
    ensures WithoutCard(cards, id) == cards
  {
    FilterKeepsAll(cards, (c: Card) => c.id != id);
  }

  /** Deleting a new card whose id no other card has gives back the board it was added to. */
  lemma DeleteUndoesAdd(cards: seq<Card>, id: string, title: string)
    requires IndexOfCard(cards, id).None?
    ensures WithoutCard([Card(id, title, Todo)] + cards, id) == cards
  {
    var c := Card(id, title, Todo);
    assert ([c] + cards)[1..] == cards;
    WithoutMissingCard(cards, id);
  }

  /**
   * The board after the card with id `id` is dropped on column `col`: the
   * first card with that id has its column set, every other card and field
   * is kept; with no such card the board is unchanged.
   */
  function MoveCard(cards: seq<Card>, id: string, col: string): (r: seq<Card>)
    ensures |r| == |cards|
    ensures forall i :: 0 <= i < |r| ==> r[i].id == cards[i].id && r[i].title == cards[i].title
    ensures IndexOfCard(cards, id).None? ==> r == cards
    ensures IndexOfCard(cards, id).Some? ==>
      var k := IndexOfCard(cards, id).value;
      r[k].column == col && forall i :: 0 <= i < |r| && i != k ==> r[i] == cards[i]
  {
    match IndexOfCard(cards, id)
    case None => cards
    case Some(k) => cards[k := cards[k].(column := col)]
  }

  /** Dropping the same card on the same column twice is dropping it once. */
  lemma MoveCardIdempotent(cards: seq<Card>, id: string, col: string)
    ensures MoveCard(MoveCard(cards, id, col), id, col) == MoveCard(cards, id, col)
  {
    var moved := MoveCard(cards, id, col);
    FindIndexCongruent(cards, moved, (c: Card) => c.id == id, (c: Card) => c.id == id);
  }

  /** After a drop, the dropped card is shown in the column it was dropped on. */
  lemma MoveCardShowsInColumn(cards: seq<Card>, id: string, col: string)
    requires IndexOfCard(cards, id).Some?
    ensures var r := MoveCard(cards, id, col); r[IndexOfCard(cards, id).value] in ColumnCards(r, col)
  {
  }

  /** Dropping on one of the three columns keeps every card placed. */
  lemma MoveCardKeepsPlaced(cards: seq<Card>, id: string, col: string)
    requires AllPlaced(cards) && IsBoardColumn(col)
    ensures AllPlaced(MoveCard(cards, id, col))
  {
  }

  /** The board state: the module-level `board` list. */
  class Board {
    var cards: seq<Card>

    /** `loadBoard`: the stored list, or an empty board when nothing usable is stored. */
    constructor Load(stored: Option<seq<Card>>)
      ensures cards == if stored.Some? then stored.value else []
    {
      cards := if stored.Some? then stored.value else [];
    }

    /**
     * `addCard`: a missing, empty or all-white-space title is rejected;
     * otherwise a card with the trimmed title goes in front, in the todo column.
     */
    method AddCard(title: Option<string>, id: string) returns (added: bool)
      modifies this
      ensures added <==> title.Some? && !AllWhiteSpace(title.value)
      ensures added ==> cards == [Card(id, Trim(title.value), Todo)] + old(cards)
      ensures added ==> Trim(title.value) != ""
      ensures !added ==> cards == old(cards)
      ensures AllPlaced(old(cards)) ==> AllPlaced(cards)
    {
      if title.None? || title.value == "" || Trim(title.value) == "" {
        return false;
      }
      cards := [Card(id, Trim(title.value), Todo)] + cards;
      added := true;
    }

    /** The delete button: `board = board.filter(x => x.id !== id)`. */
    method Delete(id: string)
      modifies this
      ensures cards == WithoutCard(old(cards), id)
      ensures |cards| <= |old(cards)|
      ensures AllPlaced(old(cards)) ==> AllPlaced(cards)
    {
      cards := WithoutCard(cards, id);
    }

    /**
     * The edit button of the card at position `i`: a cancelled prompt
     * (`None`) changes nothing; an answer, trimmed and possibly empty,
     * becomes that card's title and nothing else changes.
     */
    method EditTitle(i: nat, answer: Option<string>)
      requires i < |cards|
      modifies this
      ensures answer.None? ==> cards == old(cards)
      ensures answer.Some? ==> cards == old(cards)[i := old(cards)[i].(title := Trim(answer.value))]
      ensures AllPlaced(old(cards)) ==> AllPlaced(cards)
    {
      if answer.Some? {
        var title := Trim(answer.value);
        cards := cards[i := cards[i].(title := title)];
        assert forall j :: 0 <= j < |cards| ==> cards[j].column == old(cards)[j].column;
      }
    }

    /**
     * Dropping the card with id `id` on column `col`: only the first card
     * with that id changes, and only its column; no such card, no change.
     */
    method Drop(id: string, col: string)
      modifies this
      ensures cards == MoveCard(old(cards), id, col)
    {
      var found := IndexOfCard(cards, id);
      if found.Some? {
        var k := found.value;
        cards := cards[k := cards[k].(column := col)];
      }
    }

    /** `renderBoard`'s three columns of the current board. */
    function View(): (v: Columns)
      reads this
      ensures |v.todo| + |v.inProgress| + |v.done| <= |cards|
      ensures AllPlaced(cards) ==> |v.todo| + |v.inProgress| + |v.done| == |cards|
    {
      LayoutPartitions(cards);
      Layout(cards)
    }
  }
}
