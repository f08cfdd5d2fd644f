/** The console line that readline writes to, and bringing it in step with an edited string. */
module Terminal {
  import opened EditSpec
  import opened EditString

  const BACKSPACE: char := 8 as char

  /** The columns after the prompt; those never written to are blank. */
  class Terminal {
    var cells: string
    var column: nat

    constructor ()
      ensures Valid() && Shows("") && column == 0
    {
      cells, column := "", 0;
    }

    ghost predicate Valid()
      reads this
    {
      column <= |cells|
    }

    ghost predicate Shows(s: string)
      reads `cells
    {
      forall k: nat :: Cell(cells, k) == Cell(s, k)
    }

    /** Backspace moves the cursor left; any other character overwrites. */
    method PutChar(c: char)
      requires Valid() && (c == BACKSPACE || Printable(c))
      modifies this
      ensures Valid()
      ensures c == BACKSPACE ==> cells == old(cells) && column == if old(column) > 0 then old(column) - 1 else 0
      ensures c != BACKSPACE ==> column == old(column) + 1 && |cells| == Larger(|old(cells)|, column)
      ensures c != BACKSPACE ==> forall k: nat :: Cell(cells, k) == if k == old(column) then c else Cell(old(cells), k)
    {
      if c == BACKSPACE {
        column := if column > 0 then column - 1 else 0;
      } else {
        cells := if column < |cells| then cells[column := c] else cells + [c];
        column := column + 1;
      }
    }
  }

  /** Backspaces to a column further left. */
  method BackspaceTo(term: Terminal, cursor: nat, to: nat)
    requires term.Valid() && term.column == cursor && to <= cursor
    modifies term
    ensures term.Valid() && term.column == to && term.cells == old(term.cells)
  {
    var at := cursor;
    while at > to
      invariant to <= at && term.Valid() && term.column == at && term.cells == old(term.cells)
    {
      term.PutChar(BACKSPACE);
      at := at - 1;
    }
  }

  /** Prints columns [from, to) of the string, blank beyond its end. */
  method PrintRegion(term: Terminal, edited: EditString, from: nat, to: nat, len: nat)
    requires term.Valid() && edited.Valid() && term.column == from <= to && len == |edited.text|
    modifies term
    ensures term.Valid() && term.column == to
    ensures forall k: nat :: Cell(term.cells, k) == Cell(if from <= k < to then edited.text else old(term.cells), k)
  {
    var at := from;
    while at < to
      invariant from <= at <= to && term.Valid() && term.column == at
      invariant forall k: nat :: Cell(term.cells, k) == Cell(if from <= k < at then edited.text else old(term.cells), k)
    {
      var c := if at >= len then ' ' else edited.buf[at];
      assert at < len ==> c == edited.text[at];
      term.PutChar(c);
      at := at + 1;
    }
  }

  /**
   Repaints only what the last edit may have changed.  If the console showed the string as it
   was before the edit, with its cursor where the string's was, it then shows the string as it
   is now, with its cursor where the string's is.
   */
  method SyncConsole(term: Terminal, edited: EditString, ghost shown: string)
    requires edited.Valid() && term.Valid() && term.Shows(shown)
    requires term.column == edited.lastCursor && edited.Repaints(shown)
    modifies term
    ensures term.Valid() && term.Shows(edited.text) && term.column == edited.cursor
  {
    var modStart := edited.modStart;
    var modEnd := edited.modEnd;
    var cursor := edited.lastCursor;
    var len := edited.StrLen();
    if modStart > edited.lastCursor {
      modStart := edited.lastCursor;
    }
    if modEnd < edited.cursor {
      modEnd := edited.cursor;
    }
    if cursor > modStart {
      BackspaceTo(term, cursor, modStart);
      cursor := modStart;
    }
    if cursor < modEnd {
      PrintRegion(term, edited, cursor, modEnd, len);
      cursor := modEnd;
    }
    if cursor > edited.cursor {
      BackspaceTo(term, cursor, edited.cursor);
    }
  }
}
