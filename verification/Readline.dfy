/** Reading a line from the console, with editing and history. */
module Readline {
  import opened EditSpec
  import opened EditString
  import opened History
  import opened Terminal
  import opened Wrappers

  const READLINE_MAX: nat := 256

  datatype Status = Success | Cancelled | NoMemory

  // ---------------------------------------------------------------------------
  // What a sequence of keys does.

  /**
   The line being edited, the line shown at each depth of the history and the depth of the
   one being edited.  Without a history there are no other lines.
   */
  datatype Session = Session(line: Line, view: seq<Option<string>>, depth: nat)

  predicate WfSession(s: Session) {
    && WfLine(s.line, READLINE_MAX)
    && s.depth <= MAX_DEPTH && (|s.view| == SLOTS || s.view == [])
    && forall d :: 0 <= d < |s.view| ==> PrintableOption(s.view[d])
  }

  /** Leaves the edited text behind at its depth and takes up the text at depth d, if there is any. */
  function MoveTo(s: Session, d: int, copied: bool): (r: Session)
    requires WfSession(s)
    ensures WfSession(r)
  {
    if CanMove(s.view, d) then
      Session(Replaced(s.view[d].value, READLINE_MAX), if copied then s.view[s.depth := Some(s.line.text)] else s.view, d)
    else s
  }

  function Turn(s: Session, key: int, copied: bool): (r: Session)
    requires WfSession(s)
    ensures WfSession(r)
  {
    if key == KEY_UP then MoveTo(s, s.depth + 1, copied)
    else if key == KEY_DOWN then MoveTo(s, s.depth - 1, copied)
    else s.(line := Edit(s.line, key, READLINE_MAX))
  }

  /** The session after a sequence of keys; `dup` says which strings could be copied. */
  function Turns(s: Session, keys: seq<int>, dup: nat -> bool): (r: Session)
    requires WfSession(s)
    ensures WfSession(r)
  {
    if keys == [] then s
    else
      var n := |keys| - 1;
      Turn(Turns(s, keys[..n], dup), keys[n], dup(n))
  }

  /** Going up and coming back down finds the edited text again, with the cursor at its end. */
  lemma UpThenDown(s: Session)
    requires WfSession(s) && CanMove(s.view, s.depth + 1)
    ensures var r := Turn(Turn(s, KEY_UP, true), KEY_DOWN, true);
            r.depth == s.depth && r.line == Line(s.line.text, |s.line.text|)
  {
    hide Edit;
  }

  /** The keys that move through the history are not editing keys. */
  lemma KeyFacts(l: Line, key: int)
    requires WfLine(l, READLINE_MAX)
    ensures key == KEY_UP || key == KEY_DOWN ==> !Understood(key) && Edit(l, key, READLINE_MAX) == l
    ensures !Understood(0)
  {
  }

  // ---------------------------------------------------------------------------
  // What sessions come to.

  /** The characters of a sequence of keys. */
  function Typed(keys: seq<int>): string
    requires forall i :: 0 <= i < |keys| ==> 0x20 <= keys[i] <= 0x7e
  {
    seq(|keys|, i requires 0 <= i < |keys| => keys[i] as char)
  }

  /** Characters typed into an empty line are its text, up to 255 of them. */
  lemma {:induction false} TypedText(s: Session, keys: seq<int>, dup: nat -> bool)
    requires WfSession(s) && s.line == Line("", 0) && |keys| < 256
    requires forall i :: 0 <= i < |keys| ==> 0x20 <= keys[i] <= 0x7e
    ensures Turns(s, keys, dup) == s.(line := Line(Typed(keys), |keys|))
    decreases |keys|
  {
    hide Edit;
    if keys != [] {
      var n := |keys| - 1;
      TypedText(s, keys[..n], dup);
      var l := Line(Typed(keys[..n]), n);
      TypedCharacter(l, keys[n], READLINE_MAX);
      assert Typed(keys) == l.text[..n] + [keys[n] as char] + l.text[n..];
    }
  }

  /** Before each key the arrow has not gone past, the lines shown are still those kept. */
  predicate Unvisited(s: Session, lines: seq<string>) {
    |s.view| == SLOTS && forall d :: s.depth < d < SLOTS ==> s.view[d] == Fresh(lines)[d]
  }

  /** Up arrows (0x141) go back through the lines kept, the latest first, at most seven. */
  lemma {:induction false} UpArrows(s: Session, lines: seq<string>, ups: seq<int>, dup: nat -> bool)
    requires WfSession(s) && s.depth == 0 && Unvisited(s, lines)
    requires 0 < |ups| <= |lines| && |ups| <= 7 && forall i :: 0 <= i < |ups| ==> ups[i] == 0x141
    ensures var r := Turns(s, ups, dup);
            && r.depth == |ups| && Unvisited(r, lines)
            && r.line.text == Cut(lines[|ups| - 1], 255) && r.line.cursor == |r.line.text|
    decreases |ups|
  {
    hide Edit;
    var n := |ups| - 1;
    var before := Turns(s, ups[..n], dup);
    if n > 0 {
      UpArrows(s, lines, ups[..n], dup);
    }
    assert before.depth == n && Unvisited(before, lines);
    assert before.view[n + 1] == Some(lines[n]);
  }

  function Cut(s: string, n: nat): string {
    if |s| <= n then s else s[..n]
  }

  /** Down arrows (0x142) come back, and there is nothing below the new line. */
  lemma DownArrow(s: Session, copied: bool)
    requires WfSession(s)
    ensures var r := Turn(s, 0x142, copied);
            if 0 < s.depth <= |s.view| && s.view[s.depth - 1].Some?
            then r.depth == s.depth - 1 && r.line.text == Cut(s.view[s.depth - 1].value, 255)
            else r == s
  {
  }

  /** Return and line feed end a session with its text, Ctrl-C without. */
  lemma EndKeys(s: Session, key: int, copied: bool)
    ensures Stops(key) <==> key in {0x03, 0x0a, 0x0d}
    ensures Outcome(s, 0x03, copied) == (Cancelled, None)
    ensures Outcome(s, 0x0a, copied) == Outcome(s, 0x0d, copied) ==
            if copied then (Success, Some(s.line.text)) else (NoMemory, None)
  {
  }

  /** "abc", Ctrl-A and "x" make "xabc". */
  lemma ExampleSession(s: Session, dup: nat -> bool)
    requires WfSession(s) && s.line == Line("", 0)
    ensures Turns(s, [0x61, 0x62, 0x63, 0x01, 0x78], dup).line == Line("xabc", 1)
  {
    hide Edit;
    var keys := [0x61, 0x62, 0x63, 0x01, 0x78];
    TypedText(s, keys[..3], dup);
    assert Typed(keys[..3]) == "abc";
    MovingKeys(Line("abc", 3), READLINE_MAX);
    TypedCharacter(Line("abc", 0), 0x78, READLINE_MAX);
    TurnsStep(s, keys, 3, dup);
    TurnsStep(s, keys, 4, dup);
    assert keys[..5] == keys;
    assert "abc"[..0] + ['x'] + "abc"[0..] == "xabc";
  }

  predicate Stops(key: int) {
    key == CR || key == LF || key == CTRL_C
  }

  // ---------------------------------------------------------------------------

  class Reader {
    const edited: EditString
    const term: Terminal
    const history: History?

    ghost predicate Valid()
      reads this, edited, edited.buf, term, history
    {
      && edited.Valid() && edited.buf.Length == READLINE_MAX && term.Valid()
      && (history != null ==> history.Valid())
    }

    /** The console shows the string being edited, and its cursor. */
    ghost predicate InStep()
      reads this, edited, edited.buf, term
      requires edited.Valid()
    {
      term.Shows(edited.text) && term.column == edited.cursor
    }

    ghost function Now(): (s: Session)
      requires Valid()
      reads this, edited, edited.buf, term, history
      ensures WfSession(s)
    {
      if history == null then Session(edited.Value(), [], 0) else Session(edited.Value(), history.view, history.depth)
    }

    constructor (term: Terminal, history: History?)
      requires term.Valid() && term.Shows("") && term.column == 0
      requires history != null ==> history.Valid()
      ensures Valid() && InStep() && fresh(edited) && fresh(edited.buf) && this.term == term && this.history == history
      ensures Now().line == Line("", 0) && edited.lastCursor == 0
    {
      this.term, this.history := term, history;
      edited := new EditString(READLINE_MAX);
    }

    /** Replaces the string and repaints the console. */
    method Replace(s: string)
      requires Valid() && InStep() && edited.lastCursor == edited.cursor && AllPrintable(s)
      modifies edited, edited.buf, term
      ensures Valid() && InStep() && Now() == old(Now()).(line := Replaced(s, READLINE_MAX))
    {
      ghost var shown := edited.text;
      edited.ReplaceString(s);
      SyncConsole(term, edited, shown);
    }

    /** Acts on one key and brings the console into step. */
    method Key(key: int, copied: bool) returns (pressed: int)
      requires Valid() && InStep()
      modifies edited, edited.buf, term, history
      ensures Valid() && InStep() && Now() == Turn(old(Now()), key, copied)
      ensures pressed == if Understood(key) then 0 else key
      ensures history != null ==> history.lines == old(history.lines)
    {
      hide Edit, Understood;
      KeyFacts(Now().line, key);
      pressed := Press(key);
      var moveBy := if pressed == KEY_UP then 1 else if pressed == KEY_DOWN then -1 else 0;
      if moveBy != 0 && history != null {
        MoveHistory(moveBy, copied);
      }
    }

    /** Edits the string by one key and repaints the console. */
    method Press(key: int) returns (pressed: int)
      requires Valid() && InStep()
      modifies edited, edited.buf, term
      ensures Valid() && InStep() && Now() == old(Now()).(line := Edit(old(Now()).line, key, READLINE_MAX))
      ensures pressed == if Understood(key) then 0 else key
      ensures edited.lastCursor == old(edited.cursor)
    {
      hide Edit, Understood, SameOutside;
      ghost var shown := edited.text;
      pressed := edited.Press(key);
      SyncConsole(term, edited, shown);
    }

    /** Takes up the line one deeper or one less deep in the history, if there is one. */
    method MoveHistory(moveBy: int, copied: bool)
      requires Valid() && InStep() && history != null && (moveBy == 1 || moveBy == -1)
      requires edited.lastCursor == edited.cursor
      modifies edited, edited.buf, term, history
      ensures Valid() && InStep() && Now() == MoveTo(old(Now()), old(Now()).depth + moveBy, copied)
      ensures history.lines == old(history.lines)
    {
      hide SameOutside, AllPrintable, Replaced, History.Viewed, History.Kept, Terminal.Shows;
      var oldString := edited.Duplicate();
      var newString := history.Move(moveBy, oldString, copied);
      if newString.Some? {
        Replace(newString.value);
      }
    }

    /** Ends the session: keeps the line, if there is one, and forgets the edits of other lines. */
    method Finish(key: int, copied: bool, appendable: bool) returns (status: Status, line: Option<string>)
      requires Valid() && Stops(key)
      modifies history
      ensures Valid() && (status, line) == Outcome(old(Now()), key, copied)
      ensures history != null ==>
                && history.depth == 0 && history.view == Fresh(history.lines)
                && history.lines == if line.Some? && line.value != "" && appendable
                                    then Newest([line.value] + old(history.lines)) else old(history.lines)
    {
      if key == CTRL_C {
        status, line := Cancelled, None;
      } else if copied {
        var copy := edited.Duplicate();
        status, line := Success, Some(copy);
      } else {
        status, line := NoMemory, None;
      }
      if history != null {
        if line.Some? && line.value != "" {
          history.Append(line.value, appendable);
        }
        history.Cleanup();
      }
    }
  }

  /** The session before the first key. */
  function Start(prefill: Option<string>, lines: Option<seq<string>>): (s: Session)
    requires PrintableOption(prefill)
    requires lines.Some? ==> forall i :: 0 <= i < |lines.value| ==> AllPrintable(lines.value[i])
    ensures WfSession(s)
  {
    var line := if prefill.Some? then Replaced(prefill.value, READLINE_MAX) else Line("", 0);
    if lines.None? then Session(line, [], 0)
    else
      FreshPrintable(lines.value);
      Session(line, Fresh(lines.value), 0)
  }

  /** What comes of a session that a key ends. */
  function Outcome(s: Session, key: int, copied: bool): (Status, Option<string>) {
    if key == CTRL_C then (Cancelled, None)
    else if copied then (Success, Some(s.line.text))
    else (NoMemory, None)
  }

  /**
   Reads a line: acts on the keys up to the first that ends the session.  Before that, and
   whenever it waits for another key, the console shows the text and its cursor.  `dup` and
   `appendable` say which strings could be copied.
   */
  method ReadlineHistory(term: Terminal, history: History?, prefill: Option<string>,
                         keys: seq<int>, dup: nat -> bool, appendable: bool)
    returns (n: nat, status: Status, line: Option<string>, reader: Reader)
    requires PrintableOption(prefill)
    requires term.Valid() && term.Shows("") && term.column == 0
    requires history != null ==> history.Valid() && history.depth == 0 && history.view == Fresh(history.lines)
    modifies term, history
    ensures n <= |keys| && (forall i :: 0 <= i < n ==> !Stops(keys[i])) && (n < |keys| ==> Stops(keys[n]))
    ensures reader.Valid() && reader.InStep() && reader.term == term && reader.history == history
    ensures var s0 := Start(prefill, if history == null then None else Some(old(history.lines)));
            var s := Turns(s0, keys[..n], dup);
            && reader.Now().line == s.line
            && (n == |keys| ==> reader.Now() == s)
            && (n < |keys| ==> (status, line) == Outcome(s, keys[n], dup(n)))
    ensures history != null ==>
              && (n == |keys| ==> history.lines == old(history.lines))
              && (n < |keys| ==>
                    && history.depth == 0 && history.view == Fresh(history.lines)
                    && history.lines == if line.Some? && line.value != "" && appendable
                                        then Newest([line.value] + old(history.lines)) else old(history.lines))
  {
    hide Turn, Turns, Edit, Fresh, Outcome, Newest, Replaced, AllPrintable, Understood;
    status, line := Success, None;
    reader := new Reader(term, history);
    ghost var lines := if history == null then None else Some(history.lines);
    if prefill.Some? {
      reader.Replace(prefill.value);
    }
    ghost var s0 := Start(prefill, lines);
    TurnsStep(s0, keys, 0, dup);
    n := 0;
    while n < |keys|
      invariant n <= |keys| && forall i :: 0 <= i < n ==> !Stops(keys[i])
      invariant reader.Valid() && reader.InStep() && reader.Now() == Turns(s0, keys[..n], dup)
      invariant history != null ==> history.lines == old(history.lines)
      invariant fresh(reader.edited) && fresh(reader.edited.buf)
    {
      ghost var s := Turns(s0, keys[..n], dup);
      var key := reader.Key(keys[n], dup(n));
      PressedStops(keys[n]);
      if key == CR || key == LF || key == CTRL_C {
        StopTurn(s, key, dup(n));
        status, line := reader.Finish(key, dup(n), appendable);
        return;
      }
      TurnsStep(s0, keys, n, dup);
      n := n + 1;
    }
    assert keys[..n] == keys;
  }

  lemma PressedStops(key: int)
    ensures Stops(key) ==> !Understood(key)
  {
  }

  lemma TurnsStep(s: Session, keys: seq<int>, n: nat, dup: nat -> bool)
    requires WfSession(s) && n <= |keys|
    ensures Turns(s, keys[..0], dup) == s
    ensures n < |keys| ==> Turns(s, keys[..n + 1], dup) == Turn(Turns(s, keys[..n], dup), keys[n], dup(n))
  {
    if n < |keys| {
      assert keys[..n + 1][..n] == keys[..n];
    }
  }

  /** The keys that end a session change nothing themselves. */
  lemma StopTurn(s: Session, key: int, copied: bool)
    requires WfSession(s) && Stops(key)
    ensures Turn(s, key, copied) == s && !Understood(key)
  {
  }
}
