/** Line editing as a function on values: what each key does to the text and the cursor. */
module EditSpec {
  import opened Ctype

  const CTRL_A: int := 0x01
  const CTRL_B: int := 0x02
  const CTRL_C: int := 0x03
  const CTRL_D: int := 0x04
  const CTRL_E: int := 0x05
  const CTRL_F: int := 0x06
  const KEY_BACKSPACE: int := 0x08
  const LF: int := 0x0a
  const CTRL_K: int := 0x0b
  const CR: int := 0x0d
  const CTRL_U: int := 0x15
  const CTRL_W: int := 0x17
  const KEY_UP: int := 0x141
  const KEY_DOWN: int := 0x142
  const KEY_RIGHT: int := 0x143
  const KEY_LEFT: int := 0x144
  const KEY_END: int := 0x146
  const KEY_HOME: int := 0x148
  const KEY_DC: int := 0x47e

  /** The largest size_t. */
  const SIZE_MAX: nat := 0xffff_ffff

  function Smaller(a: nat, b: nat): nat {
    if a < b then a else b
  }

  function Larger(a: nat, b: nat): nat {
    if a < b then b else a
  }

  predicate Printable(c: char) {
    0x20 <= c as int <= 0x7e
  }

  predicate AllPrintable(s: string) {
    forall i :: 0 <= i < |s| ==> Printable(s[i])
  }

  /** The text being edited, and the cursor within it. */
  datatype Line = Line(text: string, cursor: nat)

  /** The text fits a buffer of `cap` characters with its terminator. */
  predicate WfLine(l: Line, cap: nat) {
    l.cursor <= |l.text| < cap && AllPrintable(l.text)
  }

  function Deletable(l: Line, del: nat): nat
    requires l.cursor <= |l.text|
  {
    Smaller(del, |l.text| - l.cursor)
  }

  function Insertable(l: Line, del: nat, ins: string, cap: nat): nat
    requires l.cursor <= |l.text| < cap
  {
    Smaller(|ins|, cap - 1 - (|l.text| - Deletable(l, del)))
  }

  /** Deletes up to `del` characters after the cursor and inserts what fits of `ins`. */
  function Splice(l: Line, del: nat, ins: string, cap: nat): (r: Line)
    requires WfLine(l, cap) && AllPrintable(ins)
    ensures WfLine(r, cap)
  {
    var d, k := Deletable(l, del), Insertable(l, del, ins, cap);
    Line(l.text[..l.cursor] + ins[..k] + l.text[l.cursor + d..], l.cursor + k)
  }

  /** Back over spaces. */
  function SpaceStart(text: string, c: nat): (r: nat)
    requires c <= |text|
    ensures r <= c && (forall k :: r <= k < c ==> IsSpace(text[k])) && (r > 0 ==> !IsSpace(text[r - 1]))
  {
    if c > 0 && IsSpace(text[c - 1]) then SpaceStart(text, c - 1) else c
  }

  /** Back over anything but spaces. */
  function TokenStart(text: string, c: nat): (r: nat)
    requires c <= |text|
    ensures r <= c && (forall k :: r <= k < c ==> !IsSpace(text[k])) && (r > 0 ==> IsSpace(text[r - 1]))
  {
    if c > 0 && !IsSpace(text[c - 1]) then TokenStart(text, c - 1) else c
  }

  function WordStart(text: string, c: nat): (r: nat)
    requires c <= |text|
    ensures r <= c
  {
    TokenStart(text, SpaceStart(text, c))
  }

  /** The key is one the editor acts on. */
  predicate Understood(key: int) {
    || 0x20 <= key <= 0x7e
    || key in {KEY_BACKSPACE, KEY_DC, CTRL_D, CTRL_W, CTRL_U, CTRL_K, KEY_HOME, CTRL_A, KEY_END, CTRL_E,
               KEY_LEFT, CTRL_B, KEY_RIGHT, CTRL_F}
  }

  /** The line after a key. */
  function Edit(l: Line, key: int, cap: nat): (r: Line)
    requires WfLine(l, cap)
    ensures WfLine(r, cap)
  {
    if 0x20 <= key <= 0x7e then Splice(l, 0, [key as char], cap)
    else if key == KEY_BACKSPACE then if l.cursor > 0 then Splice(l.(cursor := l.cursor - 1), 1, [], cap) else l
    else if key == KEY_DC || key == CTRL_D then Splice(l, 1, [], cap)
    else if key == CTRL_W then
      var w := WordStart(l.text, l.cursor);
      Splice(l.(cursor := w), l.cursor - w, [], cap)
    else if key == CTRL_U then Splice(l.(cursor := 0), l.cursor, [], cap)
    else if key == CTRL_K then Splice(l, |l.text|, [], cap)
    else if key == KEY_HOME || key == CTRL_A then l.(cursor := 0)
    else if key == KEY_END || key == CTRL_E then l.(cursor := |l.text|)
    else if key == KEY_LEFT || key == CTRL_B then l.(cursor := if l.cursor > 0 then l.cursor - 1 else 0)
    else if key == KEY_RIGHT || key == CTRL_F then l.(cursor := if l.cursor < |l.text| then l.cursor + 1 else |l.text|)
    else l
  }

  /** The line once its text has been replaced, as far as the replacement fits. */
  function Replaced(s: string, cap: nat): (r: Line)
    requires cap > 0 && AllPrintable(s)
    ensures WfLine(r, cap)
  {
    var n := Smaller(|s|, cap - 1);
    Line(s[..n], n)
  }

  // ---------------------------------------------------------------------------
  // What the keys mean.

  /** A character goes in at the cursor, which moves past it, if there is room. */
  lemma TypedCharacter(l: Line, key: int, cap: nat)
    requires WfLine(l, cap) && 0x20 <= key <= 0x7e
    ensures |l.text| + 1 < cap ==>
              Edit(l, key, cap) == Line(l.text[..l.cursor] + [key as char] + l.text[l.cursor..], l.cursor + 1)
    ensures |l.text| + 1 == cap ==> Edit(l, key, cap) == l
  {
    assert l.text[..l.cursor] + [] + l.text[l.cursor..] == l.text;
  }

  /**
   Ctrl-A and Home go to the start, Ctrl-E and End to the end, Ctrl-B and Left one back,
   Ctrl-F and Right one on, as far as the text goes.
   */
  lemma MovingKeys(l: Line, cap: nat)
    requires WfLine(l, cap)
    ensures Edit(l, 0x01, cap) == Edit(l, 0x148, cap) == Line(l.text, 0)
    ensures Edit(l, 0x05, cap) == Edit(l, 0x146, cap) == Line(l.text, |l.text|)
    ensures Edit(l, 0x02, cap) == Edit(l, 0x144, cap) == if l.cursor == 0 then l else Line(l.text, l.cursor - 1)
    ensures Edit(l, 0x06, cap) == Edit(l, 0x143, cap) == if l.cursor == |l.text| then l else Line(l.text, l.cursor + 1)
  {
  }

  /**
   Backspace deletes before the cursor, Ctrl-D and Delete at it, Ctrl-U everything before it
   and Ctrl-K everything after it.
   */
  lemma DeletingKeys(l: Line, cap: nat)
    requires WfLine(l, cap)
    ensures Edit(l, 0x08, cap) == if l.cursor == 0 then l else Line(l.text[..l.cursor - 1] + l.text[l.cursor..], l.cursor - 1)
    ensures Edit(l, 0x04, cap) == Edit(l, 0x47e, cap) ==
            if l.cursor == |l.text| then l else Line(l.text[..l.cursor] + l.text[l.cursor + 1..], l.cursor)
    ensures Edit(l, 0x15, cap) == Line(l.text[l.cursor..], 0)
    ensures Edit(l, 0x0b, cap) == Line(l.text[..l.cursor], l.cursor)
  {
    hide Splice;
    if l.cursor > 0 {
      SpliceDelete(l.(cursor := l.cursor - 1), 1, cap);
    }
    if l.cursor < |l.text| {
      SpliceDelete(l, 1, cap);
    } else {
      NothingDeleted(l, cap);
    }
    SpliceDelete(l.(cursor := 0), l.cursor, cap);
    KillRest(l, cap);
  }

  lemma NothingDeleted(l: Line, cap: nat)
    requires WfLine(l, cap) && l.cursor == |l.text|
    ensures Splice(l, 1, [], cap) == l
  {
  }

  lemma KillRest(l: Line, cap: nat)
    requires WfLine(l, cap)
    ensures Splice(l, |l.text|, [], cap) == Line(l.text[..l.cursor], l.cursor)
  {
  }

  /** No other keys do anything, but for Ctrl-W. */
  lemma OtherKeys(l: Line, key: int, cap: nat)
    requires WfLine(l, cap)
    ensures Understood(key) <==>
            0x20 <= key <= 0x7e || key in {0x01, 0x02, 0x04, 0x05, 0x06, 0x08, 0x0b, 0x15, 0x17, 0x143, 0x144, 0x146, 0x148, 0x47e}
    ensures !Understood(key) ==> Edit(l, key, cap) == l
  {
  }

  /** A character typed where there is room can be taken back. */
  lemma TypeThenBackspace(l: Line, key: int, cap: nat)
    requires WfLine(l, cap) && 0x20 <= key <= 0x7e
    ensures |l.text| + 1 < cap ==> Edit(Edit(l, key, cap), KEY_BACKSPACE, cap) == l
    ensures |l.text| + 1 == cap ==> Edit(l, key, cap) == l
  {
  }

  /** From `from` on there is a word, up to `mid`, and then blanks, up to `to`. */
  predicate WordThenBlanks(text: string, from: nat, mid: nat, to: nat) {
    && from <= mid <= to <= |text|
    && (forall k :: from <= k < mid ==> !IsSpace(text[k]))
    && (forall k :: mid <= k < to ==> IsSpace(text[k]))
    && (from > 0 ==> from < mid && IsSpace(text[from - 1]))
  }

  /** Killing the word removes the blanks before the cursor and the word before those, no more. */
  lemma KillWord(l: Line, cap: nat)
    requires WfLine(l, cap)
    ensures var r := Edit(l, 0x17, cap);
            && r.cursor <= l.cursor && r.text == l.text[..r.cursor] + l.text[l.cursor..]
            && exists mid :: WordThenBlanks(l.text, r.cursor, mid, l.cursor)
  {
    hide Splice;
    var w := WordStart(l.text, l.cursor);
    SpliceDelete(l.(cursor := w), l.cursor - w, cap);
    WordForm(l.text, l.cursor);
  }

  lemma SpliceDelete(l: Line, n: nat, cap: nat)
    requires WfLine(l, cap) && l.cursor + n <= |l.text|
    ensures Splice(l, n, [], cap) == Line(l.text[..l.cursor] + l.text[l.cursor + n..], l.cursor)
  {
  }

  lemma WordForm(text: string, c: nat)
    requires c <= |text|
    ensures WordThenBlanks(text, WordStart(text, c), SpaceStart(text, c), c)
  {
  }

  /** The same key again and again. */
  function Again(l: Line, key: int, n: nat, cap: nat): (r: Line)
    requires WfLine(l, cap)
    ensures WfLine(r, cap)
    decreases n
  {
    if n == 0 then l else Again(Edit(l, key, cap), key, n - 1, cap)
  }

  /** Deleting is stepping over a character and taking it back. */
  lemma DeleteIsRightBackspace(l: Line, cap: nat)
    requires WfLine(l, cap) && l.cursor < |l.text|
    ensures Edit(l, KEY_DC, cap) == Edit(Edit(l, KEY_RIGHT, cap), KEY_BACKSPACE, cap)
  {
  }

  lemma {:induction false} HomeIsLefts(l: Line, cap: nat)
    requires WfLine(l, cap)
    ensures Again(l, KEY_LEFT, l.cursor, cap) == Edit(l, KEY_HOME, cap)
    decreases l.cursor
  {
    if l.cursor > 0 {
      HomeIsLefts(Edit(l, KEY_LEFT, cap), cap);
    }
  }

  lemma {:induction false} EndIsRights(l: Line, cap: nat)
    requires WfLine(l, cap)
    ensures Again(l, KEY_RIGHT, |l.text| - l.cursor, cap) == Edit(l, KEY_END, cap)
    decreases |l.text| - l.cursor
  {
    if l.cursor < |l.text| {
      EndIsRights(Edit(l, KEY_RIGHT, cap), cap);
    }
  }

  lemma {:induction false} KillSolIsBackspaces(l: Line, cap: nat)
    requires WfLine(l, cap)
    ensures Again(l, KEY_BACKSPACE, l.cursor, cap) == Edit(l, CTRL_U, cap)
    decreases l.cursor
  {
    if l.cursor > 0 {
      var r := Edit(l, KEY_BACKSPACE, cap);
      assert r == Line(l.text[..l.cursor - 1] + l.text[l.cursor..], l.cursor - 1);
      KillSolIsBackspaces(r, cap);
      assert r.text[r.cursor..] == l.text[l.cursor..];
    }
    assert Edit(l, CTRL_U, cap) == Line(l.text[l.cursor..], 0);
  }

  lemma {:induction false} KillEolIsDeletes(l: Line, cap: nat)
    requires WfLine(l, cap)
    ensures Again(l, KEY_DC, |l.text| - l.cursor, cap) == Edit(l, CTRL_K, cap)
    decreases |l.text| - l.cursor
  {
    if l.cursor < |l.text| {
      var r := Edit(l, KEY_DC, cap);
      assert r == Line(l.text[..l.cursor] + l.text[l.cursor + 1..], l.cursor);
      KillEolIsDeletes(r, cap);
      assert r.text[..r.cursor] == l.text[..l.cursor];
    }
    assert Edit(l, CTRL_K, cap) == Line(l.text[..l.cursor], l.cursor);
  }

  // ---------------------------------------------------------------------------
  // What has to be repainted.

  /** The character a line shows at column k: blanks follow the text. */
  function Cell(text: string, k: nat): char {
    if k < |text| then text[k] else ' '
  }

  /** Outside [from, to) the two texts look the same. */
  ghost predicate SameOutside(a: string, b: string, from: nat, to: nat) {
    forall k: nat :: k < from || to <= k ==> Cell(a, k) == Cell(b, k)
  }

  lemma SpliceOutside(l: Line, del: nat, ins: string, cap: nat)
    requires WfLine(l, cap) && AllPrintable(ins)
    ensures var r := Splice(l, del, ins, cap);
            SameOutside(l.text, r.text, l.cursor, Larger(|l.text|, |r.text|))
  {
  }

  /** Deleting more than there is deletes the rest. */
  lemma KillAll(l: Line, del: nat, cap: nat)
    requires WfLine(l, cap) && del >= |l.text|
    ensures Splice(l, del, [], cap) == Splice(l, |l.text|, [], cap)
  {
  }

  lemma ReplaceAll(l: Line, del: nat, s: string, cap: nat)
    requires WfLine(l, cap) && AllPrintable(s) && l.cursor == 0 && del >= |l.text|
    ensures Splice(l, del, s, cap) == Replaced(s, cap)
  {
  }
}
