/** Editable strings: a NUL-terminated buffer edited in place, with its edit history. */
module EditString {
  import opened EditSpec
  import opened Ctype
  import opened Wrappers

  function Moved(b: string, dst: nat, src: nat, n: nat): (r: string)
    requires dst + n <= |b| && src + n <= |b|
    ensures |r| == |b|
  {
    b[..dst] + b[src..src + n] + b[dst + n..]
  }

  lemma MovedIs(b: string, r: string, dst: nat, src: nat, n: nat)
    requires dst + n <= |b| && src + n <= |b| && |r| == |b|
    requires forall k :: 0 <= k < dst || dst + n <= k < |b| ==> r[k] == b[k]
    requires forall k :: dst <= k < dst + n ==> r[k] == b[k + (src - dst)]
    ensures r == Moved(b, dst, src, n)
  {
  }

  function Copied(b: string, at: nat, s: string, n: nat): (r: string)
    requires n <= |s| && at + n <= |b|
    ensures |r| == |b|
  {
    b[..at] + s[..n] + b[at + n..]
  }

  class EditString {
    /** The buffer, of its full size including the terminator. */
    const buf: array<char>
    var cursor: nat
    /** The edit history: the cursor before the last edit, and the region it may have changed. */
    var lastCursor: nat
    var modStart: nat
    var modEnd: nat
    /** The string in the buffer. */
    ghost var text: string

    ghost predicate Holds(s: string)
      reads buf
    {
      |s| < buf.Length <= SIZE_MAX && buf[..|s|] == s && buf[|s|] == '\0' && AllPrintable(s)
    }

    lemma HoldsSeq(s: string)
      ensures Holds(s) <==>
              |s| < buf.Length <= SIZE_MAX && buf[..][..|s|] == s && buf[..][|s|] == '\0' && AllPrintable(s)
    {
      if |s| < buf.Length {
        assert buf[..][..|s|] == buf[..|s|];
      }
    }

    ghost predicate Valid()
      reads this, buf
    {
      Holds(text) && cursor <= |text|
    }

    ghost function Value(): (l: Line)
      requires Valid()
      reads this, buf
      ensures WfLine(l, buf.Length)
    {
      Line(text, cursor)
    }

    constructor (cap: nat)
      requires 0 < cap <= SIZE_MAX
      ensures Valid() && fresh(buf) && buf.Length == cap && Value() == Line("", 0)
      ensures lastCursor == 0
    {
      buf := new char[cap];
      cursor, lastCursor, modStart, modEnd, text := 0, 0, 0, 0, "";
      new;
      buf[0] := '\0';
    }

    method StrLen() returns (n: nat)
      requires Valid()
      ensures n == |text|
    {
      n := 0;
      while buf[n] != '\0'
        invariant n <= |text|
        decreases |text| - n
      {
        n := n + 1;
      }
    }

    /** A copy of the string. */
    method Duplicate() returns (s: string)
      requires Valid()
      ensures s == text
    {
      var n := StrLen();
      s := buf[..n];
    }

    method MoveDown(dst: nat, src: nat, n: nat)
      requires dst <= src && src + n <= buf.Length
      modifies buf
      ensures buf[..] == Moved(old(buf[..]), dst, src, n)
    {
      ghost var was, shift := buf[..], src - dst;
      var i := 0;
      while i < n
        invariant 0 <= i <= n
        invariant forall k :: 0 <= k < dst || dst + i <= k < buf.Length ==> buf[k] == was[k]
        invariant forall k :: dst <= k < dst + i ==> buf[k] == was[k + shift]
      {
        buf[dst + i] := buf[src + i];
        i := i + 1;
      }
      MovedIs(was, buf[..], dst, src, n);
    }

    method MoveUp(dst: nat, src: nat, n: nat)
      requires src < dst && dst + n <= buf.Length
      modifies buf
      ensures buf[..] == Moved(old(buf[..]), dst, src, n)
    {
      ghost var was, shift := buf[..], src - dst;
      var i := n;
      while i > 0
        invariant 0 <= i <= n
        invariant forall k :: 0 <= k < dst + i || dst + n <= k < buf.Length ==> buf[k] == was[k]
        invariant forall k :: dst + i <= k < dst + n ==> buf[k] == was[k + shift]
      {
        i := i - 1;
        buf[dst + i] := buf[src + i];
      }
      MovedIs(was, buf[..], dst, src, n);
    }

    /** Moves n characters, whether or not the two ranges overlap. */
    method MoveChars(dst: nat, src: nat, n: nat)
      requires dst + n <= buf.Length && src + n <= buf.Length
      modifies buf
      ensures buf[..] == Moved(old(buf[..]), dst, src, n)
    {
      if dst <= src {
        MoveDown(dst, src, n);
      } else {
        MoveUp(dst, src, n);
      }
    }

    method CopyIn(at: nat, s: string, n: nat)
      requires n <= |s| && at + n <= buf.Length
      modifies buf
      ensures buf[..] == Copied(old(buf[..]), at, s, n)
    {
      var i := 0;
      while i < n
        invariant i <= n
        invariant forall k :: 0 <= k < buf.Length ==> buf[k] == if at <= k < at + i then s[k - at] else old(buf[k])
      {
        buf[at + i] := s[i];
        i := i + 1;
      }
    }

    /** Moves what follows the deletion to behind the insertion, terminator included. */
    method Rebuild(ghost line: Line, ghost deleteLen: nat, ins: string, del: nat, insLen: nat, tail: nat)
      requires Holds(line.text) && WfLine(line, buf.Length) && AllPrintable(ins) && cursor == line.cursor
      requires del == Deletable(line, deleteLen) && insLen == Insertable(line, deleteLen, ins, buf.Length)
      requires tail == |line.text| - cursor + 1 - del
      modifies buf
      ensures Holds(Splice(line, deleteLen, ins, buf.Length).text)
    {
      hide Splice, Deletable, Insertable, AllPrintable, Moved, Copied, Holds;
      SpliceSizes(line, deleteLen, ins, buf.Length);
      ghost var b0 := buf[..];
      HoldsSeq(line.text);
      SpliceBuffer(line, deleteLen, ins, buf.Length, b0);
      MoveChars(cursor + insLen, cursor + del, tail);
      CopyIn(cursor, ins, insLen);
      HoldsSeq(Splice(line, deleteLen, ins, buf.Length).text);
    }

    /** Deletes text after the cursor and inserts text there, as far as there is room. */
    method InsertDelete(deleteLen: nat, insertText: Option<string>)
      requires Valid() && (insertText.Some? ==> AllPrintable(insertText.value))
      modifies buf, `cursor, `modStart, `modEnd, `text
      ensures Valid()
      ensures var ins := if insertText.Some? then insertText.value else "";
              Value() == Splice(old(Value()), deleteLen, ins, buf.Length)
      ensures modStart == old(cursor) && modEnd == Larger(|old(text)|, |text|)
    {
      ghost var line := Value();
      var oldLen := StrLen();
      var maxDelete := oldLen - cursor;
      var del := if deleteLen > maxDelete then maxDelete else deleteLen;
      var ins := if insertText.Some? then insertText.value else "";
      var room := (buf.Length - 1) - (oldLen - del);
      var insLen := if |ins| > room then room else |ins|;
      var newLen := oldLen - del + insLen;
      SpliceSizes(line, deleteLen, ins, buf.Length);

      modStart := cursor;
      modEnd := if newLen > oldLen then newLen else oldLen;

      Rebuild(line, deleteLen, ins, del, insLen, maxDelete + 1 - del);
      text := Splice(line, deleteLen, ins, buf.Length).text;
      cursor := cursor + insLen;
    }

    /** Outside the modified region the text looks as it did. */
    ghost predicate Repaints(shown: string)
      reads `text, `modStart, `modEnd
    {
      SameOutside(shown, text, modStart, modEnd)
    }

    /** InsertDelete, with what it means for the display. */
    method Apply(deleteLen: nat, insertText: Option<string>)
      requires Valid() && (insertText.Some? ==> AllPrintable(insertText.value))
      modifies buf, `cursor, `modStart, `modEnd, `text
      ensures Valid() && Repaints(old(text))
      ensures var ins := if insertText.Some? then insertText.value else "";
              Value() == Splice(old(Value()), deleteLen, ins, buf.Length)
    {
      var ins := if insertText.Some? then insertText.value else "";
      SpliceOutside(Value(), deleteLen, ins, buf.Length);
      InsertDelete(deleteLen, insertText);
    }

    method InsertCharacter(character: char)
      requires Valid() && Printable(character)
      modifies buf, `cursor, `modStart, `modEnd, `text
      ensures Valid() && Repaints(old(text)) && Value() == Splice(old(Value()), 0, [character], buf.Length)
    {
      Apply(0, Some([character]));
    }

    method DeleteCharacter()
      requires Valid()
      modifies buf, `cursor, `modStart, `modEnd, `text
      ensures Valid() && Repaints(old(text)) && Value() == Splice(old(Value()), 1, "", buf.Length)
    {
      Apply(1, None);
    }

    method Backspace()
      requires Valid() && Repaints(text)
      modifies buf, `cursor, `modStart, `modEnd, `text
      ensures Valid() && Repaints(old(text)) && Value() == Edit(old(Value()), KEY_BACKSPACE, buf.Length)
    {
      hide Splice;
      if cursor > 0 {
        cursor := cursor - 1;
        DeleteCharacter();
      }
    }

    /** Moves the cursor to the start of the previous word. */
    method PreviousWord()
      requires Valid()
      modifies `cursor
      ensures Valid() && cursor == WordStart(text, old(cursor))
    {
      ghost var c := cursor;
      while cursor > 0 && IsSpace(buf[cursor - 1])
        invariant Valid() && cursor <= c && SpaceStart(text, c) == SpaceStart(text, cursor)
        decreases cursor
      {
        assert buf[cursor - 1] == text[cursor - 1];
        cursor := cursor - 1;
      }
      assert cursor > 0 ==> buf[cursor - 1] == text[cursor - 1];
      assert cursor == SpaceStart(text, c);
      while cursor > 0 && !IsSpace(buf[cursor - 1])
        invariant Valid() && cursor <= c && WordStart(text, c) == TokenStart(text, cursor)
        decreases cursor
      {
        assert buf[cursor - 1] == text[cursor - 1];
        cursor := cursor - 1;
      }
      assert cursor > 0 ==> buf[cursor - 1] == text[cursor - 1];
    }

    method KillWord()
      requires Valid()
      modifies buf, `cursor, `modStart, `modEnd, `text
      ensures Valid() && Repaints(old(text)) && Value() == Edit(old(Value()), CTRL_W, buf.Length)
    {
      hide Splice, WordStart;
      var oldCursor := cursor;
      PreviousWord();
      Apply(oldCursor - cursor, None);
    }

    method KillSol()
      requires Valid()
      modifies buf, `cursor, `modStart, `modEnd, `text
      ensures Valid() && Repaints(old(text)) && Value() == Edit(old(Value()), CTRL_U, buf.Length)
    {
      hide Splice;
      var oldCursor := cursor;
      cursor := 0;
      Apply(oldCursor, None);
    }

    method KillEol()
      requires Valid()
      modifies buf, `cursor, `modStart, `modEnd, `text
      ensures Valid() && Repaints(old(text)) && Value() == Edit(old(Value()), CTRL_K, buf.Length)
    {
      hide Splice;
      KillAll(Value(), SIZE_MAX, buf.Length);
      Apply(SIZE_MAX, None);
    }

    /** Replaces the whole string. */
    method ReplaceString(replacement: string)
      requires Valid() && AllPrintable(replacement)
      modifies buf, `cursor, `modStart, `modEnd, `text
      ensures Valid() && Repaints(old(text)) && Value() == Replaced(replacement, buf.Length)
    {
      hide Splice;
      cursor := 0;
      ReplaceAll(Value(), SIZE_MAX, replacement, buf.Length);
      Apply(SIZE_MAX, Some(replacement));
    }

    /** Acts on a key; returns zero, or the key if it is not an editing key. */
    method Press(key: int) returns (retval: int)
      requires Valid()
      modifies buf, `cursor, `lastCursor, `modStart, `modEnd, `text
      ensures Valid() && Repaints(old(text)) && lastCursor == old(cursor)
      ensures Value() == Edit(old(Value()), key, buf.Length)
      ensures retval == if Understood(key) then 0 else key
    {
      hide Splice, WordStart, SameOutside;
      retval := 0;
      var len := StrLen();
      lastCursor := cursor;
      modStart := cursor;
      modEnd := cursor;
      SameAsItself(text, cursor);
      if 0x20 <= key <= 0x7e {
        InsertCharacter(key as char);
      } else if key == KEY_BACKSPACE {
        Backspace();
      } else if key == KEY_DC || key == CTRL_D {
        DeleteCharacter();
      } else if key == CTRL_W {
        KillWord();
      } else if key == CTRL_U {
        KillSol();
      } else if key == CTRL_K {
        KillEol();
      } else if key == KEY_HOME || key == CTRL_A {
        cursor := 0;
      } else if key == KEY_END || key == CTRL_E {
        cursor := len;
      } else if key == KEY_LEFT || key == CTRL_B {
        if cursor > 0 {
          cursor := cursor - 1;
        }
      } else if key == KEY_RIGHT || key == CTRL_F {
        if cursor < len {
          cursor := cursor + 1;
        }
      } else {
        retval := key;
      }
    }
  }

  lemma SameAsItself(s: string, c: nat)
    ensures SameOutside(s, s, c, c)
  {
  }

  lemma SpliceSizes(l: Line, del: nat, ins: string, cap: nat)
    requires WfLine(l, cap) && AllPrintable(ins)
    ensures var d, k, left := Deletable(l, del), Insertable(l, del, ins, cap), |l.text| - l.cursor;
            && d == (if del > left then left else del)
            && k == (if |ins| > cap - 1 - (|l.text| - d) then cap - 1 - (|l.text| - d) else |ins|)
            && Splice(l, del, ins, cap).cursor == l.cursor + k
            && |Splice(l, del, ins, cap).text| == |l.text| - d + k
  {
  }

  /** Moving the tail and copying the insertion builds the spliced string, terminator included. */
  lemma SpliceBuffer(l: Line, del: nat, ins: string, cap: nat, b: string)
    requires WfLine(l, cap) && AllPrintable(ins) && |b| == cap
    requires b[..|l.text|] == l.text && b[|l.text|] == '\0'
    ensures var d, k := Deletable(l, del), Insertable(l, del, ins, cap);
            var c, n := l.cursor, |l.text| - l.cursor + 1 - d;
            var t := Splice(l, del, ins, cap).text;
            && c + k + n <= cap
            && var b' := Copied(Moved(b, c + k, c + d, n), c, ins, k);
               b'[..|t|] == t && b'[|t|] == '\0'
  {
    var d, k := Deletable(l, del), Insertable(l, del, ins, cap);
    var c, n := l.cursor, |l.text| - l.cursor + 1 - d;
    var t := Splice(l, del, ins, cap).text;
    var b1 := Moved(b, c + k, c + d, n);
    var b2 := Copied(b1, c, ins, k);
    forall i | 0 <= i < |t|
      ensures b2[i] == t[i]
    {
      if i < c {
        assert b2[i] == b1[i] == b[i] == b[..|l.text|][i];
      } else if i >= c + k {
        assert b2[i] == b1[i] == b[i - k + d] == b[..|l.text|][i - k + d];
      }
    }
  }
}
