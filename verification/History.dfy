/** The readline history: a ring of past lines, each with a temporary copy while one is edited. */
module History {
  import opened EditSpec
  import opened Wrappers

  const MAX_DEPTH: nat := 7
  const SLOTS: nat := 8

  function U32(x: int): (r: nat)
    ensures r < 0x1_0000_0000
  {
    x % 0x1_0000_0000
  }

  datatype Entry = Entry(line: Option<string>, temp: Option<string>)

  /** The temporary copy if there is one, otherwise the line kept. */
  function Shown(e: Entry): Option<string> {
    if e.temp.Some? then e.temp else e.line
  }

  /** Where the entry at a depth is. */
  function Slot(next: nat, depth: nat): (r: nat)
    ensures r < SLOTS
  {
    U32(next - depth) % SLOTS
  }

  /** The wrap-around of the counter does not disturb the ring, whose size divides it. */
  lemma SlotIs(next: nat, depth: nat)
    ensures Slot(next, depth) == (next - depth) % 8
  {
    var x := next - depth;
    var q := x / 0x1_0000_0000;
    assert x == 8 * (0x2000_0000 * q) + U32(x);
    EighthsDrop(0x2000_0000 * q, U32(x));
  }

  lemma EighthsDrop(q: int, r: int)
    ensures (8 * q + r) % 8 == r % 8
  {
  }

  lemma CounterIs(next: nat)
    ensures U32(next + 1) % 8 == (next + 1) % 8
  {
    var q := (next + 1) / 0x1_0000_0000;
    assert next + 1 == 8 * (0x2000_0000 * q) + U32(next + 1);
    EighthsDrop(0x2000_0000 * q, U32(next + 1));
  }

  /** Different depths are different slots. */
  lemma SlotsDiffer(next: nat, d: nat, e: nat)
    requires d <= MAX_DEPTH && e <= MAX_DEPTH
    ensures Slot(next, d) == Slot(next, e) <==> d == e
  {
    SlotIs(next, d);
    SlotIs(next, e);
    hide Slot;
  }

  lemma EighthsShift(a: int, b: int, d: int)
    requires a % 8 == b % 8
    ensures (a - d) % 8 == (b - d) % 8 && (b - 8) % 8 == b % 8
  {
  }

  /** Each addition moves every entry one deeper, and the deepest round to the new line. */
  lemma SlotsShift(next: nat, d: nat)
    requires d <= MAX_DEPTH
    ensures Slot(U32(next + 1), d) == if d == 0 then Slot(next, MAX_DEPTH) else Slot(next, d - 1)
  {
    hide Slot, U32;
    var m := U32(next + 1);
    CounterIs(next);
    SlotIs(m, d);
    SlotIs(next, if d == 0 then MAX_DEPTH else d - 1);
    EighthsShift(m, next + 1, d);
  }

  /** Going below depth zero wraps round to a depth that is refused. */
  lemma DepthStep(depth: nat, offset: int)
    requires depth <= MAX_DEPTH && (offset == 1 || offset == -1)
    ensures U32(depth + offset) == if depth + offset < 0 then 0xffff_ffff else depth + offset
  {
  }

  predicate PrintableOption(s: Option<string>) {
    s.Some? ==> AllPrintable(s.value)
  }

  /** The lines kept, most recent first, as the ring shows them by depth; depth 0 is the new line. */
  function Fresh(lines: seq<string>): (v: seq<Option<string>>)
    ensures |v| == SLOTS
  {
    seq(SLOTS, d requires 0 <= d < SLOTS => if 1 <= d <= |lines| then Some(lines[d - 1]) else None)
  }

  /** The newest lines, as many as are kept. */
  function Newest(lines: seq<string>): (r: seq<string>)
    ensures |r| <= MAX_DEPTH
  {
    if |lines| > MAX_DEPTH then lines[..MAX_DEPTH] else lines
  }

  /** Moving to depth d is possible. */
  predicate CanMove(view: seq<Option<string>>, d: int) {
    0 <= d <= MAX_DEPTH && d < |view| && view[d].Some?
  }

  class History {
    var entries: seq<Entry>
    var next: nat
    var depth: nat
    /** The lines kept, most recent first, and what is shown at each depth. */
    ghost var lines: seq<string>
    ghost var view: seq<Option<string>>

    ghost predicate Ring()
      reads `entries, `next, `lines, `view
    {
      |entries| == SLOTS && next < 0x1_0000_0000 && |lines| <= MAX_DEPTH && |view| == SLOTS
    }

    /** The ring holds the lines. */
    ghost predicate Kept()
      reads `entries, `next, `lines, `view
    {
      && Ring()
      && (forall d :: 0 <= d < SLOTS ==> entries[Slot(next, d)].line == Fresh(lines)[d])
      && (forall i :: 0 <= i < |lines| ==> AllPrintable(lines[i]))
    }

    ghost predicate Viewed()
      requires Ring()
      reads `entries, `next, `lines, `view
    {
      forall d :: 0 <= d < SLOTS ==> Shown(entries[Slot(next, d)]) == view[d] && PrintableOption(view[d])
    }

    ghost predicate Valid()
      reads this
    {
      Ring() && Kept() && Viewed() && depth <= MAX_DEPTH
    }

    constructor ()
      ensures Valid() && lines == [] && view == Fresh([]) && depth == 0
    {
      entries, next, depth, lines, view := seq(SLOTS, _ => Entry(None, None)), 0, 0, [], Fresh([]);
    }

    method Fetch(d: nat) returns (r: Option<string>)
      requires Ring()
      ensures r == Shown(entries[Slot(next, d)])
    {
      var entry := entries[Slot(next, d)];
      return if entry.temp.Some? then entry.temp else entry.line;
    }

    lemma ViewedAt(d: nat)
      requires Valid() && d <= MAX_DEPTH
      ensures Shown(entries[Slot(next, d)]) == view[d] && PrintableOption(view[d])
    {
    }

    /** Keeps a temporary copy of a string at a depth, unless it cannot be copied. */
    method Store(d: nat, s: string, copied: bool)
      requires Valid() && d <= MAX_DEPTH && AllPrintable(s)
      modifies `entries, `view
      ensures Valid() && view == if copied then old(view)[d := Some(s)] else old(view)
    {
      if !copied {
        return;
      }
      var slot := Slot(next, d);
      entries := entries[slot := entries[slot].(temp := Some(s))];
      view := view[d := Some(s)];
      forall e: nat | e < SLOTS
        ensures Slot(next, e) == slot <==> e == d
      {
        SlotsDiffer(next, e, d);
      }
    }

    /** Moves one line up or down, leaving the edited text behind to be found again. */
    method Move(offset: int, oldString: string, copied: bool) returns (r: Option<string>)
      requires Valid() && (offset == 1 || offset == -1) && AllPrintable(oldString)
      modifies `entries, `view, `depth
      ensures Valid() && PrintableOption(r)
      ensures var d := old(depth) + offset;
              if CanMove(old(view), d)
              then r == old(view)[d] && depth == d
                   && view == (if copied then old(view)[old(depth) := Some(oldString)] else old(view))
              else r == None && depth == old(depth) && view == old(view)
    {
      hide Slot, U32, Kept, Viewed;
      DepthStep(depth, offset);
      var newDepth := U32(depth + offset);
      r := Fetch(newDepth);
      if newDepth <= MAX_DEPTH {
        ViewedAt(newDepth);
      }
      if newDepth > MAX_DEPTH {
        return None;
      }
      if r.None? {
        return None;
      }
      Store(depth, oldString, copied);
      depth := newDepth;
    }

    /** Adds a line; the oldest is dropped when all slots are taken. */
    method Append(s: string, copied: bool)
      requires Kept() && AllPrintable(s)
      modifies `entries, `next, `lines
      ensures Kept() && lines == if copied then Newest([s] + old(lines)) else old(lines)
    {
      hide Slot, U32;
      var slot := Slot(next, 0);
      assert entries[slot].line.None?;
      if !copied {
        return;
      }
      entries := entries[slot := entries[slot].(line := Some(s))];
      ghost var was := next;
      next := U32(next + 1);
      slot := Slot(next, 0);
      entries := entries[slot := entries[slot].(line := None)];
      lines := Newest([s] + lines);
      forall d: nat | d < SLOTS
        ensures entries[Slot(next, d)].line == Fresh(lines)[d]
      {
        SlotsShift(was, d);
        SlotsDiffer(next, d, 0);
        if d > 0 {
          SlotsDiffer(was, d - 1, 0);
        }
      }
    }

    /** Discards the temporary copies. */
    method Cleanup()
      requires Kept()
      modifies `entries, `depth, `view
      ensures Valid() && depth == 0 && view == Fresh(lines)
    {
      hide Slot, Fresh;
      var i := 0;
      while i < SLOTS
        invariant 0 <= i <= SLOTS && Kept()
        invariant forall k :: 0 <= k < i ==> entries[k].temp.None?
      {
        entries := entries[i := entries[i].(temp := None)];
        i := i + 1;
      }
      depth := 0;
      view := Fresh(lines);
      FreshPrintable(lines);
    }
  }

  lemma FreshPrintable(lines: seq<string>)
    requires forall i :: 0 <= i < |lines| ==> AllPrintable(lines[i])
    ensures forall d :: 0 <= d < SLOTS ==> PrintableOption(Fresh(lines)[d])
  {
  }
}
