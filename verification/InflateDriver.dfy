/** Feeding an inflater chunk by chunk. */
module InflateDriver {
  import opened Bits
  import opened Lz77
  import opened Chunks
  import opened InflateSpec
  import opened InflateRun
  import opened InflateReach
  import opened Inflate
  import opened Wrappers

  /** Progress of a sequence of calls: what remains to be done on the chunks still unread. */
  ghost predicate Fed(total: Result, fmt: Format, st: State, buffered: BitString, left: seq<seq<byte>>,
                      before: View, emitted: seq<Token>, now: View)
  {
    && Wf(st) && InRange(emitted, before.offset)
    && now.offset == before.offset + TotalSize(emitted)
    && now.data == WriteAll(before.data, before.offset, emitted)
    && var q := RunChunks(fmt, st, buffered, left, now.offset);
       total == q.(tokens := emitted + q.tokens)
  }

  /** One call moves the progress on by one chunk, or settles the total. */
  lemma FeedOne(total: Result, fmt: Format, st: State, buffered: BitString, left: seq<seq<byte>>,
                before: View, emitted: seq<Token>, now: View, after: View)
    requires left != [] && Fed(total, fmt, st, buffered, left, before, emitted, now)
    requires var r := Run(fmt, st, buffered + BytesBits(left[0]), now.offset);
             after.offset == r.offset && after.data == WriteAll(now.data, now.offset, r.tokens)
    ensures var r := Run(fmt, st, buffered + BytesBits(left[0]), now.offset);
            && (r.status.Waiting? ==> Fed(total, fmt, r.st, r.rest, left[1..], before, emitted + r.tokens, after))
            && (!r.status.Waiting? ==>
                  && total == r.(tokens := emitted + r.tokens, rest := r.rest + BytesBits(Concat(left[1..])))
                  && InRange(total.tokens, before.offset)
                  && after.data == WriteAll(before.data, before.offset, total.tokens))
  {
    hide Run, Wf, InRange, TotalSize, WriteAll, BytesBits;
    var r := Run(fmt, st, buffered + BytesBits(left[0]), now.offset);
    TotalSizeAppend(emitted, r.tokens);
    InRangeAppend(emitted, r.tokens, before.offset);
    WriteAllAppend(before.data, before.offset, emitted, r.tokens);
    if r.status.Waiting? {
      var q := RunChunks(fmt, r.st, r.rest, left[1..], r.offset);
      assert (emitted + r.tokens) + q.tokens == emitted + (r.tokens + q.tokens);
    }
  }

  /**
   Calls the inflater on each chunk in turn until the stream ends or fails: the outcome is
   that of the machine on the concatenation, whatever the chunks.
   */
  method InflateChunks(d: Inflater, chunks: seq<seq<byte>>, out: Chunk)
    returns (rc: Option<InflateSpec.Error>, unread: seq<byte>)
    requires d.Valid() && out.Writable() && chunks != []
    modifies d, out`offset, out.data
    ensures var all := old(d.accumulator[..d.bits]) + BytesBits(Concat(chunks));
            var r := old(Run(d.format, Entry(d.format, d.model), all, out.offset));
            && out.offset == r.offset
            && out.data[..] == WriteAll(old(out.data[..]), old(out.offset), r.tokens)
            && d.Buffered() && d.accumulator[..d.bits] + BytesBits(unread) == r.rest
            && rc == (if r.status.Error? then Some(r.status.error) else None)
            && (rc.None? ==> d.Valid() && d.model == r.st && (d.resume.None? <==> r.status.Ended?))
  {
    hide Run, Wf, InRange, TotalSize, WriteAll, BytesBits, RunChunks, Inflater.Models, Inflater.TablesOk, Mirrored;
    d.EntryModels();
    ghost var st, buffered, emitted := Entry(d.format, d.model), d.accumulator[..d.bits], [];
    ghost var before := View([], out.offset, out.data[..]);
    ghost var total := RunChunks(d.format, st, buffered, chunks, out.offset);
    ChunkingInvisible(d.format, st, buffered, chunks, out.offset);
    assert [] + total.tokens == total.tokens;
    FedStart(total, d.format, st, buffered, chunks, before);
    var i := 0;
    while i < |chunks|
      modifies d, out`offset, out.data
      invariant 0 <= i <= |chunks|
      invariant d.Valid() && st == Entry(d.format, d.model) && buffered == d.accumulator[..d.bits]
      invariant i > 0 ==> !d.model.Done?
      invariant Fed(total, d.format, st, buffered, chunks[i..], before, emitted, View([], out.offset, out.data[..]))
    {
      ghost var now := View([], out.offset, out.data[..]);
      var data := new byte[|chunks[i]|](k requires 0 <= k < |chunks[i]| => chunks[i][k]);
      var input := new Chunk(data, 0, data.Length);
      assert data[0..data.Length] == chunks[i];
      assert chunks[i..][1..] == chunks[i + 1..];
      ghost var r := Run(d.format, st, buffered + BytesBits(chunks[i]), out.offset);
      rc := d.Inflate(input, out);
      FeedOne(total, d.format, st, buffered, chunks[i..], before, emitted, now, View([], out.offset, out.data[..]));
      if rc.Some? || d.resume.None? {
        var left, later := data[input.offset..input.len], Concat(chunks[i + 1..]);
        unread := left + later;
        BytesBitsAppend(left, later);
        assert d.accumulator[..d.bits] + (BytesBits(left) + BytesBits(later)) == r.rest + BytesBits(later);
        return;
      }
      NoMoreBytes(input.data[input.offset..input.len]);
      st, buffered, emitted := r.st, r.rest, emitted + r.tokens;
      i := i + 1;
    }
    assert chunks[i..] == [];
    FedAll(total, d.format, st, buffered, before, emitted, View([], out.offset, out.data[..]));
    rc, unread := None, [];
    NoMoreBytes([]);
  }

  lemma FedStart(total: Result, fmt: Format, st: State, buffered: BitString, left: seq<seq<byte>>, now: View)
    requires Wf(st) && total == RunChunks(fmt, st, buffered, left, now.offset)
    ensures Fed(total, fmt, st, buffered, left, now, [], now)
  {
    hide RunChunks, Wf;
    assert [] + total.tokens == total.tokens;
  }

  lemma FedAll(total: Result, fmt: Format, st: State, buffered: BitString, before: View, emitted: seq<Token>, now: View)
    requires Fed(total, fmt, st, buffered, [], before, emitted, now)
    ensures total == Result(Waiting, st, buffered, emitted, now.offset)
    ensures now.data == WriteAll(before.data, before.offset, emitted)
  {
    hide Wf, InRange, TotalSize, WriteAll;
    assert emitted + [] == emitted;
  }
}
