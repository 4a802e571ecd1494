/** A segment after a crash, end to end: recover the file, then read it back through the reader's own
    buffers. */
module CrashRead {
  import opened Bytes
  import opened Record
  import opened Recover
  import opened SegmentReader
  import opened SegmentWriter

  /** Everything an iterator yields from `start` on, and the error it ends on, if it does not end cleanly. */
  method ReadAll(reader: Reader, start: nat) returns (records: seq<Record>, end: Option<ReadError>)
    requires reader.Valid()
    modifies reader.optimistic, reader.fallback, reader.window
    ensures reader.Valid()
    ensures records == Drain(reader.Visible(), start, reader.headerLen, reader.crc)
    ensures end == DrainEnd(reader.Visible(), start, reader.headerLen, reader.crc)
  {
    hide Drain, DrainEnd, Parse, ControlLen, PastControl;
    var it := new Iter(reader, start);
    ghost var bytes := reader.Visible();
    ghost var all := Drain(bytes, start, reader.headerLen, reader.crc);
    records := [];
    assert [] + all == all;
    ghost var left := all;
    while true
      invariant fresh(it) && it.reader == reader && reader.Valid() && reader.Visible() == bytes
      invariant left == Drain(bytes, it.offset, reader.headerLen, reader.crc)
      invariant records + left == all
      invariant DrainEnd(bytes, it.offset, reader.headerLen, reader.crc)
             == DrainEnd(bytes, start, reader.headerLen, reader.crc)
      decreases |left|
    {
      var next := it.NextRecord();
      if next.Err? || next.value.None? {
        assert records + [] == records;
        return records, if next.Err? then Some(next.error) else None;
      }
      ghost var rest := Drain(bytes, it.offset, reader.headerLen, reader.crc);
      assert records + ([next.value.value] + rest) == (records + [next.value.value]) + rest;
      records := records + [next.value.value];
      left := rest;
    }
  }

  /** Opens what a crash left of a segment of `size` bytes and reads it all: every record acknowledged before
      the crash comes back, in order, ahead of anything else. */
  method RecoverAndRead(image: seq<byte>, size: nat, start: nat, headerLen: nat, crc: Checksum,
                        ghost durable: seq<Entry>, ghost k: nat)
    returns (records: seq<Record>, end: Option<ReadError>)
    requires AllFit(durable) && Distinguishes(crc) && Holds(image, start, Laid(durable, crc))
    requires start + |Laid(durable, crc)| <= size && k <= |durable| && Settled(durable[..k])
    requires forall i :: 0 <= i < k && durable[i].Data? ==> |durable[i].payload| >= headerLen
    ensures RecordsOf(durable[..k], start, headerLen) <= records
    ensures var r := Recovered(image, size, start, Recovery(start, None), crc);
            r.committed <= |image| && records == Drain(image[..r.committed], start, headerLen, crc)
    ensures end == None || end == Some(SlicePanic)
  {
    hide Drain, DrainEnd, Recovered, Laid;
    CrashKeepsAcked(image, size, start, durable, k, headerLen, crc);
    var r := RecoverFile(image, size, start, crc);
    ghost var kept := RecoveredExtendsAcked(image, size, start, durable, k, crc);
    var file := new File(image);
    var flushed := new FlushedOffset(r.committed);
    var reader := new Reader(file, flushed, headerLen, crc);
    records, end := ReadAll(reader, start);
    assert image[..r.committed][start..r.committed] == image[start..r.committed];
    RunEndsCleanly(image[..r.committed], start, kept, headerLen, crc);
  }

  /** Reading exactly a run of whole entries ends cleanly, unless one of them is too short for its header. */
  lemma RunEndsCleanly(bytes: seq<byte>, start: nat, entries: seq<Entry>, headerLen: nat, crc: Checksum)
    requires AllFit(entries) && Distinguishes(crc)
    requires Holds(bytes, start, Laid(entries, crc)) && |bytes| == start + |Laid(entries, crc)|
    ensures var end := DrainEnd(bytes, start, headerLen, crc); end == None || end == Some(SlicePanic)
    ensures (forall i :: 0 <= i < |entries| && entries[i].Data? ==> |entries[i].payload| >= headerLen) ==>
              DrainEnd(bytes, start, headerLen, crc) == None
    decreases |entries|
  {
    hide Frame, Laid, Parse, ControlLen;
    if entries == [] {
      LaidNone(crc);
      PastEnd(bytes, headerLen, crc);
    } else {
      var e, rest := entries[0], entries[1..];
      LaidCons(entries, crc);
      SplitHolds(bytes, start, Frame(e, crc), Laid(rest, crc));
      FrameParses(bytes, start, e, headerLen, crc);
      ControlLenIsParse(bytes, start, headerLen, crc);
      RunEndsCleanly(bytes, start + |Frame(e, crc)|, rest, headerLen, crc);
    }
  }

  lemma PastEnd(bytes: seq<byte>, headerLen: nat, crc: Checksum)
    ensures DrainEnd(bytes, |bytes|, headerLen, crc) == None
  {
  }

  /** The same from any state of a writer, after any crash that spares the synced bytes. */
  method CrashAndRead(w: Writer, image: seq<byte>) returns (records: seq<Record>, end: Option<ReadError>)
    requires w.Valid() && w.Readable() && w.flushed <= |image| && image[..w.flushed] == w.file[..w.flushed]
    ensures RecordsOf(w.entries[..w.acked], w.start, w.headerLen) <= records
    ensures records == Drain(w.Kept(image), w.start, w.headerLen, w.crc)
    ensures end == None || end == Some(SlicePanic)
  {
    hide Drain, DrainEnd, Recovered, Laid, FileOk, Overlay, Holds, RecordsOf;
    ghost var durable := w.entries[..w.synced];
    w.Durable(image, w.synced);
    assert durable[..w.acked] == w.entries[..w.acked];
    assert forall i :: 0 <= i < w.acked && durable[i].Data? ==> durable[i] == w.entries[i];
    records, end := RecoverAndRead(image, w.size, w.start, w.headerLen, w.crc, durable, w.acked);
  }
}
