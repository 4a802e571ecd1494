/** The recovery scan over whatever bytes a crash leaves in a segment file. */
module Recover {
  import opened Bytes
  import opened Record

  /** The committed logical end, and the position stored in its marker. */
  datatype Recovery = Recovery(committed: nat, position: Option<nat>)

  /** One record of the scan: where it ends and the position it commits, if it is a marker. */
  datatype Scanned = Stop | Next(end: nat, commits: Option<nat>)

  function Commits(raw: nat, payload: seq<byte>): (position: Option<nat>) {
    if IsControl(raw) && |payload| == MARKER_PAYLOAD && payload[0] == BATCH_COMMIT then Some(FromLE(payload[1..]))
    else None
  }

  function ScanAt(bytes: seq<byte>, size: nat, cursor: nat, crc: Checksum): (s: Scanned)
    ensures s.Next? ==> cursor < s.end <= size
  {
    if cursor + HEAD > size || cursor + HEAD > |bytes| then Stop
    else
      var head := bytes[cursor..cursor + HEAD];
      var raw := FromLE(head[..LEN_SIZE]);
      var end := cursor + HEAD + PayloadLen(raw);
      if IsTruncation(head) || UnknownFlags(raw) || end > size || end > |bytes| then Stop
      else
        var payload := bytes[cursor + HEAD..end];
        if Checks(head, payload, crc) then Next(end, Commits(raw, payload)) else Stop
  }

  function Recovered(bytes: seq<byte>, size: nat, cursor: nat, soFar: Recovery, crc: Checksum): (r: Recovery)
    decreases if cursor <= size then size - cursor else 0
  {
    match ScanAt(bytes, size, cursor, crc)
    case Stop => soFar
    case Next(end, commits) =>
      Recovered(bytes, size, end, if commits.Some? then Recovery(end, commits) else soFar, crc)
  }

  /** `recover`, as the cursor loop it is. */
  method RecoverFile(bytes: seq<byte>, size: nat, start: nat, crc: Checksum) returns (r: Recovery)
    ensures r == Recovered(bytes, size, start, Recovery(start, None), crc)
  {
    hide FromLE, IsTruncation, Checks, Commits, UnknownFlags, PayloadLen;
    var committed: nat, position: Option<nat>, cursor: nat := start, None, start;
    while true
      invariant Recovered(bytes, size, cursor, Recovery(committed, position), crc)
             == Recovered(bytes, size, start, Recovery(start, None), crc)
      decreases if cursor <= size then size - cursor else 0
    {
      if cursor + HEAD > size || cursor + HEAD > |bytes| { break; }
      var head := bytes[cursor..cursor + HEAD];
      if IsTruncation(head) { break; }
      var raw := FromLE(head[..LEN_SIZE]);
      if UnknownFlags(raw) { break; }
      var end := cursor + HEAD + PayloadLen(raw);
      if end > size || end > |bytes| { break; }
      var payload := bytes[cursor + HEAD..end];
      if !Checks(head, payload, crc) { break; }
      var commits := Commits(raw, payload);
      if commits.Some? {
        committed, position := end, commits;
      }
      cursor := end;
    }
    return Recovery(committed, position);
  }

  // ------------------------------------------------------------------ what a writer lays down

  function Frames(entries: seq<Entry>, crc: Checksum): (parts: seq<seq<byte>>)
    ensures |parts| == |entries| && forall i :: 0 <= i < |entries| ==> parts[i] == Frame(entries[i], crc)
  {
    seq(|entries|, i requires 0 <= i < |entries| => Frame(entries[i], crc))
  }

  /** The bytes of a run of entries. */
  function Laid(entries: seq<Entry>, crc: Checksum): (b: seq<byte>) {
    Flat(Frames(entries, crc))
  }

  lemma LaidConcat(a: seq<Entry>, b: seq<Entry>, crc: Checksum)
    ensures Laid(a + b, crc) == Laid(a, crc) + Laid(b, crc)
  {
    hide Frame, Flat;
    assert Frames(a + b, crc) == Frames(a, crc) + Frames(b, crc);
    FlatConcat(Frames(a, crc), Frames(b, crc));
  }

  lemma LaidOne(e: Entry, crc: Checksum)
    ensures Laid([e], crc) == Frame(e, crc)
  {
    assert Frames([e], crc) == [] + [Frame(e, crc)];
    FlatSnoc([], Frame(e, crc));
  }

  lemma LaidCons(entries: seq<Entry>, crc: Checksum)
    requires entries != []
    ensures Laid(entries, crc) == Frame(entries[0], crc) + Laid(entries[1..], crc)
  {
    LaidOne(entries[0], crc);
    LaidConcat([entries[0]], entries[1..], crc);
    assert entries == [entries[0]] + entries[1..];
  }

  ghost predicate AllFit(entries: seq<Entry>) {
    forall i :: 0 <= i < |entries| ==> Fits(entries[i])
  }

  /** The recovery state after a run of whole entries. */
  function AfterRun(entries: seq<Entry>, offset: nat, soFar: Recovery, crc: Checksum): (r: Recovery) {
    if entries == [] then soFar
    else
      var end := offset + |Frame(entries[0], crc)|;
      AfterRun(entries[1..], end, Past(entries[0], end, soFar), crc)
  }

  /** A marker commits everything up to its own end. */
  function Past(e: Entry, end: nat, soFar: Recovery): (r: Recovery) {
    if e.Commits() then Recovery(end, Some(e.Position())) else soFar
  }

  lemma SplitHolds(bytes: seq<byte>, offset: nat, a: seq<byte>, b: seq<byte>)
    requires Holds(bytes, offset, a + b)
    ensures Holds(bytes, offset, a) && Holds(bytes, offset + |a|, b)
  {
    var ab := bytes[offset..offset + |a + b|];
    assert ab[..|a|] == a && ab[|a|..] == b;
    assert bytes[offset..offset + |a|] == ab[..|a|];
    assert bytes[offset + |a|..offset + |a| + |b|] == ab[|a|..];
  }

  /** The scan reads a framed entry as what it is. */
  lemma FrameScanned(bytes: seq<byte>, size: nat, offset: nat, e: Entry, crc: Checksum)
    requires Fits(e) && Distinguishes(crc) && Holds(bytes, offset, Frame(e, crc))
    requires offset + |Frame(e, crc)| <= size
    ensures ScanAt(bytes, size, offset, crc)
         == Next(offset + |Frame(e, crc)|, if e.Commits() then Some(e.Position()) else None)
  {
    hide LE, FromLE, Frame, IsTruncation, Checks;
    RawFields(e);
    FrameFields(e, crc);
    FrameIsNotTruncation(e, crc);
    HeldPieces(bytes, offset, Frame(e, crc));
  }

  /** Scanning over a run of whole entries only adds what their markers commit. */
  lemma {:induction false} RunRecovered(bytes: seq<byte>, size: nat, offset: nat, entries: seq<Entry>,
                                        soFar: Recovery, crc: Checksum)
    requires AllFit(entries) && Distinguishes(crc)
    requires Holds(bytes, offset, Laid(entries, crc)) && offset + |Laid(entries, crc)| <= size
    ensures Recovered(bytes, size, offset, soFar, crc)
         == Recovered(bytes, size, offset + |Laid(entries, crc)|, AfterRun(entries, offset, soFar, crc), crc)
    decreases |entries|
  {
    hide Frame, ScanAt, Laid;
    if entries == [] {
      LaidNone(crc);
    } else {
      var e, rest := entries[0], entries[1..];
      LaidCons(entries, crc);
      SplitHolds(bytes, offset, Frame(e, crc), Laid(rest, crc));
      FrameScanned(bytes, size, offset, e, crc);
      var end := offset + |Frame(e, crc)|;
      var next := Past(e, end, soFar);
      assert Recovered(bytes, size, offset, soFar, crc) == Recovered(bytes, size, end, next, crc);
      RunRecovered(bytes, size, end, rest, next, crc);
    }
  }

  lemma LaidNone(crc: Checksum)
    ensures Laid([], crc) == []
  {
  }

  /** Recovery never moves back. */
  lemma {:induction false} RecoveredForward(bytes: seq<byte>, size: nat, cursor: nat, soFar: Recovery, crc: Checksum)
    requires soFar.committed <= cursor
    ensures soFar.committed <= Recovered(bytes, size, cursor, soFar, crc).committed
    decreases if cursor <= size then size - cursor else 0
  {
    var s := ScanAt(bytes, size, cursor, crc);
    if s.Next? {
      RecoveredForward(bytes, size, s.end, if s.commits.Some? then Recovery(s.end, s.commits) else soFar, crc);
    }
  }

  lemma AfterRunNone(offset: nat, soFar: Recovery, crc: Checksum)
    ensures AfterRun([], offset, soFar, crc) == soFar
  {
  }

  lemma AfterRunCons(e: Entry, rest: seq<Entry>, offset: nat, soFar: Recovery, crc: Checksum)
    ensures var end := offset + |Frame(e, crc)|;
            AfterRun([e] + rest, offset, soFar, crc) == AfterRun(rest, end, Past(e, end, soFar), crc)
  {
    hide Frame, Past;
    assert ([e] + rest)[1..] == rest;
  }

  lemma {:induction false} AfterRunConcat(a: seq<Entry>, b: seq<Entry>, offset: nat, soFar: Recovery, crc: Checksum)
    ensures AfterRun(a + b, offset, soFar, crc)
         == AfterRun(b, offset + |Laid(a, crc)|, AfterRun(a, offset, soFar, crc), crc)
    decreases |a|
  {
    hide Frame, Laid, AfterRun, Past;
    if a == [] {
      LaidNone(crc);
      AfterRunNone(offset, soFar, crc);
      assert a + b == b;
    } else {
      var e, rest := a[0], a[1..];
      LaidCons(a, crc);
      var end := offset + |Frame(e, crc)|;
      AfterRunCons(e, rest, offset, soFar, crc);
      AfterRunCons(e, rest + b, offset, soFar, crc);
      AfterRunConcat(rest, b, end, Past(e, end, soFar), crc);
      assert a == [e] + rest;
      assert a + b == [e] + (rest + b);
    }
  }

  /** A run that ends in a marker commits all of itself. */
  lemma MarkerCommits(entries: seq<Entry>, offset: nat, soFar: Recovery, crc: Checksum)
    requires entries != [] && entries[|entries| - 1].Commits()
    ensures AfterRun(entries, offset, soFar, crc)
         == Recovery(offset + |Laid(entries, crc)|, Some(entries[|entries| - 1].Position()))
  {
    hide Frame, Laid;
    var n := |entries| - 1;
    var init, last := entries[..n], entries[n];
    assert entries == init + [last];
    AfterRunConcat(init, [last], offset, soFar, crc);
    LaidConcat(init, [last], crc);
    LaidOne(last, crc);
    var mid := AfterRun(init, offset, soFar, crc);
    assert [last][1..] == [];
    assert AfterRun([last], offset + |Laid(init, crc)|, mid, crc)
        == Recovery(offset + |Laid(init, crc)| + |Frame(last, crc)|, Some(last.Position()));
  }

  /** A run without markers commits nothing. */
  lemma {:induction false} OthersCommitNothing(entries: seq<Entry>, offset: nat, soFar: Recovery, crc: Checksum)
    requires forall i :: 0 <= i < |entries| ==> !entries[i].Commits()
    ensures AfterRun(entries, offset, soFar, crc) == soFar
    decreases |entries|
  {
    if entries != [] {
      OthersCommitNothing(entries[1..], offset + |Frame(entries[0], crc)|, soFar, crc);
    }
  }

  lemma {:induction false} AfterRunForward(entries: seq<Entry>, offset: nat, soFar: Recovery, crc: Checksum)
    requires soFar.committed <= offset
    ensures soFar.committed <= AfterRun(entries, offset, soFar, crc).committed <= offset + |Laid(entries, crc)|
    decreases |entries|
  {
    hide Frame, Laid;
    if entries != [] {
      LaidCons(entries, crc);
      var end := offset + |Frame(entries[0], crc)|;
      AfterRunForward(entries[1..], end, Past(entries[0], end, soFar), crc);
    } else {
      LaidNone(crc);
    }
  }

  // ------------------------------------------------------------------ safety of recovery

  /** Everything committed at the end of `entries`, nothing or a marker being last. */
  ghost predicate Settled(entries: seq<Entry>) {
    entries == [] || entries[|entries| - 1].Commits()
  }

  /** The recovery state a settled run amounts to. */
  function Settlement(entries: seq<Entry>, start: nat, crc: Checksum): (r: Recovery) {
    Recovery(start + |Laid(entries, crc)|, if entries == [] then None else Some(entries[|entries| - 1].Position()))
  }

  lemma SettledRun(entries: seq<Entry>, start: nat, crc: Checksum)
    requires Settled(entries)
    ensures AfterRun(entries, start, Recovery(start, None), crc) == Settlement(entries, start, crc)
  {
    hide Laid;
    LaidNone(crc);
    if entries != [] {
      MarkerCommits(entries, start, Recovery(start, None), crc);
    }
  }

  /** Whatever follows the durable entries, recovery reaches at least the last commit among them. */
  lemma ReachesCommit(image: seq<byte>, size: nat, start: nat, durable: seq<Entry>, k: nat, crc: Checksum)
    requires AllFit(durable) && Distinguishes(crc) && Holds(image, start, Laid(durable, crc))
    requires start + |Laid(durable, crc)| <= size && k <= |durable| && Settled(durable[..k])
    ensures Recovered(image, size, start, Recovery(start, None), crc).committed >= start + |Laid(durable[..k], crc)|
  {
    hide Recovered, AfterRun, Laid;
    var a, b, s0 := durable[..k], durable[k..], Recovery(start, None);
    assert durable == a + b;
    SettledRun(a, start, crc);
    LaidConcat(a, b, crc);
    AfterRunConcat(a, b, start, s0, crc);
    AfterRunForward(b, start + |Laid(a, crc)|, Settlement(a, start, crc), crc);
    RunRecovered(image, size, start, durable, s0, crc);
    RecoveredForward(image, size, start + |Laid(durable, crc)|, AfterRun(durable, start, s0, crc), crc);
  }

  /** Iterating over a run of whole entries yields the callers' records, and no control record. */
  lemma {:induction false} RunDrained(bytes: seq<byte>, offset: nat, entries: seq<Entry>, headerLen: nat, crc: Checksum)
    requires AllFit(entries) && Distinguishes(crc) && Holds(bytes, offset, Laid(entries, crc))
    requires forall i :: 0 <= i < |entries| && entries[i].Data? ==> |entries[i].payload| >= headerLen
    ensures Drain(bytes, offset, headerLen, crc)
         == RecordsOf(entries, offset, headerLen) + Drain(bytes, offset + |Laid(entries, crc)|, headerLen, crc)
    decreases |entries|
  {
    hide Frame, Laid, Parse, ControlLen;
    if entries == [] {
      LaidNone(crc);
    } else {
      var e, rest := entries[0], entries[1..];
      LaidCons(entries, crc);
      SplitHolds(bytes, offset, Frame(e, crc), Laid(rest, crc));
      FrameParses(bytes, offset, e, headerLen, crc);
      ControlLenIsParse(bytes, offset, headerLen, crc);
      RunDrained(bytes, offset + |Frame(e, crc)|, rest, headerLen, crc);
    }
  }

  /** The records of two runs in a row. */
  lemma {:induction false} RecordsConcat(a: seq<Entry>, b: seq<Entry>, offset: nat, headerLen: nat, crc: Checksum)
    ensures RecordsOf(a + b, offset, headerLen)
         == RecordsOf(a, offset, headerLen) + RecordsOf(b, offset + |Laid(a, crc)|, headerLen)
    decreases |a|
  {
    hide Frame, Laid, Read;
    if a == [] {
      LaidNone(crc);
      assert a + b == b;
    } else {
      LaidCons(a, crc);
      RecordsConcat(a[1..], b, offset + HEAD + |a[0].payload|, headerLen, crc);
      assert (a + b)[1..] == a[1..] + b && (a + b)[0] == a[0];
    }
  }

  /** The crash theorem. `durable` is everything synced when the crash came, its first `k` entries
      acknowledged by successful commits. Whatever the crash left past the durable bytes, recovery
      ends at or past the last acknowledged commit, and reading up to there yields every
      acknowledged record, in order, before anything else. */
  lemma CrashKeepsAcked(image: seq<byte>, size: nat, start: nat, durable: seq<Entry>, k: nat, headerLen: nat,
                        crc: Checksum)
    requires AllFit(durable) && Distinguishes(crc) && Holds(image, start, Laid(durable, crc))
    requires start + |Laid(durable, crc)| <= size && k <= |durable| && Settled(durable[..k])
    requires forall i :: 0 <= i < k && durable[i].Data? ==> |durable[i].payload| >= headerLen
    ensures var r := Recovered(image, size, start, Recovery(start, None), crc);
            && start + |Laid(durable[..k], crc)| <= r.committed
            && RecordsOf(durable[..k], start, headerLen)
            <= Drain(image[..Min(r.committed, |image|)], start, headerLen, crc)
  {
    hide Recovered, Laid, Drain;
    var a := durable[..k];
    var end := start + |Laid(a, crc)|;
    ReachesCommit(image, size, start, durable, k, crc);
    assert durable == a + durable[k..];
    LaidConcat(a, durable[k..], crc);
    SplitHolds(image, start, Laid(a, crc), Laid(durable[k..], crc));
    var cut := Min(Recovered(image, size, start, Recovery(start, None), crc).committed, |image|);
    assert image[..cut][start..end] == image[start..end];
    assert forall i :: 0 <= i < |a| && a[i].Data? ==> |a[i].payload| >= headerLen;
    RunDrained(image[..cut], start, a, headerLen, crc);
  }

  // ------------------------------------------------------------------ exact recovery

  lemma TornEntryStops(full: seq<byte>, cut: nat, size: nat, offset: nat, e: Entry, crc: Checksum)
    requires Fits(e) && Holds(full, offset, Frame(e, crc)) && offset <= cut < offset + |Frame(e, crc)| <= size
    ensures ScanAt(full[..cut], size, offset, crc) == Stop
  {
    hide LE, FromLE, Frame, IsTruncation, Checks;
    var image := full[..cut];
    if offset + HEAD <= cut {
      RawFields(e);
      FrameFields(e, crc);
      HeldPieces(full, offset, Frame(e, crc));
      assert image[offset..offset + HEAD] == full[offset..offset + HEAD];
    }
  }

  /** Cut anywhere inside a run whose only marker is its last entry, the run commits nothing. */
  lemma {:induction false} TornRunStops(full: seq<byte>, cut: nat, size: nat, offset: nat, entries: seq<Entry>,
                                        soFar: Recovery, crc: Checksum)
    requires AllFit(entries) && Distinguishes(crc) && Holds(full, offset, Laid(entries, crc))
    requires offset <= cut < offset + |Laid(entries, crc)| <= size
    requires forall i :: 0 <= i < |entries| - 1 ==> !entries[i].Commits()
    ensures Recovered(full[..cut], size, offset, soFar, crc) == soFar
    decreases |entries|
  {
    hide Frame, ScanAt, Laid;
    LaidNone(crc);
    var e, rest := entries[0], entries[1..];
    LaidCons(entries, crc);
    SplitHolds(full, offset, Frame(e, crc), Laid(rest, crc));
    var end := offset + |Frame(e, crc)|;
    if cut < end {
      TornEntryStops(full, cut, size, offset, e, crc);
    } else {
      assert full[..cut][offset..end] == full[offset..end];
      FrameScanned(full[..cut], size, offset, e, crc);
      assert rest != [] && !entries[0].Commits();
      TornRunStops(full, cut, size, end, rest, soFar, crc);
    }
  }

  /** A batch torn anywhere, from its first byte to the last of its marker, is rolled back whole:
      recovery returns exactly the previous commit, its end and its position. */
  lemma TornBatchRollsBack(full: seq<byte>, cut: nat, size: nat, start: nat, before: seq<Entry>, batch: seq<Entry>,
                           crc: Checksum)
    requires AllFit(before) && AllFit(batch) && Distinguishes(crc) && Settled(before)
    requires forall i :: 0 <= i < |batch| - 1 ==> !batch[i].Commits()
    requires Holds(full, start, Laid(before, crc) + Laid(batch, crc))
    requires start + |Laid(before, crc)| <= cut < start + |Laid(before, crc)| + |Laid(batch, crc)| <= size
    ensures Recovered(full[..cut], size, start, Recovery(start, None), crc) == Settlement(before, start, crc)
  {
    hide Recovered, AfterRun, Laid;
    var end := start + |Laid(before, crc)|;
    SplitHolds(full, start, Laid(before, crc), Laid(batch, crc));
    assert full[..cut][start..end] == full[start..end];
    RunRecovered(full[..cut], size, start, before, Recovery(start, None), crc);
    SettledRun(before, start, crc);
    TornRunStops(full, cut, size, end, batch, Settlement(before, start, crc), crc);
  }

  /** With only zeros after the last commit, recovery returns exactly that commit. */
  lemma ZeroTailIsExact(image: seq<byte>, size: nat, start: nat, entries: seq<Entry>, crc: Checksum)
    requires AllFit(entries) && Distinguishes(crc) && Settled(entries)
    requires Holds(image, start, Laid(entries, crc)) && start + |Laid(entries, crc)| <= size
    requires forall i :: start + |Laid(entries, crc)| <= i < |image| ==> image[i] == 0
    ensures Recovered(image, size, start, Recovery(start, None), crc) == Settlement(entries, start, crc)
  {
    hide Recovered, Settlement, Laid, BatchFollows;
    ExactRecoveryIff(image, size, start, entries, crc);
    ZerosAreNoBatch(image, size, start + |Laid(entries, crc)|, crc);
  }

  // ------------------------------------------------------------------ what was recovered is a log

  /** The bytes recovery keeps are a run of whole entries that is settled: a writer can go on from
      there. */
  lemma {:induction false} RecoveredIsRun(bytes: seq<byte>, size: nat, start: nat, seen: seq<Entry>, kept: nat,
                                          crc: Checksum)
    returns (entries: seq<Entry>)
    requires AllFit(seen) && Distinguishes(crc)
    requires Holds(bytes, start, Laid(seen, crc)) && start + |Laid(seen, crc)| <= size
    requires kept <= |seen| && Settled(seen[..kept])
    ensures var r := Recovered(bytes, size, start + |Laid(seen, crc)|, Settlement(seen[..kept], start, crc), crc);
            && AllFit(entries) && Settled(entries) && Holds(bytes, start, Laid(entries, crc))
            && r == Settlement(entries, start, crc) && start + |Laid(entries, crc)| <= size
            && seen[..kept] <= entries
    decreases size - |Laid(seen, crc)|
  {
    hide Laid, Frame, Settlement, ScanAt;
    var cursor := start + |Laid(seen, crc)|;
    var soFar := Settlement(seen[..kept], start, crc);
    var s := ScanAt(bytes, size, cursor, crc);
    if s == Stop {
      entries := seen[..kept];
      assert seen == seen[..kept] + seen[kept..];
      LaidConcat(seen[..kept], seen[kept..], crc);
      SplitHolds(bytes, start, Laid(seen[..kept], crc), Laid(seen[kept..], crc));
    } else {
      var e := ScannedIsFramed(bytes, size, cursor, crc);
      var more := seen + [e];
      LaidConcat(seen, [e], crc);
      LaidOne(e, crc);
      assert bytes[start..start + |Laid(more, crc)|] == bytes[start..cursor] + bytes[cursor..s.end];
      var kept' := if e.Commits() then |more| else kept;
      assert more[..kept'] == if e.Commits() then more else seen[..kept];
      if e.Commits() {
        SettlementOf(more, start, crc);
      }
      entries := RecoveredIsRun(bytes, size, start, more, kept', crc);
    }
  }

  lemma SettlementOf(entries: seq<Entry>, start: nat, crc: Checksum)
    requires entries != []
    ensures Settlement(entries, start, crc)
         == Recovery(start + |Laid(entries, crc)|, Some(entries[|entries| - 1].Position()))
  {
  }

  lemma ScannedIsFramed(bytes: seq<byte>, size: nat, cursor: nat, crc: Checksum) returns (e: Entry)
    requires ScanAt(bytes, size, cursor, crc).Next?
    ensures Fits(e) && Holds(bytes, cursor, Frame(e, crc))
    ensures ScanAt(bytes, size, cursor, crc)
         == Next(cursor + |Frame(e, crc)|, if e.Commits() then Some(e.Position()) else None)
  {
    hide FromLE, IsTruncation, Checks;
    e := CheckedIsFramed(bytes, cursor, crc);
  }

  /** The longest settled prefix. */
  function LastCommit(entries: seq<Entry>): (m: nat)
    ensures m <= |entries|
  {
    if entries == [] then 0
    else if entries[|entries| - 1].Commits() then |entries|
    else LastCommit(entries[..|entries| - 1])
  }

  lemma {:induction false} LastCommitSpec(entries: seq<Entry>, start: nat, crc: Checksum)
    ensures Settled(entries[..LastCommit(entries)])
    ensures forall k :: 0 <= k <= |entries| && Settled(entries[..k]) ==> k <= LastCommit(entries)
    ensures AfterRun(entries, start, Recovery(start, None), crc)
         == Settlement(entries[..LastCommit(entries)], start, crc)
  {
    hide AfterRun, Settlement, Laid;
    var n := |entries|;
    assert entries[..n] == entries;
    if Settled(entries) {
      SettledRun(entries, start, crc);
    } else {
      var init, last := entries[..n - 1], entries[n - 1];
      LastCommitSpec(init, start, crc);
      assert forall k :: 0 <= k < n ==> init[..k] == entries[..k];
      assert entries == init + [last];
      AfterRunConcat(init, [last], start, Recovery(start, None), crc);
      OthersCommitNothing([last], start + |Laid(init, crc)|, AfterRun(init, start, Recovery(start, None), crc), crc);
    }
  }

  /** What is recovered continues what was acknowledged. */
  lemma RecoveredExtendsAcked(image: seq<byte>, size: nat, start: nat, durable: seq<Entry>, k: nat, crc: Checksum)
    returns (entries: seq<Entry>)
    requires AllFit(durable) && Distinguishes(crc) && Holds(image, start, Laid(durable, crc))
    requires start + |Laid(durable, crc)| <= size && k <= |durable| && Settled(durable[..k])
    ensures AllFit(entries) && Settled(entries) && Holds(image, start, Laid(entries, crc))
    ensures Recovered(image, size, start, Recovery(start, None), crc) == Settlement(entries, start, crc)
    ensures durable[..k] <= entries && start + |Laid(entries, crc)| <= size
  {
    hide Recovered, AfterRun, Laid, Settlement;
    var m := LastCommit(durable);
    LastCommitSpec(durable, start, crc);
    RunRecovered(image, size, start, durable, Recovery(start, None), crc);
    entries := RecoveredIsRun(image, size, start, durable, m, crc);
    assert k <= m;
    assert durable[..k] == durable[..m][..k];
  }

  // ------------------------------------------------------------------ when recovery is exact

  /** A complete batch sits at `at`: whole entries that end in a marker, within the segment. */
  ghost predicate BatchAt(image: seq<byte>, size: nat, at: nat, batch: seq<Entry>, crc: Checksum) {
    && batch != [] && batch[|batch| - 1].Commits() && AllFit(batch)
    && Holds(image, at, Laid(batch, crc)) && at + |Laid(batch, crc)| <= size
  }

  ghost predicate BatchFollows(image: seq<byte>, size: nat, at: nat, crc: Checksum) {
    exists batch :: BatchAt(image, size, at, batch, crc)
  }

  /** Recovery over any image returns exactly the commits of `acked` if and only if no complete batch
      follows them. */
  lemma ExactRecoveryIff(image: seq<byte>, size: nat, start: nat, acked: seq<Entry>, crc: Checksum)
    requires AllFit(acked) && Settled(acked) && Distinguishes(crc)
    requires Holds(image, start, Laid(acked, crc)) && start + |Laid(acked, crc)| <= size
    ensures Recovered(image, size, start, Recovery(start, None), crc) == Settlement(acked, start, crc)
       <==> !BatchFollows(image, size, start + |Laid(acked, crc)|, crc)
  {
    hide Recovered, BatchAt;
    var at := start + |Laid(acked, crc)|;
    ExactOrFollowed(image, size, start, acked, crc);
    if batch :| BatchAt(image, size, at, batch, crc) {
      FollowingIsRecovered(image, size, start, acked, batch, crc);
    }
  }

  lemma FollowingIsRecovered(image: seq<byte>, size: nat, start: nat, acked: seq<Entry>, batch: seq<Entry>,
                             crc: Checksum)
    requires AllFit(acked) && Distinguishes(crc) && Holds(image, start, Laid(acked, crc))
    requires BatchAt(image, size, start + |Laid(acked, crc)|, batch, crc)
    ensures Recovered(image, size, start, Recovery(start, None), crc).committed > start + |Laid(acked, crc)|
  {
    hide Recovered, Laid, Frame;
    var all, a, b := acked + batch, Laid(acked, crc), Laid(batch, crc);
    LaidConcat(acked, batch, crc);
    LaidCons(batch, crc);
    assert image[start..start + |a + b|] == image[start..start + |a|] + image[start + |a|..start + |a| + |b|];
    assert all[..|all|] == all && all[|all| - 1] == batch[|batch| - 1];
    ReachesCommit(image, size, start, all, |all|, crc);
  }

  lemma ExactOrFollowed(image: seq<byte>, size: nat, start: nat, acked: seq<Entry>, crc: Checksum)
    requires AllFit(acked) && Settled(acked) && Distinguishes(crc)
    requires Holds(image, start, Laid(acked, crc)) && start + |Laid(acked, crc)| <= size
    ensures Recovered(image, size, start, Recovery(start, None), crc) == Settlement(acked, start, crc)
         || BatchFollows(image, size, start + |Laid(acked, crc)|, crc)
  {
    hide Recovered, Laid, Frame, Settlement;
    assert acked[..|acked|] == acked;
    var entries := RecoveredExtendsAcked(image, size, start, acked, |acked|, crc);
    var batch := entries[|acked|..];
    assert entries == acked + batch;
    if batch == [] {
      assert entries == acked;
    } else {
      LaidConcat(acked, batch, crc);
      SplitHolds(image, start, Laid(acked, crc), Laid(batch, crc));
      assert batch[|batch| - 1] == entries[|entries| - 1];
      assert BatchAt(image, size, start + |Laid(acked, crc)|, batch, crc);
    }
  }

  /** Zeros are no batch. */
  lemma ZerosAreNoBatch(image: seq<byte>, size: nat, at: nat, crc: Checksum)
    requires Distinguishes(crc) && forall i :: at <= i < |image| ==> image[i] == 0
    ensures !BatchFollows(image, size, at, crc)
  {
    hide BatchAt;
    assert ScanAt(image, size, at, crc) == Stop;
    if batch :| BatchAt(image, size, at, batch, crc) {
      BatchIsScanned(image, size, at, batch, crc);
    }
  }

  lemma BatchIsScanned(image: seq<byte>, size: nat, at: nat, batch: seq<Entry>, crc: Checksum)
    requires Distinguishes(crc) && BatchAt(image, size, at, batch, crc)
    ensures ScanAt(image, size, at, crc).Next?
  {
    hide Frame, Laid, ScanAt;
    LaidCons(batch, crc);
    SplitHolds(image, at, Frame(batch[0], crc), Laid(batch[1..], crc));
    FrameScanned(image, size, at, batch[0], crc);
  }

  /** Nor is a batch without its marker, whatever was left of it, if the scan stops behind it: what a batch
      rewound before its commit leaves behind. */
  lemma UnmarkedIsNoBatch(image: seq<byte>, size: nat, at: nat, left: seq<Entry>, crc: Checksum)
    requires Distinguishes(crc) && AllFit(left) && Holds(image, at, Laid(left, crc)) && at + |Laid(left, crc)| <= size
    requires forall i :: 0 <= i < |left| ==> !left[i].Commits()
    requires ScanAt(image, size, at + |Laid(left, crc)|, crc) == Stop
    ensures !BatchFollows(image, size, at, crc)
  {
    hide ScanAt, AfterRun, Laid, BatchAt;
    LaidNone(crc);
    var nothing := Recovery(at, None);
    RunRecovered(image, size, at, left, nothing, crc);
    OthersCommitNothing(left, at, nothing, crc);
    assert Recovered(image, size, at, nothing, crc) == nothing;
    ExactRecoveryIff(image, size, at, [], crc);
  }

  // ------------------------------------------------------------------ after part of an entry

  lemma {:induction false} RecordsBefore(entries: seq<Entry>, start: nat, headerLen: nat, crc: Checksum)
    ensures forall r :: r in RecordsOf(entries, start, headerLen) ==> r.offset < start + |Laid(entries, crc)|
    decreases |entries|
  {
    hide Frame, Laid;
    if entries != [] {
      LaidCons(entries, crc);
      RecordsBefore(entries[1..], start + HEAD + |entries[0].payload|, headerLen, crc);
    }
  }

  /** What a reader steps over at `offset` is at least a head, and as long as the frame that begins there if
      the whole head of that frame is left. */
  lemma StepLength(image: seq<byte>, offset: nat, e: Entry, n: nat, headerLen: nat, crc: Checksum)
    requires Fits(e) && 0 < n < |Frame(e, crc)| && Holds(image, offset, Frame(e, crc)[..n])
    ensures ControlLen(image, offset, crc).Some? ==> n < ControlLen(image, offset, crc).value
    ensures var r := Parse(image, offset, headerLen, crc); r.Ok? ==> r.value.offset == offset && n < r.value.len
  {
    hide LE, FromLE, Frame, IsTruncation, Checks;
    if n >= HEAD {
      RawFields(e);
      FrameFields(e, crc);
      HeldPieces(image, offset, Frame(e, crc)[..n]);
      assert Frame(e, crc)[..n][..HEAD] == Frame(e, crc)[..HEAD];
    }
  }

  /** Whole entries and then part of one: no reader ever stands at the end of that part, whatever follows it
      and whatever the checksum. */
  lemma StumpIsSteppedOver(image: seq<byte>, start: nat, entries: seq<Entry>, e: Entry, n: nat, headerLen: nat,
                           crc: Checksum)
    requires AllFit(entries) && Fits(e) && Distinguishes(crc) && 0 < n < |Frame(e, crc)|
    requires forall i :: 0 <= i < |entries| && entries[i].Data? ==> |entries[i].payload| >= headerLen
    requires Holds(image, start, Laid(entries, crc))
    requires Holds(image, start + |Laid(entries, crc)|, Frame(e, crc)[..n])
    ensures forall r :: r in Drain(image, start, headerLen, crc) ==> r.offset != start + |Laid(entries, crc)| + n
  {
    hide Laid, Frame, Parse, ControlLen, RecordsOf;
    var end := start + |Laid(entries, crc)|;
    RunDrained(image, start, entries, headerLen, crc);
    RecordsBefore(entries, start, headerLen, crc);
    StepLength(image, end, e, n, headerLen, crc);
    ParsedFits(image, end, headerLen, crc);
    var control, parsed := ControlLen(image, end, crc), Parse(image, end, headerLen, crc);
    if control.Some? {
      DrainFrom(image, end + control.value, headerLen, crc);
    } else if parsed.Ok? {
      DrainFrom(image, end + parsed.value.len, headerLen, crc);
    }
  }

  // ------------------------------------------------------------------ how reading ends

  /** Whole entries do not end an iteration. */
  lemma {:induction false} RunGoesOn(bytes: seq<byte>, offset: nat, entries: seq<Entry>, headerLen: nat, crc: Checksum)
    requires AllFit(entries) && Distinguishes(crc) && Holds(bytes, offset, Laid(entries, crc))
    requires forall i :: 0 <= i < |entries| && entries[i].Data? ==> |entries[i].payload| >= headerLen
    ensures DrainEnd(bytes, offset, headerLen, crc) == DrainEnd(bytes, offset + |Laid(entries, crc)|, headerLen, crc)
    decreases |entries|
  {
    hide Frame, Laid, Parse, ControlLen;
    if entries == [] {
      LaidNone(crc);
    } else {
      var e, rest := entries[0], entries[1..];
      LaidCons(entries, crc);
      SplitHolds(bytes, offset, Frame(e, crc), Laid(rest, crc));
      FrameParses(bytes, offset, e, headerLen, crc);
      ControlLenIsParse(bytes, offset, headerLen, crc);
      RunGoesOn(bytes, offset + |Frame(e, crc)|, rest, headerLen, crc);
    }
  }

  /** A record whose payload was changed, in any bytes, fails its checksum where it stands, unless the checksum
      happens to agree. */
  lemma DamagedRecordFails(bytes: seq<byte>, offset: nat, e: Entry, payload: seq<byte>, headerLen: nat, crc: Checksum)
    requires Fits(e) && Distinguishes(crc) && e.Data? && |payload| == |e.payload| >= headerLen
    requires Holds(bytes, offset, Frame(e, crc)[..HEAD] + payload)
    requires crc(LE(e.Raw(), 4) + payload) != crc(LE(e.Raw(), 4) + e.payload)
    ensures Parse(bytes, offset, headerLen, crc) == Err(Crc32cMismatch(offset))
    ensures ControlLen(bytes, offset, crc) == None
  {
    hide LE, FromLE, Frame, IsTruncation;
    RawFields(e);
    FrameFields(e, crc);
    FrameIsNotTruncation(e, crc);
    var damaged := Frame(e, crc)[..HEAD] + payload;
    HeldPieces(bytes, offset, damaged);
    assert damaged[..HEAD] == Frame(e, crc)[..HEAD] && damaged[HEAD..] == payload;
  }

  /** Damage past whole entries is reported and never taken for the end of the log: the records before it, and
      then its error. */
  lemma DamageIsReported(bytes: seq<byte>, start: nat, entries: seq<Entry>, e: Entry, payload: seq<byte>,
                         headerLen: nat, crc: Checksum)
    requires AllFit(entries) && Distinguishes(crc) && Holds(bytes, start, Laid(entries, crc))
    requires forall i :: 0 <= i < |entries| && entries[i].Data? ==> |entries[i].payload| >= headerLen
    requires Fits(e) && e.Data? && |payload| == |e.payload| >= headerLen
    requires Holds(bytes, start + |Laid(entries, crc)|, Frame(e, crc)[..HEAD] + payload)
    requires crc(LE(e.Raw(), 4) + payload) != crc(LE(e.Raw(), 4) + e.payload)
    ensures Drain(bytes, start, headerLen, crc) == RecordsOf(entries, start, headerLen)
    ensures DrainEnd(bytes, start, headerLen, crc) == Some(Crc32cMismatch(start + |Laid(entries, crc)|))
  {
    hide Frame, Laid, Parse, ControlLen, LE;
    var at := start + |Laid(entries, crc)|;
    DamagedRecordFails(bytes, at, e, payload, headerLen, crc);
    RunDrained(bytes, start, entries, headerLen, crc);
    RunGoesOn(bytes, start, entries, headerLen, crc);
    var records := RecordsOf(entries, start, headerLen);
    assert records + [] == records;
  }
}
