/** The buffered segment writer: append, commit, sync and rewind over one preallocated file, with the
    two places where an I/O fault can strike. */
module SegmentWriter {
  import opened Bytes
  import opened Record
  import opened Recover

  const WRITE_BUF_SIZE: nat := 16 * 1024
  const MAX_RECORD_LEN: nat := LENGTH_MASK

  datatype WriteError =
    | RecordTooLarge(size: nat, max: nat)
    | SegmentFull(attempted: nat, available: nat)
    | InvalidStartOffset(size: nat, start: nat)
    | Io

  datatype Written<+T> = Done(value: T) | Failed(error: WriteError)

  /** Largest record that still leaves room for a commit marker. */
  function RecordHardLimit(size: nat, start: nat): (limit: nat) {
    if size >= start + HEAD + MARKER_PAYLOAD then size - start - (HEAD + MARKER_PAYLOAD) else 0
  }

  function DefaultMaxRecord(size: nat, start: nat): (limit: nat)
    ensures limit <= MAX_RECORD_LEN
  {
    Min(Min(size / 4, RecordHardLimit(size, start)), MAX_RECORD_LEN)
  }

  /** The hard limit is the largest record after which a marker still fits, and the default a quarter of the
      segment within that and the length field. */
  lemma LimitsLeaveRoom(size: nat, start: nat, total: nat)
    requires total > 0
    ensures total <= RecordHardLimit(size, start) <==> start + total + HEAD + MARKER_PAYLOAD <= size
    ensures total <= DefaultMaxRecord(size, start) <==>
              4 * total <= size && start + total + HEAD + MARKER_PAYLOAD <= size && total <= LENGTH_MASK
  {
  }

  /** What the buffer holds after `b`: with what it held if both fit, else alone, or nothing if `b` is as large
      as the buffer. */
  function Buffered(pending: seq<byte>, b: seq<byte>): (now: seq<byte>) {
    if |b| >= WRITE_BUF_SIZE then [] else if |pending + b| > WRITE_BUF_SIZE then b else pending + b
  }

  /** `file` with `b` written at `at`, longer by as much as that takes. */
  function Overlay(file: seq<byte>, at: nat, b: seq<byte>): (f: seq<byte>)
    requires at <= |file|
    ensures |f| == Max(|file|, at + |b|)
  {
    file[..at] + b + if at + |b| <= |file| then file[at + |b|..] else []
  }

  lemma OverlayTwice(file: seq<byte>, at: nat, a: seq<byte>, b: seq<byte>)
    requires at <= |file|
    ensures Overlay(Overlay(file, at, a), at + |a|, b) == Overlay(file, at, a + b)
  {
    var f := Overlay(file, at, a);
    assert f[..at + |a|] == file[..at] + a;
    assert at + |a| + |b| <= |file| ==> f[at + |a| + |b|..] == file[at + |a| + |b|..];
    assert at + |a| + |b| > |file| && at + |a| + |b| <= |f| ==> b == [] && f[at + |a|..] == [];
  }

  lemma OverlayNothing(file: seq<byte>, at: nat)
    requires at <= |file|
    ensures Overlay(file, at, []) == file
  {
  }

  /** Writing right after a run extends it; writing anywhere past it leaves it alone. */
  lemma OverlayExtends(file: seq<byte>, start: nat, run: seq<byte>, b: seq<byte>)
    requires Holds(file, start, run)
    ensures Holds(Overlay(file, start + |run|, b), start, run + b)
  {
    var f := Overlay(file, start + |run|, b);
    assert f[start..start + |run + b|] == file[start..start + |run|] + b;
  }

  lemma OverlayPast(file: seq<byte>, start: nat, run: seq<byte>, at: nat, b: seq<byte>)
    requires Holds(file, start, run) && start + |run| <= at <= |file|
    ensures Holds(Overlay(file, at, b), start, run)
  {
    assert Overlay(file, at, b)[start..start + |run|] == file[start..start + |run|];
  }

  /** Every data entry carries a caller's header. */
  ghost predicate WithHeaders(entries: seq<Entry>, headerLen: nat) {
    forall i :: 0 <= i < |entries| && entries[i].Data? ==> |entries[i].payload| >= headerLen
  }

  lemma ReadsOn(entries: seq<Entry>, e: Entry, headerLen: nat)
    ensures AllFit(entries + [e]) <==> AllFit(entries) && Fits(e)
    ensures WithHeaders(entries + [e], headerLen) <==>
              WithHeaders(entries, headerLen) && (e.Data? ==> |e.payload| >= headerLen)
  {
    var more := entries + [e];
    assert more[|entries|] == e;
    assert forall i :: 0 <= i < |entries| ==> more[i] == entries[i];
  }

  lemma ReadsLess(entries: seq<Entry>, k: nat, headerLen: nat)
    requires k <= |entries|
    ensures AllFit(entries) ==> AllFit(entries[..k])
    ensures WithHeaders(entries, headerLen) ==> WithHeaders(entries[..k], headerLen)
  {
  }

  ghost predicate ZerosFrom(file: seq<byte>, at: nat) {
    forall i :: at <= i < |file| ==> file[i] == 0
  }

  /** The file holds the whole `entries` from `start` on: up to `end`, or short of it in a torn log, where
      a rewind into the middle of an entry left part of one. */
  ghost predicate LogOk(file: seq<byte>, start: nat, entries: seq<Entry>, end: nat, torn: bool, crc: Checksum) {
    && Holds(file, start, Laid(entries, crc)) && start + |Laid(entries, crc)| <= end <= |file|
    && (!torn ==> end == start + |Laid(entries, crc)|)
  }

  /** Where a rewind into an entry left off, and the entry. */
  datatype Stump = Stump(at: nat, entry: Entry)

  /** Past the whole entries the file holds the beginning of one more, and not all of it, up to the stump. */
  ghost predicate StumpOk(file: seq<byte>, start: nat, entries: seq<Entry>, end: nat, stump: Stump, crc: Checksum) {
    var whole := start + |Laid(entries, crc)|;
    && whole < stump.at <= end && stump.at < whole + |Frame(stump.entry, crc)|
    && Holds(file, whole, Frame(stump.entry, crc)[..stump.at - whole])
  }

  /** The whole file: the log, its stump if it is torn, and zeros behind it if nothing was ever rewound. */
  ghost predicate FileOk(file: seq<byte>, start: nat, entries: seq<Entry>, end: nat, torn: bool, stump: Stump,
                         rewound: bool, crc: Checksum)
  {
    && LogOk(file, start, entries, end, torn, crc)
    && (torn ==> StumpOk(file, start, entries, end, stump, crc))
    && (rewound || (!torn && ZerosFrom(file, end)))
  }

  /** The stump a rewind to `offset`, past the first `k` whole entries, leaves: of the next entry, or of the
      one that was torn before. */
  ghost function Cut(entries: seq<Entry>, k: nat, offset: nat, stump: Stump): (now: Stump)
    requires k <= |entries|
  {
    if k < |entries| then Stump(offset, entries[k]) else Stump(Min(offset, stump.at), stump.entry)
  }

  /** The first `synced` entries are below `flushed`, the first `acked` of them committed. They end there,
      unless a torn log was synced. */
  ghost predicate SyncOk(entries: seq<Entry>, synced: nat, acked: nat, flushed: nat, dirty: bool, torn: bool,
                         start: nat, crc: Checksum)
  {
    && acked <= synced <= |entries| && Settled(entries[..acked])
    && start + |Laid(entries[..synced], crc)| <= flushed
    && (flushed == start + |Laid(entries[..synced], crc)| || (torn && synced == |entries|))
    && (!dirty ==> synced == |entries|)
  }

  /** The entries after one more is laid down: in a torn log it does not continue the run. */
  ghost function Plus(entries: seq<Entry>, e: Entry, torn: bool): (more: seq<Entry>) {
    if torn then entries else entries + [e]
  }

  /** How many whole entries lie within the first `n` bytes. */
  ghost function Within(entries: seq<Entry>, n: nat, crc: Checksum): (k: nat)
    ensures k <= |entries|
  {
    if entries == [] || |Laid(entries, crc)| <= n then |entries|
    else Within(entries[..|entries| - 1], n, crc)
  }

  lemma {:induction false} WithinSpec(entries: seq<Entry>, n: nat, crc: Checksum)
    ensures var k := Within(entries, n, crc);
            && |Laid(entries[..k], crc)| <= n
            && forall j :: 0 <= j <= |entries| ==> (j <= k <==> |Laid(entries[..j], crc)| <= n)
  {
    hide Laid;
    LaidNone(crc);
    var size := |entries|;
    assert entries[..size] == entries;
    if entries == [] || |Laid(entries, crc)| <= n {
      forall j | 0 <= j <= size ensures |Laid(entries[..j], crc)| <= n { LaidGrows(entries, j, size, crc); }
    } else {
      var init := entries[..size - 1];
      WithinSpec(init, n, crc);
      assert forall j :: 0 <= j < size ==> init[..j] == entries[..j];
    }
  }

  lemma SettlementEnd(entries: seq<Entry>, start: nat, crc: Checksum)
    ensures Settlement(entries, start, crc).committed == start + |Laid(entries, crc)|
  {
  }

  lemma SyncedBytes(contents: seq<byte>, file: seq<byte>, image: seq<byte>, start: nat, flushed: nat, run: seq<byte>)
    requires Holds(contents, start, run) && start + |run| <= flushed <= |file|
    requires flushed <= |contents| && flushed <= |image| && contents[..flushed] == file[..flushed] == image[..flushed]
    ensures Holds(image, start, run)
  {
    var end := start + |run|;
    assert image[start..end] == image[..flushed][start..end];
    assert contents[..flushed][start..end] == contents[start..end];
  }

  lemma LogAppends(file: seq<byte>, start: nat, entries: seq<Entry>, end: nat, torn: bool, crc: Checksum, e: Entry)
    requires LogOk(file, start, entries, end, torn, crc)
    ensures var f := Overlay(file, end, Frame(e, crc));
            && LogOk(f, start, Plus(entries, e, torn), end + |Frame(e, crc)|, torn, crc)
            && (ZerosFrom(file, end) ==> ZerosFrom(f, end + |Frame(e, crc)|))
  {
    hide Laid, Frame;
    if torn {
      OverlayPast(file, start, Laid(entries, crc), end, Frame(e, crc));
    } else {
      LaidConcat(entries, [e], crc);
      LaidOne(e, crc);
      OverlayExtends(file, start, Laid(entries, crc), Frame(e, crc));
    }
  }

  lemma SyncAppends(entries: seq<Entry>, synced: nat, acked: nat, flushed: nat, dirty: bool, torn: bool, start: nat,
                    crc: Checksum, e: Entry)
    requires SyncOk(entries, synced, acked, flushed, dirty, torn, start, crc)
    ensures SyncOk(Plus(entries, e, torn), synced, acked, flushed, true, torn, start, crc)
  {
    hide Laid;
    assert (entries + [e])[..synced] == entries[..synced] && (entries + [e])[..acked] == entries[..acked];
  }

  lemma SyncDirty(entries: seq<Entry>, synced: nat, acked: nat, flushed: nat, dirty: bool, torn: bool, start: nat,
                  crc: Checksum)
    requires SyncOk(entries, synced, acked, flushed, dirty, torn, start, crc)
    ensures SyncOk(entries, synced, acked, flushed, true, torn, start, crc)
  {
  }

  lemma LogRewinds(file: seq<byte>, start: nat, entries: seq<Entry>, end: nat, torn: bool, crc: Checksum, k: nat)
    requires LogOk(file, start, entries, end, torn, crc) && k <= |entries|
    ensures Holds(file, start, Laid(entries[..k], crc))
    ensures start + |Laid(entries[..k], crc)| <= end
  {
    hide Laid, Frame;
    assert entries == entries[..k] + entries[k..];
    LaidConcat(entries[..k], entries[k..], crc);
    SplitHolds(file, start, Laid(entries[..k], crc), Laid(entries[k..], crc));
  }

  lemma LogCut(file: seq<byte>, start: nat, entries: seq<Entry>, end: nat, torn: bool, crc: Checksum, offset: nat)
    requires LogOk(file, start, entries, end, torn, crc) && start <= offset <= end
    ensures var whole := entries[..Within(entries, offset - start, crc)];
            LogOk(file, start, whole, offset, start + |Laid(whole, crc)| < offset, crc)
  {
    hide Laid, Within;
    WithinSpec(entries, offset - start, crc);
    LogRewinds(file, start, entries, end, torn, crc, Within(entries, offset - start, crc));
  }

  lemma SameBelow(a: seq<byte>, b: seq<byte>, cut: nat, at: nat, run: seq<byte>)
    requires Holds(a, at, run) && at + |run| <= cut <= |a| && cut <= |b| && a[..cut] == b[..cut]
    ensures Holds(b, at, run)
  {
    assert b[at..at + |run|] == b[..cut][at..at + |run|] == a[..cut][at..at + |run|] == a[at..at + |run|];
  }

  lemma HoldsPrefix(file: seq<byte>, at: nat, run: seq<byte>, n: nat)
    requires Holds(file, at, run) && n <= |run|
    ensures Holds(file, at, run[..n])
  {
    assert file[at..at + n] == file[at..at + |run|][..n];
  }

  lemma StumpAppends(file: seq<byte>, start: nat, entries: seq<Entry>, end: nat, stump: Stump, crc: Checksum,
                     b: seq<byte>)
    requires StumpOk(file, start, entries, end, stump, crc) && end <= |file|
    ensures StumpOk(Overlay(file, end, b), start, entries, end + |b|, stump, crc)
  {
    hide Laid, Frame, Overlay;
    var whole := start + |Laid(entries, crc)|;
    OverlayPast(file, whole, Frame(stump.entry, crc)[..stump.at - whole], end, b);
  }

  lemma StumpCut(file: seq<byte>, start: nat, entries: seq<Entry>, end: nat, torn: bool, stump: Stump, crc: Checksum,
                 offset: nat)
    requires LogOk(file, start, entries, end, torn, crc) && start <= offset < end
    requires torn ==> StumpOk(file, start, entries, end, stump, crc)
    ensures var k := Within(entries, offset - start, crc);
            start + |Laid(entries[..k], crc)| < offset ==>
              StumpOk(file, start, entries[..k], offset, Cut(entries, k, offset, stump), crc)
  {
    hide Laid, Frame, Within;
    WithinSpec(entries, offset - start, crc);
    var k := Within(entries, offset - start, crc);
    var whole := start + |Laid(entries[..k], crc)|;
    if k < |entries| {
      LogRewinds(file, start, entries, end, torn, crc, k + 1);
      EntryHeld(file, start, entries, k, crc);
      HoldsPrefix(file, whole, Frame(entries[k], crc), offset - whole);
    } else {
      assert entries[..k] == entries;
      if whole < offset {
        StumpShrinks(file, start, entries, end, stump, crc, offset);
      }
    }
  }

  /** Entry `k` sits right after those before it. */
  lemma EntryHeld(file: seq<byte>, start: nat, entries: seq<Entry>, k: nat, crc: Checksum)
    requires k < |entries| && Holds(file, start, Laid(entries[..k + 1], crc))
    ensures |Laid(entries[..k + 1], crc)| == |Laid(entries[..k], crc)| + |Frame(entries[k], crc)|
    ensures Holds(file, start + |Laid(entries[..k], crc)|, Frame(entries[k], crc))
  {
    hide Laid, Frame;
    assert entries[..k + 1] == entries[..k] + [entries[k]];
    LaidConcat(entries[..k], [entries[k]], crc);
    LaidOne(entries[k], crc);
    SplitHolds(file, start, Laid(entries[..k], crc), Frame(entries[k], crc));
  }

  lemma StumpShrinks(file: seq<byte>, start: nat, entries: seq<Entry>, end: nat, stump: Stump, crc: Checksum,
                     offset: nat)
    requires StumpOk(file, start, entries, end, stump, crc) && start + |Laid(entries, crc)| < offset <= end
    ensures StumpOk(file, start, entries, offset, Stump(Min(offset, stump.at), stump.entry), crc)
  {
    hide Laid, Frame;
    var whole := start + |Laid(entries, crc)|;
    var left := Frame(stump.entry, crc)[..stump.at - whole];
    var n := Min(offset, stump.at) - whole;
    HoldsPrefix(file, whole, left, n);
    assert left[..n] == Frame(stump.entry, crc)[..n];
  }

  lemma CutFits(file: seq<byte>, start: nat, entries: seq<Entry>, end: nat, torn: bool, crc: Checksum, offset: nat,
                stump: Stump)
    requires LogOk(file, start, entries, end, torn, crc) && start <= offset < end
    ensures var k := Within(entries, offset - start, crc);
            var cut := Cut(entries, k, offset, stump);
            && (!torn ==> cut.at == offset)
            && (AllFit(entries) && (torn ==> Fits(stump.entry)) ==> Fits(cut.entry))
  {
    hide Laid, Within;
    WithinSpec(entries, offset - start, crc);
    assert entries[..|entries|] == entries;
  }

  lemma FileAppends(file: seq<byte>, start: nat, entries: seq<Entry>, end: nat, torn: bool, stump: Stump,
                    rewound: bool, crc: Checksum, e: Entry)
    requires FileOk(file, start, entries, end, torn, stump, rewound, crc)
    ensures end <= |file|
    ensures FileOk(Overlay(file, end, Frame(e, crc)), start, Plus(entries, e, torn), end + |Frame(e, crc)|, torn, stump,
                   rewound, crc)
  {
    assert end <= |file|;
    hide StumpOk, ZerosFrom, Overlay, Frame, LogOk;
    LogAppends(file, start, entries, end, torn, crc, e);
    if torn { StumpAppends(file, start, entries, end, stump, crc, Frame(e, crc)); }
  }

  /** A file after a rewind: cut where the rewind goes, and if it was whole, in an entry of its own. */
  lemma FileCut(file: seq<byte>, start: nat, entries: seq<Entry>, end: nat, torn: bool, stump: Stump,
                rewound: bool, crc: Checksum, offset: nat)
    requires FileOk(file, start, entries, end, torn, stump, rewound, crc) && start <= offset < end
    ensures var k := Within(entries, offset - start, crc);
            var cut, end' := Cut(entries, k, offset, stump), start + |Laid(entries[..k], crc)|;
            && FileOk(file, start, entries[..k], offset, end' < offset, cut, true, crc)
            && (!torn ==> cut.at == offset)
            && (AllFit(entries) && (torn ==> Fits(stump.entry)) ==> Fits(cut.entry))
            && offset <= |file|
  {
    CutFits(file, start, entries, end, torn, crc, offset, stump);
    assert end <= |file|;
    hide StumpOk, ZerosFrom, Cut, Within, LogOk;
    LogCut(file, start, entries, end, torn, crc, offset);
    StumpCut(file, start, entries, end, torn, stump, crc, offset);
  }

  lemma LaidGrows(entries: seq<Entry>, j: nat, k: nat, crc: Checksum)
    requires j <= k <= |entries|
    ensures |Laid(entries[..j], crc)| + (if j < k then 1 else 0) <= |Laid(entries[..k], crc)|
  {
    hide Laid, Frame;
    assert entries[..k] == entries[..j] + entries[j..k];
    LaidConcat(entries[..j], entries[j..k], crc);
    if j < k { LaidCons(entries[j..k], crc); }
  }

  lemma SyncRewinds(entries: seq<Entry>, synced: nat, acked: nat, flushed: nat, dirty: bool, torn: bool, start: nat,
                    crc: Checksum, offset: nat)
    requires SyncOk(entries, synced, acked, flushed, dirty, torn, start, crc) && start <= flushed <= offset
    ensures var k := Within(entries, offset - start, crc);
            var end := start + |Laid(entries[..k], crc)|;
            && synced <= k && end <= offset
            && SyncOk(entries[..k], synced, acked, flushed, offset > flushed, end < offset, start, crc)
  {
    hide Laid, Within;
    WithinSpec(entries, offset - start, crc);
    var k := Within(entries, offset - start, crc);
    LaidGrows(entries, synced, k, crc);
    assert entries[..k][..synced] == entries[..synced] && entries[..k][..acked] == entries[..acked];
  }

  class Writer {
    const headerLen: nat
    const size: nat
    const start: nat
    const crc: Checksum

    /** The file as the operating system has it, and the bytes buffered for position `cursor`. */
    var file: seq<byte>
    var cursor: nat
    var pending: seq<byte>

    var writeOffset: nat
    var flushed: nat
    var dirty: bool
    var maxRecord: nat
    var lastPosition: Option<nat>

    /** What has been appended, how much of it is synced, and how much a commit has acknowledged. */
    ghost var entries: seq<Entry>
    ghost var synced: nat
    ghost var acked: nat
    /** Whether anything was ever rewound, which leaves bytes behind past the end, and whether to the middle
        of an entry, after which nothing appended continues the run. */
    ghost var rewound: bool
    ghost var torn: bool
    ghost var stump: Stump

    /** The file as it will be once the buffer is written. */
    ghost function Contents(): (f: seq<byte>)
      requires cursor <= |file|
      reads this
    {
      Overlay(file, cursor, pending)
    }

    ghost predicate BufferOk()
      reads this
    {
      && cursor <= |file| && cursor + |pending| <= size
      && start <= flushed <= cursor && |pending| <= WRITE_BUF_SIZE
    }

    ghost predicate Valid()
      reads this
    {
      && BufferOk() && writeOffset == cursor + |pending|
      && FileOk(Contents(), start, entries, writeOffset, torn, stump, rewound, crc)
      && (!dirty ==> pending == [] && flushed == writeOffset)
      && SyncOk(entries, synced, acked, flushed, dirty, torn, start, crc)
      && Distinguishes(crc)
    }

    /** Every entry fits the length field and carries a header. It stays so as long as no record past 30
        bits is appended, which only a raised record limit allows. */
    ghost predicate Readable()
      reads this
    {
      AllFit(entries) && WithHeaders(entries, headerLen) && (torn ==> Fits(stump.entry))
    }

    /** A fresh segment: zeros from end to end. */
    constructor Create(size: nat, start: nat, headerLen: nat, crc: Checksum)
      requires start < size && Distinguishes(crc)
      ensures Valid() && Readable() && entries == [] && !rewound && !dirty && acked == 0
      ensures file == seq(size, _ => 0) && writeOffset == start && maxRecord == DefaultMaxRecord(size, start)
      ensures maxRecord <= MAX_RECORD_LEN
      ensures this.size == size && this.start == start && this.headerLen == headerLen && this.crc == crc
    {
      this.size, this.start, this.headerLen, this.crc := size, start, headerLen, crc;
      file, cursor, pending := seq(size, _ => 0), start, [];
      writeOffset, flushed, dirty := start, start, false;
      maxRecord, lastPosition := DefaultMaxRecord(size, start), None;
      entries, synced, acked, rewound, torn := [], 0, 0, false, false;
      stump := Stump(0, Data([]));
    }

    /** Opens a file a crash left: recovers, and goes on from the committed end. `durable` is what was
        synced before the crash and its first `k` entries what had been acknowledged. */
    constructor Open(image: seq<byte>, size: nat, start: nat, headerLen: nat, crc: Checksum,
                     ghost durable: seq<Entry>, ghost k: nat)
      requires start < size && Distinguishes(crc) && AllFit(durable) && k <= |durable| && Settled(durable[..k])
      requires Holds(image, start, Laid(durable, crc)) && start + |Laid(durable, crc)| <= size
      ensures Valid() && (Readable() <==> WithHeaders(entries, headerLen))
      ensures maxRecord == DefaultMaxRecord(size, start) <= MAX_RECORD_LEN
      ensures this.size == size && this.start == start && this.headerLen == headerLen && this.crc == crc
      ensures durable[..k] <= entries && acked == |entries| && !dirty && !torn && file == image
      ensures Recovery(writeOffset, lastPosition) == Recovered(image, size, start, Recovery(start, None), crc)
    {
      hide Laid, Recovered, Settlement;
      var r := RecoverFile(image, size, start, crc);
      ghost var kept := RecoveredExtendsAcked(image, size, start, durable, k, crc);
      SettlementEnd(kept, start, crc);
      this.size, this.start, this.headerLen, this.crc := size, start, headerLen, crc;
      file, cursor, pending := image, r.committed, [];
      writeOffset, flushed, dirty := r.committed, r.committed, false;
      maxRecord, lastPosition := DefaultMaxRecord(size, start), r.position;
      entries, synced, acked := kept, |kept|, |kept|;
      rewound, torn, stump := !ZerosFrom(image, r.committed), false, Stump(0, Data([]));
      new;
      OverlayNothing(file, cursor);
      assert entries[..|entries|] == entries;
    }

    /** Clamped to leave room for a marker, and to nothing else: not to the length field. */
    method SetMaxRecord(limit: nat)
      requires Valid()
      modifies `maxRecord
      ensures Valid() && maxRecord == Min(limit, RecordHardLimit(size, start))
    {
      hide Overlay, FileOk, SyncOk, Distinguishes;
      maxRecord := Min(limit, RecordHardLimit(size, start));
    }

    // ---------------------------------------------------------------- crashes

    /** Synced entries are in every image that keeps the synced bytes. */
    lemma Durable(image: seq<byte>, k: nat)
      requires Valid() && k <= synced && flushed <= |image| && image[..flushed] == file[..flushed]
      ensures Holds(image, start, Laid(entries[..k], crc)) && start + |Laid(entries[..k], crc)| <= flushed <= size
    {
      hide Laid, ZerosFrom, Holds, StumpOk;
      LogRewinds(Contents(), start, entries, writeOffset, torn, crc, k);
      LaidGrows(entries, k, synced, crc);
      SyncedBytes(Contents(), file, image, start, flushed, Laid(entries[..k], crc));
    }

    /** After any run of appends, commits, syncs, faults and rewinds, and any crash that leaves the
        synced bytes alone, recovery ends at or past the last successful commit, and reading up to
        there yields every record that commits acknowledged, in order. */
    lemma CrashLosesNothing(image: seq<byte>)
      requires Valid() && Readable() && flushed <= |image| && image[..flushed] == file[..flushed]
      ensures var r := Recovered(image, size, start, Recovery(start, None), crc);
              && start + |Laid(entries[..acked], crc)| <= r.committed
              && RecordsOf(entries[..acked], start, headerLen)
              <= Drain(image[..Min(r.committed, |image|)], start, headerLen, crc)
    {
      hide Laid, Recovered, Drain, RecordsOf, Holds, FileOk, Overlay;
      var durable := entries[..synced];
      Durable(image, synced);
      assert durable[..acked] == entries[..acked];
      assert forall i :: 0 <= i < acked && durable[i].Data? ==> durable[i] == entries[i];
      CrashKeepsAcked(image, size, start, durable, acked, headerLen, crc);
    }

    /** In every such state and for every such image, recovery returns exactly what commits acknowledged if
        and only if no complete batch follows it in the image. */
    lemma RecoveryIsExactIff(image: seq<byte>)
      requires Valid() && Readable() && flushed <= |image| && image[..flushed] == file[..flushed]
      ensures Recovered(image, size, start, Recovery(start, None), crc) == Settlement(entries[..acked], start, crc)
         <==> !BatchFollows(image, size, start + |Laid(entries[..acked], crc)|, crc)
    {
      hide Laid, Recovered, Settlement, Holds, BatchFollows, FileOk, Overlay;
      Durable(image, acked);
      ExactRecoveryIff(image, size, start, entries[..acked], crc);
    }

    /** Right after a commit of a segment where nothing was ever rewound, only zeros follow. */
    lemma CleanRecoveryIsExact()
      requires Valid() && Readable() && !rewound && !dirty && acked == |entries|
      ensures !BatchFollows(file, size, writeOffset, crc)
      ensures Recovered(file, size, start, Recovery(start, None), crc) == Settlement(entries, start, crc)
    {
      hide Laid, Recovered, Settlement, BatchFollows;
      OverlayNothing(file, cursor);
      assert entries[..acked] == entries;
      ZerosAreNoBatch(file, size, writeOffset, crc);
      RecoveryIsExactIff(file);
    }

    /** The last batch cut anywhere short of its end, rewinds or not, leaves exactly the commit before. */
    lemma TornBatchLeavesPrevious(previous: nat, cut: nat)
      requires Valid() && Readable() && !dirty && !torn && previous <= |entries| && Settled(entries[..previous])
      requires forall i :: previous <= i < |entries| - 1 ==> !entries[i].Commits()
      requires start + |Laid(entries[..previous], crc)| <= cut < writeOffset
      ensures Recovered(file[..cut], size, start, Recovery(start, None), crc)
           == Settlement(entries[..previous], start, crc)
    {
      hide Laid, Recovered, Settlement;
      OverlayNothing(file, cursor);
      var before, batch := entries[..previous], entries[previous..];
      assert entries == before + batch;
      LaidConcat(before, batch, crc);
      assert forall i :: 0 <= i < |batch| - 1 ==> batch[i] == entries[previous + i];
      TornBatchRollsBack(file, cut, size, start, before, batch, crc);
    }

    /** Where a reader goes on from after a crash. */
    ghost function Kept(image: seq<byte>): (bytes: seq<byte>) {
      image[..Min(Recovered(image, size, start, Recovery(start, None), crc).committed, |image|)]
    }

    /** What a commit acknowledged last, in a log that is not torn, is read from every image that keeps the
        synced bytes. */
    lemma CommittedIsRead(image: seq<byte>, before: seq<Entry>, header: seq<byte>, data: seq<byte>, marker: Entry)
      requires Valid() && Readable() && flushed <= |image| && image[..flushed] == file[..flushed]
      requires |header| == headerLen
      requires entries == before + [Data(header + data)] + [marker] && acked == |entries|
      ensures Record(header, data, start + |Laid(before, crc)|, HEAD + |header + data|)
           in Drain(Kept(image), start, headerLen, crc)
    {
      hide Laid, Recovered, Drain, FileOk, SyncOk, Overlay, RecordsOf, Distinguishes, AllFit;
      CrashLosesNothing(image);
      assert entries[..acked] == entries;
      LastRecord(before, header, data, marker, start, crc);
    }

    /** A torn log never gets past its tear: from any image that has the log's bytes up to there, whatever
        else it has and however much was committed since, no reader returns the record written there. */
    lemma TornRecordIsNeverRead(image: seq<byte>)
      requires Valid() && Readable() && torn && stump.at <= |image| && image[..stump.at] == Contents()[..stump.at]
      ensures forall r :: r in Drain(image, start, headerLen, crc) ==> r.offset != stump.at
    {
      hide Laid, Drain, Overlay, Frame, SyncOk, ZerosFrom, Holds, AllFit, Distinguishes;
      var whole := start + |Laid(entries, crc)|;
      var left := Frame(stump.entry, crc)[..stump.at - whole];
      SameBelow(Contents(), image, stump.at, start, Laid(entries, crc));
      SameBelow(Contents(), image, stump.at, whole, left);
      StumpIsSteppedOver(image, start, entries, stump.entry, stump.at - whole, headerLen, crc);
    }

    /** A record committed right after `before` is read if it fits. */
    lemma WholeIsRead(image: seq<byte>, before: seq<Entry>, header: seq<byte>, data: seq<byte>, marker: Entry)
      requires Valid() && flushed <= |image| && image[..flushed] == file[..flushed] && |header| == headerLen
      requires |header + data| <= LENGTH_MASK ==> Readable()
      requires entries == before + [Data(header + data)] + [marker] && acked == |entries|
      ensures var record := Record(header, data, start + |Laid(before, crc)|, HEAD + |header + data|);
              && (record in Drain(Kept(image), start, headerLen, crc) <==> |header + data| <= LENGTH_MASK)
              && (record in Drain(image, start, headerLen, crc) <==> |header + data| <= LENGTH_MASK)
    {
      hide Laid, Recovered, Drain, FileOk, SyncOk, Overlay, AllFit, WithHeaders, Distinguishes;
      var cut := Min(Recovered(image, size, start, Recovery(start, None), crc).committed, |image|);
      var record := Record(header, data, start + |Laid(before, crc)|, HEAD + |header + data|);
      OnlyShort(image, cut, start, headerLen, crc, record);
      if |header + data| <= LENGTH_MASK {
        CommittedIsRead(image, before, header, data, marker);
      }
    }

    /** A record committed where the log is torn is not. */
    lemma TornIsLost(image: seq<byte>, record: Record)
      requires Valid() && !dirty && flushed <= |image| && image[..flushed] == file[..flushed]
      requires Readable() && torn && record.offset == stump.at <= flushed
      ensures record !in Drain(Kept(image), start, headerLen, crc)
      ensures record !in Drain(image, start, headerLen, crc)
    {
      hide Laid, Recovered, Drain, FileOk, SyncOk, Overlay, AllFit, WithHeaders, Distinguishes;
      var cut := Min(Recovered(image, size, start, Recovery(start, None), crc).committed, |image|);
      OnlyShort(image, cut, start, headerLen, crc, record);
      SyncedTornIsLost(image);
    }

    lemma SyncedTornIsLost(image: seq<byte>)
      requires Valid() && !dirty && flushed <= |image| && image[..flushed] == file[..flushed]
      requires Readable() && torn && stump.at <= flushed
      ensures forall r :: r in Drain(image, start, headerLen, crc) ==> r.offset != stump.at
    {
      hide Laid, Drain, FileOk, SyncOk, AllFit, WithHeaders, Distinguishes;
      OverlayNothing(file, cursor);
      assert image[..stump.at] == image[..flushed][..stump.at];
      TornRecordIsNeverRead(image);
    }

    // ---------------------------------------------------------------- the buffered writer

    /** Hands the buffer to the operating system. */
    method Flush()
      requires BufferOk()
      modifies `file, `cursor, `pending
      ensures BufferOk() && pending == [] && cursor == old(cursor + |pending|)
      ensures file == old(Contents()) == Contents()
    {
      file := Overlay(file, cursor, pending);
      cursor := cursor + |pending|;
      pending := [];
      OverlayNothing(file, cursor);
    }

    /** `BufWriter::seek`: flushes first. */
    method Seek(offset: nat)
      requires BufferOk() && flushed <= offset <= cursor + |pending|
      modifies `file, `cursor, `pending
      ensures BufferOk() && pending == [] && cursor == offset && file == old(Contents()) == Contents()
    {
      hide Overlay;
      Flush();
      OverlayNothing(file, offset);
      cursor := offset;
    }

    /** `BufWriter::write_all`: into the buffer if it has room, else around it. */
    method WriteAll(b: seq<byte>)
      requires BufferOk() && cursor + |pending| + |b| <= size
      modifies `file, `cursor, `pending
      ensures BufferOk() && cursor + |pending| == old(cursor + |pending|) + |b|
      ensures Contents() == Overlay(old(Contents()), old(cursor + |pending|), b)
      ensures pending == Buffered(old(pending), b)
    {
      hide Overlay;
      if |b| < WRITE_BUF_SIZE - |pending| {
        Store(b);
        return;
      }
      if |b| > WRITE_BUF_SIZE - |pending| {
        Flush();
      }
      if |b| >= WRITE_BUF_SIZE {
        WriteThrough(b);
      } else {
        Store(b);
      }
    }

    method Store(b: seq<byte>)
      requires BufferOk() && cursor + |pending| + |b| <= size && |pending| + |b| <= WRITE_BUF_SIZE
      modifies `pending
      ensures BufferOk() && pending == old(pending) + b
      ensures Contents() == Overlay(old(Contents()), old(cursor + |pending|), b)
    {
      OverlayTwice(file, cursor, pending, b);
      pending := pending + b;
    }

    method WriteThrough(b: seq<byte>)
      requires BufferOk() && cursor + |pending| + |b| <= size && |b| >= WRITE_BUF_SIZE
      requires pending == []
      modifies `file, `cursor
      ensures BufferOk() && cursor == old(cursor) + |b|
      ensures Contents() == Overlay(old(Contents()), old(cursor), b)
    {
      OverlayNothing(file, cursor);
      file := Overlay(file, cursor, b);
      cursor := cursor + |b|;
      OverlayNothing(file, cursor);
    }

    // ---------------------------------------------------------------- the log

    /** The bytes of one entry, in the pieces the writer hands over; the payload is cut at `split`. */
    method WriteEntry(e: Entry, split: nat)
      requires Valid() && split <= |e.payload| && writeOffset + |Frame(e, crc)| <= size
      modifies `file, `cursor, `pending, `writeOffset, `dirty, `entries
      ensures Valid() && entries == Plus(old(entries), e, torn) && dirty
      ensures writeOffset == old(writeOffset) + HEAD + |e.payload|
      ensures Contents() == Overlay(old(Contents()), old(writeOffset), Frame(e, crc))
    {
      hide Overlay, LE, FileOk, SyncOk, Frame, Distinguishes, Plus;
      FileAppends(Contents(), start, entries, writeOffset, torn, stump, rewound, crc, e);
      SyncAppends(entries, synced, acked, flushed, dirty, torn, start, crc, e);
      dirty := true;
      WriteFrame(e, split);
      writeOffset := writeOffset + HEAD + |e.payload|;
      entries := Plus(entries, e, torn);
    }

    method WriteFrame(e: Entry, split: nat)
      requires BufferOk() && split <= |e.payload| && cursor + |pending| + |Frame(e, crc)| <= size
      modifies `file, `cursor, `pending
      ensures BufferOk() && cursor + |pending| == old(cursor + |pending|) + |Frame(e, crc)|
      ensures Contents() == Overlay(old(Contents()), old(cursor + |pending|), Frame(e, crc))
    {
      hide Overlay, LE, Buffered;
      ghost var was, at := Contents(), cursor + |pending|;
      var len := LE(e.Raw(), 4);
      var sum := LE(crc(len + e.payload), 4);
      WriteAll(len);
      WriteAll(sum);
      OverlayTwice(was, at, len, sum);
      WriteAll(e.payload[..split]);
      OverlayTwice(was, at, len + sum, e.payload[..split]);
      WriteAll(e.payload[split..]);
      OverlayTwice(was, at, len + sum + e.payload[..split], e.payload[split..]);
      assert len + sum + e.payload[..split] + e.payload[split..] == Frame(e, crc);
    }

    /** Appends a caller's record. A fault strikes, if at all, before any byte is written. */
    method Append(header: seq<byte>, data: seq<byte>, fault: bool) returns (r: Written<(nat, nat)>)
      requires Valid() && |header| == headerLen
      modifies `file, `cursor, `pending, `writeOffset, `dirty, `entries
      ensures Valid()
      ensures var total := HEAD + |header + data|;
              && (r.Done? <==> total <= maxRecord && old(writeOffset) + total <= size && !fault)
              && (r.Failed? ==>
                    r.error == if total > maxRecord then RecordTooLarge(total, maxRecord)
                               else if old(writeOffset) + total > size
                                 then SegmentFull(old(writeOffset), size - old(writeOffset))
                               else Io)
      ensures r.Done? ==> r.value == (old(writeOffset), HEAD + |header + data|)
      ensures dirty <==> old(dirty) || r.Done? || r.error.Io?
      ensures r.Done? ==> entries == Plus(old(entries), Data(header + data), torn)
      ensures r.Done? ==> writeOffset == old(writeOffset) + HEAD + |header + data|
      ensures r.Done? ==> Contents() == Overlay(old(Contents()), old(writeOffset), Frame(Data(header + data), crc))
      ensures r.Failed? ==> entries == old(entries) && Contents() == old(Contents()) && writeOffset == old(writeOffset)
      ensures Readable() <==> old(Readable()) && (r.Done? && !torn ==> |header + data| <= LENGTH_MASK)
      ensures old(Readable()) && maxRecord <= MAX_RECORD_LEN ==> Readable()
    {
      hide Overlay, FileOk, SyncOk, Frame;
      var offset := writeOffset;
      var total := HEAD + |header| + |data|;
      if total > maxRecord {
        return Failed(RecordTooLarge(total, maxRecord));
      }
      if offset + total > size {
        return Failed(SegmentFull(offset, size - offset));
      }
      SyncDirty(entries, synced, acked, flushed, dirty, torn, start, crc);
      dirty := true;
      if fault {
        return Failed(Io);
      }
      var e := Data(header + data);
      assert e.payload[..headerLen] == header && e.payload[headerLen..] == data;
      ReadsOn(entries, e, headerLen);
      WriteEntry(e, headerLen);
      return Done((offset, total));
    }

    /** Writes a commit marker covering everything appended since the last one, then syncs. */
    method Commit(position: nat, fault: bool) returns (r: Written<nat>)
      requires Valid() && position <= U64_MAX
      modifies `file, `cursor, `pending, `writeOffset, `flushed, `dirty, `lastPosition, `entries, `synced, `acked
      ensures Valid()
      ensures r.Done? <==> old(writeOffset) + HEAD + MARKER_PAYLOAD <= size && !fault
      ensures r.Done? ==> acked == if torn then old(acked) else |entries|
      ensures r.Done? ==> r.value == flushed == writeOffset && !dirty && file == Contents()
      ensures r.Failed? && !r.error.Io? ==> Contents() == old(Contents())
      ensures !(r.Failed? && !r.error.Io?) ==>
                && entries == Plus(old(entries), Marker(position), torn)
                && writeOffset == old(writeOffset) + HEAD + MARKER_PAYLOAD
                && Contents() == Overlay(old(Contents()), old(writeOffset), Frame(Marker(position), crc))
      ensures r.Failed? ==> acked == old(acked) && synced == old(synced) && flushed == old(flushed)
      ensures r.Failed? && !r.error.Io? ==> entries == old(entries)
      ensures r.Failed? && r.error.Io? ==> pending == []
      ensures r.Failed? ==>
                r.error == if old(writeOffset) + HEAD + MARKER_PAYLOAD > size
                           then SegmentFull(old(writeOffset), size - old(writeOffset)) else Io
      ensures old(writeOffset) + HEAD + MARKER_PAYLOAD <= size ==> lastPosition == Some(position)
      ensures Readable() <==> old(Readable())
    {
      hide Overlay, FileOk, Frame, Marker, SyncOk;
      if writeOffset + HEAD + MARKER_PAYLOAD > size {
        return Failed(SegmentFull(writeOffset, size - writeOffset));
      }
      MarkerShape(position);
      ReadsOn(entries, Marker(position), headerLen);
      WriteEntry(Marker(position), 0);
      lastPosition := Some(position);
      r := Sync(fault);
      if r.Done? {
        SyncAcked(entries, synced, acked, flushed, dirty, torn, start, crc);
        acked := if torn then acked else |entries|;
      }
    }

    /** Makes everything appended durable. A fault strikes after the flush and before the sync. */
    method Sync(fault: bool) returns (r: Written<nat>)
      requires Valid()
      modifies `file, `cursor, `pending, `flushed, `dirty, `synced
      ensures Valid()
      ensures r.Done? <==> !(old(dirty) && fault)
      ensures r.Done? ==> flushed == writeOffset && synced == |entries| && !dirty && r.value == writeOffset
      ensures r.Failed? ==> flushed == old(flushed) && synced == old(synced) && dirty && pending == [] && r.error.Io?
      ensures Contents() == old(Contents()) && (pending == [] ==> file == Contents())
    {
      hide Overlay, LogOk, StumpOk, Frame, ZerosFrom, SyncOk;
      SyncAll(Contents(), start, entries, writeOffset, crc, synced, acked, flushed, dirty, torn);
      if |pending| == 0 { OverlayNothing(file, cursor); }
      if dirty {
        Flush();
        if fault {
          return Failed(Io);
        }
        flushed := writeOffset;
        synced := |entries|;
        dirty := false;
      }
      return Done(writeOffset);
    }

    /** Discards what was appended since `offset`, which is not below the flushed offset. The discarded bytes
        stay in the file. The whole entries up to `offset` remain; the log is torn if part of one does too. */
    method RewindTo(offset: nat)
      requires Valid() && flushed <= offset
      modifies `file, `cursor, `pending, `writeOffset, `dirty, `entries, `rewound, `torn, `stump
      ensures Valid() && writeOffset == Min(offset, old(writeOffset)) && (old(Readable()) ==> Readable())
      ensures Contents() == old(Contents())
      ensures offset >= old(writeOffset) ==> entries == old(entries) && torn == old(torn) && file == old(file)
      ensures offset < old(writeOffset) ==>
                && entries == old(entries)[..Within(old(entries), offset - start, crc)] && file == Contents()
                && start + |Laid(entries, crc)| <= offset && (torn <==> start + |Laid(entries, crc)| < offset)
                && (dirty <==> offset > flushed)
                && (torn && !old(torn) ==> stump.at == offset)
    {
      hide Overlay, Frame, FileOk, SyncOk, Laid, Within, Distinguishes, Cut, AllFit, WithHeaders;
      if offset >= writeOffset {
        return;
      }
      ghost var k := Within(entries, offset - start, crc);
      ghost var cut := Cut(entries, k, offset, stump);
      FileCut(Contents(), start, entries, writeOffset, torn, stump, rewound, crc, offset);
      ReadsLess(entries, k, headerLen);
      SyncRewinds(entries, synced, acked, flushed, dirty, torn, start, crc, offset);
      Seek(offset);
      writeOffset := offset;
      dirty := offset > flushed;
      rewound := true;
      entries := entries[..k];
      torn, stump := start + |Laid(entries, crc)| < offset, cut;
    }
  }

  lemma MarkerShape(position: nat)
    ensures Fits(Marker(position)) && Marker(position).Control? && |Marker(position).payload| == MARKER_PAYLOAD
  {
  }

  lemma SyncAll(file: seq<byte>, start: nat, entries: seq<Entry>, end: nat, crc: Checksum,
                synced: nat, acked: nat, flushed: nat, dirty: bool, torn: bool)
    requires LogOk(file, start, entries, end, torn, crc)
    requires SyncOk(entries, synced, acked, flushed, dirty, torn, start, crc)
    ensures SyncOk(entries, |entries|, acked, end, false, torn, start, crc)
    ensures !dirty ==> synced == |entries|
  {
    assert entries[..|entries|] == entries;
  }

  lemma SyncAcked(entries: seq<Entry>, synced: nat, acked: nat, flushed: nat, dirty: bool, torn: bool, start: nat,
                  crc: Checksum)
    requires SyncOk(entries, synced, acked, flushed, dirty, torn, start, crc) && synced == |entries|
    requires torn || Settled(entries)
    ensures SyncOk(entries, synced, if torn then acked else |entries|, flushed, dirty, torn, start, crc)
  {
    assert entries[..|entries|] == entries;
  }

  /** `create`; refused when no record could follow the start offset. */
  method CreateSegment(size: nat, start: nat, headerLen: nat, crc: Checksum) returns (r: Written<Writer>)
    requires Distinguishes(crc)
    ensures r.Failed? <==> size <= start
    ensures r.Failed? ==> r.error == InvalidStartOffset(size, start)
    ensures r.Done? ==> fresh(r.value) && r.value.Valid() && r.value.Readable() && r.value.entries == []
    ensures r.Done? ==> !r.value.rewound && r.value.start == start && r.value.size == size
    ensures r.Done? ==> r.value.headerLen == headerLen && r.value.crc == crc
    ensures r.Done? ==> r.value.maxRecord == DefaultMaxRecord(size, start) && r.value.file == seq(size, _ => 0)
  {
    if size <= start {
      return Failed(InvalidStartOffset(size, start));
    }
    var w := new Writer.Create(size, start, headerLen, crc);
    return Done(w);
  }

  /** `open`; refused likewise. Everything acknowledged before a crash is in place, and the write offset and
      position are those of recovery. */
  method OpenSegment(image: seq<byte>, size: nat, start: nat, headerLen: nat, crc: Checksum,
                     ghost durable: seq<Entry>, ghost k: nat) returns (r: Written<Writer>)
    requires Distinguishes(crc) && AllFit(durable) && k <= |durable| && Settled(durable[..k])
    requires Holds(image, start, Laid(durable, crc)) && (start < size ==> start + |Laid(durable, crc)| <= size)
    ensures r.Failed? <==> size <= start
    ensures r.Failed? ==> r.error == InvalidStartOffset(size, start)
    ensures r.Done? ==> fresh(r.value) && r.value.Valid() && durable[..k] <= r.value.entries && !r.value.dirty
    ensures r.Done? ==> r.value.start == start && r.value.size == size && r.value.acked == |r.value.entries|
    ensures r.Done? ==> r.value.file == image && !r.value.torn
    ensures r.Done? ==> r.value.maxRecord == DefaultMaxRecord(size, start)
    ensures r.Done? ==>
              var found := Recovered(image, size, start, Recovery(start, None), crc);
              r.value.writeOffset == found.committed && r.value.lastPosition == found.position
  {
    hide Laid, Recovered;
    if size <= start {
      return Failed(InvalidStartOffset(size, start));
    }
    var w := new Writer.Open(image, size, start, headerLen, crc, durable, k);
    return Done(w);
  }

  /** How a batch comes to follow the last commit. A commit whose sync fails has already handed its batch to
      the operating system; the rewind leaves those bytes there, marker and all, and if they reach the disk
      after all, recovery takes the unacknowledged batch for committed: its records are read back after the
      acknowledged ones. */
  method FaultedCommitResurfaces(w: Writer, position: nat)
    requires w.Valid() && w.Readable() && !w.rewound && w.acked == w.synced && position <= U64_MAX
    requires w.writeOffset + HEAD + MARKER_PAYLOAD <= w.size
    modifies w
    ensures w.Valid() && w.entries == old(w.entries[..w.synced]) && w.acked == old(w.acked) == |w.entries|
    ensures w.writeOffset == w.flushed == old(w.flushed)
    ensures BatchFollows(w.file, w.size, w.writeOffset, w.crc)
    ensures var r := Recovered(w.file, w.size, w.start, Recovery(w.start, None), w.crc);
            && r == Settlement(old(w.entries) + [Marker(position)], w.start, w.crc)
            && w.writeOffset < r.committed <= |w.file|
            && Drain(w.file[..r.committed], w.start, w.headerLen, w.crc)
            == RecordsOf(w.entries, w.start, w.headerLen)
             + RecordsOf(old(w.entries[w.synced..]), w.flushed, w.headerLen)
  {
    hide Laid, Recovered, Overlay, Marker, Settlement, Drain, RecordsOf, BatchFollows, Within;
    hide LogOk, StumpOk, ZerosFrom, AllFit, WithHeaders, Distinguishes;
    var offset := w.flushed;
    ghost var k, was := w.synced, w.entries;
    var r := w.Commit(position, true);
    OverlayNothing(w.file, w.cursor);
    ghost var all := w.entries;
    UnackedBatch(w.file, w.size, w.start, was, k, Marker(position), w.writeOffset, w.headerLen, w.crc);
    WithinExact(all, k, w.crc);
    w.RewindTo(offset);
    assert w.entries[..w.acked] == w.entries;
    w.RecoveryIsExactIff(w.file);
    SettlementEnd(w.entries, w.start, w.crc);
  }

  /** What a run that ends in an unacknowledged marker, with zeros behind it, recovers and reads as. */
  lemma UnackedBatch(file: seq<byte>, size: nat, start: nat, was: seq<Entry>, k: nat, marker: Entry, end: nat,
                     headerLen: nat, crc: Checksum)
    requires LogOk(file, start, was + [marker], end, false, crc) && ZerosFrom(file, end) && end <= size
    requires AllFit(was + [marker]) && WithHeaders(was + [marker], headerLen) && Distinguishes(crc)
    requires marker.Commits() && k <= |was|
    ensures var all, r := was + [marker], Recovered(file, size, start, Recovery(start, None), crc);
            && r == Settlement(all, start, crc) && r.committed == end <= |file|
            && all[..k] == was[..k] && start + |Laid(was[..k], crc)| < end
            && Drain(file[..end], start, headerLen, crc)
            == RecordsOf(was[..k], start, headerLen)
             + RecordsOf(was[k..], start + |Laid(was[..k], crc)|, headerLen)
  {
    hide Laid, Recovered, Settlement, Drain, RecordsOf;
    var all := was + [marker];
    ZeroTailIsExact(file, size, start, all, crc);
    SettlementEnd(all, start, crc);
    ReadsOn(was, marker, headerLen);
    BatchDrained(file, start, was, k, marker, headerLen, crc);
    assert all[..k] == was[..k] && all[..|all|] == all;
    LaidGrows(all, k, |all|, crc);
  }

  lemma WithinExact(entries: seq<Entry>, k: nat, crc: Checksum)
    requires k <= |entries|
    ensures Within(entries, |Laid(entries[..k], crc)|, crc) == k
  {
    hide Laid, Within;
    var n := |Laid(entries[..k], crc)|;
    WithinSpec(entries, n, crc);
    LaidGrows(entries, k, Within(entries, n, crc), crc);
  }

  /** A batch rewound before its commit leaves no marker, and recovery stays exact. */
  method RewoundBatchIsExact(w: Writer)
    requires w.Valid() && w.Readable() && !w.rewound && w.acked == w.synced
    requires forall i :: w.synced <= i < |w.entries| ==> !w.entries[i].Commits()
    modifies w
    ensures w.Valid() && w.entries == old(w.entries[..w.synced]) && w.acked == old(w.acked) == |w.entries|
    ensures w.writeOffset == w.flushed == old(w.flushed) && w.file == old(w.Contents())
    ensures Recovered(w.file, w.size, w.start, Recovery(w.start, None), w.crc)
         == Settlement(w.entries, w.start, w.crc)
  {
    hide Laid, Recovered, Overlay, Settlement, BatchFollows, Within;
    ghost var k, was, contents := w.synced, w.entries, w.Contents();
    UnmarkedRun(contents, w.size, w.start, was, k, w.writeOffset, w.crc);
    WithinExact(was, k, w.crc);
    assert was[..|was|] == was;
    LaidGrows(was, k, |was|, w.crc);
    if w.pending == [] { OverlayNothing(w.file, w.cursor); }
    w.RewindTo(w.flushed);
    w.RecoveryIsExactIff(w.file);
    assert w.entries[..w.acked] == w.entries;
  }

  lemma UnmarkedRun(file: seq<byte>, size: nat, start: nat, entries: seq<Entry>, k: nat, end: nat, crc: Checksum)
    requires LogOk(file, start, entries, end, false, crc) && ZerosFrom(file, end) && end <= size && k <= |entries|
    requires AllFit(entries) && Distinguishes(crc) && forall i :: k <= i < |entries| ==> !entries[i].Commits()
    ensures !BatchFollows(file, size, start + |Laid(entries[..k], crc)|, crc)
  {
    hide Laid, BatchFollows;
    var left := entries[k..];
    assert entries == entries[..k] + left;
    LaidConcat(entries[..k], left, crc);
    SplitHolds(file, start, Laid(entries[..k], crc), Laid(left, crc));
    assert ScanAt(file, size, end, crc) == Stop;
    UnmarkedIsNoBatch(file, size, start + |Laid(entries[..k], crc)|, left, crc);
  }

  /** A record read from a cut file is read from the whole one, and fits 30 bits. */
  lemma OnlyShort(image: seq<byte>, cut: nat, start: nat, headerLen: nat, crc: Checksum, record: Record)
    requires cut <= |image|
    ensures record in Drain(image[..cut], start, headerLen, crc) ==> record in Drain(image, start, headerLen, crc)
    ensures record in Drain(image, start, headerLen, crc) ==> record.len <= HEAD + LENGTH_MASK
  {
    hide Drain;
    DrainCut(image, cut, start, headerLen, crc);
    DrainFrom(image, start, headerLen, crc);
  }

  lemma LastRecord(before: seq<Entry>, header: seq<byte>, data: seq<byte>, marker: Entry, start: nat, crc: Checksum)
    ensures Record(header, data, start + |Laid(before, crc)|, HEAD + |header + data|)
         in RecordsOf(before + [Data(header + data)] + [marker], start, |header|)
  {
    hide Laid;
    var e := Data(header + data);
    assert e.payload[..|header|] == header && e.payload[|header|..] == data;
    assert before + [e] + [marker] == before + ([e] + [marker]);
    RecordsConcat(before, [e] + [marker], start, |header|, crc);
  }

  /** `offset` is the end of an entry, or the start of the log. */
  ghost predicate EntryEnds(entries: seq<Entry>, start: nat, offset: nat, crc: Checksum) {
    exists k :: 0 <= k <= |entries| && offset == start + |Laid(entries[..k], crc)|
  }

  lemma WholeWithin(entries: seq<Entry>, start: nat, offset: nat, crc: Checksum)
    requires start <= offset
    ensures var whole := entries[..Within(entries, offset - start, crc)];
            EntryEnds(entries, start, offset, crc) <==> offset == start + |Laid(whole, crc)|
  {
    hide Laid, Within;
    if k :| 0 <= k <= |entries| && offset == start + |Laid(entries[..k], crc)| {
      WithinExact(entries, k, crc);
    }
  }

  /** When a rewind is safe. A record appended where the rewind went and then committed, successfully, is read
      back after recovery, whatever a crash leaves past the synced bytes, if and only if the rewind went to the
      end of an entry and the record fits 30 bits. */
  method RewoundRecordIsReadIff(w: Writer, offset: nat, header: seq<byte>, data: seq<byte>, position: nat,
                                ghost residue: seq<byte>)
    returns (r: Written<nat>)
    requires w.Valid() && w.Readable() && !w.torn && w.flushed <= offset < w.writeOffset && position <= U64_MAX
    requires |header| == w.headerLen && HEAD + |header + data| <= w.maxRecord
    requires offset + HEAD + |header + data| + HEAD + MARKER_PAYLOAD <= w.size
    modifies w
    ensures w.Valid() && r == Done(w.flushed) && w.lastPosition == Some(position)
    ensures w.flushed == offset + HEAD + |header + data| + HEAD + MARKER_PAYLOAD <= |w.file|
    ensures var image := w.file[..w.flushed] + residue;
            var record := Record(header, data, offset, HEAD + |header + data|);
            var safe := EntryEnds(old(w.entries), w.start, offset, w.crc) && |header + data| <= LENGTH_MASK;
            && (record in Drain(w.Kept(image), w.start, w.headerLen, w.crc) <==> safe)
            && (record in Drain(image, w.start, w.headerLen, w.crc) <==> safe)
  {
    hide Laid, Recovered, Drain, Overlay, Within, FileOk, SyncOk, AllFit, WithHeaders, Distinguishes, Frame, Marker;
    ghost var was := w.entries;
    WholeWithin(was, w.start, offset, w.crc);
    w.RewindTo(offset);
    ghost var before := w.entries;
    var a := w.Append(header, data, false);
    r := w.Commit(position, false);
    ghost var image := w.file[..w.flushed] + residue;
    if w.torn {
      w.TornIsLost(image, Record(header, data, offset, HEAD + |header + data|));
    } else {
      w.WholeIsRead(image, before, header, data, Marker(position));
    }
  }

  /** The worst of it: after a rewind to the middle of a record, a record and a successful commit, recovery may
      find nothing at all. Here one byte of the first length field stays and the next record's length follows
      it. */
  method MidRecordRewindLoses(crc: Checksum, first: seq<byte>, second: seq<byte>, position: nat)
    returns (w: Writer, r: Written<nat>)
    requires Distinguishes(crc) && |first| == |second| == 4 && position <= U64_MAX
    ensures fresh(w) && w.Valid() && w.torn && r == Done(w.writeOffset) && w.writeOffset > 0 == w.start
    ensures w.flushed == w.writeOffset && w.lastPosition == Some(position)
    ensures Recovered(w.file, w.size, 0, Recovery(0, None), crc) == Recovery(0, None)
  {
    hide Overlay, Laid, Recovered, Frame, Within, FileOk, SyncOk, Marker, Distinguishes;
    w := TornSegment(crc, first);
    assert [] + second == second;
    var b := w.Append([], second, false);
    r := w.Commit(position, false);
    LengthsRunTogether(seq(64, _ => 0), Data(first), Data(second), Frame(Marker(position), crc), crc);
  }

  method TornSegment(crc: Checksum, first: seq<byte>) returns (w: Writer)
    requires Distinguishes(crc) && |first| == 4
    ensures fresh(w) && w.Valid() && w.torn && w.writeOffset == 1 && w.maxRecord == 16 && w.crc == crc
    ensures w.size == 64 && w.start == w.headerLen == 0
    ensures w.Contents() == Overlay(seq(64, _ => 0), 0, Frame(Data(first), crc))
  {
    hide Overlay, Laid, Recovered, Frame, Within, FileOk, SyncOk, Distinguishes;
    w := new Writer.Create(64, 0, 0, crc);
    assert DefaultMaxRecord(64, 0) == 16;
    OverlayNothing(w.file, 0);
    assert [] + first == first;
    var a := w.Append([], first, false);
    FirstByteIsWithin(Data(first), crc);
    w.RewindTo(1);
  }

  lemma FirstByteIsWithin(e: Entry, crc: Checksum)
    ensures Within(Plus([], e, false), 1, crc) == 0 && |Laid(Plus([], e, false)[..0], crc)| == 0
  {
    hide Frame, Laid, Within;
    LaidOne(e, crc);
    LaidNone(crc);
    WithinSpec([e], 1, crc);
    assert [] + [e] == [e] == [e][..1] && [e][..0] == [];
  }

  lemma LengthsRunTogether(blank: seq<byte>, a: Entry, b: Entry, rest: seq<byte>, crc: Checksum)
    requires |blank| == 64 && a.Data? && b.Data? && |a.payload| == |b.payload| == 4 && |rest| <= 51
    ensures var f := Overlay(Overlay(Overlay(blank, 0, Frame(a, crc)), 1, Frame(b, crc)), 13, rest);
            Recovered(f, 64, 0, Recovery(0, None), crc) == Recovery(0, None)
  {
    hide Frame, FromLE, Checks, Overlay;
    LengthOfFour(a, crc);
    LengthOfFour(b, crc);
    FirstFour(blank, Frame(a, crc), Frame(b, crc), rest);
    ReadsTooLong();
  }

  lemma FirstFour(blank: seq<byte>, x: seq<byte>, y: seq<byte>, rest: seq<byte>)
    requires |blank| == 64 && |x| == |y| == 12 && x[..4] == y[..4] == [4, 0, 0, 0]
    ensures Overlay(Overlay(Overlay(blank, 0, x), 1, y), 13, rest)[0..0 + HEAD][..LEN_SIZE] == [4, 4, 0, 0]
  {
    var f := Overlay(Overlay(Overlay(blank, 0, x), 1, y), 13, rest);
    assert x[..4][0] == x[0] && y[..4][0] == y[0] && y[..4][1] == y[1] && y[..4][2] == y[2];
    assert f[0] == x[0] && f[1] == y[0] && f[2] == y[1] && f[3] == y[2];
  }

  lemma LengthOfFour(e: Entry, crc: Checksum)
    requires e.Data? && |e.payload| == 4
    ensures Frame(e, crc)[..4] == [4, 0, 0, 0]
  {
    assert LE(0, 2) == [0] + LE(0, 1) == [0, 0];
    assert LE(0, 3) == [0] + LE(0, 2) == [0, 0, 0];
    assert LE(4, 4) == [4] + LE(0, 3) == [4, 0, 0, 0];
    hide LE;
    assert Frame(e, crc)[..4] == LE(4, 4);
  }

  lemma ReadsTooLong()
    ensures FromLE([4, 4, 0, 0]) == 1028
  {
    assert FromLE([0]) == 0 && [0, 0][1..] == [0] && [4, 0, 0][1..] == [0, 0] && [4, 4, 0, 0][1..] == [4, 0, 0];
  }

  /** Reading exactly a run of entries and a marker: the records before `k`, then those from `k` on. */
  lemma BatchDrained(file: seq<byte>, start: nat, entries: seq<Entry>, k: nat, marker: Entry, headerLen: nat,
                     crc: Checksum)
    requires Distinguishes(crc) && AllFit(entries + [marker]) && WithHeaders(entries, headerLen) && marker.Control?
    requires k <= |entries| && Holds(file, start, Laid(entries + [marker], crc))
    ensures var end := start + |Laid(entries + [marker], crc)|;
            && end <= |file|
            && Drain(file[..end], start, headerLen, crc)
            == RecordsOf(entries[..k], start, headerLen)
             + RecordsOf(entries[k..], start + |Laid(entries[..k], crc)|, headerLen)
  {
    hide Laid, Frame, Parse, ControlLen, RecordsOf;
    var all := entries + [marker];
    var end := start + |Laid(all, crc)|;
    assert file[..end][start..end] == file[start..end];
    RunDrained(file[..end], start, all, headerLen, crc);
    NothingLeft(file[..end], headerLen, crc);
    RecordsConcat(entries, [marker], start, headerLen, crc);
    NoRecord(marker, start + |Laid(entries, crc)|, headerLen);
    RecordsConcat(entries[..k], entries[k..], start, headerLen, crc);
    assert entries == entries[..k] + entries[k..];
  }

  lemma NothingLeft(bytes: seq<byte>, headerLen: nat, crc: Checksum)
    ensures Drain(bytes, |bytes|, headerLen, crc) == []
  {
  }

  lemma NoRecord(e: Entry, offset: nat, headerLen: nat)
    requires e.Control?
    ensures RecordsOf([e], offset, headerLen) == []
  {
    assert [e][1..] == [];
  }
}
