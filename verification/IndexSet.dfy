/** The index over a whole log: one sealed index segment per sealed log segment, the tail over the
    active one, and queries across all of them. */
module IndexSet {
  import opened Bytes
  import opened Names
  import opened Events
  import opened Search
  import opened Tail
  import opened ActiveTail
  import opened Recovery
  import Segment

  // ------------------------------------------------------------------ what a query must answer

  /** A log as its segments, in order; the last one is active. */
  type Log = seq<seq<Event>>

  /** The whole event sequence. */
  function Whole(log: Log): (events: seq<Event>) {
    if log == [] then [] else Whole(log[..|log| - 1]) + log[|log| - 1]
  }

  /** The position of segment `i`'s first event, positions being dense from `origin`. */
  function Start(log: Log, origin: nat, i: nat): (p: nat)
    requires i <= |log|
  {
    origin + |Whole(log[..i])|
  }

  /** Segment `i` holds something past `after`. */
  predicate Touches(log: Log, origin: nat, after: nat, i: nat)
    requires i < |log|
  {
    log[i] != [] && Start(log, origin, i) + |log[i]| - 1 > after
  }

  datatype Answer<+T> = Found(value: T) | Unindexable(first: nat, last: nat)

  /** The first segment from `i` on that the query touches and no index can answer. */
  ghost function FirstBad(log: Log, origin: nat, after: nat, i: nat): (bad: Option<nat>)
    requires i <= |log|
    decreases |log| - i
  {
    if i == |log| then None
    else if Touches(log, origin, after, i) && Overflows(log[i]) then Some(i)
    else FirstBad(log, origin, after, i + 1)
  }

  /** The specification of a query over the set: an error naming the first unanswerable segment, or
      the linear scan of the whole event sequence. */
  ghost function Expected(log: Log, origin: nat, q: Query, after: nat): (r: Answer<seq<nat>>) {
    match FirstBad(log, origin, after, 0)
    case Some(i) => if i < |log| then RangeOf(log, origin, i) else Found([])
    case None => Found(Scan(Whole(log), origin, q, after))
  }

  function RangeOf(log: Log, origin: nat, i: nat): (r: Answer<seq<nat>>)
    requires i < |log|
  {
    var first := Start(log, origin, i);
    Unindexable(first, if log[i] == [] then first else first + |log[i]| - 1)
  }

  lemma {:induction false} FirstBadSpec(log: Log, origin: nat, after: nat, i: nat)
    requires i <= |log|
    ensures match FirstBad(log, origin, after, i)
            case None => forall j :: i <= j < |log| ==> !(Touches(log, origin, after, j) && Overflows(log[j]))
            case Some(b) =>
              && i <= b < |log| && Touches(log, origin, after, b) && Overflows(log[b])
              && forall j :: i <= j < b ==> !(Touches(log, origin, after, j) && Overflows(log[j]))
    decreases |log| - i
  {
    if i < |log| { FirstBadSpec(log, origin, after, i + 1); }
  }

  /** Position `p` is past `after`, in segment `i`, and no index can answer for it. */
  ghost predicate Unanswerable(log: Log, origin: nat, after: nat, i: nat, p: nat) {
    && i < |log| && Overflows(log[i])
    && Start(log, origin, i) <= p < Start(log, origin, i) + |log[i]| && p > after
  }

  /** A query errs exactly when some position past `after` lies in a segment with too many types; the error
      names all of the first such segment. Segments that end at or before `after` never matter. */
  lemma ErrsExactlyWhenUnindexable(log: Log, origin: nat, q: Query, after: nat)
    ensures Expected(log, origin, q, after).Unindexable? <==> exists i, p :: Unanswerable(log, origin, after, i, p)
    ensures match Expected(log, origin, q, after)
            case Found(found) => found == Scan(Whole(log), origin, q, after)
            case Unindexable(first, last) =>
              exists i :: 0 <= i < |log| && first == Start(log, origin, i) && last == first + |log[i]| - 1
                       && Unanswerable(log, origin, after, i, last)
                       && forall j: nat, p: nat :: j < i ==> !Unanswerable(log, origin, after, j, p)
  {
    hide Overflows, Start;
    FirstBadSpec(log, origin, after, 0);
    forall j: nat, p: nat | Unanswerable(log, origin, after, j, p) ensures Touches(log, origin, after, j) {}
    var bad := FirstBad(log, origin, after, 0);
    if bad.Some? {
      var i := bad.value;
      var last := Start(log, origin, i) + |log[i]| - 1;
      assert RangeOf(log, origin, i) == Unindexable(Start(log, origin, i), last);
      assert Unanswerable(log, origin, after, i, last);
    }
  }

  // ------------------------------------------------------------------ scanning by segment

  /** The segments among the first `n` that a query touches. */
  function TouchedUpTo(log: Log, origin: nat, after: nat, n: nat): (ids: seq<nat>)
    requires n <= |log|
    ensures forall k :: 0 <= k < |ids| ==> ids[k] < n
  {
    if n == 0 then []
    else if Touches(log, origin, after, n - 1) then TouchedUpTo(log, origin, after, n - 1) + [n - 1]
    else TouchedUpTo(log, origin, after, n - 1)
  }

  /** The scans of the listed segments, one after another. */
  function Scans(log: Log, origin: nat, q: Query, after: nat, ids: seq<nat>): (found: seq<nat>)
    requires forall k :: 0 <= k < |ids| ==> ids[k] < |log|
  {
    if ids == [] then []
    else
      var i := ids[|ids| - 1];
      Scans(log, origin, q, after, ids[..|ids| - 1]) + Scan(log[i], Start(log, origin, i), q, after)
  }

  /** Concatenating the touched segments' answers is scanning the whole log: untouched segments have
      nothing to say, and the segments are disjoint and ordered. */
  lemma {:induction false} ScanBySegment(log: Log, origin: nat, q: Query, after: nat, n: nat)
    requires n <= |log|
    ensures Scan(Whole(log[..n]), origin, q, after)
         == Scans(log, origin, q, after, TouchedUpTo(log, origin, after, n))
  {
    hide Scan, Whole, Start, Scans, Touches;
    if n == 0 {
      NothingScanned(log, origin, q, after);
      assert log[..0] == [];
    } else {
      ScanBySegment(log, origin, q, after, n - 1);
      ScanLastSegment(log, origin, q, after, n - 1);
      if Touches(log, origin, after, n - 1) {
        ScansSnoc(log, origin, q, after, TouchedUpTo(log, origin, after, n - 1), n - 1);
      }
    }
  }

  lemma NothingScanned(log: Log, origin: nat, q: Query, after: nat)
    ensures Scan(Whole([]), origin, q, after) == [] && Scans(log, origin, q, after, []) == []
  {
  }

  lemma ScansSnoc(log: Log, origin: nat, q: Query, after: nat, ids: seq<nat>, i: nat)
    requires i < |log| && forall k :: 0 <= k < |ids| ==> ids[k] < |log|
    ensures Scans(log, origin, q, after, ids + [i])
         == Scans(log, origin, q, after, ids) + Scan(log[i], Start(log, origin, i), q, after)
  {
    hide Scan, Start;
    assert (ids + [i])[..|ids|] == ids;
  }

  lemma ScanLastSegment(log: Log, origin: nat, q: Query, after: nat, i: nat)
    requires i < |log|
    ensures var before := Scan(Whole(log[..i]), origin, q, after);
            Scan(Whole(log[..i + 1]), origin, q, after)
            == if Touches(log, origin, after, i) then before + Scan(log[i], Start(log, origin, i), q, after) else before
  {
    hide Whole, Matches;
    WholeSnoc(log[..i], log[i]);
    assert log[..i + 1] == log[..i] + [log[i]];
    ScanConcat(Whole(log[..i]), log[i], origin, q, after);
    if !Touches(log, origin, after, i) && log[i] != [] {
      ScanPruned(log[i], Start(log, origin, i), q, after);
    }
  }

  lemma WholeSnoc(log: Log, segment: seq<Event>)
    ensures Whole(log + [segment]) == Whole(log) + segment
  {
    assert (log + [segment])[..|log|] == log;
  }

  // ------------------------------------------------------------------ index files

  /** Events as the log holds them, in a segment no larger than the log allows. */
  ghost predicate Storable(events: seq<Event>, lib: Segment.Library) {
    && |events| <= MAX_EVENTS
    && (forall i :: 0 <= i < |events| ==> Ascending(events[i].tags))
    && Segment.WellNamed(events, lib.utf8)
  }

  /** An event as validation lets it through. */
  ghost predicate Acceptable(e: Event, lib: Segment.Library) {
    Ascending(e.tags) && |e.ty| <= U16_MAX && lib.utf8(e.ty)
  }

  ghost predicate AllStorable(log: Log, lib: Segment.Library) {
    forall i :: 0 <= i < |log| ==> Storable(log[i], lib)
  }

  /** The index over a segment fits the `u32` offsets of its file, as the bound on segment size is
      there to guarantee. */
  ghost predicate Compact(events: seq<Event>, lib: Segment.Library) {
    forall s: Writer, f: Segment.Frozen ::
      Quiet(s) && s.log == events && Segment.FrozenFrom(f, s.tail) ==> FitsFile(f, lib)
  }

  ghost predicate FitsFile(f: Segment.Frozen, lib: Segment.Library) {
    Segment.Encodes(f, lib) && forall created :: |Segment.Image(f, created, lib)| <= U32_MAX
  }

  /** `data` is what sealing an index over `events` wrote. */
  ghost predicate Genuine(data: seq<byte>, events: seq<Event>, base: nat, lib: Segment.Library) {
    exists s, f, created :: Written(data, events, base, lib, s, f, created)
  }

  ghost predicate Written(data: seq<byte>, events: seq<Event>, base: nat, lib: Segment.Library,
                          s: Writer, f: Segment.Frozen, created: nat)
  {
    && Quiet(s) && s.log == events && s.tail.base == base <= U64_MAX && created <= U64_MAX
    && Segment.FrozenFrom(f, s.tail) && Segment.Encodes(f, lib)
    && data == Segment.Image(f, created, lib)
  }

  function Accepted(file: Option<seq<byte>>, base: nat, count: nat, lib: Segment.Library)
    : (seg: Option<Segment.IndexSegment>)
  {
    if file.None? then None
    else
      var parsed := Segment.Opened(file.value, lib);
      if parsed.Ok? && parsed.value.header.base == base && parsed.value.header.count == count
      then Some(parsed.value) else None
  }

  /** What disk may hold for a segment: nothing, something that does not validate, or a file this
      code wrote for that segment. */
  ghost predicate Trusted(file: Option<seq<byte>>, events: seq<Event>, base: nat, lib: Segment.Library) {
    Accepted(file, base, |events|, lib).Some? ==> Genuine(file.value, events, base, lib)
  }

  /** What became of writing a file: it could not be created, or its first `n` bytes were written, all of
      them if there are no more, or a crash left something else in its place. */
  datatype WriteOutcome = Untouched | Upto(n: nat) | Torn(residue: seq<byte>)

  /** What else a crash leaves does not open. */
  ghost predicate Possible(w: WriteOutcome, lib: Segment.Library) {
    w.Torn? ==> Segment.Opened(w.residue, lib).Err?
  }

  /** The files after an attempt to write `data`, if there was anything to write. */
  function After(files: map<nat, seq<byte>>, base: nat, data: Option<seq<byte>>, w: WriteOutcome)
    : (files': map<nat, seq<byte>>)
  {
    if data.None? || w.Untouched? then files
    else files[base := if w.Torn? then w.residue else data.value[..Min(w.n, |data.value|)]]
  }

  function FileAt(files: map<nat, seq<byte>>, base: nat): (file: Option<seq<byte>>) {
    if base in files then Some(files[base]) else None
  }

  /** Why an open fails: a file that cannot be read, other than a missing one, or a record it needs. */
  datatype OpenError = FileUnreadable | RebuildFailed(cause: RebuildError)

  datatype Opening<+T> = Opens(value: T) | Refused(error: OpenError)

  /** What stops the open of a segment at `error`. */
  ghost predicate Blocks(records: seq<LogRecord>, fault: bool, error: OpenError, lib: Segment.Library) {
    if fault then error == FileUnreadable
    else error.RebuildFailed? && FirstDefect(records, error.cause, lib.utf8)
  }

  // ------------------------------------------------------------------ sealed segments

  datatype SealedIndex = SealedIndex(base: nat, count: nat, seg: Option<Segment.IndexSegment>)

  /** An entry says exactly what its segment holds. */
  ghost predicate Covers(entry: SealedIndex, events: seq<Event>, base: nat) {
    && entry.base == base && entry.count == |events|
    && (entry.seg.None? <==> Overflows(events))
    && (entry.seg.Some? ==>
          && Answers(Segment.SegmentView(entry.seg.value), events)
          && entry.seg.value.header.base == base
          && Segment.Sound(entry.seg.value))
  }

  lemma QuietFits(s: Writer)
    requires Quiet(s)
    ensures !Overflows(s.log)
  {
    QuietTypes(s);
  }

  /** A file the sealer wrote opens exactly when it is addressable, and then answers for its segment. */
  lemma GenuineOpens(data: seq<byte>, events: seq<Event>, base: nat, lib: Segment.Library)
    requires Segment.FstExact(lib) && Storable(events, lib) && Genuine(data, events, base, lib)
    ensures var parsed := Segment.Opened(data, lib);
            && (parsed.Ok? <==> |data| <= U32_MAX)
            && (parsed.Ok? ==>
                  && parsed.value.header.base == base && parsed.value.header.count == |events|
                  && Covers(SealedIndex(base, |events|, Some(parsed.value)), events, base))
  {
    var s, f, created :| Written(data, events, base, lib, s, f, created);
    QuietFits(s);
    Segment.SealPreservesMeaning(s, f, created, lib);
  }

  /** A genuine file is taken for no other segment than one of its own base and count. */
  lemma MisplacedRejected(data: seq<byte>, events: seq<Event>, base: nat, lib: Segment.Library, other: nat, count: nat)
    requires Segment.FstExact(lib) && Storable(events, lib) && Genuine(data, events, base, lib)
    ensures Accepted(Some(data), other, count, lib).Some? <==>
              |data| <= U32_MAX && other == base && count == |events|
  {
    hide Segment.Opened, Segment.FstExact, Genuine, Storable, Covers;
    GenuineOpens(data, events, base, lib);
  }

  /** `load_valid`: opens a file, if there is one, that validates and agrees with the log segment. A file
      it accepts answers for exactly that segment, and a genuine file that fits is never refused. `fault` is
      a read that fails, though the file is not missing. */
  method LoadValid(file: Option<seq<byte>>, fault: bool, base: nat, count: nat, lib: Segment.Library,
                   ghost events: seq<Event>)
    returns (r: Opening<Option<Segment.IndexSegment>>)
    requires count == |events|
    ensures r == if fault then Refused(FileUnreadable) else Opens(Accepted(file, base, count, lib))
    ensures Segment.FstExact(lib) && Storable(events, lib) && Trusted(file, events, base, lib) ==>
              (r.Opens? && r.value.Some? ==> Covers(SealedIndex(base, count, r.value), events, base))
    ensures Segment.FstExact(lib) && Storable(events, lib) && file.Some? ==>
              (Genuine(file.value, events, base, lib) && |file.value| <= U32_MAX && !fault ==> r.value.Some?)
  {
    hide Genuine, Covers, Storable, Segment.FstExact, Segment.Opened;
    if fault { return Refused(FileUnreadable); }
    if file.None? { return Opens(None); }
    var parsed := Segment.FromBytes(file.value, lib);
    if Segment.FstExact(lib) && Storable(events, lib) && Genuine(file.value, events, base, lib) {
      GenuineOpens(file.value, events, base, lib);
    }
    if parsed.Ok? && parsed.value.header.base == base && parsed.value.header.count == count {
      return Opens(Some(parsed.value));
    }
    return Opens(None);
  }

  /** Encodes a tail and opens the result, as both the live seal and the rebuild do. */
  method Seal(tail: ActiveTail, created: nat, lib: Segment.Library)
    returns (data: seq<byte>, seg: Segment.IndexSegment)
    requires tail.Valid() && Segment.FstExact(lib) && created <= U64_MAX && tail.state.tail.base <= U64_MAX
    requires Storable(tail.state.log, lib) && Compact(tail.state.log, lib)
    ensures Segment.Opened(data, lib) == Ok(seg) && |data| <= U32_MAX
    ensures Genuine(data, tail.state.log, tail.state.tail.base, lib)
    ensures Covers(SealedIndex(tail.state.tail.base, |tail.state.log|, Some(seg)), tail.state.log, tail.state.tail.base)
  {
    ghost var s := tail.state;
    var f := Segment.Freeze(tail.state.tail);
    Segment.FrozenSealable(s, f, lib);
    assert FitsFile(f, lib);
    var encoded := Segment.EncodeAt(f, created, lib);
    data := encoded.value;
    Segment.SealPreservesMeaning(s, f, created, lib);
    assert Written(data, s.log, s.tail.base, lib, s, f, created);
    var parsed := Segment.FromBytes(data, lib);
    seg := parsed.value;
    GenuineOpens(data, s.log, s.tail.base, lib);
  }

  // ------------------------------------------------------------------ the set

  /** Sealed entry `i` covers sealed segment `i`. */
  ghost predicate EntryOk(sealed: seq<SealedIndex>, log: Log, origin: nat, i: nat)
    requires i < |sealed| && i < |log|
  {
    Covers(sealed[i], log[i], Start(log, origin, i))
  }

  ghost predicate SealedOk(sealed: seq<SealedIndex>, log: Log, origin: nat) {
    |sealed| <= |log| && forall i :: 0 <= i < |sealed| ==> EntryOk(sealed, log, origin, i)
  }

  /** One view per touched segment, each telling the truth about it. */
  ghost predicate PlanOk(plan: seq<SegmentIndex>, log: Log, origin: nat, ids: seq<nat>) {
    && |plan| == |ids|
    && forall k :: 0 <= k < |ids| ==>
         ids[k] < |log| && Answers(plan[k], log[ids[k]]) && plan[k].base == Start(log, origin, ids[k])
  }

  /** The file under segment `i`'s name does not mislead a later open. */
  ghost predicate FileOk(files: map<nat, seq<byte>>, log: Log, origin: nat, i: nat, lib: Segment.Library)
    requires i < |log|
  {
    Trusted(FileAt(files, Start(log, origin, i)), log[i], Start(log, origin, i), lib)
  }

  ghost predicate FilesOk(files: map<nat, seq<byte>>, log: Log, origin: nat, n: nat, lib: Segment.Library)
    requires n <= |log|
  {
    forall i :: 0 <= i < n ==> FileOk(files, log, origin, i, lib)
  }

  lemma StartsApart(log: Log, origin: nat, i: nat, j: nat)
    requires i < j <= |log|
    ensures Start(log, origin, i) + |log[i]| <= Start(log, origin, j)
    decreases j
  {
    WholeSnoc(log[..j - 1], log[j - 1]);
    assert log[..j] == log[..j - 1] + [log[j - 1]];
    if i < j - 1 { StartsApart(log, origin, i, j - 1); }
  }

  lemma SameStartSameEvents(log: Log, origin: nat, i: nat, j: nat)
    requires i < |log| && j < |log| && Start(log, origin, i) == Start(log, origin, j) && |log[i]| == |log[j]|
    ensures log[i] == log[j]
  {
    if i < j { StartsApart(log, origin, i, j); }
    if j < i { StartsApart(log, origin, j, i); }
  }

  /** However the attempt to write one segment's file ends, every segment's file stays trustworthy: two
      segments share a name only when one is empty, and then the event count tells them apart. */
  lemma WriteKeepsFiles(files: map<nat, seq<byte>>, log: Log, origin: nat, n: nat, lib: Segment.Library,
                        i: nat, data: Option<seq<byte>>, w: WriteOutcome)
    requires n <= |log| && i < |log| && Segment.FstExact(lib) && Storable(log[i], lib) && Possible(w, lib)
    requires data.Some? ==> Genuine(data.value, log[i], Start(log, origin, i), lib)
    requires forall j :: 0 <= j < n && (j != i || data.None? || w.Untouched?) ==> FileOk(files, log, origin, j, lib)
    ensures FilesOk(After(files, Start(log, origin, i), data, w), log, origin, n, lib)
  {
    hide Segment.Opened, Genuine, Start, Segment.FstExact, Storable;
    var b := Start(log, origin, i);
    var disk := After(files, b, data, w);
    forall j | 0 <= j < n ensures FileOk(disk, log, origin, j, lib) {
      if data.None? || w.Untouched? || Start(log, origin, j) != b {
        assert FileOk(files, log, origin, j, lib);
      } else if w.Upto? {
        LandedFile(data.value, Min(w.n, |data.value|), log, origin, i, j, lib);
      } else {
        assert FileAt(disk, b) == Some(w.residue);
      }
    }
  }

  /** A genuine file under a name is trustworthy for every segment of that name, and cut short it does not
      open. */
  lemma LandedFile(data: seq<byte>, n: nat, log: Log, origin: nat, i: nat, j: nat, lib: Segment.Library)
    requires i < |log| && j < |log| && n <= |data| && Segment.FstExact(lib) && Storable(log[i], lib)
    requires Genuine(data, log[i], Start(log, origin, i), lib) && Start(log, origin, j) == Start(log, origin, i)
    ensures Trusted(Some(data[..n]), log[j], Start(log, origin, j), lib)
  {
    hide Segment.Opened, Genuine, Start, Segment.FstExact, Storable, Covers;
    if n < |data| {
      CutFileRejected(data, log[i], Start(log, origin, i), lib, n);
      return;
    }
    assert data[..n] == data;
    GenuineOpens(data, log[i], Start(log, origin, i), lib);
    if Accepted(Some(data), Start(log, origin, j), |log[j]|, lib).Some? {
      SameStartSameEvents(log, origin, i, j);
    }
  }

  /** A sealer's file cut short does not open. */
  lemma CutFileRejected(data: seq<byte>, events: seq<Event>, base: nat, lib: Segment.Library, n: nat)
    requires Genuine(data, events, base, lib) && n < |data|
    ensures Segment.Opened(data[..n], lib).Err?
  {
    hide Segment.Opened, Segment.Image, Segment.Encodes;
    var s, f, created :| Written(data, events, base, lib, s, f, created);
    Segment.CutImageRejected(f, created, lib, n);
  }

  // ------------------------------------------------------------------ files ahead of the log

  /** What may lie under the name of a segment that is still growing: nothing that opens, or a file written
      for the events it had at some point. */
  ghost predicate Leftover(file: Option<seq<byte>>, events: seq<Event>, base: nat, lib: Segment.Library) {
    file.Some? && Segment.Opened(file.value, lib).Ok? ==>
      exists n :: 0 <= n <= |events| && Genuine(file.value, events[..n], base, lib)
  }

  /** The active segment's file is such a leftover, and no file beyond it opens. */
  ghost predicate Ahead(files: map<nat, seq<byte>>, base: nat, events: seq<Event>, lib: Segment.Library) {
    && Leftover(FileAt(files, base), events, base, lib)
    && forall b :: b in files && b > base ==> Segment.Opened(files[b], lib).Err?
  }

  /** The count in its header keeps an outdated file from being taken for the segment's. */
  lemma LeftoverTrusted(file: Option<seq<byte>>, events: seq<Event>, base: nat, lib: Segment.Library)
    requires Segment.FstExact(lib) && Storable(events, lib) && Leftover(file, events, base, lib)
    ensures Trusted(file, events, base, lib)
  {
    hide Segment.Opened, Genuine, Segment.FstExact, Covers;
    if Accepted(file, base, |events|, lib).Some? {
      var n :| 0 <= n <= |events| && Genuine(file.value, events[..n], base, lib);
      GenuineOpens(file.value, events[..n], base, lib);
      assert events[..n] == events;
    }
  }

  lemma AheadGrows(files: map<nat, seq<byte>>, base: nat, events: seq<Event>, e: Event, lib: Segment.Library)
    requires Ahead(files, base, events, lib)
    ensures Ahead(files, base, events + [e], lib)
  {
    hide Segment.Opened, Genuine;
    assert forall n :: 0 <= n <= |events| ==> (events + [e])[..n] == events[..n];
  }

  /** A write for an empty segment leaves a leftover under its name, however it ends. */
  lemma EmptyWritten(files: map<nat, seq<byte>>, base: nat, data: Option<seq<byte>>, w: WriteOutcome,
                     events: seq<Event>, lib: Segment.Library)
    requires Possible(w, lib) && Leftover(FileAt(files, base), events, base, lib)
    requires data.Some? ==> Genuine(data.value, [], base, lib)
    ensures Leftover(FileAt(After(files, base, data, w), base), events, base, lib)
  {
    hide Segment.Opened, Genuine;
    if data.Some? && w.Upto? {
      if w.n < |data.value| {
        CutFileRejected(data.value, [], base, lib, w.n);
      } else {
        assert data.value[..Min(w.n, |data.value|)] == data.value && events[..0] == [];
      }
    }
  }

  /** Writing a sealed segment's file leaves the files ahead as they must be. */
  lemma AheadWrites(files: map<nat, seq<byte>>, base: nat, count: nat, data: Option<seq<byte>>, w: WriteOutcome,
                    ahead: nat, events: seq<Event>, lib: Segment.Library)
    requires Ahead(files, ahead, events, lib) && Possible(w, lib) && base + count <= ahead
    requires data.Some? && count == 0 ==> Genuine(data.value, [], base, lib)
    ensures Ahead(After(files, base, data, w), ahead, events, lib)
  {
    hide Segment.Opened, Genuine, Leftover, Possible;
    if base == ahead {
      EmptyWritten(files, base, data, w, events, lib);
    }
  }

  /** Sealing the active segment moves on past its file. */
  lemma AheadSeals(files: map<nat, seq<byte>>, base: nat, events: seq<Event>, data: Option<seq<byte>>, w: WriteOutcome,
                   lib: Segment.Library)
    requires Ahead(files, base, events, lib) && Possible(w, lib)
    requires data.Some? ==> Genuine(data.value, events, base, lib)
    ensures Ahead(After(files, base, data, w), base + |events|, [], lib)
  {
    hide Segment.Opened, Genuine, Possible;
    if events == [] {
      EmptyWritten(files, base, data, w, [], lib);
    }
  }

  /** Extending the log leaves the earlier segments where they were. */
  lemma StartsStay(a: Log, b: Log, origin: nat, i: nat)
    requires i <= |a| && i <= |b| && a[..i] == b[..i]
    ensures Start(a, origin, i) == Start(b, origin, i)
  {
  }

  lemma SealedStay(sealed: seq<SealedIndex>, a: Log, b: Log, origin: nat)
    requires SealedOk(sealed, a, origin) && |sealed| <= |b| && a[..|sealed|] == b[..|sealed|]
    ensures SealedOk(sealed, b, origin)
  {
    forall i | 0 <= i < |sealed| ensures EntryOk(sealed, b, origin, i) {
      assert EntryOk(sealed, a, origin, i);
      assert a[i] == a[..|sealed|][i] == b[i];
      assert a[..i] == a[..|sealed|][..i] == b[..i];
    }
  }

  lemma FilesStay(files: map<nat, seq<byte>>, a: Log, b: Log, origin: nat, n: nat, lib: Segment.Library)
    requires n <= |a| && n <= |b| && a[..n] == b[..n] && FilesOk(files, a, origin, n, lib)
    ensures FilesOk(files, b, origin, n, lib)
  {
    hide Trusted, Start, FileAt;
    forall i | 0 <= i < n ensures FileOk(files, b, origin, i, lib) {
      assert a[i] == a[..n][i] == b[i];
      assert a[..i] == a[..n][..i] == b[..i];
      StartsStay(a, b, origin, i);
      assert FileOk(files, a, origin, i, lib);
    }
  }

  /** One sealed segment at open: its file if that is valid, else an index rebuilt from the log and
      written afresh. Refused exactly when the file cannot be read, or is no use and a record is defective. */
  method OpenSegment(file: Option<seq<byte>>, fault: bool, base: nat, records: seq<LogRecord>, created: nat,
                     lib: Segment.Library, ghost events: seq<Event>)
    returns (r: Opening<SealedIndex>, written: Option<seq<byte>>)
    requires Segment.FstExact(lib) && Storable(events, lib) && Compact(events, lib)
    requires Copies(records, events, lib.utf8)
    requires Trusted(file, events, base, lib) && base <= U64_MAX && created <= U64_MAX
    ensures r.Opens? ==> Covers(r.value, events, base)
    ensures r.Refused? ==> Blocks(records, fault, r.error, lib) && written.None?
    ensures r.Opens? <==> !fault && (Accepted(file, base, |events|, lib).Some? || AllSound(records, lib.utf8))
    ensures written.Some? ==> Genuine(written.value, events, base, lib) && |written.value| <= U32_MAX
    ensures r.Opens? ==> (written.Some? <==> Accepted(file, base, |events|, lib).None? && !Overflows(events))
  {
    hide Genuine, Storable, Compact, Trusted, Segment.FstExact, Accepted, SoundBefore, EventsOf, Defect, Quiet;
    var loaded := LoadValid(file, fault, base, |records|, lib, events);
    if loaded.Refused? {
      return Refused(loaded.error), None;
    }
    if loaded.value.Some? {
      return Opens(SealedIndex(base, |records|, loaded.value)), None;
    }
    var rebuilt := RebuildCopy(base, records, lib, events);
    if rebuilt.Failed? {
      return Refused(RebuildFailed(rebuilt.error)), None;
    }
    var tail := rebuilt.rebuilder;
    if tail.unindexable {
      return Opens(SealedIndex(base, |records|, None)), None;
    }
    var data, seg := Seal(tail.index, created, lib);
    return Opens(SealedIndex(base, |records|, Some(seg))), Some(data);
  }

  /** A rebuild over records of `events`: all of them, or the first defect. */
  method RebuildCopy(base: nat, records: seq<LogRecord>, lib: Segment.Library, ghost events: seq<Event>)
    returns (r: Rebuilt)
    requires Storable(events, lib) && Copies(records, events, lib.utf8)
    ensures r.Done? <==> AllSound(records, lib.utf8)
    ensures r.Failed? ==> FirstDefect(records, r.error, lib.utf8)
    ensures r.Done? ==>
              && fresh(r.rebuilder) && fresh(r.rebuilder.index) && r.rebuilder.Valid() && r.rebuilder.base == base
              && r.rebuilder.fed == events && r.rebuilder.count == |records|
  {
    hide EventsOf, Defect;
    assert records[..|records|] == records;
    r := RebuildRange(base, records, |records|, lib.utf8);
    if r.Done? {
      CopiesRead(records, events, lib.utf8);
    }
  }

  /** A log this set can be over. */
  ghost predicate Indexable(log: Log, origin: nat, lib: Segment.Library) {
    && log != [] && origin + |Whole(log)| <= U64_MAX
    && forall i :: 0 <= i < |log| ==> Storable(log[i], lib) && Compact(log[i], lib)
  }

  /** The tail holds all the segment's events, or the run of them before the type too many. */
  ghost predicate TailOk(tail: ActiveTail, base: nat, events: seq<Event>, unindexable: bool)
    reads tail
  {
    && tail.Valid() && tail.state.tail.base == base
    && (unindexable <==> Overflows(events))
    && (tail.state.tail.unindexable ==> unindexable)
    && (if unindexable then StopsBefore(tail.state.log, events) else tail.state.log == events)
  }

  /** Feeds the tail, latching it, on the object readers share as well, at a type too many. */
  method FeedTail(tail: ActiveTail, position: nat, e: Event, unindexable: bool,
                  ghost base: nat, ghost events: seq<Event>)
    returns (now: bool)
    requires TailOk(tail, base, events, unindexable)
    requires position == base + |events| && |events| < MAX_EVENTS && Ascending(e.tags)
    modifies tail
    ensures TailOk(tail, base, events + [e], now)
    ensures old(tail.state.tail.unindexable) == unindexable ==> tail.state.tail.unindexable == now
  {
    hide Quiet, TypeSet;
    TypeSetGrows(events, e);
    if unindexable {
      StillStops(tail.state.log, events, e);
      return true;
    }
    var ok := tail.Push(position, e);
    if !ok {
      StopsHere(events, e);
      tail.MarkUnindexable();
    }
    return !ok;
  }

  ghost predicate AllCopies(records: seq<seq<LogRecord>>, log: Log, utf8: seq<byte> -> bool) {
    |records| == |log| && forall i :: 0 <= i < |log| ==> Copies(records[i], log[i], utf8)
  }

  lemma CopyAt(records: seq<seq<LogRecord>>, log: Log, utf8: seq<byte> -> bool, i: nat)
    requires AllCopies(records, log, utf8) && i < |log|
    ensures Copies(records[i], log[i], utf8) && |records[i]| == |log[i]|
  {
  }

  /** One of the first `n` segments stops the open at `error`; only sealed segments have a file. */
  ghost predicate Blocked(records: seq<seq<LogRecord>>, faults: nat -> bool, n: nat, error: OpenError,
                          lib: Segment.Library)
    requires n <= |records|
  {
    exists i :: 0 <= i < n && Blocks(records[i], i < |records| - 1 && faults(i), error, lib)
  }

  /** No file read fails and no record is damaged. */
  ghost predicate Undisturbed(records: seq<seq<LogRecord>>, faults: nat -> bool, n: nat, lib: Segment.Library)
    requires n <= |records|
  {
    forall i :: 0 <= i < n ==> !(i < |records| - 1 && faults(i)) && AllSound(records[i], lib.utf8)
  }

  /** The same of the last segment's file and beyond. */
  ghost predicate ActiveAhead(files: map<nat, seq<byte>>, log: Log, origin: nat, lib: Segment.Library)
    requires log != []
  {
    Ahead(files, Start(log, origin, |log| - 1), log[|log| - 1], lib)
  }

  lemma WriteKeepsAhead(files: map<nat, seq<byte>>, log: Log, origin: nat, lib: Segment.Library, i: nat,
                        data: Option<seq<byte>>, w: WriteOutcome)
    requires i < |log| - 1 && Possible(w, lib) && ActiveAhead(files, log, origin, lib)
    requires data.Some? ==> Genuine(data.value, log[i], Start(log, origin, i), lib)
    ensures ActiveAhead(After(files, Start(log, origin, i), data, w), log, origin, lib)
  {
    hide Genuine, Possible, Ahead, After;
    StartsApart(log, origin, i, |log| - 1);
    hide Start;
    var n := |log| - 1;
    AheadWrites(files, Start(log, origin, i), |log[i]|, data, w, Start(log, origin, n), log[n], lib);
  }

  /** A write that goes through leaves a file the next open takes for the segment, if it has events and can be
      indexed at all: nothing is rebuilt twice. */
  ghost predicate Persisted(files: map<nat, seq<byte>>, log: Log, origin: nat, i: nat, w: WriteOutcome,
                            lib: Segment.Library)
    requires i < |log|
  {
    log[i] != [] && !Overflows(log[i]) && w.Upto? && w.n >= U32_MAX ==>
      Accepted(FileAt(files, Start(log, origin, i)), Start(log, origin, i), |log[i]|, lib).Some?
  }

  lemma WritePersists(files: map<nat, seq<byte>>, log: Log, origin: nat, lib: Segment.Library, i: nat,
                      data: Option<seq<byte>>, writes: nat -> WriteOutcome)
    requires i < |log| && Segment.FstExact(lib) && Storable(log[i], lib)
    requires data.Some? ==> Genuine(data.value, log[i], Start(log, origin, i), lib) && |data.value| <= U32_MAX
    requires var b := Start(log, origin, i);
             data.None? ==> Overflows(log[i]) || Accepted(FileAt(files, b), b, |log[i]|, lib).Some?
    requires forall j :: 0 <= j < i ==> Persisted(files, log, origin, j, writes(j), lib)
    ensures forall j :: 0 <= j <= i ==>
              Persisted(After(files, Start(log, origin, i), data, writes(i)), log, origin, j, writes(j), lib)
  {
    hide Segment.Opened, Genuine, Start, Segment.FstExact, Storable, Accepted, Overflows;
    var disk := After(files, Start(log, origin, i), data, writes(i));
    forall j | 0 <= j < i ensures Persisted(disk, log, origin, j, writes(j), lib) {
      StartsApart(log, origin, j, i);
      assert Persisted(files, log, origin, j, writes(j), lib);
    }
    if data.Some? && writes(i).Upto? && writes(i).n >= U32_MAX {
      assert data.value[..Min(writes(i).n, |data.value|)] == data.value;
      MisplacedRejected(data.value, log[i], Start(log, origin, i), lib, Start(log, origin, i), |log[i]|);
    }
  }

  /** What lies under the active segment's name is trustworthy for it. */
  lemma LeftoverKept(files: map<nat, seq<byte>>, log: Log, origin: nat, lib: Segment.Library)
    requires log != [] && Segment.FstExact(lib) && AllStorable(log, lib) && ActiveAhead(files, log, origin, lib)
    ensures FileOk(files, log, origin, |log| - 1, lib)
  {
    hide Segment.FstExact, Leftover, Trusted, Storable, Start;
    var n := |log| - 1;
    LeftoverTrusted(FileAt(files, Start(log, origin, n)), log[n], Start(log, origin, n), lib);
  }

  class IndexSet {
    const lib: Segment.Library
    const origin: nat
    var sealed: seq<SealedIndex>
    var active: ActiveTail
    var activeBase: nat
    var activeSpan: nat
    var activeUnindexable: bool
    /** The `.idx` files, by base position. */
    var files: map<nat, seq<byte>>
    /** The events the log holds, by segment. */
    ghost var log: Log

    ghost function Current(): (events: seq<Event>)
      reads this
    {
      if log == [] then [] else log[|log| - 1]
    }

    ghost predicate ActiveOk()
      reads this, active
    {
      activeSpan == |Current()| && TailOk(active, activeBase, Current(), activeUnindexable)
    }

    /** Readers of the shared tail see the latch. */
    ghost predicate InStep()
      reads this, active
    {
      active.state.tail.unindexable == activeUnindexable
    }

    ghost predicate Valid()
      reads this, active
    {
      && Segment.FstExact(lib)
      && |log| == |sealed| + 1 && AllStorable(log, lib)
      && SealedOk(sealed, log, origin)
      && FilesOk(files, log, origin, |sealed|, lib) && Ahead(files, activeBase, Current(), lib)
      && activeBase == Start(log, origin, |sealed|)
      && ActiveOk()
    }

    /** A set put together from its opened parts. The rebuilt tail carries no latch of its own, even when its
        segment is unindexable. */
    constructor (origin: nat, entries: seq<SealedIndex>, base: nat, rebuilt: Rebuilder, disk: map<nat, seq<byte>>,
                 lib: Segment.Library, ghost history: Log)
      requires Segment.FstExact(lib) && |history| == |entries| + 1 && AllStorable(history, lib)
      requires SealedOk(entries, history, origin) && FilesOk(disk, history, origin, |entries|, lib)
      requires base == Start(history, origin, |entries|) && Ahead(disk, base, history[|entries|], lib)
      requires rebuilt.Valid() && rebuilt.base == base && rebuilt.fed == history[|entries|]
      ensures Valid() && active == rebuilt.index
      ensures log == history && this.origin == origin && this.lib == lib && files == disk
      ensures InStep() <==> !Overflows(Current())
    {
      this.lib, this.origin, files, log := lib, origin, disk, history;
      sealed, active, activeBase := entries, rebuilt.index, base;
      activeSpan, activeUnindexable := rebuilt.count, rebuilt.unindexable;
    }

    /** Opens the index over a log given as its records, with whatever files disk holds, rebuilding the rest.
        `history` is what the log was written with: each record reads as its event or is damaged. */
    static method Open(ghost history: Log, records: seq<seq<LogRecord>>, origin: nat, files: map<nat, seq<byte>>,
                       faults: nat -> bool, created: nat, writes: nat -> WriteOutcome, lib: Segment.Library)
      returns (r: Opening<IndexSet>, disk: map<nat, seq<byte>>)
      requires Segment.FstExact(lib) && Indexable(history, origin, lib) && created <= U64_MAX
      requires AllCopies(records, history, lib.utf8)
      requires FilesOk(files, history, origin, |history| - 1, lib) && ActiveAhead(files, history, origin, lib)
      requires forall i :: Possible(writes(i), lib)
      ensures r.Opens? ==>
                && fresh(r.value) && fresh(r.value.active) && r.value.Valid() && r.value.files == disk
                && r.value.log == history && r.value.origin == origin && r.value.lib == lib
                && (r.value.InStep() <==> !Overflows(r.value.Current()))
      ensures FilesOk(disk, history, origin, |history| - 1, lib) && ActiveAhead(disk, history, origin, lib)
      ensures r.Refused? ==> Blocked(records, faults, |records|, r.error, lib)
      ensures r.Opens? ==> AllSound(records[|records| - 1], lib.utf8)
      ensures r.Opens? ==> forall i :: 0 <= i < |records| - 1 ==> !faults(i)
      ensures Undisturbed(records, faults, |records|, lib) ==> r.Opens?
      ensures r.Opens? ==> forall i :: 0 <= i < |history| - 1 ==> Persisted(disk, history, origin, i, writes(i), lib)
    {
      hide Covers, Genuine, Storable, Compact, Trusted, Segment.FstExact, Copies, Possible, AllSound, FirstDefect;
      var n := |records| - 1;
      var entries, base;
      entries, disk, base := OpenSealed(records, origin, files, faults, created, writes, lib, history);
      if entries.Refused? {
        return Refused(entries.error), disk;
      }
      var rebuilt := RebuildCopy(base, records[n], lib, history[n]);
      if rebuilt.Failed? {
        assert Blocks(records[n], false, RebuildFailed(rebuilt.error), lib);
        return Refused(RebuildFailed(rebuilt.error)), disk;
      }
      var set' := new IndexSet(origin, entries.value, base, rebuilt.rebuilder, disk, lib, history);
      return Opens(set'), disk;
    }

    static method OpenSealed(records: seq<seq<LogRecord>>, origin: nat, files: map<nat, seq<byte>>,
                             faults: nat -> bool, created: nat, writes: nat -> WriteOutcome, lib: Segment.Library,
                             ghost history: Log)
      returns (r: Opening<seq<SealedIndex>>, disk: map<nat, seq<byte>>, base: nat)
      requires Segment.FstExact(lib) && Indexable(history, origin, lib) && created <= U64_MAX
      requires AllCopies(records, history, lib.utf8)
      requires FilesOk(files, history, origin, |history| - 1, lib) && ActiveAhead(files, history, origin, lib)
      requires forall i :: Possible(writes(i), lib)
      ensures r.Opens? ==> |r.value| == |history| - 1 && SealedOk(r.value, history, origin)
      ensures r.Opens? ==> base == Start(history, origin, |history| - 1)
      ensures FilesOk(disk, history, origin, |history| - 1, lib) && ActiveAhead(disk, history, origin, lib)
      ensures r.Refused? ==> Blocked(records, faults, |records| - 1, r.error, lib)
      ensures r.Opens? ==> forall i :: 0 <= i < |records| - 1 ==> !faults(i)
      ensures Undisturbed(records, faults, |records| - 1, lib) ==> r.Opens?
      ensures r.Opens? ==> forall i :: 0 <= i < |history| - 1 ==> Persisted(disk, history, origin, i, writes(i), lib)
    {
      hide Covers, Genuine, Storable, Compact, Trusted, Segment.FstExact, Copies, Accepted, AllSound, FirstDefect;
      var entries: seq<SealedIndex> := [];
      disk, base := files, origin;
      ghost var n := |history| - 1;
      for i := 0 to |records| - 1
        invariant |entries| == i && SealedOk(entries, history, origin)
        invariant FilesOk(disk, history, origin, n, lib) && ActiveAhead(disk, history, origin, lib)
        invariant base == Start(history, origin, i)
        invariant forall j :: 0 <= j < i ==> !faults(j)
        invariant forall j :: 0 <= j < i ==> Persisted(disk, history, origin, j, writes(j), lib)
      {
        StartBounded(history, origin, i);
        assert FileOk(disk, history, origin, i, lib) && Possible(writes(i), lib);
        CopyAt(records, history, lib.utf8, i);
        var entry, written := OpenSegment(FileAt(disk, base), faults(i), base, records[i], created, lib, history[i]);
        if entry.Refused? {
          return Refused(entry.error), disk, base;
        }
        WriteKeepsFiles(disk, history, origin, n, lib, i, written, writes(i));
        WriteKeepsAhead(disk, history, origin, lib, i, written, writes(i));
        WritePersists(disk, history, origin, lib, i, written, writes);
        disk := After(disk, base, written, writes(i));
        EntryAppended(entries, history, origin, entry.value);
        entries := entries + [entry.value];
        NextStart(history, origin, i);
        base := base + |records[i]|;
      }
      return Opens(entries), disk, base;
    }

    /** Feeds one committed event. A type too many latches the segment, on the shared tail as well. */
    method Push(position: nat, e: Event)
      requires Valid() && position == activeBase + activeSpan
      requires Acceptable(e, lib) && activeSpan < MAX_EVENTS
      modifies this, active
      ensures Valid() && active == old(active) && sealed == old(sealed) && files == old(files)
      ensures log == old(log)[|sealed| := old(Current()) + [e]]
      ensures old(InStep()) ==> InStep()
    {
      hide SealedOk, FilesOk, Start, Storable, AllStorable, Acceptable, Segment.FstExact, TailOk, Ahead;
      ghost var was := Current();
      AheadGrows(files, activeBase, was, e, lib);
      Grows(log, |sealed|, e, lib);
      GrownLog(sealed, log, origin, files, lib, was + [e]);
      activeUnindexable := FeedTail(active, position, e, activeUnindexable, activeBase, was);
      activeSpan := activeSpan + 1;
      log := log[|sealed| := was + [e]];
    }

    /** Seals the active tail and starts a fresh one. An unindexable segment writes no file, and a write
        may fail: the set is right either way, and no later open is misled. */
    method SealActive(newBase: nat, created: nat, write: WriteOutcome)
      requires Valid() && newBase == activeBase + activeSpan
      requires activeBase <= U64_MAX && created <= U64_MAX && Compact(Current(), lib) && Possible(write, lib)
      modifies this
      ensures Valid() && fresh(active) && log == old(log) + [[]]
      ensures old(activeUnindexable) || write.Untouched? ==> files == old(files)
      ensures !old(activeUnindexable) ==>
                exists data :: Genuine(data, old(Current()), old(activeBase), lib)
                            && files == After(old(files), old(activeBase), Some(data), write)
      ensures InStep()
    {
      hide Covers, Accepted, Genuine, AllStorable, Compact, Segment.FstExact, Segment.Opened, SealedOk, FilesOk, Start;
      hide Quiet, Trusted, Possible, Ahead;
      var entry, data := SealEntry(created);
      LeftoverKept(files, log, origin, lib);
      AheadSeals(files, activeBase, Current(), data, write, lib);
      SealedExtends(sealed, log, origin, files, lib, entry, data, write);
      sealed := sealed + [entry];
      files := After(files, activeBase, data, write);
      log := log + [[]];
      active := new ActiveTail(newBase);
      activeBase, activeSpan, activeUnindexable := newBase, 0, false;
      NoTypes();
    }

    /** The sealed entry, and the file to write for it if it can be indexed. */
    method SealEntry(created: nat) returns (entry: SealedIndex, data: Option<seq<byte>>)
      requires Valid() && activeBase <= U64_MAX && created <= U64_MAX && Compact(Current(), lib)
      ensures Covers(entry, Current(), activeBase)
      ensures data.None? <==> activeUnindexable
      ensures data.Some? ==> Genuine(data.value, Current(), activeBase, lib)
    {
      if activeUnindexable {
        return SealedIndex(activeBase, activeSpan, None), None;
      }
      var bytes, seg := Seal(active, created, lib);
      return SealedIndex(activeBase, activeSpan, Some(seg)), Some(bytes);
    }

    /** The views of the segments holding anything past `after`, in order; an error, before any
        position is produced, if one of them cannot be answered. */
    method PlanTouched(after: nat) returns (r: Answer<seq<SegmentIndex>>)
      requires Valid()
      ensures match FirstBad(log, origin, after, 0)
              case None => r.Found? && PlanOk(r.value, log, origin, TouchedUpTo(log, origin, after, |log|))
              case Some(i) => i < |log| && (r.Unindexable? && RangeOf(log, origin, i) == Unindexable(r.first, r.last))
    {
      hide Answers, Overflows, Storable, Start, Segment.FstExact, FilesOk, Ahead, StopsBefore;
      var plan := PlanSealed(sealed, after, log, origin);
      if plan.Unindexable? {
        return plan;
      }
      if activeSpan > 0 && activeBase + activeSpan - 1 > after {
        if activeUnindexable {
          return Unindexable(activeBase, activeBase + activeSpan - 1);
        }
        FullViewAnswers(active.state);
        return Found(plan.value + [FullView(active.state.tail)]);
      }
      return plan;
    }

    /** Positions matching `q` after `after`, across every segment. */
    method SearchAll(q: Query, after: nat) returns (r: Answer<seq<nat>>)
      requires Valid()
      ensures r == Expected(log, origin, q, after)
    {
      var plan := PlanTouched(after);
      if plan.Unindexable? {
        return Unindexable(plan.first, plan.last);
      }
      assert log[..|log|] == log;
      ScanBySegment(log, origin, q, after, |log|);
      var out := Gather(plan.value, q, after, log, origin, TouchedUpTo(log, origin, after, |log|));
      return Found(out);
    }

    /** The earliest match after `after`, with the same error condition. */
    method FindMatch(q: Query, after: nat) returns (r: Answer<Option<nat>>)
      requires Valid()
      ensures match Expected(log, origin, q, after)
              case Unindexable(first, last) => r == Unindexable(first, last)
              case Found(found) => r == Found(if found == [] then None else Some(found[0]))
      ensures r.Found? && r.value.Some? ==> forall p :: p in Scan(Whole(log), origin, q, after) ==> r.value.value <= p
    {
      var plan := PlanTouched(after);
      if plan.Unindexable? {
        return Unindexable(plan.first, plan.last);
      }
      assert log[..|log|] == log;
      ScanBySegment(log, origin, q, after, |log|);
      ScanSpec(Whole(log), origin, q, after);
      var first := FirstFound(plan.value, q, after, log, origin, TouchedUpTo(log, origin, after, |log|));
      return Found(first);
    }
  }

  method PlanSealed(sealed: seq<SealedIndex>, after: nat, ghost log: Log, ghost origin: nat)
    returns (r: Answer<seq<SegmentIndex>>)
    requires SealedOk(sealed, log, origin)
    ensures match r
            case Found(plan) =>
              && PlanOk(plan, log, origin, TouchedUpTo(log, origin, after, |sealed|))
              && FirstBad(log, origin, after, 0) == FirstBad(log, origin, after, |sealed|)
            case Unindexable(first, last) =>
              var bad := FirstBad(log, origin, after, 0);
              bad.Some? && bad.value < |log| && RangeOf(log, origin, bad.value) == Unindexable(first, last)
  {
    hide Answers, Overflows, Segment.Sound, Start;
    var plan: seq<SegmentIndex> := [];
    for i := 0 to |sealed|
      invariant PlanOk(plan, log, origin, TouchedUpTo(log, origin, after, i))
      invariant FirstBad(log, origin, after, 0) == FirstBad(log, origin, after, i)
    {
      assert EntryOk(sealed, log, origin, i);
      var entry := sealed[i];
      assert entry.count > 0 && entry.base + entry.count - 1 > after <==> Touches(log, origin, after, i);
      if entry.count > 0 && entry.base + entry.count - 1 > after {
        if entry.seg.None? {
          return Unindexable(entry.base, entry.base + entry.count - 1);
        }
        plan := plan + [Segment.SegmentView(entry.seg.value)];
      }
    }
    return Found(plan);
  }

  /** Concatenates the touched segments' answers. */
  method Gather(plan: seq<SegmentIndex>, q: Query, after: nat, ghost log: Log, ghost origin: nat, ghost ids: seq<nat>)
    returns (out: seq<nat>)
    requires PlanOk(plan, log, origin, ids)
    ensures out == Scans(log, origin, q, after, ids)
  {
    hide Answers, Scan, Start;
    out := [];
    for k := 0 to |plan|
      invariant out == Scans(log, origin, q, after, ids[..k])
    {
      var found := Search.Search(plan[k], q, after, log[ids[k]]);
      out := out + found;
      assert ids[..k + 1][..k] == ids[..k];
    }
    assert ids[..|ids|] == ids;
  }

  /** Stops at the first segment with a match. */
  method FirstFound(plan: seq<SegmentIndex>, q: Query, after: nat, ghost log: Log, ghost origin: nat,
                    ghost ids: seq<nat>)
    returns (first: Option<nat>)
    requires PlanOk(plan, log, origin, ids)
    ensures var all := Scans(log, origin, q, after, ids); first == if all == [] then None else Some(all[0])
  {
    hide Answers, Scan, Start;
    for k := 0 to |plan|
      invariant Scans(log, origin, q, after, ids[..k]) == []
    {
      var found := Search.Search(plan[k], q, after, log[ids[k]]);
      assert ids[..k + 1][..k] == ids[..k];
      assert Scans(log, origin, q, after, ids[..k + 1]) == found;
      if found != [] {
        ScansPrefix(log, origin, q, after, ids, k + 1);
        return Some(found[0]);
      }
    }
    assert ids[..|ids|] == ids;
    return None;
  }

  lemma {:induction false} ScansPrefix(log: Log, origin: nat, q: Query, after: nat, ids: seq<nat>, k: nat)
    requires k <= |ids| && forall i :: 0 <= i < |ids| ==> ids[i] < |log|
    ensures Scans(log, origin, q, after, ids[..k]) <= Scans(log, origin, q, after, ids)
  {
    if k < |ids| {
      ScansPrefix(log, origin, q, after, ids[..|ids| - 1], k);
      assert ids[..|ids| - 1][..k] == ids[..k];
    } else {
      assert ids[..k] == ids;
    }
  }

  lemma Grows(log: Log, i: nat, e: Event, lib: Segment.Library)
    requires i < |log| && AllStorable(log, lib) && Acceptable(e, lib) && |log[i]| < MAX_EVENTS
    ensures Storable(log[i] + [e], lib) && Ascending(e.tags)
  {
  }

  /** Growing the last segment, seen from the sealed side. */
  lemma GrownLog(sealed: seq<SealedIndex>, log: Log, origin: nat, files: map<nat, seq<byte>>, lib: Segment.Library,
                 now: seq<Event>)
    requires |log| == |sealed| + 1 && SealedOk(sealed, log, origin) && FilesOk(files, log, origin, |sealed|, lib)
    requires AllStorable(log, lib) && Storable(now, lib)
    ensures SealedOk(sealed, log[|sealed| := now], origin)
    ensures FilesOk(files, log[|sealed| := now], origin, |sealed|, lib)
    ensures Start(log[|sealed| := now], origin, |sealed|) == Start(log, origin, |sealed|)
    ensures AllStorable(log[|sealed| := now], lib)
  {
    hide SealedOk, FilesOk, Start, Storable;
    var grown := log[|sealed| := now];
    assert grown[..|sealed|] == log[..|sealed|];
    SealedStay(sealed, log, grown, origin);
    FilesStay(files, log, grown, origin, |sealed|, lib);
    StartsStay(log, grown, origin, |sealed|);
  }

  /** Sealing the last segment and opening an empty one, seen from the sealed side. */
  lemma SealedExtends(sealed: seq<SealedIndex>, log: Log, origin: nat, files: map<nat, seq<byte>>, lib: Segment.Library,
                      entry: SealedIndex, data: Option<seq<byte>>, w: WriteOutcome)
    requires |log| == |sealed| + 1 && SealedOk(sealed, log, origin) && FilesOk(files, log, origin, |sealed|, lib)
    requires Segment.FstExact(lib) && AllStorable(log, lib) && Possible(w, lib)
    requires Covers(entry, log[|sealed|], Start(log, origin, |sealed|))
    requires data.Some? ==> Genuine(data.value, log[|sealed|], Start(log, origin, |sealed|), lib)
    requires data.None? || w.Untouched? ==> FileOk(files, log, origin, |sealed|, lib)
    ensures SealedOk(sealed + [entry], log + [[]], origin)
    ensures FilesOk(After(files, Start(log, origin, |sealed|), data, w), log + [[]], origin, |log|, lib)
    ensures Start(log + [[]], origin, |log|) == Start(log, origin, |sealed|) + |log[|sealed|]|
    ensures AllStorable(log + [[]], lib)
  {
    var n, longer := |sealed|, log + [[]];
    hide Covers, Genuine, Segment.FstExact, Trusted, Whole, Possible, After;
    EntryAppended(sealed, log, origin, entry);
    SealedStay(sealed + [entry], log, longer, origin);
    WriteKeepsFiles(files, log, origin, n + 1, lib, n, data, w);
    FilesStay(After(files, Start(log, origin, n), data, w), log, longer, origin, n + 1, lib);
    NextStart(log, origin, n);
    StartsStay(log, longer, origin, n + 1);
  }

  lemma StartBounded(log: Log, origin: nat, i: nat)
    requires i <= |log|
    ensures Start(log, origin, i) <= origin + |Whole(log)|
  {
    if i < |log| { StartsApart(log, origin, i, |log|); }
    assert log[..|log|] == log;
  }

  lemma NextStart(log: Log, origin: nat, i: nat)
    requires i < |log|
    ensures Start(log, origin, i + 1) == Start(log, origin, i) + |log[i]|
  {
    WholeSnoc(log[..i], log[i]);
    assert log[..i + 1] == log[..i] + [log[i]];
  }

  lemma EntryAppended(entries: seq<SealedIndex>, log: Log, origin: nat, entry: SealedIndex)
    requires |entries| < |log| && SealedOk(entries, log, origin)
    requires Covers(entry, log[|entries|], Start(log, origin, |entries|))
    ensures SealedOk(entries + [entry], log, origin)
  {
    hide Covers, Start;
    var more := entries + [entry];
    forall i | 0 <= i < |more| ensures EntryOk(more, log, origin, i) {
      if i < |entries| { assert EntryOk(entries, log, origin, i); }
    }
  }

  // ------------------------------------------------------------------ reopening

  /** Every index file survives as it was, or is missing, or does not validate any more. */
  ghost predicate Survives(disk: map<nat, seq<byte>>, files: map<nat, seq<byte>>, log: Log, origin: nat,
                           lib: Segment.Library)
  {
    forall i :: 0 <= i < |log| - 1 ==>
      var b := Start(log, origin, i);
      FileAt(disk, b) == FileAt(files, b) || Accepted(FileAt(disk, b), b, |log[i]|, lib).None?
  }

  /** From the active segment's file on, none is new that opens. */
  ghost predicate NothingNew(disk: map<nat, seq<byte>>, files: map<nat, seq<byte>>, base: nat, lib: Segment.Library) {
    forall b :: b in disk && b >= base ==> FileAt(files, b) == Some(disk[b]) || Segment.Opened(disk[b], lib).Err?
  }

  /** An index reopened over the same log, with any of its files missing or damaged, answers every
      query as the live-fed one does, errors included, and knows the same counts, if it opens at all: if every
      file that exists can be read and every record is sound, it does. */
  method Reopen(live: IndexSet, disk: map<nat, seq<byte>>, records: seq<seq<LogRecord>>, faults: nat -> bool,
                created: nat, writes: nat -> WriteOutcome, q: Query, after: nat)
    returns (r: Opening<IndexSet>, before: Answer<seq<nat>>, now: Answer<seq<nat>>)
    requires live.Valid() && Indexable(live.log, live.origin, live.lib) && created <= U64_MAX
    requires AllCopies(records, live.log, live.lib.utf8)
    requires Survives(disk, live.files, live.log, live.origin, live.lib)
    requires NothingNew(disk, live.files, live.activeBase, live.lib) && forall i :: Possible(writes(i), live.lib)
    ensures before == Expected(live.log, live.origin, q, after)
    ensures r.Opens? ==>
              && r.value.Valid() && r.value.log == live.log && r.value.origin == live.origin && now == before
              && r.value.activeSpan == live.activeSpan && r.value.activeUnindexable == live.activeUnindexable
              && (r.value.InStep() <==> !live.activeUnindexable)
    ensures r.Refused? ==> Blocked(records, faults, |records|, r.error, live.lib)
    ensures Undisturbed(records, faults, |records|, live.lib) ==> r.Opens?
  {
    hide Accepted, Genuine, Expected, Storable, Compact, Segment.FstExact, Possible, AllCopies, Blocked, Undisturbed;
    before := live.SearchAll(q, after);
    now := Unindexable(0, 0);
    SurvivorsOk(disk, live.files, live.log, live.origin, live.lib);
    var files;
    r, files := IndexSet.Open(live.log, records, live.origin, disk, faults, created, writes, live.lib);
    if r.Opens? {
      now := r.value.SearchAll(q, after);
    }
  }

  lemma SurvivorsOk(disk: map<nat, seq<byte>>, files: map<nat, seq<byte>>, log: Log, origin: nat, lib: Segment.Library)
    requires log != [] && FilesOk(files, log, origin, |log| - 1, lib) && Survives(disk, files, log, origin, lib)
    requires ActiveAhead(files, log, origin, lib) && NothingNew(disk, files, Start(log, origin, |log| - 1), lib)
    ensures FilesOk(disk, log, origin, |log| - 1, lib) && ActiveAhead(disk, log, origin, lib)
  {
    hide Accepted, Genuine, Segment.Opened;
    forall i | 0 <= i < |log| - 1 ensures FileOk(disk, log, origin, i, lib) {
      assert FileOk(files, log, origin, i, lib);
    }
  }
}
