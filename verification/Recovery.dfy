/** Rebuilding a segment's index from the log, which is the source of truth. */
module Recovery {
  import opened Bytes
  import opened Names
  import opened Events
  import opened Tail
  import opened ActiveTail
  import EventCodec

  /** More distinct types than the dense column can address. */
  ghost predicate Overflows(events: seq<Event>) {
    |TypeSet(events)| > MAX_TYPES
  }

  lemma TypeSetGrows(events: seq<Event>, e: Event)
    ensures |TypeSet(events)| <= |TypeSet(events + [e])|
  {
    TypeSetSnoc(events, e);
    if e.ty in TypeSet(events) {
      assert TypeSet(events) + {e.ty} == TypeSet(events);
    }
  }

  lemma NoTypes()
    ensures !Overflows([])
  {
    assert TypeSet([]) == {};
  }

  /** `indexed` is the longest run of `events` that can be indexed: the next event brings one type too
      many. */
  ghost predicate StopsBefore(indexed: seq<Event>, events: seq<Event>) {
    indexed < events && Overflows(events[..|indexed| + 1])
  }

  lemma StillStops(indexed: seq<Event>, events: seq<Event>, e: Event)
    requires StopsBefore(indexed, events)
    ensures StopsBefore(indexed, events + [e])
  {
    assert (events + [e])[..|indexed| + 1] == events[..|indexed| + 1];
  }

  lemma StopsHere(events: seq<Event>, e: Event)
    requires Overflows(events + [e])
    ensures StopsBefore(events, events + [e])
  {
    assert (events + [e])[..|events| + 1] == events + [e];
  }

  class Rebuilder {
    const base: nat
    const index: ActiveTail
    var count: nat
    var unindexable: bool
    ghost var fed: seq<Event>

    /** The count is exact whatever happens; the latch means exactly "too many types"; the tail holds
        everything fed, or the longest run of it that could be indexed. */
    ghost predicate Valid()
      reads this, index
    {
      && index.Valid() && index.state.tail.base == base && !index.state.tail.unindexable
      && count == |fed|
      && (unindexable <==> Overflows(fed))
      && (if unindexable then StopsBefore(index.state.log, fed) else index.state.log == fed)
    }

    constructor (base: nat)
      ensures Valid() && fresh(index) && this.base == base && fed == []
    {
      NoTypes();
      this.base := base;
      index := new ActiveTail(base);
      count, unindexable, fed := 0, false, [];
    }

    /** Feeds one event. A rejection latches; later events are counted and not pushed. */
    method Feed(position: nat, e: Event)
      requires Valid() && position == base + count && Ascending(e.tags) && count < MAX_EVENTS
      modifies this, index
      ensures Valid() && fed == old(fed) + [e]
    {
      TypeSetGrows(fed, e);
      ghost var was := fed;
      fed := fed + [e];
      count := count + 1;
      if unindexable {
        StillStops(index.state.log, was, e);
        return;
      }
      var ok := index.Push(position, e);
      if !ok {
        StopsHere(was, e);
        unindexable := true;
      }
    }
  }

  /** `rebuild`: feeds one log segment's events in position order. */
  method Rebuild(base: nat, events: seq<Event>) returns (r: Rebuilder)
    requires |events| <= MAX_EVENTS && forall i :: 0 <= i < |events| ==> Ascending(events[i].tags)
    ensures fresh(r) && fresh(r.index) && r.Valid()
    ensures r.base == base && r.fed == events
  {
    hide Overflows, Quiet;
    r := new Rebuilder(base);
    for i := 0 to |events|
      invariant fresh(r) && fresh(r.index) && r.Valid()
      invariant r.base == base && r.fed == events[..i]
    {
      assert events[..i + 1] == events[..i] + [events[i]];
      r.Feed(base + i, events[i]);
    }
    assert events[..|events|] == events;
  }

  // ------------------------------------------------------------------ from the log's records

  /** A record as the log's scan hands it over: its bytes, or a read error. */
  datatype LogRecord = Unreadable | Bytes(data: seq<byte>)

  datatype RebuildError = LogFailed | Corrupt(cause: EventCodec.DecodeError)

  datatype Rebuilt = Done(rebuilder: Rebuilder) | Failed(error: RebuildError)

  /** What is wrong with a record, if anything. */
  function Defect(record: LogRecord, utf8: seq<byte> -> bool): (e: Option<RebuildError>) {
    if record.Unreadable? then Some(LogFailed)
    else
      match EventCodec.Decoded(record.data, utf8)
      case Ok(_) => None
      case Err(cause) => Some(Corrupt(cause))
  }

  /** The events of records that are all sound. */
  function EventsOf(records: seq<LogRecord>, utf8: seq<byte> -> bool): (events: seq<Event>)
    requires forall i :: 0 <= i < |records| ==> Defect(records[i], utf8).None?
    ensures |events| == |records|
  {
    seq(|records|, i requires 0 <= i < |records| && Defect(records[i], utf8).None? =>
      EventCodec.Decoded(records[i].data, utf8).value)
  }

  /** `rebuild_range`: scans up to `count` records, stopping at the first that cannot be read or decoded. */
  method RebuildRange(base: nat, records: seq<LogRecord>, count: nat, utf8: seq<byte> -> bool) returns (r: Rebuilt)
    requires count <= MAX_EVENTS
    ensures var n := Min(count, |records|);
            match r
            case Done(b) =>
              && fresh(b) && fresh(b.index) && b.Valid() && b.base == base
              && (forall i :: 0 <= i < n ==> Defect(records[i], utf8).None?)
              && b.fed == EventsOf(records[..n], utf8) && b.count == n
            case Failed(error) => FirstDefect(records[..n], error, utf8)
  {
    hide Defect, EventsOf, Overflows, Quiet;
    assert records[..0] == [];
    NoEvents(utf8);
    var b := new Rebuilder(base);
    for seen := 0 to Min(count, |records|)
      invariant fresh(b) && fresh(b.index) && b.Valid() && b.base == base
      invariant SoundBefore(records, seen, utf8)
      invariant b.fed == EventsOf(records[..seen], utf8)
    {
      var e := ReadEvent(records[seen], utf8);
      if e.Err? {
        assert Defect(records[..Min(count, |records|)][seen], utf8) == Some(e.error);
        return Failed(e.error);
      }
      EventsSnoc(records[..seen], records[seen], utf8);
      assert records[..seen + 1] == records[..seen] + [records[seen]];
      b.Feed(base + seen, e.value);
    }
    return Done(b);
  }

  /** The event of one record, or what is wrong with it. */
  method ReadEvent(record: LogRecord, utf8: seq<byte> -> bool) returns (r: Result<Event, RebuildError>)
    ensures if r.Err? then Defect(record, utf8) == Some(r.error)
            else Defect(record, utf8).None? && EventsOf([record], utf8) == [r.value] && Ascending(r.value.tags)
  {
    hide EventCodec.Decoded;
    if record.Unreadable? {
      return Err(LogFailed);
    }
    var decoded := EventCodec.FromBytes(record.data, utf8);
    if decoded.Err? {
      return Err(Corrupt(decoded.error));
    }
    EventCodec.EncodeDecoded(record.data, utf8);
    return Ok(decoded.value);
  }

  lemma NoEvents(utf8: seq<byte> -> bool)
    ensures EventsOf([], utf8) == []
  {
  }

  lemma EventsSnoc(records: seq<LogRecord>, last: LogRecord, utf8: seq<byte> -> bool)
    requires forall i :: 0 <= i < |records| ==> Defect(records[i], utf8).None?
    requires Defect(last, utf8).None?
    ensures forall i :: 0 <= i < |records + [last]| ==> Defect((records + [last])[i], utf8).None?
    ensures EventsOf(records + [last], utf8) == EventsOf(records, utf8) + EventsOf([last], utf8)
  {
    hide EventCodec.Decoded;
  }

  /** `error` is what is wrong with the first defective record. */
  ghost predicate FirstDefect(records: seq<LogRecord>, error: RebuildError, utf8: seq<byte> -> bool) {
    exists k :: 0 <= k < |records| && Defect(records[k], utf8) == Some(error) && SoundBefore(records, k, utf8)
  }

  ghost predicate AllSound(records: seq<LogRecord>, utf8: seq<byte> -> bool) {
    SoundBefore(records, |records|, utf8)
  }

  /** Each record reads as its event, or is damaged. */
  ghost predicate Copies(records: seq<LogRecord>, events: seq<Event>, utf8: seq<byte> -> bool) {
    && |records| == |events|
    && forall i :: 0 <= i < |records| && Defect(records[i], utf8).None? ==> EventsOf([records[i]], utf8) == [events[i]]
  }

  lemma {:induction false} CopiesRead(records: seq<LogRecord>, events: seq<Event>, utf8: seq<byte> -> bool)
    requires Copies(records, events, utf8) && AllSound(records, utf8)
    ensures EventsOf(records, utf8) == events
  {
    hide Defect, EventsOf;
    if records == [] {
      NoEvents(utf8);
    } else {
      var n := |records| - 1;
      CopiesRead(records[..n], events[..n], utf8);
      EventsSnoc(records[..n], records[n], utf8);
      assert records == records[..n] + [records[n]];
    }
  }

  ghost predicate SoundBefore(records: seq<LogRecord>, k: nat, utf8: seq<byte> -> bool)
    requires k <= |records|
  {
    forall i :: 0 <= i < k ==> Defect(records[i], utf8).None?
  }
}
