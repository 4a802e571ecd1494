/** Record framing in a segment file: an eight-byte head (length with flags, checksum) and a payload.
    `Parse` is the one definition every reader must agree with. */
module Record {
  import opened Bytes

  const LEN_SIZE: nat := 4
  const HEAD: nat := 8
  const CONTROL_FLAG: nat := 0x4000_0000
  const LENGTH_MASK: nat := 0x3FFF_FFFF
  const BATCH_COMMIT: byte := 0x01
  const MARKER_PAYLOAD: nat := 9

  datatype Record = Record(header: seq<byte>, data: seq<byte>, offset: nat, len: nat)

  datatype ReadError =
    | Crc32cMismatch(at: nat)
    | OutOfBounds(at: nat, length: nat, flushed: nat)
    | TruncationMarker(at: nat)
    | ControlRecord(at: nat, len: nat)
    | Corrupt(at: nat)
    | UnexpectedEof
    | SlicePanic // a data payload shorter than the caller's header

  // ------------------------------------------------------------------ the length field

  /** Bit 31 is reserved and must be zero. */
  predicate UnknownFlags(raw: nat) { raw >= 0x8000_0000 }

  predicate IsControl(raw: nat) { (raw / CONTROL_FLAG) % 2 == 1 }

  function PayloadLen(raw: nat): (n: nat) { raw % CONTROL_FLAG }

  predicate IsTruncation(head: seq<byte>) { forall i :: 0 <= i < |head| ==> head[i] == 0 }

  // ------------------------------------------------------------------ parsing

  function Checks(head: seq<byte>, payload: seq<byte>, crc: Checksum): (ok: bool)
    requires |head| == HEAD
  {
    crc(head[..LEN_SIZE] + payload) == FromLE(head[LEN_SIZE..])
  }

  /** What a validated head and its payload amount to. */
  function Body(head: seq<byte>, payload: seq<byte>, offset: nat, headerLen: nat, crc: Checksum)
    : (r: Result<Record, ReadError>)
    requires |head| == HEAD
  {
    if IsControl(FromLE(head[..LEN_SIZE])) then
      if Checks(head, payload, crc) then Err(ControlRecord(offset, HEAD + |payload|)) else Err(Crc32cMismatch(offset))
    else if |payload| < headerLen then Err(SlicePanic)
    else if Checks(head, payload, crc) then
      Ok(Record(payload[..headerLen], payload[headerLen..], offset, HEAD + |payload|))
    else Err(Crc32cMismatch(offset))
  }

  /** The record at `offset` of `bytes`. */
  function Parse(bytes: seq<byte>, offset: nat, headerLen: nat, crc: Checksum): (r: Result<Record, ReadError>) {
    if offset + HEAD > |bytes| then Err(OutOfBounds(offset, HEAD, |bytes|))
    else
      var head := bytes[offset..offset + HEAD];
      if IsTruncation(head) then Err(TruncationMarker(offset))
      else
        var raw := FromLE(head[..LEN_SIZE]);
        if UnknownFlags(raw) then Err(Corrupt(offset))
        else
          var end := offset + HEAD + PayloadLen(raw);
          if end > |bytes| then Err(OutOfBounds(offset, HEAD + PayloadLen(raw), |bytes|))
          else Body(head, bytes[offset + HEAD..end], offset, headerLen, crc)
  }

  // ------------------------------------------------------------------ framing

  /** What a segment holds: a caller's record (its header and data run together), or a control
      record. */
  datatype Entry = Data(payload: seq<byte>) | Control(payload: seq<byte>)
  {
    /** The length field, a data length truncated to 32 bits as the cast truncates it. */
    function Raw(): (n: nat) {
      if Data? then |payload| % (U32_MAX + 1) else |payload| + CONTROL_FLAG
    }

    /** A control record that commits everything before it. */
    predicate Commits() {
      Control? && |payload| == MARKER_PAYLOAD && payload[0] == BATCH_COMMIT
    }

    /** The position a commit marker stores. */
    function Position(): (p: nat) {
      if payload == [] then 0 else FromLE(payload[1..])
    }
  }

  /** The marker that commits a batch ending at `position`. */
  function Marker(position: nat): (e: Entry)
    ensures e.Commits()
  {
    Control([BATCH_COMMIT] + LE(position, 8))
  }

  lemma MarkerPosition(position: nat)
    requires position <= U64_MAX
    ensures Marker(position).Position() == position
  {
    hide LE, FromLE;
    Capacities();
    LERoundTrip(position, 8);
    assert Marker(position).payload[1..] == LE(position, 8);
  }

  function Frame(e: Entry, crc: Checksum): (b: seq<byte>)
    ensures |b| == HEAD + |e.payload|
  {
    var len := LE(e.Raw(), 4);
    len + LE(crc(len + e.payload), 4) + e.payload
  }

  /** An entry the format can carry. */
  predicate Fits(e: Entry) {
    |e.payload| <= LENGTH_MASK
  }

  /** The checksum of a zero length field is not zero. An empty record's head would otherwise be all
      zeros, which reads as the end of the log. */
  predicate Distinguishes(crc: Checksum) {
    crc([0, 0, 0, 0]) != 0
  }

  lemma HeadSlices(len: seq<byte>, sum: seq<byte>, payload: seq<byte>)
    requires |len| == 4 && |sum| == 4
    ensures var f := len + sum + payload;
            && f[..HEAD] == len + sum && f[HEAD..] == payload
            && f[..HEAD][..LEN_SIZE] == len && f[..HEAD][LEN_SIZE..] == sum
  {
  }

  lemma FrameFields(e: Entry, crc: Checksum)
    requires e.Raw() <= U32_MAX
    ensures var head := Frame(e, crc)[..HEAD];
            && FromLE(head[..LEN_SIZE]) == e.Raw() && head[..LEN_SIZE] == LE(e.Raw(), 4)
            && Checks(head, e.payload, crc) && Frame(e, crc)[HEAD..] == e.payload
  {
    hide LE, FromLE;
    var len := LE(e.Raw(), 4);
    var sum := crc(len + e.payload);
    Capacities();
    LERoundTrip(e.Raw(), 4);
    LERoundTrip(sum, 4);
    HeadSlices(len, LE(sum, 4), e.payload);
  }

  lemma RawFields(e: Entry)
    requires Fits(e)
    ensures e.Raw() <= U32_MAX && !UnknownFlags(e.Raw()) && PayloadLen(e.Raw()) == |e.payload|
    ensures IsControl(e.Raw()) <==> e.Control?
  {
  }

  /** The length field of a data record is its length cast to 32 bits. */
  lemma RawTruncates(payload: seq<byte>)
    ensures Data(payload).Raw() <= U32_MAX && (|payload| - Data(payload).Raw()) % (U32_MAX + 1) == 0
  {
  }

  lemma ZeroHead(head: seq<byte>)
    requires |head| == HEAD
    ensures IsTruncation(head) <==> FromLE(head[..LEN_SIZE]) == 0 && FromLE(head[LEN_SIZE..]) == 0
  {
    hide FromLE;
    var a, b := head[..LEN_SIZE], head[LEN_SIZE..];
    FromLEZero(a);
    FromLEZero(b);
    assert head == a + b;
    assert forall i :: 0 <= i < 4 ==> a[i] == head[i] && b[i] == head[i + 4];
    if IsTruncation(a) && IsTruncation(b) {
      forall i | 0 <= i < |head| ensures head[i] == 0 {
        if i >= 4 { assert b[i - 4] == head[i]; } else { assert a[i] == head[i]; }
      }
    }
  }

  lemma EmptyFrame(head: seq<byte>, crc: Checksum)
    requires |head| == HEAD && FromLE(head[..LEN_SIZE]) == 0 && Checks(head, [], crc)
    ensures IsTruncation(head) <==> !Distinguishes(crc)
  {
    hide FromLE;
    ZeroHead(head);
    FromLEZero(head[..LEN_SIZE]);
    assert head[..LEN_SIZE] + [] == [0, 0, 0, 0];
  }

  /** Only an empty data record could have an all-zero head, and the checksum keeps it from that. */
  lemma FrameIsNotTruncation(e: Entry, crc: Checksum)
    requires Fits(e) && Distinguishes(crc)
    ensures !IsTruncation(Frame(e, crc)[..HEAD])
  {
    hide LE, FromLE, Frame;
    RawFields(e);
    FrameFields(e, crc);
    var head := Frame(e, crc)[..HEAD];
    ZeroHead(head);
    if e.Data? && |e.payload| == 0 {
      assert e.payload == [];
      EmptyFrame(head, crc);
    }
  }

  /** What each entry parses to. */
  function Read(e: Entry, offset: nat, headerLen: nat): (r: Result<Record, ReadError>) {
    if e.Control? then Err(ControlRecord(offset, HEAD + |e.payload|))
    else if |e.payload| < headerLen then Err(SlicePanic)
    else Ok(Record(e.payload[..headerLen], e.payload[headerLen..], offset, HEAD + |e.payload|))
  }

  /** A framed entry parses back, wherever it sits. */
  lemma FrameParses(bytes: seq<byte>, offset: nat, e: Entry, headerLen: nat, crc: Checksum)
    requires Fits(e) && Distinguishes(crc) && Holds(bytes, offset, Frame(e, crc))
    ensures Parse(bytes, offset, headerLen, crc) == Read(e, offset, headerLen)
  {
    FrameIsNotTruncation(e, crc);
    VisibleFrameParses(bytes, offset, e, headerLen, crc);
  }

  lemma VisibleFrameParses(bytes: seq<byte>, offset: nat, e: Entry, headerLen: nat, crc: Checksum)
    requires Fits(e) && Holds(bytes, offset, Frame(e, crc)) && !IsTruncation(Frame(e, crc)[..HEAD])
    ensures Parse(bytes, offset, headerLen, crc) == Read(e, offset, headerLen)
  {
    hide LE, FromLE, Frame, IsTruncation, Checks;
    RawFields(e);
    FrameFields(e, crc);
    HeldPieces(bytes, offset, Frame(e, crc));
  }

  lemma HeldPieces(bytes: seq<byte>, offset: nat, f: seq<byte>)
    requires Holds(bytes, offset, f) && |f| >= HEAD
    ensures bytes[offset..offset + HEAD] == f[..HEAD]
    ensures bytes[offset + HEAD..offset + |f|] == f[HEAD..]
  {
    assert bytes[offset..offset + HEAD] == bytes[offset..offset + |f|][..HEAD];
    assert bytes[offset + HEAD..offset + |f|] == bytes[offset..offset + |f|][HEAD..];
  }

  /** Exactly when a caller's record survives its own framing: the length must fit 30 bits, which
      `set_max_record` does not enforce, and an empty record needs the checksum's help. */
  lemma DataSurvivesIff(header: seq<byte>, data: seq<byte>, crc: Checksum)
    ensures var e := Data(header + data);
            Parse(Frame(e, crc), 0, |header|, crc) == Ok(Record(header, data, 0, HEAD + |header + data|))
            <==> |header + data| <= LENGTH_MASK && (header + data == [] ==> Distinguishes(crc))
  {
    hide LE, FromLE, Frame, Checks;
    var e := Data(header + data);
    var f := Frame(e, crc);
    FrameFields(e, crc);
    HeldPieces(f, 0, f);
    assert Holds(f, 0, f);
    assert f[0..0 + HEAD] == f[..HEAD];
    if |header + data| <= LENGTH_MASK {
      RawFields(e);
      FromLEZero(f[..HEAD][..LEN_SIZE]);
      FromLEZero(f[..HEAD][LEN_SIZE..]);
      ZeroHead(f[..HEAD]);
      if header + data == [] {
        assert e.payload == [];
        EmptyFrame(f[..HEAD], crc);
      }
    } else {
      assert e.Raw() % CONTROL_FLAG < |header + data|;
    }
  }

  /** A head whose checksum agrees is the head of exactly one entry, which sits right there. */
  lemma CheckedIsFramed(bytes: seq<byte>, offset: nat, crc: Checksum) returns (e: Entry)
    requires offset + HEAD <= |bytes|
    requires var head := bytes[offset..offset + HEAD];
             var raw := FromLE(head[..LEN_SIZE]);
             && !UnknownFlags(raw) && offset + HEAD + PayloadLen(raw) <= |bytes|
             && Checks(head, bytes[offset + HEAD..offset + HEAD + PayloadLen(raw)], crc)
    ensures Fits(e) && Holds(bytes, offset, Frame(e, crc))
    ensures var raw := FromLE(bytes[offset..offset + HEAD][..LEN_SIZE]);
            e.payload == bytes[offset + HEAD..offset + HEAD + PayloadLen(raw)] && (e.Control? <==> IsControl(raw))
  {
    hide LE, FromLE;
    var head := bytes[offset..offset + HEAD];
    var raw := FromLE(head[..LEN_SIZE]);
    var payload := bytes[offset + HEAD..offset + HEAD + PayloadLen(raw)];
    e := if IsControl(raw) then Control(payload) else Data(payload);
    assert e.Raw() == raw;
    FromLERoundTrip(head[..LEN_SIZE]);
    FromLERoundTrip(head[LEN_SIZE..]);
    assert Frame(e, crc) == head[..LEN_SIZE] + head[LEN_SIZE..] + payload;
    assert bytes[offset..offset + HEAD + |payload|] == head + payload;
  }

  // ------------------------------------------------------------------ what each answer means

  ghost predicate Sits(bytes: seq<byte>, offset: nat, e: Entry, crc: Checksum) {
    Fits(e) && Holds(bytes, offset, Frame(e, crc))
  }

  /** A record is returned exactly where a caller's entry with room for its header was framed, a control record
      reported exactly where a control entry was. */
  lemma ParsesIff(bytes: seq<byte>, offset: nat, headerLen: nat, crc: Checksum)
    requires Distinguishes(crc)
    ensures var r := Parse(bytes, offset, headerLen, crc);
            && (r.Ok? <==> exists e :: Sits(bytes, offset, e, crc) && e.Data? && |e.payload| >= headerLen)
            && (r.Err? && r.error.ControlRecord? <==> exists e :: Sits(bytes, offset, e, crc) && e.Control?)
  {
    hide FromLE, Frame, Checks, IsTruncation;
    var r := Parse(bytes, offset, headerLen, crc);
    if r.Ok? || r.error.ControlRecord? {
      var e := CheckedIsFramed(bytes, offset, crc);
      assert Sits(bytes, offset, e, crc);
    }
    forall e | Sits(bytes, offset, e, crc) ensures r == Read(e, offset, headerLen) {
      FrameParses(bytes, offset, e, headerLen, crc);
    }
  }

  /** The length a head declares, from its four bytes. */
  function Declared(a: byte, b: byte, c: byte, d: byte): (n: nat) {
    a as int + 0x100 * b as int + 0x1_0000 * c as int + 0x100_0000 * (d as int % 64)
  }

  lemma LengthBytes(head: seq<byte>)
    requires |head| == HEAD
    ensures var raw := FromLE(head[..LEN_SIZE]);
            && raw == head[0] as int + 0x100 * head[1] as int + 0x1_0000 * head[2] as int + 0x100_0000 * head[3] as int
            && PayloadLen(raw) == Declared(head[0], head[1], head[2], head[3])
            && (UnknownFlags(raw) <==> head[3] >= 128) && (IsControl(raw) <==> head[3] as int / 64 % 2 == 1)
  {
    var b := head[..LEN_SIZE];
    assert FromLE(b[3..]) == b[3] + 256 * FromLE([]) by { assert b[3..][1..] == []; }
    assert FromLE(b[2..]) == b[2] + 256 * FromLE(b[3..]) by { assert b[2..][1..] == b[3..]; }
    assert FromLE(b[1..]) == b[1] + 256 * FromLE(b[2..]) by { assert b[1..][1..] == b[2..]; }
    hide FromLE;
  }

  /** Eight zeros end the log, a set top bit is corruption, and a record is out of bounds exactly when its head
      or what its head declares passes the end. */
  lemma ErrorsMean(bytes: seq<byte>, offset: nat, headerLen: nat, crc: Checksum)
    ensures var r := Parse(bytes, offset, headerLen, crc);
            if offset + HEAD > |bytes| then r == Err(OutOfBounds(offset, HEAD, |bytes|))
            else
              var len := HEAD + Declared(bytes[offset], bytes[offset + 1], bytes[offset + 2], bytes[offset + 3]);
              var end := forall i :: offset <= i < offset + HEAD ==> bytes[i] == 0;
              var flagged := bytes[offset + 3] >= 128;
              && (r == Err(TruncationMarker(offset)) <==> end)
              && (r == Err(Corrupt(offset)) <==> flagged)
              && (r == Err(OutOfBounds(offset, len, |bytes|)) <==> !end && !flagged && offset + len > |bytes|)
              && (r == Err(SlicePanic) <==>
                    && !end && bytes[offset + 3] < 64 && offset + len <= |bytes| && len < HEAD + headerLen)
              && (r.Err? ==> r.error in {TruncationMarker(offset), Corrupt(offset), OutOfBounds(offset, len, |bytes|),
                                         ControlRecord(offset, len), Crc32cMismatch(offset), SlicePanic})
              && (r.Ok? ==> r.value.offset == offset && r.value.len == len)
  {
    hide FromLE, Checks, UnknownFlags, PayloadLen, IsControl;
    if offset + HEAD <= |bytes| {
      var head := bytes[offset..offset + HEAD];
      LengthBytes(head);
      assert forall i :: 0 <= i < HEAD ==> head[i] == bytes[offset + i];
      assert IsTruncation(head) <==> forall i :: offset <= i < offset + HEAD ==> bytes[i] == 0 by {
        if IsTruncation(head) {
          forall i | offset <= i < offset + HEAD ensures bytes[i] == 0 { assert head[i - offset] == 0; }
        }
      }
    }
  }

  // ------------------------------------------------------------------ iterating

  /** The length of a valid control record at `offset`, so that an iterator can step over it. */
  function ControlLen(bytes: seq<byte>, offset: nat, crc: Checksum): (len: Option<nat>)
    ensures len.Some? ==> HEAD <= len.value && offset + len.value <= |bytes|
  {
    if offset + HEAD > |bytes| then None
    else
      var head := bytes[offset..offset + HEAD];
      var raw := FromLE(head[..LEN_SIZE]);
      var end := offset + HEAD + PayloadLen(raw);
      if IsTruncation(head) || !IsControl(raw) || UnknownFlags(raw) || end > |bytes| then None
      else if Checks(head, bytes[offset + HEAD..end], crc) then Some(HEAD + PayloadLen(raw))
      else None
  }

  lemma ParsedFits(bytes: seq<byte>, offset: nat, headerLen: nat, crc: Checksum)
    ensures var r := Parse(bytes, offset, headerLen, crc);
            r.Ok? ==>
              && r.value.offset == offset && HEAD <= r.value.len <= HEAD + LENGTH_MASK
              && offset + r.value.len <= |bytes|
  {
  }

  /** All an iterator over `bytes` yields from `offset` on, until it stops. */
  function Drain(bytes: seq<byte>, offset: nat, headerLen: nat, crc: Checksum): (records: seq<Record>)
    decreases if offset <= |bytes| then |bytes| - offset else 0
  {
    var control := ControlLen(bytes, offset, crc);
    if control.Some? then Drain(bytes, offset + control.value, headerLen, crc)
    else
      ParsedFits(bytes, offset, headerLen, crc);
      match Parse(bytes, offset, headerLen, crc)
      case Ok(record) => [record] + Drain(bytes, offset + record.len, headerLen, crc)
      case Err(_) => []
  }

  /** The first offset, from `offset` on, where no control record sits. */
  function PastControl(bytes: seq<byte>, offset: nat, crc: Checksum): (at: nat)
    ensures offset <= at && ControlLen(bytes, at, crc).None?
    decreases if offset <= |bytes| then |bytes| - offset else 0
  {
    var control := ControlLen(bytes, offset, crc);
    if control.Some? then PastControl(bytes, offset + control.value, crc) else offset
  }

  /** How an iterator ends: cleanly where the log does, or on the error of the record it cannot get past. */
  function DrainEnd(bytes: seq<byte>, offset: nat, headerLen: nat, crc: Checksum): (end: Option<ReadError>)
    decreases if offset <= |bytes| then |bytes| - offset else 0
  {
    var control := ControlLen(bytes, offset, crc);
    if control.Some? then DrainEnd(bytes, offset + control.value, headerLen, crc)
    else
      ParsedFits(bytes, offset, headerLen, crc);
      match Parse(bytes, offset, headerLen, crc)
      case Ok(record) => DrainEnd(bytes, offset + record.len, headerLen, crc)
      case Err(OutOfBounds(_, _, _)) => None
      case Err(TruncationMarker(_)) => None
      case Err(error) => Some(error)
  }

  /** Control records neither yield anything nor end the iteration. */
  lemma {:induction false} DrainPastControl(bytes: seq<byte>, offset: nat, headerLen: nat, crc: Checksum)
    ensures var at := PastControl(bytes, offset, crc);
            && Drain(bytes, offset, headerLen, crc) == Drain(bytes, at, headerLen, crc)
            && DrainEnd(bytes, offset, headerLen, crc) == DrainEnd(bytes, at, headerLen, crc)
    decreases if offset <= |bytes| then |bytes| - offset else 0
  {
    hide Parse, ControlLen;
    var control := ControlLen(bytes, offset, crc);
    if control.Some? {
      DrainPastControl(bytes, offset + control.value, headerLen, crc);
    }
  }

  /** A control record is exactly what the parser refuses as one. */
  lemma ControlLenIsParse(bytes: seq<byte>, offset: nat, headerLen: nat, crc: Checksum)
    ensures ControlLen(bytes, offset, crc).Some? <==>
              Parse(bytes, offset, headerLen, crc).Err? && Parse(bytes, offset, headerLen, crc).error.ControlRecord?
    ensures ControlLen(bytes, offset, crc).Some? ==>
              Parse(bytes, offset, headerLen, crc) == Err(ControlRecord(offset, ControlLen(bytes, offset, crc).value))
  {
    hide FromLE, IsTruncation, Checks;
  }

  /** An iterator only yields records from where it stands on, and none longer than 30 bits can say. */
  lemma {:induction false} DrainFrom(bytes: seq<byte>, offset: nat, headerLen: nat, crc: Checksum)
    ensures forall r :: r in Drain(bytes, offset, headerLen, crc) ==>
                        offset <= r.offset && r.len <= HEAD + LENGTH_MASK
    decreases if offset <= |bytes| then |bytes| - offset else 0
  {
    hide Parse, ControlLen;
    var control, parsed := ControlLen(bytes, offset, crc), Parse(bytes, offset, headerLen, crc);
    ParsedFits(bytes, offset, headerLen, crc);
    if control.Some? {
      DrainFrom(bytes, offset + control.value, headerLen, crc);
    } else if parsed.Ok? {
      DrainFrom(bytes, offset + parsed.value.len, headerLen, crc);
    }
  }

  /** A record that parses in a cut file parses in the whole one. */
  lemma ParsedInCut(bytes: seq<byte>, cut: nat, offset: nat, headerLen: nat, crc: Checksum)
    requires cut <= |bytes|
    ensures var part := bytes[..cut];
            && (ControlLen(part, offset, crc).Some? ==> ControlLen(bytes, offset, crc) == ControlLen(part, offset, crc))
            && (Parse(part, offset, headerLen, crc).Ok? ==>
                  Parse(bytes, offset, headerLen, crc) == Parse(part, offset, headerLen, crc))
  {
    hide FromLE, IsTruncation, Checks;
    var part := bytes[..cut];
    if offset + HEAD <= cut {
      var raw := FromLE(bytes[offset..offset + HEAD][..LEN_SIZE]);
      var end := offset + HEAD + PayloadLen(raw);
      assert part[offset..offset + HEAD] == bytes[offset..offset + HEAD];
      assert end <= cut ==> part[offset + HEAD..end] == bytes[offset + HEAD..end];
    }
  }

  /** Reading a cut file yields nothing that reading the whole one does not. */
  lemma {:induction false} DrainCut(bytes: seq<byte>, cut: nat, offset: nat, headerLen: nat, crc: Checksum)
    requires cut <= |bytes|
    ensures forall r :: r in Drain(bytes[..cut], offset, headerLen, crc) ==> r in Drain(bytes, offset, headerLen, crc)
    decreases if offset <= cut then cut - offset else 0
  {
    hide Parse, ControlLen;
    var part := bytes[..cut];
    var control, parsed := ControlLen(part, offset, crc), Parse(part, offset, headerLen, crc);
    ParsedFits(part, offset, headerLen, crc);
    ParsedInCut(bytes, cut, offset, headerLen, crc);
    if control.Some? {
      DrainCut(bytes, cut, offset + control.value, headerLen, crc);
    } else if parsed.Ok? {
      ControlLenIsParse(bytes, offset, headerLen, crc);
      DrainCut(bytes, cut, offset + parsed.value.len, headerLen, crc);
    }
  }

  /** The callers' records of a run of entries, with their places. */
  function RecordsOf(entries: seq<Entry>, offset: nat, headerLen: nat): (records: seq<Record>) {
    if entries == [] then []
    else
      var r := Read(entries[0], offset, headerLen);
      var rest := RecordsOf(entries[1..], offset + HEAD + |entries[0].payload|, headerLen);
      if r.Ok? then [r.value] + rest else rest
  }
}
