/** The 64-byte preamble of an on-disk index segment: position range, section layout, two CRCs. */
module Header {
  import opened Bytes

  const HEADER_SIZE: nat := 64
  const MAGIC: seq<byte> := [0x45, 0x56, 0x49, 0x58] // "EVIX"
  const VERSION: nat := 0

  datatype Header = Header(
    version: nat, created: nat, base: nat, count: nat,
    typedict: nat, postings: nat, fst: nat, fstLen: nat, bodyCrc: nat)
  {
    /** Total size of the segment: header plus body. */
    function SegmentLen(): nat { fst + fstLen }
  }

  datatype HeaderError =
    | Unwritten
    | ChecksumMismatch(expected: nat, computed: nat)
    | BadMagic
    | UnsupportedVersion(found: nat)
    | DirtyPadding
    | TypeColumnMisplaced
    | TypeDictMisplaced
    | SectionsOutOfOrder
    | SectionsOverflow

  /** Every field fits its width on disk. */
  predicate Fits(h: Header) {
    && h.version <= U16_MAX && h.created <= U64_MAX && h.base <= U64_MAX && h.count <= U64_MAX
    && h.typedict <= U32_MAX && h.postings <= U32_MAX && h.fst <= U32_MAX && h.fstLen <= U32_MAX
    && h.bodyCrc <= U32_MAX
  }

  /** The sections partition the body in order: type column, type dictionary, postings, FST. */
  predicate LaidOut(h: Header) {
    && h.typedict == HEADER_SIZE + 2 * h.count
    && h.typedict <= h.postings <= h.fst
    && h.fst + h.fstLen <= U32_MAX
  }

  /** The fields before the header checksum, in their order on disk. */
  function Front(h: Header): (b: seq<byte>) {
    MAGIC + LE(h.version, 2) + LE(h.created, 8) + LE(h.base, 8) + LE(h.count, 8)
    + LE(HEADER_SIZE, 4) + LE(h.typedict, 4) + LE(h.postings, 4) + LE(h.fst, 4) + LE(h.fstLen, 4)
    + LE(h.bodyCrc, 4) + [0, 0, 0, 0, 0, 0]
  }

  function ToBytes(h: Header, crc: Checksum): (b: seq<byte>)
    ensures |b| == HEADER_SIZE
  {
    Front(h) + LE(crc(Front(h)), 4)
  }

  predicate AllZero(b: seq<byte>) {
    forall i :: 0 <= i < |b| ==> b[i] == 0
  }

  function Fields(b: seq<byte>): (h: Header)
    requires |b| == HEADER_SIZE
  {
    Header(FromLE(b[4..6]), FromLE(b[6..14]), FromLE(b[14..22]), FromLE(b[22..30]),
           FromLE(b[34..38]), FromLE(b[38..42]), FromLE(b[42..46]), FromLE(b[46..50]), FromLE(b[50..54]))
  }

  /** Decodes and validates: all-zero first, then the checksum, then the fields. */
  function FromBytes(b: seq<byte>, crc: Checksum): (r: Result<Header, HeaderError>)
    requires |b| == HEADER_SIZE
    ensures r.Ok? ==> LaidOut(r.value)
  {
    var h := Fields(b);
    if AllZero(b) then Err(Unwritten)
    else if FromLE(b[60..]) != crc(b[..60]) then Err(ChecksumMismatch(FromLE(b[60..]), crc(b[..60])))
    else if b[..4] != MAGIC then Err(BadMagic)
    else if h.version > VERSION then Err(UnsupportedVersion(h.version))
    else if !AllZero(b[54..60]) then Err(DirtyPadding)
    else if FromLE(b[30..34]) != HEADER_SIZE then Err(TypeColumnMisplaced)
    else if h.typedict != HEADER_SIZE + 2 * h.count then Err(TypeDictMisplaced)
    else if !(h.typedict <= h.postings <= h.fst) then Err(SectionsOutOfOrder)
    else if h.fst + h.fstLen > U32_MAX then Err(SectionsOverflow)
    else Ok(h)
  }

  /** Each field of an encoded header sits at its offset. */
  lemma FrontSlices(h: Header)
    ensures |Front(h)| == 60
    ensures Front(h)[..4] == MAGIC && Front(h)[4..6] == LE(h.version, 2)
    ensures Front(h)[6..14] == LE(h.created, 8) && Front(h)[14..22] == LE(h.base, 8)
    ensures Front(h)[22..30] == LE(h.count, 8) && Front(h)[30..34] == LE(HEADER_SIZE, 4)
    ensures Front(h)[34..38] == LE(h.typedict, 4) && Front(h)[38..42] == LE(h.postings, 4)
    ensures Front(h)[42..46] == LE(h.fst, 4) && Front(h)[46..50] == LE(h.fstLen, 4)
    ensures Front(h)[50..54] == LE(h.bodyCrc, 4) && Front(h)[54..60] == [0, 0, 0, 0, 0, 0]
  {
    hide LE;
  }

  lemma FieldsRoundTrip(h: Header, tail: seq<byte>)
    requires Fits(h) && |tail| == 4
    ensures Fields(Front(h) + tail) == h
  {
    hide LE, FromLE, Front;
    var b := Front(h) + tail;
    FrontSlices(h);
    Capacities();
    assert b[4..6] == LE(h.version, 2) && b[6..14] == LE(h.created, 8) && b[14..22] == LE(h.base, 8);
    assert b[22..30] == LE(h.count, 8) && b[34..38] == LE(h.typedict, 4) && b[38..42] == LE(h.postings, 4);
    assert b[42..46] == LE(h.fst, 4) && b[46..50] == LE(h.fstLen, 4) && b[50..54] == LE(h.bodyCrc, 4);
    LERoundTrip(h.version, 2); LERoundTrip(h.created, 8); LERoundTrip(h.base, 8); LERoundTrip(h.count, 8);
    LERoundTrip(h.typedict, 4); LERoundTrip(h.postings, 4); LERoundTrip(h.fst, 4);
    LERoundTrip(h.fstLen, 4); LERoundTrip(h.bodyCrc, 4);
  }

  /** A header decodes from its own encoding exactly when its version is known and its sections
      partition the body. */
  lemma RoundTrip(h: Header, crc: Checksum)
    requires Fits(h)
    ensures FromBytes(ToBytes(h, crc), crc) == Ok(h) <==> h.version == VERSION && LaidOut(h)
  {
    hide LE, FromLE, Front, Fields;
    var front := Front(h);
    var b := ToBytes(h, crc);
    FrontSlices(h);
    Capacities();
    FieldsRoundTrip(h, LE(crc(front), 4));
    LERoundTrip(crc(front), 4);
    LERoundTrip(HEADER_SIZE, 4);
    assert b[..60] == front && b[60..] == LE(crc(front), 4);
    assert b[..4] == front[..4] && b[54..60] == front[54..60] && b[30..34] == front[30..34];
    assert b[0] == front[..4][0] == 0x45;
  }

  /** What decodes is exactly the encoding of what it decodes to: no second spelling is accepted. */
  lemma Canonical(b: seq<byte>, crc: Checksum)
    requires |b| == HEADER_SIZE && FromBytes(b, crc).Ok?
    ensures ToBytes(FromBytes(b, crc).value, crc) == b
    ensures Fits(FromBytes(b, crc).value) && LaidOut(FromBytes(b, crc).value)
  {
    hide LE, FromLE;
    var h := Fields(b);
    Capacities();
    FromLERoundTrip(b[4..6]); FromLERoundTrip(b[6..14]); FromLERoundTrip(b[14..22]); FromLERoundTrip(b[22..30]);
    FromLERoundTrip(b[30..34]); FromLERoundTrip(b[34..38]); FromLERoundTrip(b[38..42]); FromLERoundTrip(b[42..46]);
    FromLERoundTrip(b[46..50]); FromLERoundTrip(b[50..54]); FromLERoundTrip(b[60..]);
    assert b[54..60] == [0, 0, 0, 0, 0, 0];
    assert Front(h) == b[..60];
  }

  /** What every header that fits its fields decodes to from its own encoding: itself, or the first thing that
      is wrong with it. */
  lemma EncodedSays(h: Header, crc: Checksum)
    requires Fits(h)
    ensures FromBytes(ToBytes(h, crc), crc)
         == if h.version != VERSION then Err(UnsupportedVersion(h.version))
            else if h.typedict != HEADER_SIZE + 2 * h.count then Err(TypeDictMisplaced)
            else if h.postings < h.typedict || h.fst < h.postings then Err(SectionsOutOfOrder)
            else if h.SegmentLen() > U32_MAX then Err(SectionsOverflow)
            else Ok(h)
  {
    hide LE, FromLE, Front, Fields;
    var front := Front(h);
    var b := ToBytes(h, crc);
    FrontSlices(h);
    Capacities();
    FieldsRoundTrip(h, LE(crc(front), 4));
    LERoundTrip(crc(front), 4);
    LERoundTrip(HEADER_SIZE, 4);
    assert b[..60] == front && b[60..] == LE(crc(front), 4);
    assert b[..4] == front[..4] && b[54..60] == front[54..60] && b[30..34] == front[30..34];
    assert b[0] == front[..4][0] == 0x45;
  }

  /** Zeros are a header that was never written; anything else whose last four bytes are not the checksum of
      the rest is damage. */
  lemma UnwrittenOrDamaged(b: seq<byte>, crc: Checksum)
    requires |b| == HEADER_SIZE
    ensures FromBytes(b, crc) == Err(Unwritten) <==> forall i :: 0 <= i < |b| ==> b[i] == 0
    ensures (exists i :: 0 <= i < |b| && b[i] != 0) && LE(crc(b[..60]), 4) != b[60..] ==>
              FromBytes(b, crc) == Err(ChecksumMismatch(FromLE(b[60..]), crc(b[..60])))
  {
    hide LE, FromLE, Fields;
    Capacities();
    LERoundTrip(crc(b[..60]), 4);
    FromLERoundTrip(b[60..]);
  }

  /** A front that was not laid down by this code, its checksum in order. */
  lemma ForeignSays(front: seq<byte>, crc: Checksum)
    requires |front| == 60 && FromLE(front[4..6]) == VERSION
    ensures front[..4] != MAGIC && front[0] != 0 ==> FromBytes(front + LE(crc(front), 4), crc) == Err(BadMagic)
    ensures front[..4] == MAGIC && (exists i :: 54 <= i < 60 && front[i] != 0) ==>
              FromBytes(front + LE(crc(front), 4), crc) == Err(DirtyPadding)
    ensures front[..4] == MAGIC && (forall i :: 54 <= i < 60 ==> front[i] == 0)
            && FromLE(front[30..34]) != HEADER_SIZE ==>
              FromBytes(front + LE(crc(front), 4), crc) == Err(TypeColumnMisplaced)
  {
    hide LE, FromLE;
    Capacities();
    LERoundTrip(crc(front), 4);
    var b := front + LE(crc(front), 4);
    assert b[..60] == front && b[60..] == LE(crc(front), 4) && b[..4] == front[..4] && b[0] == front[0];
    assert b[4..6] == front[4..6] && b[30..34] == front[30..34] && b[54..60] == front[54..60];
    assert forall i :: 54 <= i < 60 ==> front[i] == b[54..60][i - 54];
    assert front[..4] == MAGIC ==> front[0] == front[..4][0] == 0x45;
  }
}
