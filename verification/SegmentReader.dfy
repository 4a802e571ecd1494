/** Reading records back: three buffers for random access, a read-ahead window for sequential access,
    all of which must agree with the one parser. */
module SegmentReader {
  import opened Bytes
  import opened Record

  const PAGE_SIZE: nat := 4096
  const OPTIMISTIC_DATA_SIZE: nat := 2048
  const READ_AHEAD_SIZE: nat := 64 * 1024

  /** An open file. Reads do not move a position. */
  class File {
    var bytes: seq<byte>

    constructor (bytes: seq<byte>)
      ensures this.bytes == bytes
    {
      this.bytes := bytes;
    }

    /** Fills the front of `buf`, or fails when the file is too short. */
    method ReadExactAt(buf: array<byte>, n: nat, offset: nat) returns (ok: bool)
      requires n <= buf.Length
      modifies buf
      ensures ok <==> offset + n <= |bytes|
      ensures ok ==> buf[..n] == bytes[offset..offset + n]
    {
      if offset + n > |bytes| {
        return false;
      }
      forall i | 0 <= i < n {
        buf[i] := bytes[offset + i];
      }
      return true;
    }

    /** One `read_at`: as much as it feels like, but something unless at the end. */
    method ReadAt(n: nat, offset: nat) returns (b: seq<byte>)
      ensures |b| <= n && offset + |b| <= Max(offset, |bytes|)
      ensures b == [] <==> n == 0 || offset >= |bytes|
      ensures b != [] ==> b == bytes[offset..offset + |b|]
    {
      if n == 0 || offset >= |bytes| {
        return [];
      }
      var k: nat :| 1 <= k <= n && offset + k <= |bytes|;
      return bytes[offset..offset + k];
    }

    method WriteAllAt(b: seq<byte>, offset: nat)
      requires offset + |b| <= |bytes|
      modifies this
      ensures bytes == old(bytes)[..offset] + b + old(bytes)[offset + |b|..]
    {
      bytes := bytes[..offset] + b + bytes[offset + |b|..];
    }
  }

  // ------------------------------------------------------------------ the read-ahead window

  /** The size of a window that covers `length` bytes: at least 64 KiB, in whole pages. */
  function WindowSize(length: nat): (n: nat)
    ensures n >= length && n >= READ_AHEAD_SIZE && n < Max(length, READ_AHEAD_SIZE) + PAGE_SIZE && n % PAGE_SIZE == 0
  {
    (Max(length, READ_AHEAD_SIZE) + PAGE_SIZE - 1) / PAGE_SIZE * PAGE_SIZE
  }

  class ReadAheadBuf {
    var buf: seq<byte>
    var offset: nat
    var validLen: nat

    constructor ()
      ensures validLen == 0 && offset == 0
    {
      buf, offset, validLen := [], 0, 0;
    }

    /** The window shows what `file` holds. */
    ghost predicate Coherent(file: seq<byte>)
      reads this
    {
      && validLen <= |buf|
      && (validLen > 0 ==> Holds(file, offset, buf[..validLen]))
    }

    /** The window begins at the aligned offset below `at` and covers the request in whole pages, as far as the
        file goes. */
    ghost predicate Filled(file: seq<byte>, at: nat, length: nat)
      reads this
    {
      && offset == at - at % READ_AHEAD_SIZE && |buf| == WindowSize(at + length - offset)
      && validLen == if offset <= |file| then Min(|buf|, |file| - offset) else 0
    }

    predicate Overlaps(at: nat, len: nat)
      reads this
    {
      validLen != 0 && at < offset + validLen && offset < at + len
    }

    method Invalidate()
      modifies `validLen
      ensures validLen == 0
    {
      validLen := 0;
    }

    /** `length` bytes at `at`: from the window, which stays, if it has them, else through a window refilled
        there. */
    method Read(file: File, at: nat, length: nat) returns (r: Result<seq<byte>, ReadError>)
      requires Coherent(file.bytes)
      modifies this
      ensures Coherent(file.bytes)
      ensures at + length <= |file.bytes| ==> r == Ok(file.bytes[at..at + length])
      ensures at + length > |file.bytes| && length > 0 ==> r == Err(UnexpectedEof)
      ensures if old(offset) <= at && at + length <= old(offset + validLen)
              then buf == old(buf) && offset == old(offset) && validLen == old(validLen)
              else Filled(file.bytes, at, length)
    {
      if at >= offset && at + length <= offset + validLen {
        WindowSlice(file.bytes, at, length);
        return Ok(buf[at - offset..at - offset + length]);
      }
      Fill(file, at, length);
      if at < offset || at + length > offset + validLen {
        return Err(UnexpectedEof);
      }
      WindowSlice(file.bytes, at, length);
      return Ok(buf[at - offset..at - offset + length]);
    }

    lemma WindowSlice(file: seq<byte>, at: nat, length: nat)
      requires Coherent(file) && offset <= at && at + length <= offset + validLen
      ensures at + length <= |file| ==> buf[at - offset..at - offset + length] == file[at..at + length]
    {
      if validLen > 0 {
        PrefixSlice(buf, validLen, at - offset, at - offset + length);
        SliceOfSlice(file, offset, validLen, at - offset, at - offset + length);
      }
    }

    /** Refills the window from an aligned offset, wide enough for the request, as far as the file
        goes. */
    method Fill(file: File, at: nat, length: nat)
      modifies this
      ensures Coherent(file.bytes) && offset <= at
      ensures at + length <= |file.bytes| ==> at + length <= offset + validLen
      ensures Filled(file.bytes, at, length)
    {
      var end := at + length;
      offset := at - at % READ_AHEAD_SIZE;
      var required := WindowSize(end - offset);
      if |buf| != required {
        buf := Resized(buf, required);
      }
      hide WindowSize;
      Load(file, required);
    }

    /** Reads until the window is full or the file ends. */
    method Load(file: File, required: nat)
      requires |buf| == required
      modifies `buf, `validLen
      ensures Coherent(file.bytes) && |buf| == required
      ensures validLen == if offset <= |file.bytes| then Min(required, |file.bytes| - offset) else 0
    {
      var total: nat := 0;
      validLen := 0;
      while total < required
        invariant total <= required == |buf| && validLen == 0
        invariant total > 0 ==> Holds(file.bytes, offset, buf[..total])
        decreases required - total
      {
        var more := file.ReadAt(required - total, offset + total);
        if more == [] {
          break;
        }
        Stored(file.bytes, offset, buf, total, more);
        buf := buf[..total] + more + buf[total + |more|..];
        total := total + |more|;
      }
      validLen := total;
    }
  }

  function Resized(buf: seq<byte>, n: nat): (b: seq<byte>)
    ensures |b| == n
  {
    if |buf| >= n then buf[..n] else buf + seq(n - |buf|, _ => 0)
  }

  lemma Stored(file: seq<byte>, offset: nat, buf: seq<byte>, total: nat, more: seq<byte>)
    requires total + |more| <= |buf| && more != [] && Holds(file, offset + total, more)
    requires total > 0 ==> Holds(file, offset, buf[..total])
    ensures Holds(file, offset, (buf[..total] + more + buf[total + |more|..])[..total + |more|])
  {
    assert (buf[..total] + more + buf[total + |more|..])[..total + |more|] == buf[..total] + more;
    var mid, end := offset + total, offset + total + |more|;
    assert file[offset..end] == file[offset..mid] + file[mid..end];
  }

  // ------------------------------------------------------------------ the reader

  datatype Hint = Random | Sequential

  datatype Kind = DataRecord(total: nat) | ControlKind(total: nat) | End

  /** What the four length bytes at `offset` declare, damaged or not. */
  function KindAt(bytes: seq<byte>, offset: nat): (kind: Kind)
    requires offset + HEAD <= |bytes|
  {
    var total := HEAD + Declared(bytes[offset], bytes[offset + 1], bytes[offset + 2], bytes[offset + 3]);
    if bytes[offset + 3] as int / 64 % 2 == 1 then ControlKind(total) else DataRecord(total)
  }

  /** The durable end a writer publishes. */
  class FlushedOffset {
    var value: nat

    constructor (value: nat)
      ensures this.value == value
    {
      this.value := value;
    }
  }

  lemma PrefixSlice(bytes: seq<byte>, n: nat, a: nat, b: nat)
    requires a <= b <= n <= |bytes|
    ensures bytes[..n][a..b] == bytes[a..b]
  {
  }

  /** A slice of a piece read from `offset` is a slice of the file. */
  lemma PieceSlice(file: seq<byte>, offset: nat, piece: seq<byte>, a: nat, b: nat)
    requires Holds(file, offset, piece) && a <= b <= |piece|
    ensures piece[a..b] == file[offset + a..offset + b]
  {
    SliceOfSlice(file, offset, |piece|, a, b);
  }

  class Reader {
    const headerLen: nat
    const crc: Checksum
    const file: File
    const flushed: FlushedOffset
    const optimistic: array<byte>
    const fallback: array<byte>
    const window: ReadAheadBuf

    constructor (file: File, flushed: FlushedOffset, headerLen: nat, crc: Checksum)
      requires flushed.value <= |file.bytes|
      ensures Valid() && this.file == file && this.flushed == flushed && this.headerLen == headerLen && this.crc == crc
      ensures fresh(optimistic) && fresh(fallback) && fresh(window)
    {
      this.file, this.flushed, this.headerLen, this.crc := file, flushed, headerLen, crc;
      optimistic := new byte[HEAD + OPTIMISTIC_DATA_SIZE](_ => 0);
      fallback := new byte[PAGE_SIZE](_ => 0);
      window := new ReadAheadBuf();
    }

    /** The buffers have their sizes, the window shows the file, and the file is at least as long as
        what has been flushed. */
    ghost predicate Valid()
      reads this, file, flushed, window
    {
      && optimistic.Length == HEAD + OPTIMISTIC_DATA_SIZE && fallback.Length == PAGE_SIZE && optimistic != fallback
      && flushed.value <= |file.bytes| && window.Coherent(file.bytes)
    }

    /** What a reader may look at. */
    ghost function Visible(): (bytes: seq<byte>)
      requires Valid()
      reads this, file, flushed, window
    {
      file.bytes[..flushed.value]
    }

    /** The record at `offset`, a random read through the reader's own buffers and a sequential one through the
        window. */
    method ReadRecord(offset: nat, hint: Hint) returns (r: Result<Record, ReadError>)
      requires Valid()
      modifies optimistic, fallback, window
      ensures Valid()
      ensures r == Parse(Visible(), offset, headerLen, crc)
      ensures hint.Random? ==> unchanged(window)
      ensures hint.Sequential? ==> unchanged(optimistic) && unchanged(fallback)
    {
      if offset + HEAD > flushed.value {
        return Err(OutOfBounds(offset, HEAD, flushed.value));
      }
      if hint.Sequential? {
        r := ReadSequential(offset);
      } else {
        r := ReadRandom(offset);
      }
    }

    method ReadRandom(offset: nat) returns (r: Result<Record, ReadError>)
      requires Valid() && offset + HEAD <= flushed.value
      modifies optimistic, fallback
      ensures r == Parse(Visible(), offset, headerLen, crc)
    {
      hide FromLE, IsTruncation, Body;
      var n := Min(HEAD + OPTIMISTIC_DATA_SIZE, flushed.value - offset);
      var ok := file.ReadExactAt(optimistic, n, offset);
      var head := optimistic[..HEAD];
      PrefixSlice(optimistic[..], n, 0, HEAD);
      PieceSlice(file.bytes, offset, optimistic[..n], 0, HEAD);
      PrefixSlice(file.bytes, flushed.value, offset, offset + HEAD);
      if IsTruncation(head) {
        return Err(TruncationMarker(offset));
      }
      var raw := FromLE(head[..LEN_SIZE]);
      if UnknownFlags(raw) {
        return Err(Corrupt(offset));
      }
      var len := PayloadLen(raw);
      if offset + HEAD + len > flushed.value {
        return Err(OutOfBounds(offset, HEAD + len, flushed.value));
      }
      PrefixSlice(file.bytes, flushed.value, offset + HEAD, offset + HEAD + len);
      var payload := Payload(offset, len, n);
      r := Finish(head, payload, offset);
    }

    /** The payload: from the optimistic read if it got that far, else a second read into the fallback
        buffer, or into one of its own. */
    method Payload(offset: nat, len: nat, n: nat) returns (payload: seq<byte>)
      requires Valid() && offset + HEAD + len <= flushed.value
      requires n <= optimistic.Length && Holds(file.bytes, offset, optimistic[..n])
      modifies fallback
      ensures payload == file.bytes[offset + HEAD..offset + HEAD + len]
      ensures var first := len <= OPTIMISTIC_DATA_SIZE && HEAD + len <= n;
              if first || len > fallback.Length then unchanged(fallback) else fallback[..len] == payload
    {
      if len <= OPTIMISTIC_DATA_SIZE && n >= HEAD + len {
        payload := optimistic[HEAD..HEAD + len];
        PieceSlice(file.bytes, offset, optimistic[..n], HEAD, HEAD + len);
        PrefixSlice(optimistic[..], n, HEAD, HEAD + len);
        assert optimistic[..][..n] == optimistic[..n] && optimistic[..][HEAD..HEAD + len] == payload;
      } else if len <= fallback.Length {
        var _ := file.ReadExactAt(fallback, len, offset + HEAD);
        payload := fallback[..len];
      } else {
        var buf := new byte[len](_ => 0);
        var _ := file.ReadExactAt(buf, len, offset + HEAD);
        payload := buf[..len];
      }
    }

    method ReadSequential(offset: nat) returns (r: Result<Record, ReadError>)
      requires Valid() && offset + HEAD <= flushed.value
      modifies window
      ensures Valid()
      ensures r == Parse(Visible(), offset, headerLen, crc)
    {
      hide FromLE, IsTruncation, Body, ReadAheadBuf.Filled;
      var peeked := window.Read(file, offset, HEAD);
      var head := peeked.value;
      PrefixSlice(file.bytes, flushed.value, offset, offset + HEAD);
      if IsTruncation(head) {
        return Err(TruncationMarker(offset));
      }
      var raw := FromLE(head[..LEN_SIZE]);
      if UnknownFlags(raw) {
        return Err(Corrupt(offset));
      }
      var len := PayloadLen(raw);
      if offset + HEAD + len > flushed.value {
        return Err(OutOfBounds(offset, HEAD + len, flushed.value));
      }
      var payload := window.Read(file, offset + HEAD, len);
      PrefixSlice(file.bytes, flushed.value, offset + HEAD, offset + HEAD + len);
      r := Finish(head, payload.value, offset);
    }

    /** Cuts the caller's header off, checks the checksum over both parts, and keeps control records
        from the caller. */
    method Finish(head: seq<byte>, payload: seq<byte>, offset: nat) returns (r: Result<Record, ReadError>)
      requires |head| == HEAD
      ensures r == Body(head, payload, offset, headerLen, crc)
    {
      var control := IsControl(FromLE(head[..LEN_SIZE]));
      var cut := if control then 0 else headerLen;
      if cut > |payload| {
        return Err(SlicePanic);
      }
      var header, data := payload[..cut], payload[cut..];
      assert payload == header + data;
      assert head[..LEN_SIZE] + header + data == head[..LEN_SIZE] + payload;
      if crc(head[..LEN_SIZE] + header + data) != FromLE(head[LEN_SIZE..]) {
        return Err(Crc32cMismatch(offset));
      }
      if control {
        return Err(ControlRecord(offset, HEAD + |payload|));
      }
      return Ok(Record(header, data, offset, HEAD + |payload|));
    }

    /** Classifies the record at `offset` from its head alone: where the parser finds a record or a
        control record, `peek` finds the same with the same length, and it ends where the parser
        does. */
    method Peek(offset: nat) returns (r: Result<Kind, ReadError>)
      requires Valid()
      modifies window
      ensures Valid()
      ensures var p := Parse(Visible(), offset, headerLen, crc);
              && (r == Ok(End) <==> p.Err? && (p.error.OutOfBounds? || p.error.TruncationMarker?))
              && (r.Err? <==> p.Err? && p.error.Corrupt?) && (r.Err? ==> r.error == Corrupt(offset))
              && (p.Ok? ==> r == Ok(DataRecord(p.value.len)))
              && (p.Err? && p.error.ControlRecord? ==> r == Ok(ControlKind(p.error.len)))
      ensures r.Ok? && !r.value.End? ==> offset + HEAD <= |Visible()| && r.value == KindAt(Visible(), offset)
    {
      hide FromLE, Checks, IsTruncation;
      if offset + HEAD > flushed.value {
        return Ok(End);
      }
      var peeked := window.Read(file, offset, HEAD);
      var head := peeked.value;
      PrefixSlice(file.bytes, flushed.value, offset, offset + HEAD);
      if IsTruncation(head) {
        return Ok(End);
      }
      var raw := FromLE(head[..LEN_SIZE]);
      if UnknownFlags(raw) {
        return Err(Corrupt(offset));
      }
      var total := HEAD + PayloadLen(raw);
      if offset + total > flushed.value {
        return Ok(End);
      }
      LengthBytes(head);
      assert forall i :: 0 <= i < HEAD ==> head[i] == Visible()[offset + i];
      if IsControl(raw) {
        return Ok(ControlKind(total));
      }
      return Ok(DataRecord(total));
    }

    /** The length of a valid control record at `offset`, through the window. */
    method ControlLenAt(offset: nat) returns (len: Option<nat>)
      requires Valid()
      modifies window
      ensures Valid()
      ensures len == ControlLen(Visible(), offset, crc)
    {
      hide FromLE, IsTruncation;
      if offset + HEAD > flushed.value {
        return None;
      }
      var peeked := window.Read(file, offset, HEAD);
      var head := peeked.value;
      PrefixSlice(file.bytes, flushed.value, offset, offset + HEAD);
      if IsTruncation(head) {
        return None;
      }
      var raw := FromLE(head[..LEN_SIZE]);
      if !IsControl(raw) || UnknownFlags(raw) {
        return None;
      }
      var n := PayloadLen(raw);
      if offset + HEAD + n > flushed.value {
        return None;
      }
      var payload := window.Read(file, offset + HEAD, n);
      PrefixSlice(file.bytes, flushed.value, offset + HEAD, offset + HEAD + n);
      if crc(head[..LEN_SIZE] + payload.value) != FromLE(head[LEN_SIZE..]) {
        return None;
      }
      return Some(HEAD + n);
    }

    /** Replaces a record's header in place if `f` says so: the record reads back with the new header,
        the same data and a valid checksum, and no other byte changes. */
    method ReplaceHeaderWith(offset: nat, f: Record -> Option<seq<byte>>) returns (r: Result<bool, ReadError>)
      requires Valid()
      requires forall x: Record :: f(x).Some? ==> |f(x).value| == headerLen
      modifies optimistic, fallback, window, file
      ensures Valid() && flushed.value == old(flushed.value)
      ensures var was := Parse(old(Visible()), offset, headerLen, crc);
              && (was.Err? ==> r == Err(was.error))
              && (was.Ok? ==> r == Ok(f(was.value).Some?))
              && (!(r == Ok(true)) ==> file.bytes == old(file.bytes))
              && (r == Ok(true) ==>
                    && Parse(Visible(), offset, headerLen, crc) == Ok(was.value.(header := f(was.value).value))
                    && SameOutside(old(file.bytes), file.bytes, offset, was.value.len))
    {
      hide Parse, Rewritten, SameOutside, LE;
      var found := ReadRecord(offset, Random);
      if found.Err? {
        return Err(found.error);
      }
      var record := found.value;
      var replacement := f(record);
      if replacement.None? {
        return Ok(false);
      }
      var header := replacement.value;
      ParsedFits(Visible(), offset, headerLen, crc);
      var length := LE(record.len - HEAD, 4);
      var sum := crc(length + header + record.data);
      Reheadered(file.bytes, flushed.value, offset, record, header, headerLen, crc);
      RewrittenShape(file.bytes, offset, LE(sum, 4), header);
      file.WriteAllAt(LE(sum, 4) + header, offset + LEN_SIZE);
      SameLength(old(file.bytes), file.bytes, offset, record.len);
      if window.Overlaps(offset, record.len) {
        window.Invalidate();
      } else {
        WindowKept(window, old(file.bytes), file.bytes, offset, record.len);
      }
      return Ok(true);
    }
  }

  /** Two files that differ inside one record at most. */
  ghost predicate SameOutside(a: seq<byte>, b: seq<byte>, offset: nat, len: nat) {
    |a| == |b| && forall i :: 0 <= i < |a| && !(offset <= i < offset + len) ==> a[i] == b[i]
  }

  /** `bytes` with the checksum and header of the record at `offset` rewritten. */
  function Rewritten(bytes: seq<byte>, offset: nat, sum: seq<byte>, header: seq<byte>): (b: seq<byte>)
    requires offset + LEN_SIZE + |sum + header| <= |bytes|
  {
    bytes[..offset + LEN_SIZE] + (sum + header) + bytes[offset + LEN_SIZE + |sum + header|..]
  }

  lemma RewrittenShape(bytes: seq<byte>, offset: nat, sum: seq<byte>, header: seq<byte>)
    requires offset + LEN_SIZE + |sum + header| <= |bytes|
    ensures Rewritten(bytes, offset, sum, header)
         == bytes[..offset + LEN_SIZE] + (sum + header) + bytes[offset + LEN_SIZE + |sum + header|..]
  {
  }

  /** Rewriting checksum and header inside a frame gives the frame with the new ones. */
  lemma RewrittenFrame(bytes: seq<byte>, offset: nat, len: seq<byte>, sum: seq<byte>, header: seq<byte>,
                       data: seq<byte>,
                       sum': seq<byte>, header': seq<byte>)
    requires |len| == LEN_SIZE && |sum| == |sum'| && |header| == |header'|
    requires Holds(bytes, offset, len + sum + (header + data))
    ensures var now := Rewritten(bytes, offset, sum', header');
            && Holds(now, offset, len + sum' + (header' + data))
            && SameOutside(bytes, now, offset, |len + sum + (header + data)|)
  {
    var frame, frame' := len + sum + (header + data), len + sum' + (header' + data);
    var before, after := bytes[..offset], bytes[offset + |frame|..];
    assert bytes == before + frame + after;
    FrameSlices(before, len, sum, header, data, after);
    RewrittenShape(bytes, offset, sum', header');
    hide Rewritten;
    Regrouped(before, len, sum', header', data, after);
    HoldsMiddle(before, frame', after);
    MiddleChanged(before, frame, frame', after);
  }

  lemma FrameSlices(before: seq<byte>, len: seq<byte>, sum: seq<byte>, header: seq<byte>, data: seq<byte>,
                    after: seq<byte>)
    ensures var b := before + (len + sum + (header + data)) + after;
            && b[..|before| + |len|] == before + len
            && b[|before| + |len| + |sum| + |header|..] == data + after
  {
    Regrouped(before, len, sum, header, data, after);
  }

  lemma Regrouped(before: seq<byte>, len: seq<byte>, sum: seq<byte>, header: seq<byte>, data: seq<byte>,
                  after: seq<byte>)
    ensures before + (len + sum + (header + data)) + after == (before + len) + (sum + header) + (data + after)
  {
  }

  lemma MiddleChanged(before: seq<byte>, a: seq<byte>, b: seq<byte>, after: seq<byte>)
    requires |a| == |b|
    ensures SameOutside(before + a + after, before + b + after, |before|, |a|)
  {
  }

  lemma HoldsInPrefix(bytes: seq<byte>, n: nat, offset: nat, part: seq<byte>)
    requires n <= |bytes| && offset + |part| <= n
    ensures Holds(bytes[..n], offset, part) <==> Holds(bytes, offset, part)
  {
    PrefixSlice(bytes, n, offset, offset + |part|);
  }

  /** A record that parses is the frame of its header and data. */
  lemma ParsedIsFramed(bytes: seq<byte>, offset: nat, headerLen: nat, crc: Checksum)
    requires Parse(bytes, offset, headerLen, crc).Ok?
    ensures var r := Parse(bytes, offset, headerLen, crc).value;
            var e := Data(r.header + r.data);
            && |r.header| == headerLen && r.len == HEAD + |e.payload| && r.offset == offset && Fits(e)
            && Holds(bytes, offset, Frame(e, crc)) && !IsTruncation(Frame(e, crc)[..HEAD])
  {
    hide FromLE, LE, IsTruncation, Checks, Frame;
    var e := CheckedIsFramed(bytes, offset, crc);
    var r := Parse(bytes, offset, headerLen, crc).value;
    assert r.header + r.data == e.payload;
    HeldPieces(bytes, offset, Frame(e, crc));
  }

  lemma Reheadered(bytes: seq<byte>, flushed: nat, offset: nat, record: Record, header: seq<byte>, headerLen: nat,
                   crc: Checksum)
    requires flushed <= |bytes| && |header| == headerLen
    requires Parse(bytes[..flushed], offset, headerLen, crc) == Ok(record)
    ensures offset + HEAD + headerLen <= offset + record.len <= flushed
    ensures var sum := LE(crc(LE(record.len - HEAD, 4) + header + record.data), 4);
            var now := Rewritten(bytes, offset, sum, header);
            && SameOutside(bytes, now, offset, record.len)
            && Parse(now[..flushed], offset, headerLen, crc) == Ok(record.(header := header))
  {
    hide FromLE, LE, IsTruncation, Parse, Rewritten, SameOutside;
    ParsedIsFramed(bytes[..flushed], offset, headerLen, crc);
    var e, e' := Data(record.header + record.data), Data(header + record.data);
    HoldsInPrefix(bytes, flushed, offset, Frame(e, crc));
    var len := LE(|e.payload|, 4);
    assert len + header + record.data == len + e'.payload;
    var sum, sum' := LE(crc(len + e.payload), 4), LE(crc(len + e'.payload), 4);
    assert e.Raw() == e'.Raw() == |e.payload|;
    RewrittenFrame(bytes, offset, len, sum, record.header, record.data, sum', header);
    var now := Rewritten(bytes, offset, sum', header);
    assert |now| == |bytes| by { SameLength(bytes, now, offset, record.len); }
    HoldsInPrefix(now, flushed, offset, Frame(e', crc));
    StillVisible(e, e', crc);
    VisibleFrameParses(now[..flushed], offset, e', headerLen, crc);
    assert e'.payload[..headerLen] == header && e'.payload[headerLen..] == record.data;
  }

  lemma SameLength(a: seq<byte>, b: seq<byte>, offset: nat, len: nat)
    requires SameOutside(a, b, offset, len)
    ensures |a| == |b|
  {
  }

  /** A record of the same length stays distinct from the end-of-log marker. */
  lemma StillVisible(e: Entry, e': Entry, crc: Checksum)
    requires Fits(e) && e.Data? && e'.Data? && |e.payload| == |e'.payload| && !IsTruncation(Frame(e, crc)[..HEAD])
    ensures !IsTruncation(Frame(e', crc)[..HEAD])
  {
    hide FromLE, LE, IsTruncation, Frame;
    if e.payload == [] {
      assert e == e';
    } else {
      RawFields(e');
      FrameFields(e', crc);
      ZeroHead(Frame(e', crc)[..HEAD]);
    }
  }

  lemma WindowKept(window: ReadAheadBuf, a: seq<byte>, b: seq<byte>, offset: nat, len: nat)
    requires window.Coherent(a) && !window.Overlaps(offset, len) && SameOutside(a, b, offset, len)
    ensures window.Coherent(b)
  {
    if window.validLen > 0 {
      var from, to := window.offset, window.offset + window.validLen;
      SameSlice(a, b, offset, len, from, to);
    }
  }

  lemma SameSlice(a: seq<byte>, b: seq<byte>, offset: nat, len: nat, from: nat, to: nat)
    requires SameOutside(a, b, offset, len) && from <= to <= |a| && (to <= offset || offset + len <= from)
    ensures a[from..to] == b[from..to]
  {
    var x, y := a[from..to], b[from..to];
    forall i | 0 <= i < |x| ensures x[i] == y[i] {
      assert x[i] == a[from + i] && y[i] == b[from + i];
    }
  }

  /** Where the record at `offset` ends, by its length field alone. */
  function FramedEnd(bytes: seq<byte>, offset: nat): (end: nat) {
    if offset + HEAD > |bytes| then offset + HEAD
    else offset + HEAD + PayloadLen(FromLE(bytes[offset..offset + HEAD][..LEN_SIZE]))
  }

  /** Replacing one record leaves everything at or past its end, and every record of any kind that ends at
      or before it, to parse as it did. */
  lemma OthersUnchanged(a: seq<byte>, b: seq<byte>, offset: nat, len: nat, other: nat, headerLen: nat, crc: Checksum)
    requires SameOutside(a, b, offset, len)
    requires other >= offset + len || FramedEnd(a, other) <= offset
    ensures Parse(b, other, headerLen, crc) == Parse(a, other, headerLen, crc)
  {
    hide FromLE, Body, IsTruncation, SameOutside;
    SameLength(a, b, offset, len);
    if other + HEAD <= |a| {
      SameSlice(a, b, offset, len, other, other + HEAD);
      var end := FramedEnd(a, other);
      if end <= |a| {
        SameSlice(a, b, offset, len, other + HEAD, end);
      }
    }
  }

  // ------------------------------------------------------------------ iterating

  /** Steps over a segment's data records. */
  class Iter {
    const reader: Reader
    var offset: nat

    constructor (reader: Reader, start: nat)
      ensures this.reader == reader && offset == start
    {
      this.reader, offset := reader, start;
    }

    /** The next data record, past any control records. It ends where the log does or at a truncation marker,
        and reports every other error there. What is left to yield is what was left before, less the record
        returned; when there is none nothing is left, and the iteration has ended as it was bound to. */
    method NextRecord() returns (r: Result<Option<Record>, ReadError>)
      requires reader.Valid()
      modifies this, reader.optimistic, reader.fallback, reader.window
      ensures reader.Valid()
      ensures var p := Parse(reader.Visible(), old(PastControl(reader.Visible(), offset, reader.crc)),
                             reader.headerLen, reader.crc);
              && (p.Ok? ==> r == Ok(Some(p.value)))
              && (r == Ok(None) <==> p.Err? && (p.error.OutOfBounds? || p.error.TruncationMarker?))
              && (r.Err? <==> p.Err? && !p.error.OutOfBounds? && !p.error.TruncationMarker?)
              && (r.Err? ==> r.error == p.error)
      ensures var left := old(Drain(reader.Visible(), offset, reader.headerLen, reader.crc));
              if r.Ok? && r.value.Some?
              then left == [r.value.value] + Drain(reader.Visible(), offset, reader.headerLen, reader.crc)
              else left == []
      ensures var end := old(DrainEnd(reader.Visible(), offset, reader.headerLen, reader.crc));
              match r
              case Ok(None) => end == None
              case Err(error) => end == Some(error)
              case _ => end == DrainEnd(reader.Visible(), offset, reader.headerLen, reader.crc)
    {
      hide Parse, ControlLen, PastControl;
      DrainPastControl(reader.Visible(), offset, reader.headerLen, reader.crc);
      SkipControl();
      ControlLenIsParse(reader.Visible(), offset, reader.headerLen, reader.crc);
      var next := reader.ReadRecord(offset, Sequential);
      match next {
        case Ok(record) =>
          offset := offset + record.len;
          return Ok(Some(record));
        case Err(error) =>
          if error.OutOfBounds? || error.TruncationMarker? {
            return Ok(None);
          }
          return Err(error);
      }
    }

    method SkipControl()
      requires reader.Valid()
      modifies `offset, reader.window
      ensures reader.Valid()
      ensures offset == old(PastControl(reader.Visible(), offset, reader.crc))
    {
      hide Parse, ControlLen;
      ghost var bytes := reader.Visible();
      var control := reader.ControlLenAt(offset);
      while control.Some?
        invariant reader.Valid() && reader.Visible() == bytes
        invariant control == ControlLen(bytes, offset, reader.crc)
        invariant PastControl(bytes, offset, reader.crc) == old(PastControl(reader.Visible(), offset, reader.crc))
        decreases if offset <= |bytes| then |bytes| - offset else 0, if control.Some? then 1 else 0
      {
        offset := offset + control.value;
        control := reader.ControlLenAt(offset);
      }
    }
  }
}
