/** Tiered posting-list encoding for the on-disk index segment, over the unsigned LEB128 varint
    (section 7.6 of the DWARF 4 standard). */
module Postings {
  import opened Bytes
  import opened Events

  /** The two high bits of a term's value select the tier, the low 62 are its payload. */
  const TIER: nat := 0x4000_0000_0000_0000

  datatype Error =
    | VarintOverflow
    | VarintTruncated
    | OffsetOutOfBounds(offset: nat, len: nat)
    | PositionOverflow
    | ReservedDenseTier
    | UnusedTier // the source panics

  // ------------------------------------------------------------------ varints

  /** Seven bits per byte, low group first, high bit on every byte but the last. */
  function Varint(v: nat): (b: seq<byte>)
    ensures b != []
  {
    if v < 128 then [v] else [v % 128 + 128] + Varint(v / 128)
  }

  /** The value at the front of `buf` and the bytes it takes, as byte number `i` of a varint. A
      tenth byte may carry one bit only. */
  function VarintAt(buf: seq<byte>, i: nat): (r: Result<(nat, nat), Error>)
    ensures r.Ok? ==> 1 <= r.value.1 <= |buf|
  {
    if buf == [] then Err(VarintTruncated)
    else if i == 9 && buf[0] > 1 then Err(VarintOverflow)
    else if buf[0] < 128 then Ok((buf[0], 1))
    else
      var (v, n) :- VarintAt(buf[1..], i + 1);
      Ok((buf[0] - 128 + 128 * v, n + 1))
  }

  /** The largest value byte `i` and those after it can carry. */
  function Limit(i: nat): (m: nat)
    requires i <= 9
    decreases 9 - i
  {
    if i == 9 then 1 else 127 + 128 * Limit(i + 1)
  }

  lemma LimitIsU64()
    ensures Limit(0) == U64_MAX
  {
    assert Limit(7) == 127 + 128 * (127 + 128 * 1);
    assert Limit(5) == 127 + 128 * (127 + 128 * Limit(7));
    assert Limit(3) == 127 + 128 * (127 + 128 * Limit(5));
    assert Limit(1) == 127 + 128 * (127 + 128 * Limit(3));
    assert Limit(0) == 127 + 128 * Limit(1);
  }

  lemma {:induction false} VarintRoundTripAt(v: nat, i: nat, rest: seq<byte>)
    requires i <= 9 && v <= Limit(i)
    ensures VarintAt(Varint(v) + rest, i) == Ok((v, |Varint(v)|))
    ensures |Varint(v)| <= 10 - i
    decreases v
  {
    if v >= 128 {
      VarintRoundTripAt(v / 128, i + 1, rest);
      assert (Varint(v) + rest)[1..] == Varint(v / 128) + rest;
    }
  }

  /** Every `u64` comes back, in at most ten bytes, whatever follows it. */
  lemma VarintRoundTrip(v: nat, rest: seq<byte>)
    requires v <= U64_MAX
    ensures VarintAt(Varint(v) + rest, 0) == Ok((v, |Varint(v)|))
    ensures |Varint(v)| <= 10
  {
    LimitIsU64();
    VarintRoundTripAt(v, 0, rest);
  }

  /** And nothing decodes to more than a `u64` or from more than ten bytes. */
  lemma {:induction false} VarintBounded(buf: seq<byte>, i: nat)
    requires i <= 9
    ensures var r := VarintAt(buf, i);
            r.Ok? ==> r.value.0 <= Limit(i) && 1 <= r.value.1 <= Min(|buf|, 10 - i)
    decreases |buf|
  {
    if buf != [] && !(i == 9 && buf[0] > 1) && buf[0] >= 128 {
      VarintBounded(buf[1..], i + 1);
    }
  }

  method EncodeVarint(value: nat, region: seq<byte>) returns (out: seq<byte>)
    ensures out == region + Varint(value)
  {
    var v := value;
    out := region;
    while v >= 128
      invariant out + Varint(v) == region + Varint(value)
    {
      out := out + [v % 128 + 128];
      v := v / 128;
    }
    out := out + [v];
  }

  method DecodeVarint(buf: seq<byte>) returns (r: Result<(nat, nat), Error>)
    ensures r == VarintAt(buf, 0)
  {
    var value, scale := 0, 1;
    for i := 0 to |buf|
      invariant i <= 9 || VarintAt(buf, 0) == Err(VarintOverflow)
      invariant match VarintAt(buf[i..], i)
                case Ok((v, n)) => VarintAt(buf, 0) == Ok((value + scale * v, i + n))
                case Err(e) => VarintAt(buf, 0) == Err(e)
    {
      var b := buf[i];
      assert buf[i..][1..] == buf[i + 1..];
      if i == 9 && b > 1 {
        return Err(VarintOverflow);
      }
      if b < 128 {
        return Ok((value + scale * b, i + 1));
      }
      ghost var tail := VarintAt(buf[i + 1..], i + 1);
      if tail.Ok? {
        ghost var v := tail.value.0;
        assert value + scale * (b - 128 + 128 * v) == (value + scale * (b - 128)) + (scale * 128) * v;
      }
      value := value + scale * (b - 128);
      scale := scale * 128;
    }
    return Err(VarintTruncated);
  }

  // ------------------------------------------------------------------ delta blocks

  /** Each position as its distance from the one before; on an ascending list none is negative. */
  function Deltas(postings: seq<nat>, prev: nat): (b: seq<byte>) {
    if postings == [] then []
    else Varint(if postings[0] >= prev then postings[0] - prev else 0) + Deltas(postings[1..], postings[0])
  }

  /** `count` deltas from `buf`, summed up from `pos` into positions. */
  function ReadDeltas(buf: seq<byte>, count: nat, pos: nat): (r: Result<seq<nat>, Error>)
    decreases count
  {
    if count == 0 then Ok([])
    else
      var (delta, n) :- VarintAt(buf, 0);
      if delta > U32_MAX || pos + delta > U32_MAX then Err(PositionOverflow)
      else
        var rest :- ReadDeltas(buf[n..], count - 1, pos + delta);
        Ok([pos + delta] + rest)
  }

  /** Reading past one varint, given only what it decodes to. */
  lemma ReadDelta(head: seq<byte>, rest: seq<byte>, delta: nat, count: nat, pos: nat)
    requires count > 0 && pos + delta <= U32_MAX
    requires VarintAt(head + rest, 0) == Ok((delta, |head|))
    ensures ReadDeltas(head + rest, count, pos)
         == match ReadDeltas(rest, count - 1, pos + delta)
            case Ok(list) => Ok([pos + delta] + list)
            case Err(e) => Err(e)
  {
    assert (head + rest)[|head|..] == rest;
  }

  lemma {:induction false} DeltasRoundTrip(postings: seq<nat>, prev: nat, rest: seq<byte>)
    requires Rising(postings) && (postings != [] ==> prev <= postings[0] && postings[|postings| - 1] <= U32_MAX)
    ensures ReadDeltas(Deltas(postings, prev) + rest, |postings|, prev) == Ok(postings)
  {
    if postings != [] {
      var p, more := postings[0], postings[1..];
      DeltasRoundTrip(more, p, rest);
      DeltaStep(p, more, prev, rest);
      assert postings == [p] + more;
    }
  }

  lemma DeltaStep(p: nat, more: seq<nat>, prev: nat, rest: seq<byte>)
    requires prev <= p <= U32_MAX
    requires ReadDeltas(Deltas(more, p) + rest, |more|, p) == Ok(more)
    ensures ReadDeltas(Deltas([p] + more, prev) + rest, 1 + |more|, prev) == Ok([p] + more)
  {
    hide Varint, VarintAt, ReadDeltas;
    assert ([p] + more)[1..] == more;
    var head, tail := Varint(p - prev), Deltas(more, p);
    VarintRoundTrip(p - prev, tail + rest);
    ReadDelta(head, tail + rest, p - prev, 1 + |more|, prev);
    assert (head + tail) + rest == head + (tail + rest);
  }

  function Block(postings: seq<nat>): (b: seq<byte>) {
    Varint(|postings|) + Deltas(postings, 0)
  }

  // ------------------------------------------------------------------ terms

  /** What the term dictionary stores for a list whose block, if it has one, starts at `offset`. */
  function TermValue(postings: seq<nat>, offset: nat): (value: nat) {
    if |postings| == 1 then postings[0] else TIER + offset
  }

  method EncodePostings(postings: seq<nat>, region: seq<byte>) returns (value: nat, out: seq<byte>)
    requires postings != [] && Rising(postings)
    ensures value == TermValue(postings, |region|)
    ensures out == region + RegionBytes(postings)
  {
    if |postings| == 1 {
      return postings[0], region + [];
    }
    out := EncodeVarint(|postings|, region);
    var prev := 0;
    for i := 0 to |postings|
      invariant i < |postings| ==> prev <= postings[i]
      invariant out + Deltas(postings[i..], prev) == region + Block(postings)
    {
      var delta := postings[i] - prev;
      assert postings[i..][1..] == postings[i + 1..];
      out := EncodeVarint(delta, out);
      prev := postings[i];
    }
    value := TIER + |region|;
  }

  function DecodePostings(value: nat, region: seq<byte>): (r: Result<seq<nat>, Error>) {
    var tier, payload := value / TIER, value % TIER;
    if tier == 0 then Ok([payload % (U32_MAX + 1)])
    else if tier == 1 then DecodeBlock(payload, region)
    else if tier == 2 then Err(ReservedDenseTier)
    else Err(UnusedTier)
  }

  function DecodeBlock(offset: nat, region: seq<byte>): (r: Result<seq<nat>, Error>) {
    if offset > |region| then Err(OffsetOutOfBounds(offset, |region|))
    else
      var (count, n) :- VarintAt(region[offset..], 0);
      ReadDeltas(region[offset + n..], count, 0)
  }

  /** The list's length without materializing it. */
  function PostingLen(value: nat, region: seq<byte>): (r: Result<nat, Error>) {
    var tier, offset := value / TIER, value % TIER;
    if tier == 0 then Ok(1)
    else if tier == 1 then
      if offset > |region| then Err(OffsetOutOfBounds(offset, |region|))
      else
        var (count, _) :- VarintAt(region[offset..], 0);
        if count > U32_MAX then Err(PositionOverflow) else Ok(count)
    else if tier == 2 then Err(ReservedDenseTier)
    else Err(UnusedTier)
  }

  /** The block-reading loop, as the decoder runs it. */
  method DecodeDeltaBlock(offset: nat, region: seq<byte>) returns (r: Result<seq<nat>, Error>)
    ensures r == DecodeBlock(offset, region)
  {
    if offset > |region| {
      return Err(OffsetOutOfBounds(offset, |region|));
    }
    var cursor := region[offset..];
    var head := DecodeVarint(cursor);
    if head.Err? { return Err(head.error); }
    var (count, consumed) := head.value;
    cursor := cursor[consumed..];
    assert cursor == region[offset + consumed..];
    r := ReadDeltaList(cursor, count);
  }

  method ReadDeltaList(buf: seq<byte>, count: nat) returns (r: Result<seq<nat>, Error>)
    ensures r == ReadDeltas(buf, count, 0)
  {
    var cursor, out: seq<nat>, pos: nat, i: nat := buf, [], 0, 0;
    ghost var all := ReadDeltas(buf, count, 0);
    assert all.Ok? ==> [] + all.value == all.value;
    while i < count
      invariant i <= count
      invariant match ReadDeltas(cursor, count - i, pos)
                case Ok(rest) => ReadDeltas(buf, count, 0) == Ok(out + rest)
                case Err(e) => ReadDeltas(buf, count, 0) == Err(e)
    {
      var next := DecodeVarint(cursor);
      if next.Err? { return Err(next.error); }
      var (delta, n) := next.value;
      if delta > U32_MAX { return Err(PositionOverflow); }
      if pos + delta > U32_MAX { return Err(PositionOverflow); }
      ghost var rest := ReadDeltas(cursor[n..], count - i - 1, pos + delta);
      assert rest.Ok? ==> out + ([pos + delta] + rest.value) == (out + [pos + delta]) + rest.value;
      cursor := cursor[n..];
      pos := pos + delta;
      out := out + [pos];
      i := i + 1;
    }
    assert out + [] == out;
    return Ok(out);
  }

  ghost predicate Encodable(postings: seq<nat>) {
    postings != [] && Rising(postings) && forall i :: 0 <= i < |postings| ==> postings[i] <= U32_MAX
  }

  lemma DecodeBlockAt(region: seq<byte>, offset: nat, head: seq<byte>, tail: seq<byte>, list: seq<nat>)
    requires offset <= |region| && region[offset..] == head + tail
    requires VarintAt(head + tail, 0) == Ok((|list|, |head|)) && ReadDeltas(tail, |list|, 0) == Ok(list)
    ensures DecodeBlock(offset, region) == Ok(list)
  {
    assert region[offset + |head|..] == tail;
  }

  lemma DropPrefix(a: seq<byte>, b: seq<byte>, c: seq<byte>, d: seq<byte>)
    ensures (a + (b + c) + d)[|a|..] == b + (c + d)
  {
  }

  lemma BlockRoundTrip(postings: seq<nat>, before: seq<byte>, after: seq<byte>)
    requires Encodable(postings) && |postings| <= U64_MAX
    ensures var region := before + Block(postings) + after;
            && VarintAt(region[|before|..], 0) == Ok((|postings|, |Varint(|postings|)|))
            && DecodeBlock(|before|, region) == Ok(postings)
  {
    var head, tail := Varint(|postings|), Deltas(postings, 0) + after;
    var region := before + Block(postings) + after;
    DeltasRoundTrip(postings, 0, after);
    VarintRoundTrip(|postings|, tail);
    DropPrefix(before, head, Deltas(postings, 0), after);
    DecodeBlockAt(region, |before|, head, tail, postings);
  }

  /** The bytes a list adds to the region: none for a singleton, which its value holds inline. */
  function RegionBytes(postings: seq<nat>): (b: seq<byte>) {
    if |postings| == 1 then [] else Block(postings)
  }

  /** A term's value still finds its list, and its length, whatever the region held before and
      whatever is appended later. */
  lemma PostingsRoundTrip(postings: seq<nat>, before: seq<byte>, after: seq<byte>)
    requires Encodable(postings) && |before| < TIER && |postings| <= U64_MAX
    ensures var value, region := TermValue(postings, |before|), before + RegionBytes(postings) + after;
            && DecodePostings(value, region) == Ok(postings)
            && PostingLen(value, region) == if |postings| <= U32_MAX then Ok(|postings|) else Err(PositionOverflow)
  {
    hide Block, DecodeBlock, VarintAt;
    if |postings| == 1 {
      assert postings == [postings[0]];
    } else {
      TierOf(|before|);
      BlockRoundTrip(postings, before, after);
    }
  }

  /** The same, for a list whose bytes are known to sit at `offset`. */
  lemma PostingsFound(postings: seq<nat>, offset: nat, region: seq<byte>)
    requires Encodable(postings) && offset < TIER && |postings| <= U32_MAX
    requires Holds(region, offset, RegionBytes(postings))
    ensures DecodePostings(TermValue(postings, offset), region) == Ok(postings)
    ensures PostingLen(TermValue(postings, offset), region) == Ok(|postings|)
  {
    hide RegionBytes, DecodePostings, PostingLen, TermValue;
    var bytes := RegionBytes(postings);
    PostingsRoundTrip(postings, region[..offset], region[offset + |bytes|..]);
    assert region == region[..offset] + bytes + region[offset + |bytes|..];
  }

  lemma TierOf(offset: nat)
    requires offset < TIER
    ensures (TIER + offset) / TIER == 1 && (TIER + offset) % TIER == offset
  {
  }

  // ------------------------------------------------------------------ what each error means

  lemma {:induction false} VarintErrorsAt(buf: seq<byte>, i: nat)
    requires i <= 9
    ensures VarintAt(buf, i) == Err(VarintTruncated)
       <==> |buf| <= 9 - i && forall j :: 0 <= j < |buf| ==> buf[j] >= 128
    ensures VarintAt(buf, i) == Err(VarintOverflow)
       <==> |buf| > 9 - i && buf[9 - i] > 1 && forall j :: 0 <= j < 9 - i ==> buf[j] >= 128
    ensures VarintAt(buf, i).Err? ==> VarintAt(buf, i).error in {VarintTruncated, VarintOverflow}
    decreases 9 - i
  {
    if i < 9 && buf != [] && buf[0] >= 128 {
      var rest := buf[1..];
      VarintErrorsAt(rest, i + 1);
      assert forall j :: 0 <= j < |rest| ==> rest[j] == buf[j + 1];
      assert forall j :: 0 < j < |buf| ==> buf[j] == rest[j - 1];
    }
  }

  /** A varint is truncated exactly when its bytes end before one without the high bit, and too large exactly
      when a tenth byte carries more than one bit. */
  lemma VarintErrors(buf: seq<byte>)
    ensures VarintAt(buf, 0) == Err(VarintTruncated)
       <==> |buf| <= 9 && forall j :: 0 <= j < |buf| ==> buf[j] >= 128
    ensures VarintAt(buf, 0) == Err(VarintOverflow)
       <==> |buf| >= 10 && buf[9] > 1 && forall j :: 0 <= j < 9 ==> buf[j] >= 128
    ensures VarintAt(buf, 0).Err? ==> VarintAt(buf, 0).error in {VarintTruncated, VarintOverflow}
  {
    VarintErrorsAt(buf, 0);
  }

  lemma {:induction false} VarintBytes(v: nat)
    ensures forall j :: 0 <= j < |Varint(v)| ==> (Varint(v)[j] >= 128 <==> j < |Varint(v)| - 1)
  {
    if v >= 128 { VarintBytes(v / 128); }
  }

  /** Part of a varint reads as truncated. */
  lemma VarintCut(v: nat, n: nat)
    requires v <= U64_MAX && n < |Varint(v)|
    ensures VarintAt(Varint(v)[..n], 0) == Err(VarintTruncated)
  {
    VarintRoundTrip(v, []);
    VarintBytes(v);
    VarintErrors(Varint(v)[..n]);
  }

  /** A position past 32 bits, wherever in the list, is an overflow. */
  lemma {:induction false} DeltasOverflow(postings: seq<nat>, prev: nat, rest: seq<byte>)
    requires postings != [] && Rising(postings) && prev <= U32_MAX && prev <= postings[0]
    requires U32_MAX < postings[|postings| - 1] <= U64_MAX
    ensures ReadDeltas(Deltas(postings, prev) + rest, |postings|, prev) == Err(PositionOverflow)
  {
    hide Varint, VarintAt, ReadDeltas;
    var p, more := postings[0], postings[1..];
    var head, tail := Varint(p - prev), Deltas(more, p) + rest;
    assert p <= postings[|postings| - 1];
    VarintRoundTrip(p - prev, tail);
    assert Deltas(postings, prev) + rest == head + tail;
    if p <= U32_MAX {
      DeltasOverflow(more, p, rest);
      ReadDelta(head, tail, p - prev, |postings|, prev);
    } else {
      TooFar(head + tail, p - prev, |head|, |postings|, prev);
    }
  }

  lemma NoDelta(buf: seq<byte>, count: nat, pos: nat)
    requires count > 0 && VarintAt(buf, 0).Err?
    ensures ReadDeltas(buf, count, pos) == Err(VarintAt(buf, 0).error)
  {
  }

  lemma TooFar(buf: seq<byte>, delta: nat, n: nat, count: nat, pos: nat)
    requires count > 0 && VarintAt(buf, 0) == Ok((delta, n)) && pos + delta > U32_MAX
    ensures ReadDeltas(buf, count, pos) == Err(PositionOverflow)
  {
  }

  /** A block cut short anywhere reads as truncated. */
  lemma {:induction false} DeltasCut(postings: seq<nat>, prev: nat, n: nat)
    requires Rising(postings) && prev <= U32_MAX && n < |Deltas(postings, prev)|
    requires forall i :: 0 <= i < |postings| ==> prev <= postings[i] <= U32_MAX
    ensures ReadDeltas(Deltas(postings, prev)[..n], |postings|, prev) == Err(VarintTruncated)
  {
    hide Varint, VarintAt, ReadDeltas;
    var p, more := postings[0], postings[1..];
    var head, tail := Varint(p - prev), Deltas(more, p);
    var all := head + tail;
    if n < |head| {
      VarintCut(p - prev, n);
      assert all[..n] == head[..n];
      NoDelta(all[..n], |postings|, prev);
    } else {
      assert all[..n] == head + tail[..n - |head|];
      VarintRoundTrip(p - prev, tail[..n - |head|]);
      assert forall i :: 0 <= i < |more| ==> more[i] == postings[i + 1] > p;
      DeltasCut(more, p, n - |head|);
      ReadDelta(head, tail[..n - |head|], p - prev, |postings|, prev);
    }
  }

  /** Decoding a block that is cut short, or starts past the region, or holds a position past 32 bits. */
  lemma BlockErrors(postings: seq<nat>, before: seq<byte>, n: nat)
    requires postings != [] && Rising(postings) && |postings| <= U64_MAX && postings[|postings| - 1] <= U64_MAX
    requires n <= |Block(postings)|
    ensures DecodeBlock(|before| + 1, before) == Err(OffsetOutOfBounds(|before| + 1, |before|))
    ensures postings[|postings| - 1] > U32_MAX ==>
              DecodeBlock(|before|, before + Block(postings)) == Err(PositionOverflow)
    ensures Encodable(postings) && n < |Block(postings)| ==>
              DecodeBlock(|before|, before + Block(postings)[..n]) == Err(VarintTruncated)
  {
    hide Varint, VarintAt, Deltas, ReadDeltas;
    var head, tail := Varint(|postings|), Deltas(postings, 0);
    var cut := Block(postings)[..n];
    assert (before + cut)[|before|..] == cut && (before + Block(postings))[|before|..] == head + tail;
    VarintRoundTrip(|postings|, tail);
    if postings[|postings| - 1] > U32_MAX {
      DeltasOverflow(postings, 0, []);
      assert tail + [] == tail && (before + Block(postings))[|before| + |head|..] == tail;
    } else if n < |head| {
      VarintCut(|postings|, n);
      assert cut == head[..n];
    } else if n < |Block(postings)| {
      assert cut == head + tail[..n - |head|];
      VarintRoundTrip(|postings|, tail[..n - |head|]);
      DeltasCut(postings, 0, n - |head|);
      assert (before + cut)[|before| + |head|..] == tail[..n - |head|];
    }
  }

  /** An inline value is cast to 32 bits; a block past the region is out of bounds and one at its very end
      truncated, for the length as for the list; the other two tiers nothing is written with. */
  lemma ValuesSay(payload: nat, region: seq<byte>)
    requires payload < TIER
    ensures DecodePostings(payload, region).Ok? && PostingLen(payload, region) == Ok(1)
    ensures DecodePostings(payload, region) == Ok([payload]) <==> payload <= U32_MAX
    ensures payload > |region| ==>
              && DecodePostings(TIER + payload, region) == Err(OffsetOutOfBounds(payload, |region|))
              && PostingLen(TIER + payload, region) == Err(OffsetOutOfBounds(payload, |region|))
    ensures payload == |region| ==>
              && DecodePostings(TIER + payload, region) == Err(VarintTruncated)
              && PostingLen(TIER + payload, region) == Err(VarintTruncated)
    ensures DecodePostings(2 * TIER + payload, region) == Err(ReservedDenseTier)
    ensures PostingLen(2 * TIER + payload, region) == Err(ReservedDenseTier)
    ensures DecodePostings(3 * TIER + payload, region) == Err(UnusedTier)
    ensures PostingLen(3 * TIER + payload, region) == Err(UnusedTier)
  {
    TierOf(payload);
    assert region[|region|..] == [];
  }

  // ------------------------------------------------------------------ a growing region

  /** What each list adds to the region. */
  function Blocks(lists: seq<seq<nat>>): (parts: seq<seq<byte>>)
    ensures |parts| == |lists|
    ensures forall k :: 0 <= k < |lists| ==> parts[k] == RegionBytes(lists[k])
  {
    seq(|lists|, k requires 0 <= k < |lists| => RegionBytes(lists[k]))
  }

  /** The value list `k` gets when the lists are encoded one after another into one region. */
  function SeriesValue(lists: seq<seq<nat>>, k: nat): (value: nat)
    requires k < |lists|
  {
    TermValue(lists[k], |Flat(Blocks(lists)[..k])|)
  }

  /** Each value decodes to its own list against the final region, after all later appends. */
  lemma SeriesRoundTrip(lists: seq<seq<nat>>, k: nat, after: seq<byte>)
    requires k < |lists| && Encodable(lists[k]) && |lists[k]| <= U32_MAX
    requires |Flat(Blocks(lists)[..k])| < TIER
    ensures DecodePostings(SeriesValue(lists, k), Flat(Blocks(lists)) + after) == Ok(lists[k])
    ensures PostingLen(SeriesValue(lists, k), Flat(Blocks(lists)) + after) == Ok(|lists[k]|)
  {
    FlatHolds(Blocks(lists), k, after);
    PostingsFound(lists[k], |Flat(Blocks(lists)[..k])|, Flat(Blocks(lists)) + after);
  }
}
