/** Bytes and fixed-width integers, shared by every codec in the project. */
module Bytes {

  type byte = x: int | 0 <= x < 256

  type u32 = x: int | 0 <= x <= 0xFFFF_FFFF

  /** A 32-bit checksum. The source uses CRC-32 (section 8 of RFC 1952) from a library; every
      theorem here holds for whatever function takes its place. */
  type Checksum = seq<byte> -> u32

  /** The outcome of a lookup that may find nothing. */
  datatype Option<+T> = None | Some(value: T)

  /** The outcome of an operation that may fail. */
  datatype Result<+T, +E> = Ok(value: T) | Err(error: E) {
    predicate IsFailure() { Err? }
    function PropagateFailure<U>(): Result<U, E> requires Err? { Err(error) }
    function Extract(): T requires Ok? { value }
  }

  const U16_MAX: nat := 0xFFFF
  const U32_MAX: nat := 0xFFFF_FFFF
  const U64_MAX: nat := 0xFFFF_FFFF_FFFF_FFFF

  /** 256 to the power `width`: how many values `width` bytes can hold. */
  function Capacity(width: nat): (c: nat)
    ensures c > 0
  {
    if width == 0 then 1 else 256 * Capacity(width - 1)
  }

  lemma Capacities()
    ensures Capacity(2) == U16_MAX + 1
    ensures Capacity(4) == U32_MAX + 1
    ensures Capacity(8) == U64_MAX + 1
  {
    assert Capacity(4) == 256 * 256 * Capacity(2);
    assert Capacity(6) == 256 * 256 * Capacity(4);
    assert Capacity(8) == 256 * 256 * Capacity(6);
  }

  /** `to_le_bytes`: `v` in `width` bytes, least significant first. A cast that truncates is written
      out where the source has one. */
  function LE(v: nat, width: nat): (b: seq<byte>)
    ensures |b| == width
    decreases width
  {
    if width == 0 then [] else [v % 256] + LE(v / 256, width - 1)
  }

  /** The integer a little-endian field holds. */
  function FromLE(b: seq<byte>): (v: nat) {
    if b == [] then 0 else b[0] + 256 * FromLE(b[1..])
  }

  /** A field that is wide enough gives its integer back. */
  lemma {:induction false} LERoundTrip(v: nat, width: nat)
    requires v < Capacity(width)
    ensures FromLE(LE(v, width)) == v
    decreases width
  {
    if width > 0 {
      LERoundTrip(v / 256, width - 1);
      assert LE(v, width)[1..] == LE(v / 256, width - 1);
    }
  }

  /** Every byte string is the encoding of the integer it reads as. */
  lemma {:induction false} FromLERoundTrip(b: seq<byte>)
    ensures FromLE(b) < Capacity(|b|)
    ensures LE(FromLE(b), |b|) == b
  {
    if b != [] {
      FromLERoundTrip(b[1..]);
      var v := FromLE(b);
      assert v % 256 == b[0] && v / 256 == FromLE(b[1..]);
    }
  }

  /** Only zero encodes as all zeros. */
  lemma {:induction false} FromLEZero(b: seq<byte>)
    ensures FromLE(b) == 0 <==> forall i :: 0 <= i < |b| ==> b[i] == 0
  {
    if b != [] {
      FromLEZero(b[1..]);
      assert forall i :: 0 <= i < |b[1..]| ==> b[1..][i] == b[i + 1];
      assert (forall i :: 0 <= i < |b| ==> b[i] == 0)
        <==> b[0] == 0 && (forall i :: 0 <= i < |b[1..]| ==> b[1..][i] == 0) by {
        if b[0] == 0 && (forall i :: 0 <= i < |b[1..]| ==> b[1..][i] == 0) {
          forall i | 0 <= i < |b| ensures b[i] == 0 {
            if i > 0 { assert b[1..][i - 1] == 0; }
          }
        }
      }
    }
  }

  function Min(a: nat, b: nat): nat { if a <= b then a else b }

  function Max(a: nat, b: nat): nat { if a >= b then a else b }

  // ------------------------------------------------------------------ byte strings end to end

  /** The parts one after another. */
  function Flat(parts: seq<seq<byte>>): (b: seq<byte>) {
    if parts == [] then [] else Flat(parts[..|parts| - 1]) + parts[|parts| - 1]
  }

  lemma FlatNone()
    ensures Flat([]) == []
  {
  }

  lemma FlatSnoc(parts: seq<seq<byte>>, last: seq<byte>)
    ensures Flat(parts + [last]) == Flat(parts) + last
  {
    assert (parts + [last])[..|parts|] == parts;
  }

  lemma {:induction false} FlatConcat(a: seq<seq<byte>>, b: seq<seq<byte>>)
    ensures Flat(a + b) == Flat(a) + Flat(b)
  {
    if b == [] {
      assert a + b == a;
    } else {
      hide Flat;
      var n := |b| - 1;
      assert a + b == (a + b[..n]) + [b[n]];
      assert b == b[..n] + [b[n]];
      FlatConcat(a, b[..n]);
      FlatSnoc(a + b[..n], b[n]);
      FlatSnoc(b[..n], b[n]);
    }
  }

  /** Part `k` sits at the offset the parts before it add up to. */
  lemma FlatAt(parts: seq<seq<byte>>, k: nat)
    requires k < |parts|
    ensures Flat(parts) == Flat(parts[..k]) + parts[k] + Flat(parts[k + 1..])
  {
    var front := parts[..k] + [parts[k]];
    FlatSnoc(parts[..k], parts[k]);
    FlatConcat(front, parts[k + 1..]);
    assert parts == front + parts[k + 1..];
  }

  lemma SliceOfSlice(s: seq<byte>, o: nat, n: nat, a: nat, b: nat)
    requires o + n <= |s| && a <= b <= n
    ensures s[o..o + n][a..b] == s[o + a..o + b]
  {
    var mid, x, y := s[o..o + n], s[o..o + n][a..b], s[o + a..o + b];
    forall i | 0 <= i < |x| ensures x[i] == y[i] {
      assert x[i] == mid[a + i] == s[o + a + i];
    }
  }

  /** `part` occurs in `whole` at `offset`. */
  predicate Holds(whole: seq<byte>, offset: nat, part: seq<byte>) {
    offset + |part| <= |whole| && whole[offset..offset + |part|] == part
  }

  lemma HoldsMiddle(before: seq<byte>, part: seq<byte>, after: seq<byte>)
    ensures Holds(before + part + after, |before|, part)
  {
  }

  lemma FlatHolds(parts: seq<seq<byte>>, k: nat, after: seq<byte>)
    requires k < |parts|
    ensures Holds(Flat(parts) + after, |Flat(parts[..k])|, parts[k])
  {
    FlatAt(parts, k);
    var before, more := Flat(parts[..k]), Flat(parts[k + 1..]);
    HoldsMiddle(before, parts[k], more + after);
    assert before + parts[k] + (more + after) == (before + parts[k] + more) + after;
  }

  // ------------------------------------------------------------------ runs of 16-bit fields

  /** Each value as a two-byte field. */
  function Cells(values: seq<nat>): (parts: seq<seq<byte>>)
    ensures |parts| == |values| && forall i :: 0 <= i < |values| ==> parts[i] == LE(values[i], 2)
  {
    seq(|values|, i requires 0 <= i < |values| => LE(values[i], 2))
  }

  lemma {:induction false} CellsLength(values: seq<nat>)
    ensures |Flat(Cells(values))| == 2 * |values|
  {
    if values != [] {
      var n := |values| - 1;
      CellsLength(values[..n]);
      assert Cells(values)[..n] == Cells(values[..n]);
    }
  }

  /** Field `i` sits two bytes per field in. */
  lemma CellHeld(values: seq<nat>, i: nat, after: seq<byte>)
    requires i < |values|
    ensures Holds(Flat(Cells(values)) + after, 2 * i, LE(values[i], 2))
  {
    hide LE;
    CellsLength(values[..i]);
    assert Cells(values)[..i] == Cells(values[..i]);
    FlatHolds(Cells(values), i, after);
  }

  /** The two-byte fields of `b`, in order. */
  function Words(b: seq<byte>): (values: seq<nat>)
    ensures |values| == |b| / 2
    ensures forall i :: 0 <= i < |values| ==> values[i] == FromLE(b[2 * i..2 * i + 2])
  {
    seq(|b| / 2, i requires 0 <= i < |b| / 2 => FromLE(b[2 * i..2 * i + 2]))
  }

  lemma WordsOfCells(values: seq<nat>)
    requires forall i :: 0 <= i < |values| ==> values[i] <= U16_MAX
    ensures Words(Flat(Cells(values))) == values
  {
    hide LE, FromLE, Flat, Cells;
    var b := Flat(Cells(values));
    CellsLength(values);
    Capacities();
    forall i | 0 <= i < |values| ensures Words(b)[i] == values[i] {
      CellHeld(values, i, []);
      assert b + [] == b;
      LERoundTrip(values[i], 2);
    }
  }

  lemma WordsSnoc(init: seq<byte>, last: seq<byte>)
    requires |init| % 2 == 0 && |last| == 2
    ensures Words(init + last) == Words(init) + [FromLE(last)]
  {
    hide FromLE;
    var b, n := init + last, |init| / 2;
    forall i | 0 <= i < n ensures Words(b)[i] == Words(init)[i] {
      assert b[2 * i..2 * i + 2] == init[2 * i..2 * i + 2];
    }
    assert b[2 * n..2 * n + 2] == last;
  }

  lemma {:induction false} CellsOfWords(b: seq<byte>)
    requires |b| % 2 == 0
    ensures Flat(Cells(Words(b))) == b
    ensures forall i :: 0 <= i < |Words(b)| ==> Words(b)[i] <= U16_MAX
  {
    hide LE, FromLE;
    if b != [] {
      var n := |b| - 2;
      var init, last := b[..n], b[n..];
      CellsOfWords(init);
      FromLERoundTrip(last);
      Capacities();
      WordsSnoc(init, last);
      assert b == init + last;
      assert Cells(Words(b)) == Cells(Words(init)) + [last];
      FlatSnoc(Cells(Words(init)), last);
    }
  }
}
