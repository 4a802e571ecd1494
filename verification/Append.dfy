/** The append-only storage behind the active tail's columns and posting lists. Both structures
    refine a plain sequence; chunks never move, so a snapshot of the backbone stays valid. */
module Append {
  import opened Bytes
  import opened Events

  const CHUNK: nat := 1024
  const INLINE: nat := 4

  /** The slot at element `i` of a backbone, or none beyond the chunks it holds. */
  function SnapGet<T>(snap: seq<array<T>>, i: nat): (slot: Option<T>)
    reads set c | 0 <= c < |snap| :: snap[c]
  {
    if i / CHUNK < |snap| && i % CHUNK < snap[i / CHUNK].Length
    then Some(snap[i / CHUNK][i % CHUNK])
    else None
  }

  /** The chunk count after making room for element `i`: growth at least doubles the backbone. */
  function Grown(chunks: nat, i: nat): (grown: nat)
    ensures chunks <= grown && i < grown * CHUNK
  {
    if chunks >= i / CHUNK + 1 then chunks else Max(i / CHUNK + 1, 2 * chunks)
  }

  /** `covered`: how many elements a snapshot of so many chunks says it can address, a count that is cast
      to `u32`. */
  function Addressable(chunks: nat): (n: nat)
    ensures n <= chunks * CHUNK
    ensures n == chunks * CHUNK <==> chunks * CHUNK <= U32_MAX
  {
    chunks * CHUNK % (U32_MAX + 1)
  }

  /** Element 2^31 doubles the backbone to 2^22 chunks, and the cast count is back at zero. */
  lemma AddressableWraps()
    ensures Addressable(Grown(0x20_0000, 0x7FFF_FFFF)) == 0x8000_0000
    ensures Addressable(Grown(0x20_0000, 0x8000_0000)) == 0
  {
  }

  class ChunkedVec<T(0)> {
    /** Chunk handles in order; replaced whole when it grows, never edited in place. */
    var backbone: seq<array<T>>
    var len: nat
    ghost var contents: seq<T>
    /** Chunk handles copied by all growth so far. */
    ghost var copied: nat

    ghost predicate Chunked()
      reads this, backbone
    {
      && (forall c :: 0 <= c < |backbone| ==> backbone[c].Length == CHUNK)
      && (forall c, d :: 0 <= c < d < |backbone| ==> backbone[c] != backbone[d])
    }

    ghost predicate Valid()
      reads this, backbone
    {
      && Chunked()
      && |contents| == len <= |backbone| * CHUNK
      && (forall i :: 0 <= i < len ==> backbone[i / CHUNK][i % CHUNK] == contents[i])
      && (if backbone == [] then copied == 0 else copied < |backbone|)
    }

    constructor ()
      ensures Valid() && contents == [] && backbone == []
    {
      backbone, len, contents, copied := [], 0, [], 0;
    }

    /** Makes room for the next element. Growth at least doubles the chunk count. */
    method Ensure()
      requires Valid()
      modifies this
      ensures Valid() && contents == old(contents) && len == old(len)
      ensures |backbone| == Grown(old(|backbone|), len)
      ensures copied == old(copied) + if |backbone| > old(|backbone|) then old(|backbone|) else 0
      ensures old(backbone) <= backbone
      ensures fresh(set c | |old(backbone)| <= c < |backbone| :: backbone[c])
    {
      var need := len / CHUNK + 1;
      if |backbone| >= need {
        return;
      }
      var target := Max(need, 2 * |backbone|);
      var next := backbone;
      ghost var was := backbone;
      while |next| < target
        modifies {}
        invariant was <= next && |next| <= target
        invariant forall c :: 0 <= c < |next| ==> next[c].Length == CHUNK
        invariant forall c, d :: 0 <= c < d < |next| ==> next[c] != next[d]
        invariant forall c :: |was| <= c < |next| ==> fresh(next[c])
        invariant forall c :: 0 <= c < |next| ==> allocated(next[c])
      {
        var chunk := new T[CHUNK];
        next := next + [chunk];
      }
      copied := copied + |backbone|;
      backbone := next;
    }

    /** Appends `value` and returns its index. */
    method Push(value: T) returns (index: nat)
      requires Valid()
      modifies this, backbone
      ensures Valid() && contents == old(contents) + [value] && index == old(len)
      ensures old(backbone) <= backbone && |backbone| == Grown(old(|backbone|), index)
      ensures fresh(set c | |old(backbone)| <= c < |backbone| :: backbone[c])
    {
      Ensure();
      index := len;
      backbone[index / CHUNK][index % CHUNK] := value;
      forall i | 0 <= i < index ensures backbone[i / CHUNK][i % CHUNK] == contents[i] {
        SameSlot(i, index);
      }
      contents := contents + [value];
      len := len + 1;
    }

    method Snapshot() returns (snap: seq<array<T>>)
      ensures snap == backbone
    {
      snap := backbone;
    }

    /** A snapshot taken at any earlier time (a prefix of today's backbone) shows, of everything
        appended since, exactly what falls in the chunks it holds. */
    lemma SnapshotStaysValid(snap: seq<array<T>>, i: nat)
      requires Valid() && snap <= backbone
      ensures i < len && i < |snap| * CHUNK ==> SnapGet(snap, i) == Some(contents[i])
      ensures i >= |snap| * CHUNK ==> SnapGet(snap, i) == None
    {
      assert i < |snap| * CHUNK <==> i / CHUNK < |snap|;
    }
  }

  lemma SameSlot(i: nat, j: nat)
    ensures i / CHUNK == j / CHUNK && i % CHUNK == j % CHUNK ==> i == j
  {
  }

  /** One tag's posting list as a value. `cells` are the values stored so far, the first `INLINE` of them in
      place and the rest in a spill column of `spillChunks` chunks; `len` is the published count. */
  datatype Slot = Slot(cells: seq<nat>, len: nat, spillChunks: nat)

  const EMPTY_SLOT := Slot([], 0, 0)

  // A cell that has storage but was never written reads as zero.
  function CellAt(slot: Slot, j: nat): nat { if j < |slot.cells| then slot.cells[j] else 0 }

  /** The slot after `push_local`: a value, perhaps in a grown spill column, and its count. */
  function Posted(slot: Slot, local: nat): (next: Slot) {
    var chunks := if |slot.cells| < INLINE then slot.spillChunks else Grown(slot.spillChunks, |slot.cells| - INLINE);
    Slot(slot.cells + [local], slot.len + 1, chunks)
  }

  /** Cells `j..n` in order, up to the first at or past `upto` or without storage. */
  function Collect(read: nat -> nat, covered: nat, n: nat, upto: nat, j: nat): (out: seq<nat>)
    decreases n - j
  {
    if j >= n || j >= covered || read(j) >= upto then []
    else [read(j)] + Collect(read, covered, n, upto, j + 1)
  }

  /** `collect_below` on a slot nobody is writing to. */
  function CollectSlot(slot: Slot, upto: nat): (out: seq<nat>) {
    Collect((j: nat) => CellAt(slot, j), INLINE + slot.spillChunks * CHUNK, slot.len, upto, 0)
  }

  /** Any prefix of the cells below `upto`, ending at the last or before one that is not, is what is
      collected. */
  lemma {:induction false} CollectIs(read: nat -> nat, covered: nat, cells: seq<nat>, upto: nat, j: nat, m: nat)
    requires j <= m <= |cells| <= covered && forall i :: 0 <= i < |cells| ==> read(i) == cells[i]
    requires forall i :: j <= i < m ==> cells[i] < upto
    requires m < |cells| ==> cells[m] >= upto
    ensures Collect(read, covered, |cells|, upto, j) == cells[j..m]
    decreases m - j
  {
    if j < m { CollectIs(read, covered, cells, upto, j + 1, m); }
  }

  class PostingSlot {
    var len: nat
    var inline: array<nat>
    var spill: ChunkedVec?<nat>
    ghost var contents: seq<nat>

    /** Everything the list is stored in. */
    ghost function Repr(): set<object?>
      reads this, spill
    {
      {this, inline} + if spill == null then {} else {spill} + set c | 0 <= c < |spill.backbone| :: spill.backbone[c]
    }

    ghost predicate Valid()
      reads this, inline, spill, if spill == null then {} else set c | 0 <= c < |spill.backbone| :: spill.backbone[c]
    {
      && inline.Length == INLINE
      && |contents| == len && Rising(contents)
      && (forall i :: 0 <= i < Min(len, INLINE) ==> inline[i] == contents[i])
      && (len > INLINE ==> spill != null)
      && (spill != null ==>
            && spill.Valid() && inline !in spill.backbone
            && spill.contents == if len > INLINE then contents[INLINE..] else [])
    }

    ghost function AsSlot(): (slot: Slot)
      reads this, spill
    {
      Slot(contents, len, if spill == null then 0 else |spill.backbone|)
    }

    constructor ()
      ensures Valid() && contents == [] && spill == null && AsSlot() == EMPTY_SLOT
    {
      len, contents, spill := 0, [], null;
      inline := new nat[INLINE];
    }

    /** Appends one local position, past all earlier ones: inline while there is room, then spilled. */
    method PushLocal(local: nat)
      requires Valid()
      requires forall x :: x in contents ==> x < local
      modifies Repr()
      ensures Valid() && contents == old(contents) + [local] && AsSlot() == Posted(old(AsSlot()), local)
    {
      RisingSnoc(contents, local);
      if len < INLINE {
        inline[len] := local;
        contents := contents + [local];
        len := len + 1;
        return;
      }
      if spill == null {
        spill := new ChunkedVec<nat>();
      }
      Spill(local);
    }

    /** The value goes to the spill column, past the inline cells. */
    method Spill(local: nat)
      requires Valid() && len >= INLINE && spill != null && Rising(contents + [local])
      modifies this, spill, spill.backbone
      ensures Valid() && contents == old(contents) + [local] && AsSlot() == Posted(old(AsSlot()), local)
    {
      hide Rising;
      assert (contents + [local])[INLINE..] == (if len > INLINE then contents[INLINE..] else []) + [local];
      var _ := spill.Push(local);
      contents := contents + [local];
      len := len + 1;
    }

    /** The ascending positions below `upto`: exactly the prefix of the list under the bound, and what the
        slot as a value collects. */
    method CollectBelow(upto: nat) returns (out: seq<nat>)
      requires Valid()
      ensures out <= contents
      ensures forall x :: x in out ==> x < upto
      ensures |out| < |contents| ==> contents[|out|] >= upto
      ensures out == CollectSlot(AsSlot(), upto)
    {
      hide CollectSlot;
      out := CollectInline(upto);
      if len > INLINE && |out| == INLINE {
        out := CollectSpill(upto, out);
      }
      assert out == contents[..|out|];
      SlotCollected(AsSlot(), upto, |out|);
    }

    method CollectInline(upto: nat) returns (out: seq<nat>)
      requires Valid()
      ensures out <= contents && |out| <= INLINE && forall x :: x in out ==> x < upto
      ensures |out| < Min(len, INLINE) ==> contents[|out|] >= upto
    {
      out := [];
      var inlineCount := Min(len, INLINE);
      for i := 0 to inlineCount
        invariant |out| == i && out <= contents
        invariant forall x :: x in out ==> x < upto
      {
        if inline[i] >= upto { return; }
        out := out + [inline[i]];
      }
    }

    /** The spilled half, reached only once the inline cells are all below the bound. */
    method CollectSpill(upto: nat, below: seq<nat>) returns (out: seq<nat>)
      requires Valid() && len > INLINE
      requires below == contents[..INLINE] && forall x :: x in below ==> x < upto
      ensures out <= contents
      ensures forall x :: x in out ==> x < upto
      ensures |out| < |contents| ==> contents[|out|] >= upto
    {
      out := below;
      var snap := spill.Snapshot();
      for j := 0 to len - INLINE
        invariant out == contents[..INLINE + j]
        invariant forall x :: x in out ==> x < upto
      {
        spill.SnapshotStaysValid(snap, j);
        var slot := SnapGet<nat>(snap, j);
        assert slot == Some(contents[INLINE + j]);
        if slot.value >= upto { return; }
        out := out + [slot.value];
      }
    }
  }

  lemma SlotCollected(slot: Slot, upto: nat, m: nat)
    requires slot.len == |slot.cells| <= INLINE + slot.spillChunks * CHUNK && m <= slot.len
    requires forall x :: x in slot.cells[..m] ==> x < upto
    requires m < slot.len ==> slot.cells[m] >= upto
    ensures CollectSlot(slot, upto) == slot.cells[..m]
  {
    forall i | 0 <= i < m ensures slot.cells[i] < upto {
      assert slot.cells[..m][i] in slot.cells[..m];
    }
    CollectIs((j: nat) => CellAt(slot, j), INLINE + slot.spillChunks * CHUNK, slot.cells, upto, 0, m);
    assert slot.cells[0..m] == slot.cells[..m];
  }
}
