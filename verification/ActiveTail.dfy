/** The active tail as the writer thread uses it: an object fed one event at a time, and queried
    through a view over everything fed so far. */
module ActiveTail {
  import opened Bytes
  import opened Names
  import opened Events
  import opened Search
  import opened Append
  import opened Tail

  // ------------------------------------------------------------------ a view of a quiet tail

  /** A tag's postings below `n`. */
  function PostingsBelow(t: Tail, n: nat, tag: Name): (list: Option<seq<nat>>) {
    if tag !in t.tags || t.tags[tag] >= t.slotChunks * CHUNK then None
    else Some(CollectSlot(SlotAt(t, t.tags[tag]), n))
  }

  function TermLenBelow(t: Tail, n: nat, tag: Name): (len: Option<nat>) {
    if tag !in t.tags || t.tags[tag] >= t.slotChunks * CHUNK then None
    else Some(Min(SlotAt(t, t.tags[tag]).len, n))
  }

  /** `make_view`: as long as asked, clamped to what the column's snapshot says it covers. Nothing moves while
      it is probed, so a probe's number does not matter. */
  function MakeView(t: Tail, upto: nat): (ix: SegmentIndex) {
    var n := Min(upto, Addressable(t.columnChunks));
    SegmentIndex(
      t.base, n,
      (_, tag) => PostingsBelow(t, n, tag),
      (_, tag) => TermLenBelow(t, n, tag),
      (_, name) => if name in t.types then Some(t.types[name]) else None,
      (_, local: nat) => if local < t.columnChunks * CHUNK then ColumnAt(t, local) else 0)
  }

  function FullPostings(t: Tail, tag: Name): (list: Option<seq<nat>>) { PostingsBelow(t, |t.column|, tag) }

  function FullTermLen(t: Tail, tag: Name): (n: Option<nat>) { TermLenBelow(t, |t.column|, tag) }

  /** `view_full`: everything fed so far. */
  function FullView(t: Tail): (ix: SegmentIndex) { MakeView(t, |t.column|) }

  /** Between pushes, with nothing rejected. */
  ghost predicate Quiet(s: Writer) {
    Inv(s) && s.pc.Idle? && |s.log| == |s.tail.column|
  }

  lemma SlotCollects(slot: Slot, events: seq<Event>, tag: Name)
    requires SlotShows(slot, events, tag)
    ensures CollectSlot(slot, |events|) == PostingsOf(events, tag)
  {
    CollectsPostings((j: nat) => CellAt(slot, j), slot, INLINE + slot.spillChunks * CHUNK, events, tag);
  }

  lemma FullPostingsExact(s: Writer, tag: Name)
    requires Quiet(s)
    ensures tag in s.tail.tags ==> FullPostings(s.tail, tag) == Some(PostingsOf(s.log, tag))
    ensures tag in s.tail.tags ==> FullTermLen(s.tail, tag) == Some(|PostingsOf(s.log, tag)|)
    ensures tag in s.tail.tags <==> PostingsOf(s.log, tag) != []
    ensures |PostingsOf(s.log, tag)| <= |s.log|
  {
    var t := s.tail;
    assert s.log[..|t.column|] == s.log;
    assert TagOk(s, tag);
    if tag in t.tags {
      SlotHoldsVisible(s, s.log, tag);
      SlotCollects(t.slots[t.tags[tag]], s.log, tag);
    }
    PostingsPrefix(s.log, |s.log|, |s.log|, tag);
  }

  /** On a quiet tail the clamp does not bite. */
  lemma FullViewProbes(s: Writer)
    requires Quiet(s)
    ensures FullView(s.tail).len == |s.log|
    ensures forall k: nat, tag: Name :: FullView(s.tail).termPostings(k, tag) == FullPostings(s.tail, tag)
    ensures forall k: nat, tag: Name :: FullView(s.tail).termLen(k, tag) == FullTermLen(s.tail, tag)
    ensures forall k: nat, local: nat :: FullView(s.tail).typeAt(k, local) == ColumnAt(s.tail, local)
  {
    hide PostingsBelow, TermLenBelow;
    assert ColumnOk(s.tail, s.log);
  }

  lemma FullViewAnswers(s: Writer)
    requires Quiet(s)
    ensures Answers(FullView(s.tail), s.log)
  {
    var ix := FullView(s.tail);
    FullViewProbes(s);
    forall k, tag
      ensures match ix.termPostings(k, tag)
              case None => PostingsOf(s.log, tag) == []
              case Some(list) => list == PostingsOf(s.log, tag)
      ensures match ix.termLen(k, tag)
              case None => PostingsOf(s.log, tag) == []
              case Some(n) => n >= |PostingsOf(s.log, tag)|
    {
      FullPostingsExact(s, tag);
    }
    assert TypesOk(s.tail.types) && ColumnOk(s.tail, s.log);
    forall k, name | ix.typeId(k, name).Some? ensures IdStandsFor(ix, s.log, ix.typeId(k, name).value, name) {
      forall k', local | 0 <= local < |s.log|
        ensures ix.typeAt(k', local) == ix.typeId(k, name).value <==> s.log[local].ty == name
      {
        assert Distinct(s.tail.types, s.log[local].ty, name);
      }
    }
  }

  /** Every event type is interned: the tail knows exactly the types that occur. */
  lemma QuietTypes(s: Writer)
    requires Quiet(s)
    ensures s.tail.types.Keys == TypeSet(s.log)
    ensures |TypeSet(s.log)| <= MAX_TYPES
  {
    forall a | a in TypeSet(s.log) ensures a in s.tail.types {
      var i :| 0 <= i < |s.log| && s.log[i].ty == a;
    }
  }

  /** A type is refused exactly when it would be the 65537th distinct one. */
  lemma TypeFits(s: Writer, e: Event)
    requires Quiet(s)
    ensures TypeFor(s.tail, e.ty).Some? <==> |TypeSet(s.log + [e])| <= MAX_TYPES
  {
    QuietTypes(s);
    TypeSetSnoc(s.log, e);
    var keys := s.tail.types.Keys;
    if e.ty in keys {
      assert keys + {e.ty} == keys;
    } else {
      assert |keys + {e.ty}| == |keys| + 1;
    }
  }

  lemma SlotInHand(s: Writer)
    requires Inv(s) && s.pc.Posting?
    ensures s.pc.term < |s.tail.slots| && Ascending(s.pc.e.tags)
  {
    assert TagOk(s, s.pc.e.tags[s.pc.k]);
  }

  // ------------------------------------------------------------------ the object

  class ActiveTail {
    var state: Writer

    ghost predicate Valid()
      reads this
    {
      Quiet(state)
    }

    constructor (base: nat)
      ensures Valid() && state == Writer(NewTail(base), [], Idle)
    {
      state := Writer(NewTail(base), [], Idle);
    }

    /** One atomic store of the writer thread. */
    method Do(step: Step)
      requires Inv(state) && Enabled(state, step) && WellFormed(step)
      modifies this
      ensures Inv(state) && state == Apply(old(state), step)
    {
      StepKeepsInv(state, step);
      state := Apply(state, step);
    }

    /** Indexes `e` at `position`, which must be the next one. Rejected, with nothing changed, when
        its type would be one more than the column can address. */
    method Push(position: nat, e: Event) returns (ok: bool)
      requires Valid() && !state.tail.unindexable && |state.log| < MAX_EVENTS
      requires position == state.tail.base + |state.log|
      requires Ascending(e.tags)
      modifies this
      ensures Valid()
      ensures ok <==> |TypeSet(old(state.log) + [e])| <= MAX_TYPES
      ensures ok ==> state.log == old(state.log) + [e]
      ensures !ok ==> state == old(state)
      ensures state.tail.base == old(state.tail.base) && !state.tail.unindexable
    {
      TypeFits(state, e);
      var id := TypeFor(state.tail, e.ty);
      if id.None? {
        return false;
      }
      Do(Begin(e));
      PostTags();
      PushType();
      return true;
    }

    /** Posts the event under each of its tags. */
    method PostTags()
      requires Inv(state) && state.pc.Tagging? && state.pc.k == 0
      modifies this
      ensures Inv(state) && state.pc == Tagging(old(state.pc.e), old(state.pc.id), |old(state.pc.e).tags|)
      ensures state.log == old(state.log)
      ensures state.tail.base == old(state.tail.base) && state.tail.unindexable == old(state.tail.unindexable)
    {
      var e, id := state.pc.e, state.pc.id;
      for k := 0 to |e.tags|
        invariant Inv(state) && state.pc == Tagging(e, id, k)
        invariant state.log == old(state.log)
        invariant state.tail.base == old(state.tail.base) && state.tail.unindexable == old(state.tail.unindexable)
      {
        PostTag();
      }
    }

    method PostTag()
      requires Inv(state) && state.pc.Tagging? && state.pc.k < |state.pc.e.tags|
      modifies this
      ensures Inv(state) && state.pc == Tagging(old(state.pc.e), old(state.pc.id), old(state.pc.k) + 1)
      ensures state.log == old(state.log)
      ensures state.tail.base == old(state.tail.base) && state.tail.unindexable == old(state.tail.unindexable)
    {
      InternTag();
      PostLocal();
    }

    /** Appends the event's local position to the slot of the tag in hand: the stored slot of `Append`. */
    method PostLocal()
      requires Inv(state) && state.pc.Posting?
      modifies this
      ensures var t, term := old(state.tail), old(state.pc.term);
              && term < |t.slots|
              && state.tail == WithSlot(t, term, Posted(t.slots[term], |t.column|))
      ensures Inv(state) && state.pc == Tagging(old(state.pc.e), old(state.pc.id), old(state.pc.k) + 1)
      ensures state.log == old(state.log)
      ensures state.tail.base == old(state.tail.base) && state.tail.unindexable == old(state.tail.unindexable)
    {
      hide Inv;
      StoreLocal();
      Do(StoreLen);
    }

    /** The value alone, its count not published yet. */
    method StoreLocal()
      requires Inv(state) && state.pc.Posting?
      modifies this
      ensures Inv(state) && state.log == old(state.log)
      ensures state.pc == CellStored(old(state.pc.e), old(state.pc.id), old(state.pc.k), old(state.pc.term))
      ensures var t, term := old(state.tail), old(state.pc.term);
              && term < |t.slots|
              && state.tail == WithSlot(t, term, Posted(t.slots[term], |t.column|).(len := t.slots[term].len))
    {
      SlotInHand(state);
      hide Inv;
      if |state.tail.slots[state.pc.term].cells| >= INLINE {
        Do(GrowSpill);
      }
      Do(StoreCell);
    }

    /** The column store, last: it carries the event's type and completes the push. */
    method PushType()
      requires Inv(state) && state.pc.Tagging? && state.pc.k == |state.pc.e.tags|
      modifies this
      ensures Valid() && state.log == old(state.log)
      ensures state.tail.base == old(state.tail.base) && state.tail.unindexable == old(state.tail.unindexable)
    {
      Do(TagsDone);
      Do(GrowColumn);
      Do(StoreType);
    }

    /** Finds the posting slot of the tag in hand, creating the slot before publishing its mapping. */
    method InternTag()
      requires Inv(state) && state.pc.Tagging? && state.pc.k < |state.pc.e.tags|
      modifies this
      ensures Inv(state) && state.pc.Posting? && state.pc.term < |state.tail.slots|
      ensures state.pc == Posting(old(state.pc.e), old(state.pc.id), old(state.pc.k), state.pc.term)
      ensures state.log == old(state.log)
      ensures state.tail.base == old(state.tail.base) && state.tail.unindexable == old(state.tail.unindexable)
    {
      if state.pc.e.tags[state.pc.k] in state.tail.tags {
        assert TagOk(state, state.pc.e.tags[state.pc.k]);
        Do(FindTag);
      } else {
        Do(GrowSlots);
        Do(MakeSlot);
        Do(MapTag);
      }
    }

    /** Latches the segment: from here on readers scan the log for its range. */
    method MarkUnindexable()
      requires Valid()
      modifies this
      ensures Valid() && state == old(state).(tail := Latched(old(state.tail)))
    {
      SameCells(state, state.(tail := Latched(state.tail)));
      state := state.(tail := Latched(state.tail));
    }
  }
}
