/** What a reader sees of a tail whose segment is unindexable but whose latch was never set, as after an
    index is reopened over such a segment: the watermark exposes more events than the tail holds. */
module UnlatchedView {
  import opened Bytes
  import opened Names
  import opened Events
  import opened Search
  import opened Append
  import opened Tail
  import opened ActiveTail
  import opened Recovery
  import LiveView
  import IndexSet

  // ------------------------------------------------------------------ the reader's own view

  /** `view(watermark)` is as long as the watermark says, clamped to the chunks the column has: to their
      capacity, not to what has been written into them. */
  function WatermarkLen(t: Tail, watermark: nat): (n: nat) {
    Min(LiveView.VisibleLen(t.base, watermark), Addressable(t.columnChunks))
  }

  function WatermarkView(t: Tail, watermark: nat): (ix: SegmentIndex) {
    MakeView(t, LiveView.VisibleLen(t.base, watermark))
  }

  // ------------------------------------------------------------------ what it shows

  /** The type unwritten column cells read as. */
  ghost function ZeroType(t: Tail): (name: Name)
    requires IdTaken(t.types, 0)
    ensures name in t.types && t.types[name] == 0
  {
    var a :| a in t.types && t.types[a] == 0; a
  }

  /** The first `n` locals as the view shows them: what the tail was fed, then untagged events of the type
      that has id 0. */
  ghost function Shown(s: Writer, n: nat): (events: seq<Event>)
    requires n > |s.log| ==> IdTaken(s.tail.types, 0)
    ensures |events| == n
  {
    if n <= |s.log| then s.log[..n]
    else s.log + seq(n - |s.log|, _ => Event(ZeroType(s.tail), [], []))
  }

  lemma SomeType(s: Writer)
    requires Quiet(s) && s.log != []
    ensures IdTaken(s.tail.types, 0)
  {
    assert s.log[0].ty in s.tail.types;
    assert s.tail.types != map[];
    assert |s.tail.types| > 0;
  }

  /** Padding carries no tags. */
  lemma ShownPostings(s: Writer, n: nat, tag: Name)
    requires n > |s.log| && IdTaken(s.tail.types, 0)
    ensures PostingsOf(Shown(s, n), tag) == PostingsOf(s.log, tag)
  {
    hide PostingsOf;
    PostingsOfSpec(Shown(s, n), tag);
    PostingsOfSpec(s.log, tag);
    RisingUnique(PostingsOf(Shown(s, n), tag), PostingsOf(s.log, tag));
  }

  lemma QuietSlot(s: Writer, tag: Name)
    requires Quiet(s) && tag in s.tail.tags
    ensures s.tail.tags[tag] < |s.tail.slots|
    ensures var slot := s.tail.slots[s.tail.tags[tag]];
            slot.cells == PostingsOf(s.log, tag) && slot.len == |slot.cells| <= INLINE + slot.spillChunks * CHUNK
  {
    assert s.log[..|s.tail.column|] == s.log;
    assert TagOk(s, tag);
  }

  /** A slot's cells cut at any length are the postings shown below it. */
  lemma SlotShown(s: Writer, n: nat, tag: Name)
    requires Quiet(s) && tag in s.tail.tags && (n > |s.log| ==> s.log != [])
    ensures n > |s.log| ==> IdTaken(s.tail.types, 0)
    ensures PostingsBelow(s.tail, n, tag) == Some(PostingsOf(Shown(s, n), tag))
    ensures TermLenBelow(s.tail, n, tag).Some?
         && TermLenBelow(s.tail, n, tag).value >= |PostingsOf(Shown(s, n), tag)|
  {
    if s.log != [] { SomeType(s); }
    QuietSlot(s, tag);
    var slot := s.tail.slots[s.tail.tags[tag]];
    ShownIsCut(s, n, tag);
    AtMost(Shown(s, n), tag);
    CollectsCut((j: nat) => CellAt(slot, j), slot, n, PostingsOf(Shown(s, n), tag));
    assert TagsOk(s.tail);
  }

  /** Collecting a slot's cells below `n` gives the ascending list of just those cells. */
  lemma CollectsCut(read: nat -> nat, slot: Slot, n: nat, list: seq<nat>)
    requires Rising(slot.cells) && slot.len == |slot.cells| <= INLINE + slot.spillChunks * CHUNK
    requires forall j :: 0 <= j < slot.len ==> read(j) == slot.cells[j]
    requires Rising(list) && forall x :: x in list <==> x < n && x in slot.cells
    ensures Collect(read, INLINE + slot.spillChunks * CHUNK, slot.len, n, 0) == list
  {
    hide Collect;
    CollectSpec(read, slot.cells, INLINE + slot.spillChunks * CHUNK, slot.len, n, 0);
    assert slot.cells[0..slot.len] == slot.cells;
    RisingUnique(Collect(read, INLINE + slot.spillChunks * CHUNK, slot.len, n, 0), list);
  }

  /** The postings shown are those of the log that lie below `n`, and no more than they. */
  lemma ShownIsCut(s: Writer, n: nat, tag: Name)
    requires n > |s.log| ==> IdTaken(s.tail.types, 0)
    ensures var log, shown := PostingsOf(s.log, tag), PostingsOf(Shown(s, n), tag);
            Rising(log) && Rising(shown) && |shown| <= |log| && forall x :: x in shown <==> x < n && x in log
  {
    hide PostingsOf;
    PostingsOfSpec(s.log, tag);
    PostingsOfSpec(Shown(s, n), tag);
    if n > |s.log| {
      ShownPostings(s, n, tag);
    } else {
      PostingsPrefix(s.log, n, |s.log|, tag);
      assert s.log[..|s.log|] == s.log;
    }
  }

  lemma AtMost(log: seq<Event>, tag: Name)
    ensures |PostingsOf(log, tag)| <= |log|
  {
    PostingsPrefix(log, |log|, |log|, tag);
    assert log[..|log|] == log;
  }

  lemma TermShown(s: Writer, n: nat, tag: Name)
    requires Quiet(s) && tag !in s.tail.tags && (n > |s.log| ==> IdTaken(s.tail.types, 0))
    ensures PostingsOf(Shown(s, n), tag) == []
  {
    FullPostingsExact(s, tag);
    if n > |s.log| {
      ShownPostings(s, n, tag);
    } else {
      PostingsPrefix(s.log, n, |s.log|, tag);
      assert s.log[..|s.log|] == s.log;
    }
  }

  lemma TypeShown(s: Writer, n: nat, local: nat)
    requires Quiet(s) && local < n && (n > |s.log| ==> IdTaken(s.tail.types, 0))
    ensures Shown(s, n)[local].ty in s.tail.types
    ensures s.tail.types[Shown(s, n)[local].ty] == ColumnAt(s.tail, local)
  {
    assert ColumnOk(s.tail, s.log);
  }

  /** Every probe of the view is truthful about what it shows. */
  lemma WatermarkViewAnswers(s: Writer, watermark: nat)
    requires Quiet(s) && (WatermarkLen(s.tail, watermark) > |s.log| ==> s.log != [])
    ensures WatermarkLen(s.tail, watermark) > |s.log| ==> IdTaken(s.tail.types, 0)
    ensures Answers(WatermarkView(s.tail, watermark), Shown(s, WatermarkLen(s.tail, watermark)))
  {
    if s.log != [] { SomeType(s); }
    var ix, n := WatermarkView(s.tail, watermark), WatermarkLen(s.tail, watermark);
    var events := Shown(s, n);
    hide Collect, PostingsOf, Inv;
    forall k, tag
      ensures match ix.termPostings(k, tag)
              case None => PostingsOf(events, tag) == []
              case Some(list) => list == PostingsOf(events, tag)
      ensures match ix.termLen(k, tag)
              case None => PostingsOf(events, tag) == []
              case Some(len) => len >= |PostingsOf(events, tag)|
    {
      if tag in s.tail.tags { SlotShown(s, n, tag); } else { TermShown(s, n, tag); }
    }
    forall k, name
      ensures match ix.typeId(k, name)
              case None => forall i :: 0 <= i < |events| ==> events[i].ty != name
              case Some(id) => IdStandsFor(ix, events, id, name)
    {
      TypesShown(s, watermark, name);
    }
  }

  lemma TypesShown(s: Writer, watermark: nat, name: Name)
    requires var n := WatermarkLen(s.tail, watermark); Quiet(s) && (n > |s.log| ==> IdTaken(s.tail.types, 0))
    ensures var n, ix := WatermarkLen(s.tail, watermark), WatermarkView(s.tail, watermark);
            if name in s.tail.types then IdStandsFor(ix, Shown(s, n), s.tail.types[name], name)
            else forall i :: 0 <= i < n ==> Shown(s, n)[i].ty != name
  {
    var n, ix := WatermarkLen(s.tail, watermark), WatermarkView(s.tail, watermark);
    assert TypesOk(s.tail.types);
    hide Inv, Shown, ColumnAt;
    if name in s.tail.types {
      forall k: nat, local: nat | local < n
        ensures ix.typeAt(k, local) == s.tail.types[name] <==> Shown(s, n)[local].ty == name
      {
        TypeShown(s, n, local);
        assert Distinct(s.tail.types, Shown(s, n)[local].ty, name);
      }
    } else {
      forall i | 0 <= i < n ensures Shown(s, n)[i].ty != name {
        TypeShown(s, n, i);
      }
    }
  }

  /** A read through the view returns the scan of what it shows. */
  method ReadUnlatched(t: Tail, watermark: nat, q: Query, after: nat, ghost s: Writer) returns (found: seq<nat>)
    requires Quiet(s) && t == s.tail && (WatermarkLen(t, watermark) > |s.log| ==> s.log != [])
    ensures WatermarkLen(t, watermark) > |s.log| ==> IdTaken(t.types, 0)
    ensures found == Scan(Shown(s, WatermarkLen(t, watermark)), t.base, q, after)
  {
    WatermarkViewAnswers(s, watermark);
    found := Search.Search(WatermarkView(t, watermark), q, after, Shown(s, WatermarkLen(t, watermark)));
  }

  // ------------------------------------------------------------------ when that is right

  /** The tail holds the segment's events, or all of them before the type too many. */
  ghost predicate Holding(s: Writer, events: seq<Event>) {
    Quiet(s) && |events| <= MAX_EVENTS && (s.log == events || StopsBefore(s.log, events))
  }

  lemma HoldingSomething(s: Writer, events: seq<Event>)
    requires Holding(s, events) && s.log != events
    ensures s.log != [] && events[|s.log|].ty !in s.tail.types && IdTaken(s.tail.types, 0)
  {
    var e := events[|s.log|];
    assert events[..|s.log| + 1] == s.log + [e];
    TypeFits(s, e);
    TypeSetSnoc(s.log, e);
    assert s.log == [] ==> TypeSet(s.log + [e]) == {e.ty};
    SomeType(s);
  }

  /** Every query through the view, from every bound, is the scan of the events the watermark exposes. */
  ghost predicate RightAt(s: Writer, events: seq<Event>, watermark: nat)
    requires Holding(s, events) && LiveView.VisibleLen(s.tail.base, watermark) <= |events|
  {
    var n, m := WatermarkLen(s.tail, watermark), LiveView.VisibleLen(s.tail.base, watermark);
    && (n > |s.log| ==> IdTaken(s.tail.types, 0))
    && forall q, after ::
         Scan(Shown(s, n), s.tail.base, q, after) == Scan(events[..m], s.tail.base, q, after)
  }

  /** All events of the rejected type. */
  function OfType(name: Name): (q: Query) {
    Items([QueryItem([name], [])])
  }

  lemma OfTypeMatches(name: Name, e: Event)
    ensures Matches(OfType(name), e) <==> e.ty == name
  {
    var items := [QueryItem([name], [])];
    assert ItemMatches(items[0], e) <==> e.ty == name;
  }

  /** A type the tail does not know is not shown. */
  lemma UnknownTypeIsMissed(s: Writer, n: nat, name: Name, after: nat)
    requires Quiet(s) && name !in s.tail.types && (n > |s.log| ==> IdTaken(s.tail.types, 0))
    ensures Scan(Shown(s, n), s.tail.base, OfType(name), after) == []
  {
    hide OfType, Matches, Inv, Shown;
    forall local | 0 <= local < n ensures !Matches(OfType(name), Shown(s, n)[local]) {
      OfTypeMatches(name, Shown(s, n)[local]);
      TypeShown(s, n, local);
    }
    ScanOfNone(Shown(s, n), s.tail.base, OfType(name), after);
  }

  /** Past what the tail holds, the query for the rejected type finds nothing, though its first event is
      exposed. */
  lemma RejectedTypeIsMissed(s: Writer, events: seq<Event>, watermark: nat, after: nat)
    requires Holding(s, events) && |s.log| < LiveView.VisibleLen(s.tail.base, watermark) <= |events|
    requires after < s.tail.base + |s.log|
    ensures s.log != [] && IdTaken(s.tail.types, 0)
    ensures var n, m := WatermarkLen(s.tail, watermark), LiveView.VisibleLen(s.tail.base, watermark);
            var q := OfType(events[|s.log|].ty);
            && Scan(Shown(s, n), s.tail.base, q, after) == []
            && s.tail.base + |s.log| in Scan(events[..m], s.tail.base, q, after)
  {
    HoldingSomething(s, events);
    var n, m := WatermarkLen(s.tail, watermark), LiveView.VisibleLen(s.tail.base, watermark);
    var name := events[|s.log|].ty;
    var q := OfType(name);
    hide OfType, Scan, Matches, Inv, Shown, WatermarkLen;
    ScanSpec(events[..m], s.tail.base, q, after);
    OfTypeMatches(name, events[|s.log|]);
    UnknownTypeIsMissed(s, n, name, after);
  }

  /** The reader is right exactly when the watermark exposes no more than the tail holds. */
  lemma RightExactlyWithinTail(s: Writer, events: seq<Event>, watermark: nat)
    requires Holding(s, events) && LiveView.VisibleLen(s.tail.base, watermark) <= |events|
    ensures RightAt(s, events, watermark) <==> LiveView.VisibleLen(s.tail.base, watermark) <= |s.log|
  {
    var m := LiveView.VisibleLen(s.tail.base, watermark);
    if m <= |s.log| {
      assert ColumnOk(s.tail, s.log);
      assert s.log[..m] == events[..m];
    } else {
      HoldingSomething(s, events);
      RejectedTypeIsMissed(s, events, watermark, 0);
    }
  }

  /** Readers of an index set's shared tail, as long as its latch is not set: with everything published,
      they are right exactly when the active segment is indexable. */
  lemma SharedTailRight(set': IndexSet.IndexSet, watermark: nat)
    requires set'.Valid() && set'.Current() != [] && watermark == set'.activeBase + set'.activeSpan - 1
    ensures Holding(set'.active.state, set'.Current())
    ensures LiveView.VisibleLen(set'.activeBase, watermark) == |set'.Current()|
    ensures RightAt(set'.active.state, set'.Current(), watermark) <==> !Overflows(set'.Current())
  {
    assert IndexSet.Storable(set'.log[|set'.log| - 1], set'.lib);
    RightExactlyWithinTail(set'.active.state, set'.Current(), watermark);
  }

  // ------------------------------------------------------------------ a segment where it is wrong

  /** A three-letter name for each number, no two alike below 2^18. */
  function NameOf(i: nat): (name: Name) {
    [48 + i % 64, 48 + i / 64 % 64, 48 + i / 4096 % 64]
  }

  function NumberOf(name: Name): (i: int) {
    if |name| == 3 then name[0] as int + 64 * name[1] as int + 4096 * name[2] as int - 48 * 4161 else 0
  }

  lemma NumberOfName(i: nat)
    requires i < 0x4_0000
    ensures NumberOf(NameOf(i)) == i
  {
    assert i == i % 64 + 64 * (i / 64 % 64) + 4096 * (i / 4096);
  }

  /** `n` untagged events, each of a type of its own. */
  function Motley(n: nat): (events: seq<Event>)
    ensures |events| == n && forall i :: 0 <= i < n ==> events[i] == Event(NameOf(i), [], [])
  {
    seq(n, (i: nat) => Event(NameOf(i), [], []))
  }

  lemma {:induction false} MotleyTypes(n: nat)
    requires n <= 0x4_0000
    ensures |TypeSet(Motley(n))| == n
  {
    hide NameOf;
    if n > 0 {
      MotleyTypes(n - 1);
      var init, e := Motley(n - 1), Event(NameOf(n - 1), [], []);
      assert Motley(n) == init + [e];
      TypeSetSnoc(init, e);
      NumberOfName(n - 1);
      forall i | 0 <= i < n - 1 ensures init[i].ty != e.ty { NumberOfName(i); }
    }
  }

  lemma MotleyStops(log: seq<Event>)
    requires StopsBefore(log, Motley(MAX_TYPES + 1))
    ensures |log| == MAX_TYPES
  {
    hide NameOf;
    assert Motley(MAX_TYPES + 1)[..|log| + 1] == Motley(|log| + 1);
    MotleyTypes(|log| + 1);
  }

  /** One type more than the column can address, rebuilt as opening an index does it: the tail that readers
      share is not latched, and is wrong once the last event is published. */
  method RebuiltUnlatched(base: nat) returns (r: Rebuilder)
    ensures fresh(r) && r.Valid() && r.base == base == r.index.state.tail.base
    ensures r.fed == Motley(MAX_TYPES + 1)
    ensures r.unindexable && !r.index.state.tail.unindexable
    ensures Holding(r.index.state, r.fed) && r.index.state.log != r.fed
    ensures LiveView.VisibleLen(base, base + MAX_TYPES) == |r.fed|
    ensures !RightAt(r.index.state, r.fed, base + MAX_TYPES)
  {
    hide NameOf, Quiet, RightAt;
    r := Rebuild(base, Motley(MAX_TYPES + 1));
    MotleyTypes(MAX_TYPES + 1);
    MotleyStops(r.index.state.log);
    RightExactlyWithinTail(r.index.state, r.fed, base + MAX_TYPES);
  }
}
