/** The active tail: the in-memory index over the segment still being written. One writer thread
    feeds it; readers query it at any moment through a view bounded by the published watermark. */
module Tail {
  import opened Bytes
  import opened Names
  import opened Events
  import opened Append

  const MAX_TYPES: nat := U16_MAX + 1

  /** What a segment's column may hold: past it, the chunk count doubles to what no `u32` can address. */
  const MAX_EVENTS: nat := 0x8000_0000

  // ------------------------------------------------------------------ shared memory

  /** Everything a reader can see. A column is its stored values plus the number of chunks its
      backbone holds: a chunk's unwritten slots read as the default. */
  datatype Tail = Tail(
    base: nat,
    column: seq<nat>, columnChunks: nat,
    slots: seq<Slot>, slotChunks: nat,
    tags: map<Name, nat>,
    types: map<Name, nat>,
    unindexable: bool)

  function NewTail(base: nat): (t: Tail) {
    Tail(base, [], 0, [], 0, map[], map[], false)
  }

  /** The id for a type, or none when a new one would not fit the `u16` column. */
  function TypeFor(t: Tail, name: Name): (id: Option<nat>) {
    if name in t.types then Some(t.types[name])
    else if |t.types| > U16_MAX then None
    else Some(|t.types|)
  }

  // ------------------------------------------------------------------ the writer's atomic steps

  /** Where the writer stands inside `push`: `k` tags of `e` are done, `id` is its type, `term` the
      posting slot of the tag in hand. */
  datatype Pc =
    | Idle
    | Tagging(e: Event, id: nat, k: nat)
    | SlotMade(e: Event, id: nat, k: nat, term: nat)
    | Posting(e: Event, id: nat, k: nat, term: nat)
    | CellStored(e: Event, id: nat, k: nat, term: nat)
    | Column(e: Event, id: nat)
    | Rejected

  /** The writer thread: the memory it shares, the events assigned to this segment, its position. */
  datatype Writer = Writer(tail: Tail, log: seq<Event>, pc: Pc)

  datatype Step =
    | Begin(e: Event)      // intern the type
    | Reject(e: Event)     // the type does not fit: nothing is written
    | Latch                // mark the segment unindexable
    | Skip(e: Event)       // an event of a latched segment
    | FindTag | GrowSlots | MakeSlot | MapTag
    | GrowSpill | StoreCell | StoreLen
    | TagsDone | GrowColumn | StoreType

  predicate Enabled(s: Writer, step: Step) {
    var t := s.tail;
    match step
    case Begin(e) => s.pc.Idle? && !t.unindexable && TypeFor(t, e.ty).Some? && |s.log| < MAX_EVENTS
    case Reject(e) => s.pc.Idle? && !t.unindexable && TypeFor(t, e.ty).None?
    case Latch => s.pc.Rejected?
    case Skip(e) => s.pc.Idle? && t.unindexable
    case FindTag => s.pc.Tagging? && s.pc.k < |s.pc.e.tags| && s.pc.e.tags[s.pc.k] in t.tags
    case GrowSlots => s.pc.Tagging?
    case MakeSlot =>
      s.pc.Tagging? && s.pc.k < |s.pc.e.tags| && s.pc.e.tags[s.pc.k] !in t.tags && |t.slots| < t.slotChunks * CHUNK
    case MapTag => s.pc.SlotMade? && s.pc.k < |s.pc.e.tags|
    case GrowSpill => s.pc.Posting? && s.pc.term < |t.slots| && |t.slots[s.pc.term].cells| >= INLINE
    case StoreCell =>
      s.pc.Posting? && s.pc.term < |t.slots| && Covered(t.slots[s.pc.term], |t.slots[s.pc.term].cells|)
    case StoreLen => s.pc.CellStored? && s.pc.term < |t.slots|
    case TagsDone => s.pc.Tagging? && s.pc.k == |s.pc.e.tags|
    case GrowColumn => s.pc.Column?
    case StoreType => s.pc.Column? && |t.column| < t.columnChunks * CHUNK
  }

  /** Whether cell `j` of a slot has storage behind it. */
  predicate Covered(slot: Slot, j: nat) {
    j < INLINE || j - INLINE < slot.spillChunks * CHUNK
  }

  function Apply(s: Writer, step: Step): (s': Writer)
    requires Enabled(s, step)
  {
    var t := s.tail;
    match step
    case Begin(e) =>
      var id := TypeFor(t, e.ty).value;
      Writer(t.(types := t.types[e.ty := id]), s.log + [e], Tagging(e, id, 0))
    case Reject(e) => Writer(t, s.log + [e], Rejected)
    case Latch => Writer(Latched(t), s.log, Idle)
    case Skip(e) => Writer(t, s.log + [e], Idle)
    case FindTag => s.(pc := Posting(s.pc.e, s.pc.id, s.pc.k, t.tags[s.pc.e.tags[s.pc.k]]))
    case GrowSlots => s.(tail := t.(slotChunks := Grown(t.slotChunks, |t.slots|)))
    case MakeSlot =>
      Writer(t.(slots := t.slots + [EMPTY_SLOT]), s.log, SlotMade(s.pc.e, s.pc.id, s.pc.k, |t.slots|))
    case MapTag =>
      Writer(t.(tags := t.tags[s.pc.e.tags[s.pc.k] := s.pc.term]), s.log, Posting(s.pc.e, s.pc.id, s.pc.k, s.pc.term))
    case GrowSpill =>
      var slot := t.slots[s.pc.term];
      s.(tail := WithSlot(t, s.pc.term, slot.(spillChunks := Grown(slot.spillChunks, |slot.cells| - INLINE))))
    case StoreCell =>
      var slot := t.slots[s.pc.term];
      Writer(WithSlot(t, s.pc.term, slot.(cells := slot.cells + [|t.column|])), s.log,
             CellStored(s.pc.e, s.pc.id, s.pc.k, s.pc.term))
    case StoreLen =>
      var slot := t.slots[s.pc.term];
      Writer(WithSlot(t, s.pc.term, slot.(len := slot.len + 1)), s.log, Tagging(s.pc.e, s.pc.id, s.pc.k + 1))
    case TagsDone => s.(pc := Column(s.pc.e, s.pc.id))
    case GrowColumn => s.(tail := t.(columnChunks := Grown(t.columnChunks, |t.column|)))
    case StoreType => Writer(t.(column := t.column + [s.pc.id]), s.log, Idle)
  }

  function WithSlot(t: Tail, i: nat, slot: Slot): (t': Tail)
    requires i < |t.slots|
  {
    t.(slots := t.slots[i := slot])
  }

  function Latched(t: Tail): (t': Tail) {
    t.(unindexable := true)
  }

  // ------------------------------------------------------------------ the writer's invariant

  /** Tags of the event in flight whose posting value, and whose published count, is in place. */
  function CellTags(pc: Pc): (done: seq<Name>) {
    match pc
    case Idle => []
    case Rejected => []
    case Column(e, _) => e.tags
    case CellStored(e, _, k, _) => if k < |e.tags| then e.tags[..k + 1] else e.tags
    case _ => if pc.k <= |pc.e.tags| then pc.e.tags[..pc.k] else pc.e.tags
  }

  function LenTags(pc: Pc): (done: seq<Name>) {
    match pc
    case Idle => []
    case Rejected => []
    case Column(e, _) => e.tags
    case _ => if pc.k <= |pc.e.tags| then pc.e.tags[..pc.k] else pc.e.tags
  }

  /** Type ids are dense and injective. */
  ghost predicate TypesOk(types: map<Name, nat>) {
    && |types| <= MAX_TYPES
    && (forall a :: a in types ==> types[a] < |types|)
    && (forall a, b :: Distinct(types, a, b))
    && (forall i :: 0 <= i < |types| ==> IdTaken(types, i))
  }

  /** Two names never share an id. */
  ghost predicate Distinct(ids: map<Name, nat>, a: Name, b: Name) {
    a in ids && b in ids && ids[a] == ids[b] ==> a == b
  }

  ghost predicate IdTaken(types: map<Name, nat>, i: nat) {
    exists a :: a in types && types[a] == i
  }

  /** The distinct types of a run of events. */
  ghost function TypeSet(events: seq<Event>): (types: set<Name>) {
    set i | 0 <= i < |events| :: events[i].ty
  }

  ghost predicate ColumnOk(t: Tail, log: seq<Event>) {
    && |t.column| <= |log| && |t.column| <= MAX_EVENTS
    && |t.column| <= t.columnChunks * CHUNK <= U32_MAX
    && (forall i :: 0 <= i < |t.column| ==> log[i].ty in t.types && t.column[i] == t.types[log[i].ty])
  }

  ghost predicate TagsOk(t: Tail) {
    && |t.slots| <= t.slotChunks * CHUNK
    && (forall a, b :: Distinct(t.tags, a, b))
  }

  ghost predicate Unmapped(t: Tail, term: nat, a: Name) {
    a in t.tags ==> t.tags[a] != term
  }

  ghost predicate PcOk(s: Writer) {
    var t, pc := s.tail, s.pc;
    if pc.Idle? then t.unindexable || |s.log| == |t.column|
    else if pc.Rejected? then !t.unindexable && |s.log| == |t.column| + 1
    else
      && !t.unindexable
      && |s.log| == |t.column| + 1 <= MAX_EVENTS && s.log[|t.column|] == pc.e && Ascending(pc.e.tags)
      && pc.e.ty in t.types && t.types[pc.e.ty] == pc.id
      && (pc.Column? || if pc.Tagging? then pc.k <= |pc.e.tags| else pc.k < |pc.e.tags|)
      && (pc.SlotMade? ==>
            && pc.term < |t.slots| && t.slots[pc.term] == EMPTY_SLOT
            && pc.e.tags[pc.k] !in t.tags && forall a :: Unmapped(t, pc.term, a))
      && (pc.Posting? || pc.CellStored? ==> pc.e.tags[pc.k] in t.tags && t.tags[pc.e.tags[pc.k]] == pc.term)
  }

  /** What the slot of tag `a` holds: the postings of the finished events, then the event in flight
      once its value, and once its count, has been stored. */
  ghost predicate SlotOk(slot: Slot, log: seq<Event>, n: nat, a: Name, pc: Pc)
    requires n <= |log|
  {
    var done := PostingsOf(log[..n], a);
    && slot.cells == (if a in CellTags(pc) then done + [n] else done)
    && slot.len == |done| + (if a in LenTags(pc) then 1 else 0)
    && |slot.cells| <= INLINE + slot.spillChunks * CHUNK
  }

  /** The tag being posted: mapped already, its first value perhaps not stored yet. */
  predicate InHand(pc: Pc, a: Name) {
    pc.Posting? && pc.k < |pc.e.tags| && pc.e.tags[pc.k] == a
  }

  ghost predicate TagOk(s: Writer, a: Name)
    requires |s.tail.column| <= |s.log|
  {
    var t, n := s.tail, |s.tail.column|;
    if a in t.tags then
      && t.tags[a] < |t.slots| && SlotOk(t.slots[t.tags[a]], s.log, n, a, s.pc)
      && (t.slots[t.tags[a]].cells == [] ==> InHand(s.pc, a))
    else PostingsOf(s.log[..n], a) == [] && a !in CellTags(s.pc)
  }

  ghost predicate PostingsOk(s: Writer)
    requires |s.tail.column| <= |s.log|
  {
    forall a :: TagOk(s, a)
  }

  /** The types are dense ids of the types that occur. */
  ghost predicate Interned(s: Writer) {
    TypesOk(s.tail.types) && s.tail.types.Keys <= TypeSet(s.log)
  }

  /** Columns, tag map, position and postings agree with the log. */
  ghost predicate Indexed(s: Writer) {
    ColumnOk(s.tail, s.log) && TagsOk(s.tail) && PcOk(s) && PostingsOk(s)
  }

  ghost predicate Inv(s: Writer) {
    Interned(s) && Indexed(s)
  }

  /** Events the writer accepts have the sorted, duplicate-free tags of a decoded event. */
  ghost predicate WellFormed(step: Step) {
    step.Begin? ==> Ascending(step.e.tags)
  }

  /** Every atomic step keeps the invariant. */
  lemma StepKeepsInv(s: Writer, step: Step)
    requires Inv(s) && Enabled(s, step) && WellFormed(step)
    ensures Inv(Apply(s, step))
  {
    StepKeepsInterned(s, step);
    StepKeepsIndexed(s, step);
  }

  lemma StepKeepsInterned(s: Writer, step: Step)
    requires Interned(s) && Enabled(s, step)
    ensures Interned(Apply(s, step))
  {
    if step.Begin? || step.Reject? || step.Skip? {
      TypeSetSnoc(s.log, step.e);
    }
    if step.Begin? && step.e.ty !in s.tail.types {
      NewTypeKeepsOk(s.tail.types, step.e.ty);
    } else if step.Begin? {
      assert Apply(s, step).tail.types == s.tail.types;
    }
  }

  lemma NewTypeKeepsOk(types: map<Name, nat>, name: Name)
    requires TypesOk(types) && name !in types && |types| <= U16_MAX
    ensures TypesOk(types[name := |types|])
  {
    var more := types[name := |types|];
    assert more.Keys == types.Keys + {name};
    forall a, b ensures Distinct(more, a, b) {
      assert Distinct(types, a, b);
    }
    forall i | 0 <= i < |more| ensures IdTaken(more, i) {
      if i == |types| {
        assert more[name] == i;
      } else {
        assert IdTaken(types, i);
        var a :| a in types && types[a] == i;
        assert more[a] == i;
      }
    }
  }

  lemma StepKeepsIndexed(s: Writer, step: Step)
    requires Inv(s) && Enabled(s, step) && WellFormed(step)
    ensures Indexed(Apply(s, step))
  {
    match step {
      case Begin(e) => BeginKeepsIndexed(s, e);
      case MakeSlot => MakeSlotKeepsIndexed(s);
      case MapTag => MapTagKeepsIndexed(s);
      case GrowSpill => GrowSpillKeepsIndexed(s);
      case StoreCell => StoreCellKeepsIndexed(s);
      case StoreLen => StoreLenKeepsIndexed(s);
      case StoreType => StoreTypeKeepsIndexed(s);
      case Reject(e) => LatchingKeepsIndexed(s, step);
      case Latch => LatchingKeepsIndexed(s, step);
      case Skip(e) => LatchingKeepsIndexed(s, step);
      case TagsDone => CursorKeepsIndexed(s, step);
      case FindTag => CursorKeepsIndexed(s, step);
      case GrowSlots => CursorKeepsIndexed(s, step);
      case GrowColumn => CursorKeepsIndexed(s, step);
    }
  }

  lemma LatchingKeepsIndexed(s: Writer, step: Step)
    requires Indexed(s) && Enabled(s, step) && (step.Reject? || step.Latch? || step.Skip?)
    ensures Indexed(Apply(s, step))
  {
    SameCells(s, Apply(s, step));
  }

  lemma CursorKeepsIndexed(s: Writer, step: Step)
    requires Indexed(s) && Enabled(s, step)
    requires step.TagsDone? || step.FindTag? || step.GrowSlots? || step.GrowColumn?
    ensures Indexed(Apply(s, step))
  {
    SameCells(s, Apply(s, step));
  }

  /** A step that leaves the slots, the tag map, the column and the done tags alone keeps postings. */
  lemma SameCells(s: Writer, s': Writer)
    requires Indexed(s) && TagsOk(s'.tail) && !s.pc.Posting?
    requires s'.tail.slots == s.tail.slots && s'.tail.tags == s.tail.tags && s'.tail.column == s.tail.column
    requires s.log <= s'.log
    requires forall a :: a in CellTags(s.pc) <==> a in CellTags(s'.pc)
    requires forall a :: a in LenTags(s.pc) <==> a in LenTags(s'.pc)
    ensures PostingsOk(s')
  {
    var n := |s.tail.column|;
    assert s'.log[..n] == s.log[..n];
    forall a ensures TagOk(s', a) {
      assert TagOk(s, a);
    }
  }

  lemma BeginKeepsIndexed(s: Writer, e: Event)
    requires Inv(s) && Enabled(s, Begin(e)) && Ascending(e.tags)
    ensures Indexed(Apply(s, Begin(e)))
  {
    var s' := Apply(s, Begin(e));
    assert CellTags(s'.pc) == [] && LenTags(s'.pc) == [];
    SameCells(s, s');
  }

  lemma TypeSetSnoc(events: seq<Event>, e: Event)
    ensures TypeSet(events + [e]) == TypeSet(events) + {e.ty}
  {
    var all := events + [e];
    forall a ensures a in TypeSet(all) <==> a in TypeSet(events) + {e.ty} {
      if a in TypeSet(events) {
        var i :| 0 <= i < |events| && events[i].ty == a;
        assert all[i].ty == a;
      }
      assert all[|events|].ty == e.ty;
    }
  }

  lemma MakeSlotKeepsIndexed(s: Writer)
    requires Indexed(s) && Enabled(s, MakeSlot)
    ensures Indexed(Apply(s, MakeSlot))
  {
    var s' := Apply(s, MakeSlot);
    forall a ensures TagOk(s', a) && Unmapped(s'.tail, s'.pc.term, a) {
      assert TagOk(s, a);
    }
  }

  lemma MapTagKeepsIndexed(s: Writer)
    requires Indexed(s) && Enabled(s, MapTag)
    ensures Indexed(Apply(s, MapTag))
  {
    var s' := Apply(s, MapTag);
    forall a ensures TagOk(s', a) {
      assert TagOk(s, a);
    }
    forall a, b ensures Distinct(s'.tail.tags, a, b) {
      assert Distinct(s.tail.tags, a, b);
      assert Unmapped(s.tail, s.pc.term, a) && Unmapped(s.tail, s.pc.term, b);
    }
  }

  lemma GrowSpillKeepsIndexed(s: Writer)
    requires Indexed(s) && Enabled(s, GrowSpill)
    ensures Indexed(Apply(s, GrowSpill))
  {
    var s' := Apply(s, GrowSpill);
    forall a ensures TagOk(s', a) {
      assert TagOk(s, a);
    }
  }

  lemma StoreCellKeepsIndexed(s: Writer)
    requires Indexed(s) && Enabled(s, StoreCell)
    ensures Indexed(Apply(s, StoreCell))
  {
    var s' := Apply(s, StoreCell);
    var tags, k := s.pc.e.tags, s.pc.k;
    AscendingDistinct(tags);
    assert tags[..k + 1] == tags[..k] + [tags[k]];
    forall a ensures TagOk(s', a) {
      assert TagOk(s, a) && TagOk(s, tags[k]) && Distinct(s.tail.tags, a, tags[k]);
    }
  }

  lemma StoreLenKeepsIndexed(s: Writer)
    requires Indexed(s) && Enabled(s, StoreLen)
    ensures Indexed(Apply(s, StoreLen))
  {
    var s' := Apply(s, StoreLen);
    var tags, k := s.pc.e.tags, s.pc.k;
    AscendingDistinct(tags);
    assert tags[..k + 1] == tags[..k] + [tags[k]];
    forall a ensures TagOk(s', a) {
      assert TagOk(s, a) && TagOk(s, tags[k]) && Distinct(s.tail.tags, a, tags[k]);
    }
  }

  lemma StoreTypeKeepsIndexed(s: Writer)
    requires Indexed(s) && Enabled(s, StoreType)
    ensures Indexed(Apply(s, StoreType))
  {
    var s' := Apply(s, StoreType);
    var n := |s.tail.column|;
    assert s.log[..n + 1][..n] == s.log[..n];
    forall a ensures TagOk(s', a) {
      assert TagOk(s, a);
    }
  }

  // ------------------------------------------------------------------ reading a slot

  // A slot or column cell that a chunk holds but nobody has written reads as its default.
  function SlotAt(t: Tail, i: nat): Slot { if i < |t.slots| then t.slots[i] else EMPTY_SLOT }

  function ColumnAt(t: Tail, i: nat): nat { if i < |t.column| then t.column[i] else 0 }

  lemma {:induction false} PostingsPrefix(log: seq<Event>, m: nat, n: nat, tag: Name)
    requires m <= n <= |log|
    ensures PostingsOf(log[..m], tag) <= PostingsOf(log[..n], tag)
    ensures |PostingsOf(log[..m], tag)| <= m
    decreases n
  {
    if n > 0 {
      assert log[..n][..n - 1] == log[..n - 1];
      if m < n {
        PostingsPrefix(log, m, n - 1, tag);
      } else {
        PostingsPrefix(log, n - 1, n - 1, tag);
      }
    }
  }

  lemma {:induction false} CollectSpec(read: nat -> nat, cells: seq<nat>, covered: nat, n: nat, upto: nat, j: nat)
    requires j <= n <= |cells| && n <= covered && Rising(cells)
    requires forall i :: 0 <= i < n ==> read(i) == cells[i]
    ensures Rising(Collect(read, covered, n, upto, j))
    ensures forall x :: x in Collect(read, covered, n, upto, j) <==> x < upto && x in cells[j..n]
    decreases n - j
  {
    if j < n {
      assert cells[j..n] == [cells[j]] + cells[j + 1..n];
      if cells[j] < upto {
        CollectSpec(read, cells, covered, n, upto, j + 1);
        var rest := Collect(read, covered, n, upto, j + 1);
        assert forall i :: 0 <= i < |rest| ==> rest[i] in rest;
      }
    }
  }

  /** The published cells are ascending, stored, and below the view's length exactly the postings. */
  ghost predicate SlotShows(slot: Slot, visible: seq<Event>, tag: Name) {
    && slot.len <= |slot.cells| <= INLINE + slot.spillChunks * CHUNK
    && Rising(slot.cells)
    && |PostingsOf(visible, tag)| <= slot.len
    && forall v :: v in PostingsOf(visible, tag) <==> v < |visible| && v in slot.cells[..slot.len]
  }

  /** Loads that find the published cells collect exactly the visible postings. */
  lemma CollectsPostings(read: nat -> nat, slot: Slot, covered: nat, visible: seq<Event>, tag: Name)
    requires SlotShows(slot, visible, tag) && slot.len <= covered
    requires forall j :: 0 <= j < slot.len ==> read(j) == slot.cells[j]
    ensures Collect(read, covered, slot.len, |visible|, 0) == PostingsOf(visible, tag)
  {
    hide Collect, PostingsOf;
    CollectSpec(read, slot.cells, covered, slot.len, |visible|, 0);
    assert slot.cells[0..slot.len] == slot.cells[..slot.len];
    PostingsOfSpec(visible, tag);
    RisingUnique(Collect(read, covered, slot.len, |visible|, 0), PostingsOf(visible, tag));
  }

  /** For any visible prefix the column covers, the slot behind a tag holds, below its length, exactly the
      postings of the visible events, and its published count covers them. */
  lemma SlotHoldsVisible(s: Writer, visible: seq<Event>, tag: Name)
    requires Indexed(s) && visible <= s.log && |visible| <= |s.tail.column|
    requires tag in s.tail.tags
    ensures s.tail.tags[tag] < |s.tail.slots|
    ensures SlotShows(s.tail.slots[s.tail.tags[tag]], visible, tag)
  {
    assert TagOk(s, tag);
    LenTagsAreCellTags(s.pc);
    CellsShow(s.tail.slots[s.tail.tags[tag]], s.log, |s.tail.column|, visible, tag);
  }

  lemma CellsShow(slot: Slot, log: seq<Event>, n: nat, visible: seq<Event>, tag: Name)
    requires visible <= log && |visible| <= n <= |log|
    requires var done := PostingsOf(log[..n], tag);
             && (slot.cells == done || slot.cells == done + [n])
             && |done| <= slot.len <= |slot.cells| <= INLINE + slot.spillChunks * CHUNK
    ensures SlotShows(slot, visible, tag)
  {
    var done := PostingsOf(log[..n], tag);
    assert visible == log[..|visible|];
    PostingsPrefix(log, |visible|, n, tag);
    PostingsOfSpec(log[..n], tag);
    PostingsOfSpec(visible, tag);
    RisingSnoc(done, n);
    assert slot.cells[..slot.len] == done || slot.cells[..slot.len] == done + [n];
  }

  ghost predicate LenWithinCells(pc: Pc) {
    forall a :: a in LenTags(pc) ==> a in CellTags(pc)
  }

  lemma LenTagsAreCellTags(pc: Pc)
    ensures LenWithinCells(pc)
  {
  }
}
