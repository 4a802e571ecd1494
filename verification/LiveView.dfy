/** Readers of a tail that is being fed. A run interleaves the writer's atomic steps with watermark
    publications; a reader loads the watermark, checks the latch, snapshots the two backbones and
    then probes, each load falling anywhere later in the run. */
module LiveView {
  import opened Bytes
  import opened Names
  import opened Events
  import opened Search
  import opened Append
  import opened Tail

  // ------------------------------------------------------------------ runs

  /** The writer and the last published watermark, a global position. */
  datatype World = World(writer: Writer, watermark: nat)

  ghost predicate Initial(x: World) {
    && x.writer == Writer(NewTail(x.writer.tail.base), [], Idle)
    && x.watermark < x.writer.tail.base
  }

  /** Between pushes the writer may publish any later position it has been assigned. */
  ghost predicate Publishes(x: World, y: World) {
    && x.writer == y.writer && x.writer.pc.Idle?
    && x.watermark <= y.watermark < x.writer.tail.base + |x.writer.log|
  }

  ghost predicate Writes(x: World, y: World) {
    && x.watermark == y.watermark
    && exists step :: Enabled(x.writer, step) && WellFormed(step) && y.writer == Apply(x.writer, step)
  }

  ghost predicate Next(x: World, y: World) {
    Publishes(x, y) || Writes(x, y)
  }

  ghost predicate StepAt(run: seq<World>, i: nat)
    requires i + 1 < |run|
  {
    Next(run[i], run[i + 1])
  }

  ghost predicate IsRun(run: seq<World>) {
    && run != [] && Initial(run[0])
    && forall i :: 0 <= i < |run| - 1 ==> StepAt(run, i)
  }

  /** The published watermark never runs ahead of what the columns cover, unless latched. */
  ghost predicate WorldInv(x: World) {
    && Inv(x.writer)
    && x.watermark < x.writer.tail.base + if x.writer.tail.unindexable then |x.writer.log| else |x.writer.tail.column|
  }

  lemma NextKeepsInv(x: World, y: World)
    requires WorldInv(x) && Next(x, y)
    ensures WorldInv(y)
  {
    if Writes(x, y) {
      var step :| Enabled(x.writer, step) && WellFormed(step) && y.writer == Apply(x.writer, step);
      StepKeepsInv(x.writer, step);
    }
  }

  lemma {:induction false} RunKeepsInv(run: seq<World>, i: nat)
    requires IsRun(run) && i < |run|
    ensures WorldInv(run[i])
  {
    if i == 0 {
      InitialInv(run[0].writer.tail.base);
    } else {
      RunKeepsInv(run, i - 1);
      assert StepAt(run, i - 1);
      NextKeepsInv(run[i - 1], run[i]);
    }
  }

  lemma InitialInv(base: nat)
    ensures Inv(Writer(NewTail(base), [], Idle))
  {
  }

  // ------------------------------------------------------------------ nothing published is undone

  ghost predicate SlotExtends(a: Slot, b: Slot) {
    a.cells <= b.cells && a.len <= b.len && a.spillChunks <= b.spillChunks
  }

  ghost predicate SlotsExtend(a: seq<Slot>, b: seq<Slot>) {
    |a| <= |b| && forall i :: 0 <= i < |a| ==> SlotExtends(a[i], b[i])
  }

  ghost predicate MapExtends(a: map<Name, nat>, b: map<Name, nat>) {
    forall n :: n in a ==> n in b && b[n] == a[n]
  }

  ghost predicate TailExtends(a: Tail, b: Tail) {
    && a.base == b.base
    && a.column <= b.column && a.columnChunks <= b.columnChunks
    && SlotsExtend(a.slots, b.slots) && a.slotChunks <= b.slotChunks
    && MapExtends(a.tags, b.tags) && MapExtends(a.types, b.types)
    && (a.unindexable ==> b.unindexable)
  }

  ghost predicate Extends(x: World, y: World) {
    && TailExtends(x.writer.tail, y.writer.tail)
    && x.writer.log <= y.writer.log
    && x.watermark <= y.watermark
  }

  lemma StepExtends(s: Writer, step: Step)
    requires Enabled(s, step)
    requires s.pc.SlotMade? ==> s.pc.k < |s.pc.e.tags| && s.pc.e.tags[s.pc.k] !in s.tail.tags
    ensures TailExtends(s.tail, Apply(s, step).tail)
    ensures s.log <= Apply(s, step).log
  {
    match step {
      case Begin(e) =>
      case Reject(e) =>
      case Latch =>
      case Skip(e) =>
      case FindTag =>
      case GrowSlots =>
      case MakeSlot =>
      case MapTag =>
      case GrowSpill =>
      case StoreCell =>
      case StoreLen =>
      case TagsDone =>
      case GrowColumn =>
      case StoreType =>
    }
  }

  lemma NextExtends(x: World, y: World)
    requires WorldInv(x) && Next(x, y)
    ensures Extends(x, y)
  {
    if Writes(x, y) {
      var step :| Enabled(x.writer, step) && WellFormed(step) && y.writer == Apply(x.writer, step);
      assert PcOk(x.writer);
      StepExtends(x.writer, step);
    }
  }

  lemma ExtendsTransitive(x: World, y: World, z: World)
    requires Extends(x, y) && Extends(y, z)
    ensures Extends(x, z)
  {
    var a, b, c := x.writer.tail.slots, y.writer.tail.slots, z.writer.tail.slots;
    forall i | 0 <= i < |a| ensures SlotExtends(a[i], c[i]) {
      assert SlotExtends(a[i], b[i]) && SlotExtends(b[i], c[i]);
    }
  }

  lemma RunStepExtends(run: seq<World>, i: nat)
    requires IsRun(run) && i + 1 < |run|
    ensures Extends(run[i], run[i + 1])
  {
    RunKeepsInv(run, i);
    assert StepAt(run, i);
    NextExtends(run[i], run[i + 1]);
  }

  /** Along a run the shared memory only grows: later states extend earlier ones. */
  lemma {:induction false} RunExtends(run: seq<World>, i: nat, j: nat)
    requires IsRun(run) && i <= j < |run|
    ensures Extends(run[i], run[j])
    decreases j - i
  {
    if i < j {
      RunExtends(run, i, j - 1);
      RunStepExtends(run, j - 1);
      ExtendsTransitive(run[i], run[j - 1], run[j]);
    }
  }

  // ------------------------------------------------------------------ a reader

  /** When each load of one read happens. Probe `k` looks up a map or the column at `probe(k)`; a
      posting probe then loads the slot's count at `lenLoad(k)`, its spill backbone at
      `spillSnap(k)` and its `j`-th value at `cellLoad(k, j)`. */
  datatype Reader = Reader(
    loaded: nat, latch: nat, columnSnap: nat, slotsSnap: nat,
    probe: nat -> nat, lenLoad: nat -> nat, spillSnap: nat -> nat, cellLoad: (nat, nat) -> nat)

  /** The order the code imposes, and nothing more: the watermark first; the backbones after it; the
      probes after those; a slot's contents after its count. */
  ghost predicate OnTime(r: Reader, end: nat) {
    && r.loaded <= r.latch < end
    && r.loaded <= r.columnSnap <= r.slotsSnap < end
    && (forall k :: r.slotsSnap <= r.probe(k) < end)
    && (forall k :: r.probe(k) <= r.lenLoad(k) < end)
    && (forall k :: r.lenLoad(k) <= r.spillSnap(k) < end)
    && (forall k, j :: r.lenLoad(k) <= r.cellLoad(k, j) < end)
  }

  /** How many locals a watermark exposes. */
  function VisibleLen(base: nat, watermark: nat): (n: nat)
    ensures n <= U32_MAX
  {
    if watermark >= base then Min(watermark - base + 1, U32_MAX) else 0
  }

  function TailAt(run: seq<World>, i: nat): Tail {
    if i < |run| then run[i].writer.tail else NewTail(0)
  }

  /** The view's length: what the watermark exposes, clamped to what the column snapshot covers. */
  function ViewLen(run: seq<World>, r: Reader): (n: nat)
    requires r.loaded < |run|
  {
    Min(VisibleLen(run[r.loaded].writer.tail.base, run[r.loaded].watermark),
        Addressable(TailAt(run, r.columnSnap).columnChunks))
  }

  function ViewPostings(run: seq<World>, r: Reader, k: nat, tag: Name): (list: Option<seq<nat>>)
    requires r.loaded < |run|
  {
    var t := TailAt(run, r.probe(k));
    if tag !in t.tags || t.tags[tag] >= TailAt(run, r.slotsSnap).slotChunks * CHUNK then None
    else
      var term := t.tags[tag];
      var n := SlotAt(TailAt(run, r.lenLoad(k)), term).len;
      var covered := INLINE + SlotAt(TailAt(run, r.spillSnap(k)), term).spillChunks * CHUNK;
      var read := (j: nat) => CellAt(SlotAt(TailAt(run, r.cellLoad(k, j)), term), j);
      Some(Collect(read, covered, n, ViewLen(run, r), 0))
  }

  function ViewTermLen(run: seq<World>, r: Reader, k: nat, tag: Name): (n: Option<nat>)
    requires r.loaded < |run|
  {
    var t := TailAt(run, r.probe(k));
    if tag !in t.tags || t.tags[tag] >= TailAt(run, r.slotsSnap).slotChunks * CHUNK then None
    else Some(Min(SlotAt(TailAt(run, r.lenLoad(k)), t.tags[tag]).len, ViewLen(run, r)))
  }

  function ViewTypeId(run: seq<World>, r: Reader, k: nat, name: Name): (id: Option<nat>) {
    var t := TailAt(run, r.probe(k));
    if name in t.types then Some(t.types[name]) else None
  }

  function ViewTypeAt(run: seq<World>, r: Reader, k: nat, local: nat): (id: nat) {
    if local < TailAt(run, r.columnSnap).columnChunks * CHUNK then ColumnAt(TailAt(run, r.probe(k)), local) else 0
  }

  /** The reader's view, as the index the evaluator probes. */
  function View(run: seq<World>, r: Reader): (ix: SegmentIndex)
    requires r.loaded < |run|
  {
    SegmentIndex(
      run[r.loaded].writer.tail.base, ViewLen(run, r),
      (k, tag) => ViewPostings(run, r, k, tag),
      (k, tag) => ViewTermLen(run, r, k, tag),
      (k, name) => ViewTypeId(run, r, k, name),
      (k, local) => ViewTypeAt(run, r, k, local))
  }

  // ------------------------------------------------------------------ what the view answers

  ghost predicate Reads(run: seq<World>, r: Reader) {
    IsRun(run) && OnTime(r, |run|) && !run[r.latch].writer.tail.unindexable
  }

  /** The events at or before the watermark the reader loaded. */
  ghost function Visible(run: seq<World>, r: Reader): (events: seq<Event>)
    requires Reads(run, r)
  {
    var x := run[r.loaded];
    RunKeepsInv(run, r.loaded);
    RunExtends(run, r.loaded, r.latch);
    if x.watermark >= x.writer.tail.base then x.writer.log[..x.watermark - x.writer.tail.base + 1] else []
  }

  /** The clamps never bite: the view is as long as the watermark says, and indexed throughout. */
  lemma ViewLenExact(run: seq<World>, r: Reader)
    requires Reads(run, r)
    ensures ViewLen(run, r) == |Visible(run, r)|
    ensures Visible(run, r) <= run[r.loaded].writer.log
    ensures |Visible(run, r)| <= |run[r.loaded].writer.tail.column|
  {
    RunKeepsInv(run, r.loaded);
    RunExtends(run, r.loaded, r.latch);
    ColumnCovered(run, r.columnSnap);
    RunExtends(run, r.loaded, r.columnSnap);
  }

  lemma ColumnCovered(run: seq<World>, i: nat)
    requires IsRun(run) && i < |run|
    ensures |run[i].writer.tail.column| <= Addressable(run[i].writer.tail.columnChunks)
  {
    RunKeepsInv(run, i);
  }

  /** The visible events stay where they were, indexed, in every state the reader can touch. */
  lemma StillIndexed(run: seq<World>, r: Reader, i: nat)
    requires Reads(run, r) && r.loaded <= i < |run|
    ensures Visible(run, r) <= run[i].writer.log
    ensures |Visible(run, r)| <= |run[i].writer.tail.column|
  {
    ViewLenExact(run, r);
    RunExtends(run, r.loaded, i);
  }

  lemma MapsLater(run: seq<World>, i: nat, j: nat)
    requires IsRun(run) && i <= j < |run|
    ensures MapExtends(run[i].writer.tail.tags, run[j].writer.tail.tags)
    ensures MapExtends(run[i].writer.tail.types, run[j].writer.tail.types)
    ensures run[i].writer.tail.column <= run[j].writer.tail.column
  {
    RunExtends(run, i, j);
  }

  lemma SlotLater(run: seq<World>, i: nat, j: nat, term: nat)
    requires IsRun(run) && i <= j < |run| && term < |run[i].writer.tail.slots|
    ensures term < |run[j].writer.tail.slots|
    ensures SlotExtends(run[i].writer.tail.slots[term], run[j].writer.tail.slots[term])
  {
    RunExtends(run, i, j);
  }

  /** The slot behind a mapped tag, at any time of the read. */
  lemma SlotDuringRead(run: seq<World>, r: Reader, i: nat, tag: Name)
    requires Reads(run, r) && r.loaded <= i < |run| && tag in run[i].writer.tail.tags
    ensures run[i].writer.tail.tags[tag] < |run[i].writer.tail.slots|
    ensures SlotShows(run[i].writer.tail.slots[run[i].writer.tail.tags[tag]], Visible(run, r), tag)
  {
    StillIndexed(run, r, i);
    RunKeepsInv(run, i);
    SlotHoldsVisible(run[i].writer, Visible(run, r), tag);
  }

  /** A tag that is unmapped at some moment of the read has no visible event. */
  lemma UnmappedTagIsAbsent(run: seq<World>, r: Reader, i: nat, tag: Name)
    requires Reads(run, r) && r.loaded <= i < |run| && tag !in run[i].writer.tail.tags
    ensures PostingsOf(Visible(run, r), tag) == []
  {
    StillIndexed(run, r, i);
    RunKeepsInv(run, i);
    var log, n, m := run[i].writer.log, |run[i].writer.tail.column|, |Visible(run, r)|;
    assert TagOk(run[i].writer, tag);
    PostingsPrefix(log, m, n, tag);
    assert log[..m] == Visible(run, r);
  }

  /** A term beyond the cloned backbone was interned after the watermark was loaded. */
  lemma LateTermIsAbsent(run: seq<World>, r: Reader, i: nat, tag: Name)
    requires Reads(run, r) && r.slotsSnap <= i < |run| && tag in run[i].writer.tail.tags
    requires run[i].writer.tail.tags[tag] >= run[r.slotsSnap].writer.tail.slotChunks * CHUNK
    ensures PostingsOf(Visible(run, r), tag) == []
    ensures forall k :: r.probe(k) == i ==> ViewPostings(run, r, k, tag) == None && ViewTermLen(run, r, k, tag) == None
  {
    RunKeepsInv(run, r.slotsSnap);
    assert TagOk(run[r.slotsSnap].writer, tag);
    RunExtends(run, r.slotsSnap, i);
    assert tag !in run[r.slotsSnap].writer.tail.tags;
    UnmappedTagIsAbsent(run, r, r.slotsSnap, tag);
  }

  /** A posting probe, its loads spread over the run, collects exactly the visible postings. */
  lemma ProbePostings(run: seq<World>, r: Reader, k: nat, tag: Name)
    requires Reads(run, r) && ViewPostings(run, r, k, tag).Some?
    ensures ViewPostings(run, r, k, tag).value == PostingsOf(Visible(run, r), tag)
  {
    var visible, at := Visible(run, r), r.lenLoad(k);
    var term := run[r.probe(k)].writer.tail.tags[tag];
    MapsLater(run, r.probe(k), at);
    SlotDuringRead(run, r, at, tag);
    var slot := run[at].writer.tail.slots[term];
    SlotLater(run, at, r.spillSnap(k), term);
    var covered := INLINE + SlotAt(TailAt(run, r.spillSnap(k)), term).spillChunks * CHUNK;
    var read := (j: nat) => CellAt(SlotAt(TailAt(run, r.cellLoad(k, j)), term), j);
    forall j | 0 <= j < slot.len ensures read(j) == slot.cells[j] {
      SlotLater(run, at, r.cellLoad(k, j), term);
    }
    CollectsPostings(read, slot, covered, visible, tag);
    ViewLenExact(run, r);
    assert ViewPostings(run, r, k, tag) == Some(Collect(read, covered, slot.len, |visible|, 0));
  }

  lemma ProbeTermLen(run: seq<World>, r: Reader, k: nat, tag: Name)
    requires Reads(run, r) && ViewTermLen(run, r, k, tag).Some?
    ensures |PostingsOf(Visible(run, r), tag)| <= ViewTermLen(run, r, k, tag).value <= |Visible(run, r)|
  {
    var visible := Visible(run, r);
    MapsLater(run, r.probe(k), r.lenLoad(k));
    SlotDuringRead(run, r, r.lenLoad(k), tag);
    ViewLenExact(run, r);
    PostingsPrefix(visible, |visible|, |visible|, tag);
    assert visible[..|visible|] == visible;
  }

  lemma TypeDuringRead(run: seq<World>, r: Reader, i: nat, local: nat)
    requires Reads(run, r) && r.loaded <= i < |run| && local < |Visible(run, r)|
    ensures var t, ty := run[i].writer.tail, Visible(run, r)[local].ty;
            local < |t.column| && ty in t.types && t.column[local] == t.types[ty]
  {
    StillIndexed(run, r, i);
    RunKeepsInv(run, i);
  }

  lemma ProbeTypeAt(run: seq<World>, r: Reader, k: nat, local: nat)
    requires Reads(run, r) && local < |Visible(run, r)|
    ensures var last, ty := run[|run| - 1].writer.tail, Visible(run, r)[local].ty;
            ty in last.types && ViewTypeAt(run, r, k, local) == last.types[ty]
  {
    ViewLenExact(run, r);
    TypeDuringRead(run, r, r.probe(k), local);
    MapsLater(run, r.probe(k), |run| - 1);
  }

  lemma TypesInjective(run: seq<World>, i: nat, a: Name, b: Name)
    requires IsRun(run) && i < |run| && a in run[i].writer.tail.types && b in run[i].writer.tail.types
    ensures run[i].writer.tail.types[a] == run[i].writer.tail.types[b] ==> a == b
  {
    RunKeepsInv(run, i);
    assert Distinct(run[i].writer.tail.types, a, b);
  }

  lemma ProbeTypeId(run: seq<World>, r: Reader, k: nat, name: Name)
    requires Reads(run, r)
    ensures match ViewTypeId(run, r, k, name)
            case None => forall i :: 0 <= i < |Visible(run, r)| ==> Visible(run, r)[i].ty != name
            case Some(id) => IdStandsFor(View(run, r), Visible(run, r), id, name)
  {
    var visible := Visible(run, r);
    if ViewTypeId(run, r, k, name).None? {
      forall i | 0 <= i < |visible| ensures visible[i].ty != name {
        TypeDuringRead(run, r, r.probe(k), i);
      }
    } else {
      var last := run[|run| - 1].writer.tail;
      MapsLater(run, r.probe(k), |run| - 1);
      forall k': nat, local: nat | local < |visible|
        ensures View(run, r).typeAt(k', local) == last.types[name] <==> visible[local].ty == name
      {
        ProbeTypeAt(run, r, k', local);
        TypesInjective(run, |run| - 1, visible[local].ty, name);
      }
    }
  }

  /** Whatever the interleaving, every probe of the view tells the truth about exactly the events
      at or before the watermark the reader loaded. */
  lemma ViewAnswers(run: seq<World>, r: Reader)
    requires Reads(run, r)
    ensures Answers(View(run, r), Visible(run, r))
  {
    var ix, events := View(run, r), Visible(run, r);
    ViewLenExact(run, r);
    forall k, tag
      ensures match ix.termPostings(k, tag)
              case None => PostingsOf(events, tag) == []
              case Some(list) => list == PostingsOf(events, tag)
      ensures match ix.termLen(k, tag)
              case None => PostingsOf(events, tag) == []
              case Some(n) => n >= |PostingsOf(events, tag)|
    {
      if tag !in run[r.probe(k)].writer.tail.tags {
        UnmappedTagIsAbsent(run, r, r.probe(k), tag);
      } else if run[r.probe(k)].writer.tail.tags[tag] >= run[r.slotsSnap].writer.tail.slotChunks * CHUNK {
        LateTermIsAbsent(run, r, r.probe(k), tag);
      } else {
        ProbePostings(run, r, k, tag);
        ProbeTermLen(run, r, k, tag);
      }
    }
    forall k, name
      ensures match ix.typeId(k, name)
              case None => forall i :: 0 <= i < |events| ==> events[i].ty != name
              case Some(id) => IdStandsFor(ix, events, id, name)
    {
      ProbeTypeId(run, r, k, name);
    }
  }

  /** A read of the live tail returns the scan of the events its watermark exposes. */
  method SearchLive(run: seq<World>, r: Reader, q: Query, after: nat) returns (found: seq<nat>)
    requires Reads(run, r)
    ensures found == Scan(Visible(run, r), run[r.loaded].writer.tail.base, q, after)
  {
    ViewAnswers(run, r);
    found := Search.Search(View(run, r), q, after, Visible(run, r));
  }
}
