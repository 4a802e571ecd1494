/** The connection's writer loop: two lanes of responses, control drained first, but never so long
    that a waiting bulk frame starves. */
module Egress {
  import opened Bytes
  import Framing

  const MAX_CONTROL_RUN: nat := 64

  datatype Lane = Control | Bulk

  type Response = seq<byte>

  /** A frame on the wire, and whether a bulk frame was waiting when it was written. */
  datatype Item = Item(lane: Lane, response: Response, bulkPending: bool)

  /** What the other threads may do to the lanes. */
  datatype Action = Send(lane: Lane, response: Response) | Close(lane: Lane)

  datatype Exit = Returned | Failed | Parked

  // ------------------------------------------------------------------ the wire

  /** The responses of one lane, in the order they were written. */
  function Of(out: seq<Item>, lane: Lane): (r: seq<Response>) {
    if out == [] then []
    else
      var n := |out| - 1;
      if out[n].lane == lane then Of(out[..n], lane) + [out[n].response] else Of(out[..n], lane)
  }

  lemma OfSnoc(out: seq<Item>, item: Item, lane: Lane)
    ensures Of(out + [item], lane) == if item.lane == lane then Of(out, lane) + [item.response] else Of(out, lane)
  {
    assert (out + [item])[..|out|] == out;
  }

  /** How many control frames in a row were just written past a waiting bulk frame. */
  function Run(out: seq<Item>): (n: nat) {
    if out == [] then 0
    else
      var last := out[|out| - 1];
      if last.lane == Control && last.bulkPending then 1 + Run(out[..|out| - 1]) else 0
  }

  lemma RunSnoc(out: seq<Item>, item: Item)
    ensures Run(out + [item]) == if item.lane == Control && item.bulkPending then 1 + Run(out) else 0
  {
    assert (out + [item])[..|out|] == out;
  }

  /** At no point did more than `MAX_CONTROL_RUN + 1` control frames pass a waiting bulk frame. */
  ghost predicate Fair(out: seq<Item>) {
    forall k :: 0 <= k <= |out| ==> Run(out[..k]) <= MAX_CONTROL_RUN + 1
  }

  lemma FairSnoc(out: seq<Item>, item: Item)
    requires Fair(out) && Run(out + [item]) <= MAX_CONTROL_RUN + 1
    ensures Fair(out + [item])
  {
    forall k | 0 <= k <= |out| + 1 ensures Run((out + [item])[..k]) <= MAX_CONTROL_RUN + 1 {
      if k <= |out| {
        assert (out + [item])[..k] == out[..k];
      } else {
        assert (out + [item])[..k] == out + [item];
      }
    }
  }

  // ------------------------------------------------------------------ control goes first

  /** The control lane was found empty when `at` frames had been written and `sent` control frames ever sent. */
  datatype Look = Look(at: nat, sent: nat)

  /** How many control frames were just written in a row. */
  function Streak(out: seq<Item>): (n: nat)
    ensures n <= |out|
  {
    if out == [] || out[|out| - 1].lane == Bulk then 0 else 1 + Streak(out[..|out| - 1])
  }

  lemma StreakSnoc(out: seq<Item>, item: Item)
    ensures Streak(out + [item]) == if item.lane == Bulk then 0 else Streak(out) + 1
  {
    assert (out + [item])[..|out|] == out;
  }

  /** A bulk frame may go out: since the last one the control lane was found empty, or a full run of control
      frames was written. */
  ghost predicate MayBulk(out: seq<Item>, looks: set<Look>) {
    Streak(out) >= MAX_CONTROL_RUN || exists x :: x in looks && |out| - Streak(out) <= x.at <= |out|
  }

  /** Every bulk frame was allowed when it went out. */
  ghost predicate ControlFirst(out: seq<Item>, looks: set<Look>) {
    forall k :: 0 <= k < |out| && out[k].lane == Bulk ==> MayBulk(out[..k], looks)
  }

  /** Each look found everything sent so far written. */
  ghost predicate Looked(out: seq<Item>, looks: set<Look>) {
    forall x :: x in looks ==> x.at <= |out| && |Of(out[..x.at], Control)| == x.sent
  }

  ghost predicate Ordered(out: seq<Item>, looks: set<Look>) {
    ControlFirst(out, looks) && Looked(out, looks)
  }

  lemma FullRun(out: seq<Item>, looks: set<Look>)
    requires Streak(out) >= MAX_CONTROL_RUN
    ensures MayBulk(out, looks)
  {
  }

  lemma OrderedSnoc(out: seq<Item>, item: Item, looks: set<Look>)
    requires Ordered(out, looks) && (item.lane == Bulk ==> MayBulk(out, looks))
    ensures Ordered(out + [item], looks)
  {
    hide MayBulk, Of;
    var more := out + [item];
    assert forall k :: 0 <= k <= |out| ==> more[..k] == out[..k];
    assert out[..|out|] == out;
  }

  lemma OrderedLook(out: seq<Item>, looks: set<Look>, sent: nat)
    requires Ordered(out, looks) && sent == |Of(out, Control)|
    ensures Ordered(out, looks + {Look(|out|, sent)}) && MayBulk(out, looks + {Look(|out|, sent)})
  {
    hide Of;
    assert out[..|out|] == out;
    assert Look(|out|, sent) in looks + {Look(|out|, sent)};
  }

  lemma {:induction false} OfPrefix(out: seq<Item>, k: nat, lane: Lane)
    requires k <= |out|
    ensures Of(out[..k], lane) <= Of(out, lane)
    ensures |Of(out, Control)| + |Of(out, Bulk)| == |out|
    decreases |out|
  {
    if out != [] {
      var n := |out| - 1;
      OfPrefix(out[..n], if k <= n then k else n, lane);
      if k <= n {
        assert out[..n][..k] == out[..k];
      } else {
        assert out[..k] == out;
      }
    }
  }

  /** `m` control frames and nothing but bulk after them. */
  lemma {:induction false} LanesInTurn(out: seq<Item>, m: nat)
    requires m <= |out| && forall i :: 0 <= i < |out| ==> (out[i].lane.Control? <==> i < m)
    ensures Bodies(out) == Of(out, Control) + Of(out, Bulk) && |Of(out, Control)| == m
    decreases |out|
  {
    if out != [] {
      var n := |out| - 1;
      LanesInTurn(out[..n], Min(m, n));
      assert Bodies(out) == Bodies(out[..n]) + [out[n].response];
    }
  }

  /** Over a control lane that never takes more than one run, every control frame is written before any bulk
      frame. */
  lemma ControlBeforeBulk(out: seq<Item>, looks: set<Look>, sent: nat)
    requires Ordered(out, looks) && |Of(out, Control)| == sent <= MAX_CONTROL_RUN
    requires forall x :: x in looks ==> x.sent == sent
    ensures Bodies(out) == Of(out, Control) + Of(out, Bulk)
  {
    hide Ordered, Of, Bodies;
    var m := FirstBulk(out, 0);
    if m < |out| {
      AllSentBefore(out, looks, sent, m);
    }
    forall i | m <= i < |out| ensures out[i].lane.Bulk? {
      NoneSentAfter(out, sent, m, i);
    }
    LanesInTurn(out, m);
  }

  lemma NoneSentAfter(out: seq<Item>, sent: nat, m: nat, i: nat)
    requires m <= i < |out| && |Of(out[..m], Control)| == sent == |Of(out, Control)|
    ensures out[i].lane.Bulk?
  {
    hide Of;
    OfPrefix(out[..i], m, Control);
    assert out[..i][..m] == out[..m] && out[..i + 1] == out[..i] + [out[i]];
    OfSnoc(out[..i], out[i], Control);
    OfPrefix(out, i + 1, Control);
  }

  lemma AllSentBefore(out: seq<Item>, looks: set<Look>, sent: nat, k: nat)
    requires Ordered(out, looks) && |Of(out, Control)| == sent <= MAX_CONTROL_RUN
    requires forall x :: x in looks ==> x.sent == sent
    requires k < |out| && out[k].lane == Bulk
    ensures |Of(out[..k], Control)| == sent
  {
    assert MayBulk(out[..k], looks);
    OfPrefix(out, k, Control);
    StreakIsControl(out[..k]);
    if x :| x in looks && x.at <= k {
      OfPrefix(out[..k], x.at, Control);
      assert out[..k][..x.at] == out[..x.at];
    }
  }

  lemma {:induction false} StreakIsControl(out: seq<Item>)
    ensures Streak(out) <= |Of(out, Control)|
  {
    if out != [] { StreakIsControl(out[..|out| - 1]); }
  }

  function FirstBulk(out: seq<Item>, i: nat): (m: nat)
    requires i <= |out|
    ensures i <= m <= |out| && (m < |out| ==> out[m].lane.Bulk?)
    ensures forall j :: i <= j < m ==> out[j].lane.Control?
    decreases |out| - i
  {
    if i == |out| || out[i].lane.Bulk? then i else FirstBulk(out, i + 1)
  }

  function Bodies(out: seq<Item>): (r: seq<Response>)
    ensures |r| == |out| && forall i :: 0 <= i < |out| ==> r[i] == out[i].response
  {
    seq(|out|, i requires 0 <= i < |out| => out[i].response)
  }

  /** The bytes handed to the transport are the frames of `out` and then part of one more. */
  ghost predicate Carries(wire: seq<byte>, out: seq<Item>, partial: seq<byte>, max: nat) {
    && max <= U32_MAX && (forall i :: 0 <= i < |out| ==> |out[i].response| <= max)
    && wire == Flat(Framing.Framed(Bodies(out))) + partial
  }

  lemma CarriesNothing(max: nat)
    requires max <= U32_MAX
    ensures Carries([], [], [], max)
  {
    FlatNone();
    assert Framing.Framed(Bodies([])) == [];
  }

  lemma CarriesFrame(wire: seq<byte>, out: seq<Item>, item: Item, max: nat)
    requires Carries(wire, out, [], max) && |item.response| <= max
    ensures Carries(wire + Framing.Frame(item.response), out + [item], [], max)
  {
    hide Flat, Framing.Frame;
    var parts := Framing.Framed(Bodies(out));
    assert Framing.Framed(Bodies(out + [item])) == parts + [Framing.Frame(item.response)];
    FlatSnoc(parts, Framing.Frame(item.response));
    assert Flat(parts) + [] == Flat(parts);
    var all := Flat(parts) + Framing.Frame(item.response);
    assert all + [] == all;
  }

  lemma CarriesPart(wire: seq<byte>, out: seq<Item>, part: seq<byte>, max: nat)
    requires Carries(wire, out, [], max)
    ensures Carries(wire + part, out, part, max)
  {
    hide Flat;
    var whole := Flat(Framing.Framed(Bodies(out)));
    assert whole + [] == whole;
  }

  /** Everything the environment still has to do. */
  function Weight(script: seq<seq<Action>>): (n: nat) {
    if script == [] then 0 else 1 + |script[0]| + Weight(script[1..])
  }

  // ------------------------------------------------------------------ the lanes

  datatype Lanes = Lanes(control: seq<Response>, bulk: seq<Response>, controlOpen: bool, bulkOpen: bool)

  /** Sending on a closed lane does nothing; a closed lane stays closed. */
  function Act(l: Lanes, a: Action): (l': Lanes) {
    match a
    case Send(Control, r) => if l.controlOpen then l.(control := l.control + [r]) else l
    case Send(Bulk, r) => if l.bulkOpen then l.(bulk := l.bulk + [r]) else l
    case Close(Control) => l.(controlOpen := false)
    case Close(Bulk) => l.(bulkOpen := false)
  }

  function ActAll(l: Lanes, batch: seq<Action>): (l': Lanes) {
    if batch == [] then l else Act(ActAll(l, batch[..|batch| - 1]), batch[|batch| - 1])
  }

  lemma ActNothing(l: Lanes)
    ensures ActAll(l, []) == l
  {
  }

  class Connection {
    var control: seq<Response>
    var bulk: seq<Response>
    var controlOpen: bool
    var bulkOpen: bool
    var out: seq<Item>
    /** The bytes handed to the transport, and those of a frame whose write failed partway. */
    var wire: seq<byte>
    ghost var partial: seq<byte>
    /** What the other threads do, a batch each time the writer looks at the lanes. */
    var script: seq<seq<Action>>
    /** The number of the write that fails, if one does, and how much of its frame goes out before. */
    const failAt: Option<nat>
    const cut: nat
    /** Flushes so far, and the number of the one that fails, if one does. */
    var flushes: nat
    const flushFailAt: Option<nat>
    /** How many frames have been flushed out to the peer. */
    ghost var pushed: nat
    const max: nat
    /** Everything ever put on a lane. */
    ghost var sentControl: seq<Response>
    ghost var sentBulk: seq<Response>
    /** A response taken off a lane and not written. */
    ghost var lostControl: seq<Response>
    ghost var lostBulk: seq<Response>
    /** How much had been sent on each lane when the writer last found it empty. */
    ghost var lookedControl: nat
    ghost var lookedBulk: nat
    /** Every time the writer found the control lane empty. */
    ghost var looks: set<Look>

    ghost function Now(): (l: Lanes)
      reads this
    {
      Lanes(control, bulk, controlOpen, bulkOpen)
    }

    /** Nothing is dropped, repeated or reordered: what was sent on a lane is what was written from
        it, then what was taken, then what is queued. */
    ghost predicate Conserved()
      reads this
    {
      && sentControl == Of(out, Control) + lostControl + control
      && sentBulk == Of(out, Bulk) + lostBulk + bulk
    }

    /** The wire holds the written frames, and past them at most a proper part of the frame in hand. */
    ghost predicate Wired()
      reads this
    {
      && Carries(wire, out, partial, max)
      && (partial != [] ==>
            var lost := lostControl + lostBulk;
            |lost| == 1 && |lost[0]| <= max && partial < Framing.Frame(lost[0]))
    }

    /** A run past a waiting bulk frame leaves it waiting. */
    ghost predicate Valid()
      reads this
    {
      && Conserved() && Fair(out) && Wired() && Ordered(out, looks)
      && (Run(out) > 0 ==> bulk != [] || lostBulk != [])
    }

    ghost predicate Settled()
      reads this
    {
      Valid() && lostControl == [] && lostBulk == []
    }

    ghost function Left(): (n: nat)
      reads this
    {
      Weight(script) + |control| + |bulk|
    }

    constructor (control: seq<Response>, bulk: seq<Response>, controlOpen: bool, bulkOpen: bool,
                 script: seq<seq<Action>>, failAt: Option<nat>, cut: nat, flushFailAt: Option<nat>, max: nat)
      requires max <= U32_MAX
      ensures Settled() && out == [] && wire == [] && sentControl == control && sentBulk == bulk
      ensures this.control == control && this.bulk == bulk && this.script == script && this.max == max
      ensures this.failAt == failAt && this.cut == cut && this.flushFailAt == flushFailAt && flushes == 0
      ensures this.controlOpen == controlOpen && this.bulkOpen == bulkOpen
    {
      this.control, this.bulk, this.controlOpen, this.bulkOpen := control, bulk, controlOpen, bulkOpen;
      this.script, this.failAt, this.flushFailAt, this.max, flushes := script, failAt, flushFailAt, max, 0;
      out, sentControl, sentBulk, lostControl, lostBulk := [], control, bulk, [], [];
      wire, partial, this.cut := [], [], cut;
      CarriesNothing(max);
      lookedControl, lookedBulk, pushed, looks := 0, 0, 0, {};
      new;
      assert Of([], Control) == [] && Of([], Bulk) == [];
    }

    /** A closed lane stays closed, and nothing more is sent on it. */
    twostate predicate ClosedStay()
      reads this
    {
      && (!old(controlOpen) ==> !controlOpen && sentControl == old(sentControl))
      && (!old(bulkOpen) ==> !bulkOpen && sentBulk == old(sentBulk))
      && (!old(controlOpen) ==> forall x :: x in looks && x !in old(looks) ==> x.sent == |sentControl|)
    }

    /** The next time the writer looks, nothing will have happened. */
    twostate predicate Uneventful()
      reads this
    {
      old(script) != [] && old(script)[0] == []
    }

    /** The other threads get to run: they add to open lanes and close them. */
    method Others()
      requires Valid()
      modifies `control, `bulk, `controlOpen, `bulkOpen, `script, `sentControl, `sentBulk
      ensures Valid() && old(control) <= control && old(bulk) <= bulk
      ensures ClosedStay()
      ensures (!old(controlOpen) ==> control == old(control)) && (!old(bulkOpen) ==> bulk == old(bulk))
      ensures if old(script) == [] then unchanged(this) else Left() < old(Left())
      ensures old(script) != [] ==> script == old(script)[1..] && Now() == ActAll(old(Now()), old(script)[0])
    {
      hide Of, Run, Fair, Act, Carries, MayBulk, Ordered, Streak;
      if script == [] {
        return;
      }
      var batch := script[0];
      script := script[1..];
      for i := 0 to |batch|
        invariant Valid() && old(control) <= control && old(bulk) <= bulk && script == old(script)[1..]
        invariant ClosedStay()
        invariant (!old(controlOpen) ==> control == old(control)) && (!old(bulkOpen) ==> bulk == old(bulk))
        invariant |control| + |bulk| <= old(|control| + |bulk|) + i
        invariant Now() == ActAll(old(Now()), batch[..i])
      {
        assert batch[..i + 1][..i] == batch[..i];
        One(batch[i]);
      }
      assert batch[..|batch|] == batch;
    }

    method One(a: Action)
      requires Valid()
      modifies `control, `bulk, `controlOpen, `bulkOpen, `sentControl, `sentBulk
      ensures Valid() && old(control) <= control && old(bulk) <= bulk && ClosedStay()
      ensures (!old(controlOpen) ==> control == old(control)) && (!old(bulkOpen) ==> bulk == old(bulk))
      ensures |control| + |bulk| <= old(|control| + |bulk|) + 1 && Now() == Act(old(Now()), a)
    {
      hide Of, Run, Fair, Carries, MayBulk, Ordered, Streak;
      match a {
        case Send(lane, response) =>
          if lane == Control && controlOpen {
            control, sentControl := control + [response], sentControl + [response];
          } else if lane == Bulk && bulkOpen {
            bulk, sentBulk := bulk + [response], sentBulk + [response];
          }
        case Close(lane) =>
          if lane == Control { controlOpen := false; } else { bulkOpen := false; }
      }
    }

    /** Why a write failed: the one response in hand is too large, or the transport broke. */
    ghost predicate Refused()
      reads this
    {
      var lost := lostControl + lostBulk;
      |lost| == 1 && (|lost[0]| > max || failAt == Some(|out|))
    }

    /** Why the loop failed: on a response in hand, or on a flush with none. */
    ghost predicate Stopped()
      reads this
    {
      Refused() || (lostControl == [] && lostBulk == [] && flushFailAt == Some(flushes))
    }

    // ---------------------------------------------------------------- taking and writing

    method Flush() returns (ok: bool)
      requires Settled()
      modifies `flushes, `pushed
      ensures Settled() && (ok <==> flushFailAt != Some(old(flushes)))
      ensures ok ==> flushes == old(flushes) + 1 && pushed == |out|
      ensures !ok ==> flushes == old(flushes) && pushed == old(pushed)
    {
      hide Of, Run, Fair, MayBulk, Ordered, Streak;
      ok := flushFailAt != Some(flushes);
      if ok { flushes, pushed := flushes + 1, |out|; }
    }

    method TakeControl() returns (response: Response)
      requires Settled() && control != []
      modifies `control, `lostControl
      ensures Valid() && lostControl == [response] && response == old(control)[0] && Left() + 1 == old(Left())
      ensures partial == []
    {
      hide Of, Run, Fair, MayBulk, Ordered, Streak;
      response := control[0];
      control, lostControl := control[1..], [response];
    }

    method TakeBulk() returns (response: Response)
      requires Settled() && bulk != []
      modifies `bulk, `lostBulk
      ensures Valid() && lostBulk == [response] && response == old(bulk)[0] && Left() + 1 == old(Left())
      ensures partial == []
    {
      hide Of, Run, Fair, MayBulk, Ordered, Streak;
      response := bulk[0];
      bulk, lostBulk := bulk[1..], [response];
    }

    /** `write_frame` of a response just taken: it fails on one that is too large, or when the
        transport does. */
    method Write(lane: Lane, response: Response) returns (ok: bool)
      requires Valid() && lostControl == (if lane == Control then [response] else [])
      requires lostBulk == (if lane == Bulk then [response] else []) && partial == []
      requires if lane == Control then Run(out) <= MAX_CONTROL_RUN else MayBulk(out, looks)
      modifies this
      ensures Valid() && Left() <= old(Left()) && ClosedStay()
      ensures ok ==> Settled() && Run(out) <= (if lane == Control then old(Run(out)) + 1 else 0)
      ensures ok && lane == Control ==> Streak(out) == old(Streak(out)) + 1
      ensures ok || Refused()
      ensures ok <==> |response| <= max && failAt != Some(|old(out)|)
      ensures pushed == old(pushed) && old(bulk) <= bulk && (ok ==> |out| == |old(out)| + 1)
      ensures ok ==> wire == old(wire) + Framing.Frame(response)
      ensures !ok ==> wire == old(wire) + partial
      ensures !ok ==> partial == if |response| > max then [] else CutShort(response, cut)
    {
      hide Of, Run, Fair, Weight, Wired, MayBulk, Ordered, Streak;
      Others();
      if |response| > max {
        return false;
      }
      if failAt == Some(|out|) {
        PutPart(response);
        return false;
      }
      Put(lane, response);
      return true;
    }

    /** Some of the frame goes out before the transport fails. */
    method PutPart(response: Response)
      requires Valid() && partial == [] && lostControl + lostBulk == [response] && |response| <= max
      modifies `wire, `partial
      ensures Valid() && partial == CutShort(response, cut) && wire == old(wire) + partial
    {
      hide Of, Run, Fair, Carries, MayBulk, Ordered, Streak;
      var part := CutShort(response, cut);
      CarriesPart(wire, out, part, max);
      wire, partial := wire + part, part;
    }

    /** The frame goes out, marked with whether bulk is waiting. */
    method Put(lane: Lane, response: Response)
      requires Valid() && lostControl == (if lane == Control then [response] else [])
      requires lostBulk == (if lane == Bulk then [response] else [])
      requires if lane == Control then Run(out) <= MAX_CONTROL_RUN else MayBulk(out, looks)
      requires |response| <= max && partial == []
      modifies `out, `wire, `lostControl, `lostBulk
      ensures wire == old(wire) + Framing.Frame(response)
      ensures Settled() && Run(out) <= (if lane == Control then old(Run(out)) + 1 else 0)
      ensures lane == Control ==> Streak(out) == old(Streak(out)) + 1
      ensures |out| == |old(out)| + 1
    {
      hide Of, Run, Fair, Carries, MayBulk, Ordered, Streak;
      var item := Item(lane, response, bulk != []);
      RunSnoc(out, item);
      FairSnoc(out, item);
      OfSnoc(out, item, Control);
      OfSnoc(out, item, Bulk);
      CarriesFrame(wire, out, item, max);
      StreakSnoc(out, item);
      OrderedSnoc(out, item, looks);
      wire := wire + Framing.Frame(response);
      out, lostControl, lostBulk := out + [item], [], [];
    }

    /** Control first, but no further than `MAX_CONTROL_RUN` frames once bulk is waiting. Stops with
        the control lane empty, or with bulk waiting after a full run: either way bulk may go now. */
    method ControlRun() returns (wrote: bool, ok: bool)
      requires Settled() && Run(out) <= 1
      modifies this
      ensures Valid() && Left() <= old(Left()) && ClosedStay() && (wrote ==> Left() < old(Left()))
      ensures ok ==> Settled() && MayBulk(out, looks) && (old(control) != [] ==> wrote)
      ensures pushed == old(pushed) && old(bulk) <= bulk && (ok && wrote ==> |old(out)| < |out|)
      ensures ok && !wrote && !old(controlOpen) ==> control == []
      ensures ok || Refused()
      ensures ok && !wrote ==> lookedControl == |Of(out, Control)| && out == old(out)
      ensures Uneventful() && old(control) == [] ==> ok && !wrote && Now() == old(Now()) && script == old(script)[1..]
      ensures failAt.None? && !old(controlOpen) && Within(old(sentControl), max) ==> ok
    {
      hide Of, Run, Fair, Within, Weight, ActAll, Conserved, Wired, Refused, MayBulk, Ordered, Streak;
      var written := 0;
      wrote := false;
      while true
        invariant Settled() && Left() <= old(Left()) && ClosedStay() && (wrote ==> Left() < old(Left()))
        invariant Run(out) <= Min(written, MAX_CONTROL_RUN) + 1 && (wrote <==> written > 0)
        invariant written <= Streak(out) && |out| == |old(out)| + written && pushed == old(pushed)
        invariant old(bulk) <= bulk && (!wrote ==> control == old(control))
        invariant !wrote ==> out == old(out) && Now() == old(Now()) && script == old(script)
        invariant !wrote ==> sentControl == old(sentControl)
        invariant Uneventful() && old(control) == [] ==> !wrote
        decreases Left()
      {
        var more;
        more, ok := ControlStep(written);
        if !ok || !more {
          return wrote, ok;
        }
        wrote := true;
        written := written + 1;
      }
    }

    /** One pass of the run, `written` frames in: writes a frame, or stops it. */
    method ControlStep(written: nat) returns (more: bool, ok: bool)
      requires Settled() && Run(out) <= Min(written, MAX_CONTROL_RUN) + 1 && written <= Streak(out)
      modifies this
      ensures Valid() && Left() <= old(Left()) && ClosedStay()
      ensures if ok then Settled() else Refused()
      ensures ok && more ==> Left() < old(Left()) && Run(out) <= Min(written + 1, MAX_CONTROL_RUN) + 1
      ensures ok && more ==> written + 1 <= Streak(out)
      ensures ok && !more ==> out == old(out) && MayBulk(out, looks)
      ensures ok && written == 0 && old(control) != [] ==> more
      ensures ok && more ==> |out| == |old(out)| + 1
      ensures pushed == old(pushed) && old(bulk) <= bulk
      ensures ok && !more && written == 0 ==>
                lookedControl == |Of(out, Control)| && (!old(controlOpen) ==> control == [])
      ensures Uneventful() && old(control) == [] && written == 0 ==>
                ok && !more && Now() == old(Now()) && script == old(script)[1..]
      ensures failAt.None? && !old(controlOpen) && Within(old(sentControl), max) ==> ok
    {
      hide Of, Run, Fair, Within, Weight, ActAll, Wired, MayBulk, Ordered, Streak;
      ActNothing(Now());
      if written >= MAX_CONTROL_RUN {
        Others();
        if bulk != [] {
          FullRun(out, looks);
          return false, true;
        }
      }
      Others();
      if control == [] {
        LookControl();
        return false, true;
      }
      ok := ControlFrame();
      return ok, ok;
    }

    /** The writer finds the control lane empty: everything sent on it has been written. */
    ghost method LookControl()
      requires Settled() && control == []
      modifies `lookedControl, `looks
      ensures Settled() && lookedControl == |sentControl| == |Of(out, Control)|
      ensures looks == old(looks) + {Look(|out|, |sentControl|)} && MayBulk(out, looks)
    {
      hide Of, Run, Fair, MayBulk, Ordered, Streak;
      OrderedLook(out, looks, |sentControl|);
      lookedControl, looks := |sentControl|, looks + {Look(|out|, |sentControl|)};
    }

    ghost method LookBulk()
      requires Settled() && bulk == []
      modifies `lookedBulk
      ensures Settled() && lookedBulk == |sentBulk| == |Of(out, Bulk)|
    {
      hide Of, Run, Fair, MayBulk, Ordered, Streak;
      lookedBulk := |sentBulk|;
    }

    method ControlFrame() returns (ok: bool)
      requires Settled() && control != [] && Run(out) <= MAX_CONTROL_RUN
      modifies this
      ensures Valid() && Left() < old(Left()) && ClosedStay()
      ensures if ok then Settled() && Run(out) <= old(Run(out)) + 1 else Refused()
      ensures ok ==> Streak(out) == old(Streak(out)) + 1 && |out| == |old(out)| + 1
      ensures pushed == old(pushed) && old(bulk) <= bulk
      ensures failAt.None? && Within(old(sentControl), max) ==> ok
    {
      hide Of, Run, Fair, Within, Weight, Wired, MayBulk, Ordered, Streak;
      Queued(sentControl, Of(out, Control) + lostControl, control, max);
      var response := TakeControl();
      ok := Write(Control, response);
    }

    /** One bulk frame, if there is one. */
    method BulkFrame() returns (wrote: bool, ok: bool)
      requires Settled() && MayBulk(out, looks)
      modifies this
      ensures Valid() && Left() <= old(Left()) && ClosedStay() && (wrote ==> Left() < old(Left()))
      ensures ok ==> Settled() && Run(out) == 0
      ensures ok && !wrote && !old(bulkOpen) ==> bulk == []
      ensures !old(controlOpen) && !wrote ==> control == old(control)
      ensures ok || Refused()
      ensures ok && !wrote ==> lookedBulk == |Of(out, Bulk)| && out == old(out) && lookedControl == old(lookedControl)
      ensures ok && !wrote ==> looks == old(looks)
      ensures pushed == old(pushed) && (ok && wrote ==> |out| == |old(out)| + 1)
      ensures ok && old(bulk) != [] ==> wrote
      ensures Uneventful() && old(bulk) == [] ==> ok && !wrote && Now() == old(Now()) && script == old(script)[1..]
      ensures failAt.None? && !old(bulkOpen) && Within(old(sentBulk), max) ==> ok
    {
      hide Of, Run, Fair, Within, Weight, Wired, MayBulk, Ordered, Streak;
      Others();
      if bulk == [] {
        LookBulk();
        return false, true;
      }
      Queued(sentBulk, Of(out, Bulk) + lostBulk, bulk, max);
      var response := TakeBulk();
      ok := Write(Bulk, response);
      return true, ok;
    }

    /** After a bulk frame: flushes only when nothing else is queued right now. */
    method Coalesce() returns (ok: bool)
      requires Settled() && Run(out) == 0
      modifies this
      ensures Settled() && Run(out) == 0 && Left() <= old(Left()) && ClosedStay() && out == old(out)
      ensures ok || flushFailAt == Some(flushes)
      ensures ok && control == [] && bulk == [] ==> pushed == |out|
      ensures pushed == old(pushed) || pushed == |out|
      ensures old(control) != [] || old(bulk) != [] ==> ok && flushes == old(flushes) && pushed == old(pushed)
    {
      hide Of, Run, Fair, Weight, Wired, Conserved, MayBulk, Ordered, Streak;
      Others();
      var idle := bulk == [];
      if idle {
        Others();
        idle := control == [];
      }
      ok := true;
      if idle {
        ok := Flush();
      }
    }

    /** Blocks on the lanes still live. A disconnected lane wakes the wait with nothing. When nobody will
        ever act again, the thread stays parked. */
    method Wait(control?: bool, bulk?: bool) returns (taken: Option<(Lane, Response)>, parked: bool)
      requires Settled() && (control? || bulk?)
      modifies this
      ensures Valid() && Left() <= old(Left()) && ClosedStay() && out == old(out)
      ensures parked ==> taken.None? && script == [] && !(control? && control != []) && !(bulk? && bulk != [])
      ensures lookedControl == old(lookedControl) && lookedBulk == old(lookedBulk) && pushed == old(pushed)
      ensures looks == old(looks)
      ensures lostControl == if taken.Some? && taken.value.0 == Control then [taken.value.1] else []
      ensures lostBulk == if taken.Some? && taken.value.0 == Bulk then [taken.value.1] else []
      ensures taken.Some? ==> Left() < old(Left()) && partial == []
      ensures taken.None? && !parked ==>
                Left() < old(Left()) || (control? && !old(controlOpen)) || (bulk? && !old(bulkOpen))
    {
      hide Of, Run, Fair, Weight, Wired, Conserved, MayBulk, Ordered, Streak;
      while !(control? && (control != [] || !controlOpen)) && !(bulk? && (bulk != [] || !bulkOpen))
        invariant Settled() && Left() <= old(Left()) && ClosedStay() && out == old(out)
        invariant Left() == old(Left()) ==> controlOpen == old(controlOpen) && bulkOpen == old(bulkOpen)
        invariant lookedControl == old(lookedControl) && lookedBulk == old(lookedBulk) && pushed == old(pushed)
        invariant looks == old(looks)
        decreases Left()
      {
        if script == [] {
          return None, true;
        }
        Others();
      }
      var fromControl := control? && (control != [] || !controlOpen);
      if fromControl && bulk? && (bulk != [] || !bulkOpen) {
        if * { fromControl := false; }
      }
      if fromControl {
        if control == [] { return None, false; }
        var response := TakeControl();
        return Some((Control, response)), false;
      }
      if bulk == [] { return None, false; }
      var response := TakeBulk();
      return Some((Bulk, response)), false;
    }

    /** Both lanes idle: returns when both have disconnected, else blocks for one more frame. */
    method Idle() returns (exit: Option<Exit>)
      requires Settled() && Run(out) == 0 && MayBulk(out, looks)
      modifies this
      ensures Valid() && ClosedStay() && Left() <= old(Left())
      ensures exit != Some(Failed) ==> Settled()
      ensures exit.None? ==> Run(out) <= 1 && Left() < old(Left())
      ensures exit == Some(Returned) ==> !controlOpen && !bulkOpen
      ensures exit == Some(Returned) ==>
                out == old(out) && lookedControl == old(lookedControl) && lookedBulk == old(lookedBulk)
      ensures exit == Some(Parked) ==> Waiting()
      ensures exit == Some(Returned) || exit == Some(Parked) ==> pushed == |out|
      ensures exit == Some(Failed) ==> Stopped()
      ensures flushFailAt.None? && |old(script)| == 1 ==>
                var l := ActAll(old(Now()), old(script)[0]);
                !l.controlOpen && !l.bulkOpen ==> exit == Some(Returned) && Now() == l
      ensures !old(controlOpen) && !old(bulkOpen) ==>
                && (exit == Some(Returned) || (exit == Some(Failed) && flushFailAt.Some?))
                && control == old(control) && bulk == old(bulk)
    {
      hide Of, Fair, Run, Weight, Conserved, Wired, MayBulk, Ordered, Streak;
      var flushed := Flush();
      if !flushed { return Some(Failed); }
      Others();
      var c := controlOpen;
      Others();
      var b := bulkOpen;
      if !c && !b {
        return Some(Returned);
      }
      exit := TakeOne(c, b);
    }

    /** Blocks for one frame of the lanes still live, and writes it. */
    method TakeOne(control?: bool, bulk?: bool) returns (exit: Option<Exit>)
      requires Settled() && Run(out) == 0 && (control? || bulk?) && (controlOpen ==> control?) && (bulkOpen ==> bulk?)
      requires MayBulk(out, looks)
      modifies this
      ensures Valid() && ClosedStay() && Left() <= old(Left())
      ensures exit != Some(Returned) && (exit != Some(Failed) ==> Settled())
      ensures exit.None? ==> Run(out) <= 1
      ensures exit.None? ==> Left() < old(Left()) || (control? && !old(controlOpen)) || (bulk? && !old(bulkOpen))
      ensures exit == Some(Parked) ==> Waiting() && out == old(out) && pushed == old(pushed)
      ensures exit == Some(Failed) ==> Refused()
    {
      hide Of, Fair, Run, Weight, Conserved, Wired, MayBulk, Ordered, Streak;
      var taken, parked := Wait(control?, bulk?);
      if parked { return Some(Parked); }
      if taken.Some? {
        var (lane, response) := taken.value;
        var ok := Write(lane, response);
        if !ok { return Some(Failed); }
      }
      return None;
    }

    /** Nobody will act again, and every lane that is still live is empty. */
    ghost predicate Waiting()
      reads this
    {
      script == [] && (controlOpen ==> control == []) && (bulkOpen ==> bulk == [])
    }

    /** What was written from each lane is what had been sent on it when it was last found empty. */
    ghost predicate CaughtUp()
      reads this
    {
      lookedControl == |Of(out, Control)| && lookedBulk == |Of(out, Bulk)|
    }

    /** Nothing can stop the lanes from being drained: they are closed, and no write will fail. */
    ghost predicate Drainable()
      reads this
    {
      && !controlOpen && !bulkOpen && failAt.None? && flushFailAt.None?
      && Within(sentControl, max) && Within(sentBulk, max)
    }

    /** The peer reads exactly the frames written, in order, and a clean end unless a write failed partway. */
    lemma PeerReads()
      requires Valid()
      ensures Framing.Unframe(wire, max)
           == Framing.Unframed(Bodies(out), if partial == [] then Framing.Clean else Framing.Torn)
    {
      hide Of, Run, Fair, Flat, Framing.Frame, MayBulk, Ordered, Streak;
      var next := if partial == [] then [] else (lostControl + lostBulk)[0];
      FrameNotEmpty(next);
      assert partial == Framing.Frame(next)[..|partial|];
      Framing.CutStream(Bodies(out), next, |partial|, max);
    }

    /** One turn of the loop. What its control run writes is flushed before anything else goes out, and a bulk
        frame as soon as nothing more is queued. */
    method Turn() returns (exit: Option<Exit>)
      requires Settled() && Run(out) <= 1
      modifies this
      ensures Valid() && ClosedStay()
      ensures exit != Some(Failed) ==> Settled()
      ensures exit.None? ==> Run(out) <= 1 && Left() < old(Left())
      ensures exit == Some(Returned) ==> !controlOpen && !bulkOpen
      ensures !old(controlOpen) && !old(bulkOpen) ==>
                exit != Some(Parked) && (exit == Some(Returned) ==> control == [] && bulk == [])
      ensures exit == Some(Returned) ==> CaughtUp()
      ensures exit == Some(Parked) ==> Waiting()
      ensures exit == Some(Returned) || exit == Some(Parked) ==> pushed == |out|
      ensures exit == Some(Failed) ==> Stopped()
      ensures flushFailAt.None? && old(control) == [] && old(bulk) == []
              && |old(script)| == 3 && old(script)[0] == [] && old(script)[1] == [] ==>
                var l := ActAll(old(Now()), old(script)[2]);
                !l.controlOpen && !l.bulkOpen ==> exit == Some(Returned) && Now() == l
      ensures old(Drainable()) ==> exit != Some(Failed)
      ensures old(control) != [] && exit != Some(Failed) ==> |old(out)| < pushed && |out| <= pushed + 1
      ensures old(bulk) != [] && exit != Some(Failed) && control == [] && bulk == [] ==> pushed == |out|
    {
      hide Of, Fair, Run, Weight, Conserved, Wired, Within, MayBulk, Ordered, Streak;
      var wroteControl, ok := ControlRun();
      if !ok { return Some(Failed); }
      if wroteControl {
        ok := Flush();
        if !ok { return Some(Failed); }
      }
      var wroteBulk;
      wroteBulk, ok := BulkFrame();
      if !ok { return Some(Failed); }
      if wroteBulk {
        ok := Coalesce();
        return if ok then None else Some(Failed);
      }
      if wroteControl { return None; }
      exit := Idle();
    }

    /** `drive_writer`: drains the lanes until both have disconnected. What it writes is an
        order-preserving merge of the lanes with nothing lost, repeated or starved, control first; over lanes
        closed beforehand it writes all of it. */
    method DriveWriter() returns (exit: Exit)
      requires Settled() && out == []
      modifies this
      ensures Valid() && (exit != Failed ==> Settled())
      ensures exit == Returned ==> !controlOpen && !bulkOpen
      ensures !old(controlOpen) && !old(bulkOpen) ==> exit != Parked
      ensures !old(controlOpen) && !old(bulkOpen) && exit == Returned ==>
                Of(out, Control) == old(sentControl) && Of(out, Bulk) == old(sentBulk)
      ensures exit == Returned ==> CaughtUp()
      ensures exit == Returned ==>
                (control == [] && bulk == [] <==> lookedControl == |sentControl| && lookedBulk == |sentBulk|)
      ensures exit == Parked ==> Waiting()
      ensures exit == Returned || exit == Parked ==> pushed == |out|
      ensures exit == Failed ==> Stopped()
      ensures old(Drainable()) ==> exit == Returned
      ensures ControlFirst(out, looks)
      ensures old(Drainable()) && |old(sentControl)| <= MAX_CONTROL_RUN ==>
                Bodies(out) == old(sentControl) + old(sentBulk)
      ensures var u := Framing.Unframe(wire, max);
              u.bodies == Bodies(out) && (u.end.Clean? <==> partial == []) && (exit != Failed ==> partial == [])
    {
      hide Of, Fair, Within, Run, Weight, Framing.Unframe, Carries, MayBulk, ControlFirst, Looked, Streak;
      Nothing(out);
      looks := {};
      exit := Loop();
      PeerReads();
      if old(Drainable()) && |sentControl| <= MAX_CONTROL_RUN {
        ControlBeforeBulk(out, looks, |sentControl|);
      }
    }

    /** Turn after turn. */
    method Loop() returns (exit: Exit)
      requires Settled() && Run(out) <= 1 && looks == {}
      modifies this
      ensures Valid() && ClosedStay() && (exit != Failed ==> Settled())
      ensures exit == Returned ==> !controlOpen && !bulkOpen && CaughtUp()
      ensures !old(controlOpen) && !old(bulkOpen) ==>
                exit != Parked && (exit == Returned ==> control == [] && bulk == [])
      ensures exit == Parked ==> Waiting()
      ensures exit == Returned || exit == Parked ==> pushed == |out|
      ensures exit == Failed ==> Stopped()
      ensures old(Drainable()) ==> exit == Returned
    {
      hide Of, Fair, Within, Run, Weight, Wired, MayBulk, Ordered, Streak, Conserved;
      while true
        invariant Settled() && Run(out) <= 1 && ClosedStay()
        decreases Left()
      {
        var over := Turn();
        if over.Some? {
          return over.value;
        }
      }
    }
  }

  lemma Nothing(out: seq<Item>)
    requires out == []
    ensures Run(out) == 0 && Ordered(out, {})
  {
  }

  /** A lane closed under the writer can keep a frame: sent and closed after the writer last found the
      lane empty and before it asks whether the lane is closed, the frame is never written. */
  method LateFrameIsLeft(r: Response) returns (c: Connection, exit: Option<Exit>)
    ensures fresh(c) && c.Settled() && exit == Some(Returned) && c.bulk == [r] && c.CaughtUp()
  {
    var last := [Send(Bulk, r), Close(Bulk), Close(Control)];
    c := new Connection([], [], true, true, [[], [], last], None, 0, None, U32_MAX);
    assert last[..2] == [Send(Bulk, r), Close(Bulk)] && last[..2][..1] == [Send(Bulk, r)] && last[..2][..1][..0] == [];
    assert ActAll(c.Now(), last[..2][..1]) == Lanes([], [r], true, true);
    assert ActAll(c.Now(), last[..2]) == Lanes([], [r], true, false);
    assert ActAll(c.Now(), last) == Lanes([], [r], false, false);
    exit := c.Turn();
  }

  /** What goes out of a frame whose write fails: anything short of all of it. */
  function CutShort(response: Response, n: nat): (part: seq<byte>)
    ensures part < Framing.Frame(response)
  {
    Framing.Frame(response)[..Min(n, |Framing.Frame(response)| - 1)]
  }

  lemma FrameNotEmpty(body: seq<byte>)
    ensures |Framing.Frame(body)| > 0
  {
  }

  predicate Within(responses: seq<Response>, max: nat) {
    forall r :: r in responses ==> |r| <= max
  }

  lemma Queued(sent: seq<Response>, before: seq<Response>, queue: seq<Response>, max: nat)
    requires sent == before + queue && queue != []
    ensures Within(sent, max) ==> |queue[0]| <= max
  {
    assert sent[|before|] == queue[0];
  }
}
