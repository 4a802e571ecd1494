/** Length-prefixed framing: a four-byte big-endian length and that many bytes of a message. */
module Framing {
  import opened Bytes

  const PREFIX: nat := 4

  function BE(n: nat): (b: seq<byte>)
    ensures |b| == PREFIX
  {
    [n / 0x100_0000 % 256, n / 0x1_0000 % 256, n / 256 % 256, n % 256]
  }

  function FromBE(b: seq<byte>): (n: nat)
    requires |b| == PREFIX
    ensures n <= U32_MAX
  {
    (((b[0] as int) * 256 + b[1]) * 256 + b[2]) * 256 + b[3]
  }

  lemma BERoundTrip(n: nat)
    requires n <= U32_MAX
    ensures FromBE(BE(n)) == n
  {
    var q, r := n / 256, n % 256;
    var s := n / 0x1_0000;
    assert n == q * 256 + r;
    assert q / 256 == s && q == s * 256 + q % 256;
    assert s / 256 == n / 0x100_0000 && s == s / 256 * 256 + s % 256;
    assert s / 256 < 256;
  }

  /** One message on the wire. */
  function Frame(body: seq<byte>): (b: seq<byte>) {
    BE(|body|) + body
  }

  function Framed(bodies: seq<seq<byte>>): (parts: seq<seq<byte>>)
    ensures |parts| == |bodies| && forall i :: 0 <= i < |bodies| ==> parts[i] == Frame(bodies[i])
  {
    seq(|bodies|, i requires 0 <= i < |bodies| => Frame(bodies[i]))
  }

  /** `write_frame`: appends a frame to the output, or refuses a body past the limit and writes
      nothing. */
  method WriteFrame(out: seq<byte>, body: seq<byte>, max: nat) returns (ok: bool, written: seq<byte>)
    requires max <= U32_MAX
    ensures ok <==> |body| <= max
    ensures written == if ok then out + Frame(body) else out
  {
    if |body| > max {
      return false, out;
    }
    written := out + BE(|body|);
    written := written + body;
    return true, written;
  }

  // ------------------------------------------------------------------ what a byte stream says

  datatype End = Clean | Torn | Oversize(len: nat)

  datatype Unframed = Unframed(bodies: seq<seq<byte>>, end: End)

  /** The frames of a stream, and how it ends: between frames, inside one, or at a length past the
      limit. */
  function Unframe(stream: seq<byte>, max: nat): (u: Unframed) {
    if stream == [] then Unframed([], Clean)
    else if |stream| < PREFIX then Unframed([], Torn)
    else
      var len := FromBE(stream[..PREFIX]);
      if len > max then Unframed([], Oversize(len))
      else if |stream| - PREFIX < len then Unframed([], Torn)
      else
        var rest := Unframe(stream[PREFIX + len..], max);
        Unframed([stream[PREFIX..PREFIX + len]] + rest.bodies, rest.end)
  }

  lemma UnframeFrame(body: seq<byte>, rest: seq<byte>, max: nat)
    requires |body| <= max <= U32_MAX
    ensures var u := Unframe(rest, max);
            Unframe(Frame(body) + rest, max) == Unframed([body] + u.bodies, u.end)
  {
    hide BE, FromBE;
    var s := Frame(body) + rest;
    BERoundTrip(|body|);
    assert s[..PREFIX] == BE(|body|);
    assert s[PREFIX..PREFIX + |body|] == body && s[PREFIX + |body|..] == rest;
  }

  /** What a sender wrote within the limit, whole or cut short, reads as what it wrote. */
  lemma {:induction false} UnframeWritten(bodies: seq<seq<byte>>, rest: seq<byte>, max: nat)
    requires max <= U32_MAX && forall i :: 0 <= i < |bodies| ==> |bodies[i]| <= max
    ensures var u := Unframe(rest, max);
            Unframe(Flat(Framed(bodies)) + rest, max) == Unframed(bodies + u.bodies, u.end)
  {
    hide Unframe, Frame;
    if bodies == [] {
      assert Flat(Framed([])) + rest == rest;
      var u := Unframe(rest, max);
      assert bodies + u.bodies == u.bodies;
    } else {
      var n := |bodies| - 1;
      var init, last := bodies[..n], bodies[n];
      assert Framed(bodies)[..n] == Framed(init);
      UnframeFrame(last, rest, max);
      UnframeWritten(init, Frame(last) + rest, max);
      assert Flat(Framed(bodies)) + rest == Flat(Framed(init)) + (Frame(last) + rest);
      var u := Unframe(rest, max);
      assert init + ([last] + u.bodies) == bodies + u.bodies;
    }
  }

  lemma CutFrameIsTorn(body: seq<byte>, k: nat, max: nat)
    requires |body| <= max <= U32_MAX && 0 < k < |Frame(body)|
    ensures Unframe(Frame(body)[..k], max) == Unframed([], Torn)
  {
    hide BE, FromBE;
    BERoundTrip(|body|);
    if k >= PREFIX {
      assert Frame(body)[..k][..PREFIX] == BE(|body|);
    }
  }

  /** A stream of frames cut anywhere: all the whole frames come out, and the end is clean exactly
      when the cut falls between two frames. */
  lemma CutStream(bodies: seq<seq<byte>>, next: seq<byte>, k: nat, max: nat)
    requires max <= U32_MAX && |next| <= max && forall i :: 0 <= i < |bodies| ==> |bodies[i]| <= max
    requires k < |Frame(next)|
    ensures Unframe(Flat(Framed(bodies)) + Frame(next)[..k], max) == Unframed(bodies, if k == 0 then Clean else Torn)
  {
    hide Frame;
    UnframeWritten(bodies, Frame(next)[..k], max);
    if k > 0 { CutFrameIsTorn(next, k, max); }
    assert bodies + [] == bodies;
  }

  /** A frame past the limit stops the stream where it starts, at its length. */
  lemma OversizeStops(bodies: seq<seq<byte>>, next: seq<byte>, rest: seq<byte>, max: nat)
    requires max < |next| <= U32_MAX && forall i :: 0 <= i < |bodies| ==> |bodies[i]| <= max
    ensures Unframe(Flat(Framed(bodies)) + (Frame(next) + rest), max) == Unframed(bodies, Oversize(|next|))
  {
    hide BE, FromBE, Flat;
    UnframeWritten(bodies, Frame(next) + rest, max);
    BERoundTrip(|next|);
    assert (Frame(next) + rest)[..PREFIX] == BE(|next|);
    assert bodies + [] == bodies;
  }

  // ------------------------------------------------------------------ the transport

  /** What one read may do: give at most so many bytes, be interrupted, find nothing, or fail. */
  datatype Move = Deliver(n: nat) | Interrupt | Block | Fail

  /** What the transport does once it is not interrupted. */
  function NextMove(schedule: seq<Move>): (m: Option<Move>) {
    if schedule == [] then None else if schedule[0].Interrupt? then NextMove(schedule[1..]) else Some(schedule[0])
  }

  datatype ReadStep = Got(bytes: seq<byte>) | AtEof | Blocked | Broken

  /** A socket whose every read follows a schedule, and simply delivers once that has run out. */
  class Socket {
    const stream: seq<byte>
    var pos: nat
    var schedule: seq<Move>

    ghost predicate Valid()
      reads this
    {
      pos <= |stream|
    }

    ghost function Rest(): (b: seq<byte>)
      requires Valid()
      reads this
    {
      stream[pos..]
    }

    constructor (stream: seq<byte>, schedule: seq<Move>)
      ensures Valid() && pos == 0 && this.stream == stream && this.schedule == schedule
    {
      this.stream, pos, this.schedule := stream, 0, schedule;
    }

    /** `read_once`: one read, interruptions retried. What comes back is what the transport does next. */
    method ReadOnce(room: nat) returns (step: ReadStep)
      requires Valid()
      modifies this
      ensures Valid()
      ensures step.Got? ==> 0 < |step.bytes| <= room && old(Rest()) == step.bytes + Rest()
      ensures !step.Got? ==> pos == old(pos)
      ensures step.AtEof? <==> (room == 0 || old(pos) == |stream|) && !step.Blocked? && !step.Broken?
      ensures room == 0 ==> step.AtEof?
      ensures room > 0 ==> (step.Blocked? <==> NextMove(old(schedule)) == Some(Block))
      ensures room > 0 ==> (step.Broken? <==> NextMove(old(schedule)) == Some(Fail))
      ensures room > 0 && step.Got? ==>
                match NextMove(old(schedule))
                case Some(Deliver(n)) => |step.bytes| == Min(Min(Max(n, 1), room), |stream| - old(pos))
                case _ => |step.bytes| == Min(room, |stream| - old(pos))
      ensures (step.Broken? ==> Fail in old(schedule)) && (step.Blocked? ==> Block in old(schedule))
      ensures |schedule| + (|stream| - pos) <= old(|schedule| + (|stream| - pos))
      ensures step.Got? || step.Blocked? ==> |schedule| + (|stream| - pos) < old(|schedule| + (|stream| - pos))
      ensures forall m :: m in schedule ==> m in old(schedule)
    {
      while schedule != [] && schedule[0].Interrupt?
        invariant Valid() && pos == old(pos) && |schedule| <= old(|schedule|)
        invariant forall m :: m in schedule ==> m in old(schedule)
        invariant NextMove(schedule) == NextMove(old(schedule))
      {
        schedule := schedule[1..];
      }
      var move := Deliver(room);
      if room > 0 && schedule != [] {
        move := schedule[0];
        assert move in schedule;
        schedule := schedule[1..];
      }
      match move {
        case Block => step := Blocked;
        case Fail => step := Broken;
        case Deliver(n) =>
          if room == 0 || pos == |stream| {
            step := AtEof;
          } else {
            step := Take(Min(Min(Max(n, 1), room), |stream| - pos));
          }
      }
    }

    method Take(n: nat) returns (step: ReadStep)
      requires Valid() && 0 < n <= |stream| - pos
      modifies `pos
      ensures Valid() && step.Got? && |step.bytes| == n && pos == old(pos) + n
      ensures old(Rest()) == step.bytes + Rest()
    {
      step := Got(stream[pos..pos + n]);
      pos := pos + n;
    }
  }

  // ------------------------------------------------------------------ the resumable reader

  datatype FrameError = Io | TimedOut | TornPrefix | TornBody | Parse | TooLarge(len: nat, max: nat)

  datatype Poll<+M> = Message(message: M) | Eof | Progress | WouldBlock(inProgress: bool) | Error(error: FrameError)

  /** `m` is the message of the frame that was pending first. */
  ghost predicate Yields<M>(parse: seq<byte> -> Option<M>, m: M, max: nat, before: seq<byte>, after: seq<byte>) {
    && |before| >= PREFIX
    && var n := FromBE(before[..PREFIX]);
       && n <= max && |before| >= PREFIX + n
       && parse(before[PREFIX..PREFIX + n]) == Some(m) && after == before[PREFIX + n..]
  }

  /** An error means what it says about the bytes of the frame at hand and those still to come. */
  ghost predicate Refuses<M>(parse: seq<byte> -> Option<M>, e: FrameError, max: nat, partial: seq<byte>,
                             rest: seq<byte>)
  {
    match e
    case Io => true
    case TimedOut => false
    case TornPrefix => rest == [] && 0 < |partial| < PREFIX
    case TornBody => rest == [] && |partial| >= PREFIX && |partial| < PREFIX + FromBE(partial[..PREFIX]) <= PREFIX + max
    case TooLarge(len, limit) => limit == max < len && |partial| == PREFIX && FromBE(partial) == len
    case Parse =>
      |partial| >= PREFIX && FromBE(partial[..PREFIX]) == |partial| - PREFIX <= max && parse(partial[PREFIX..]).None?
  }

  class FrameReader<M> {
    const parse: seq<byte> -> Option<M>
    var lenBuf: seq<byte>
    var lenFilled: nat
    var body: seq<byte>
    var bodyFilled: nat
    /** A frame was refused: nothing more can be read from the stream. */
    ghost var refused: bool

    ghost predicate Valid()
      reads this
    {
      && |lenBuf| == PREFIX && lenFilled <= PREFIX && bodyFilled <= |body|
      && (lenFilled < PREFIX ==> body == [] && !refused)
      && (lenFilled == PREFIX ==>
            if refused then bodyFilled == |body|
            else bodyFilled < |body| == FromBE(lenBuf))
    }

    /** The bytes of the current frame read so far. */
    ghost function Partial(): (b: seq<byte>)
      requires Valid()
      reads this
    {
      lenBuf[..lenFilled] + body[..bodyFilled]
    }

    constructor (parse: seq<byte> -> Option<M>)
      ensures Valid() && Partial() == [] && !refused && this.parse == parse
    {
      this.parse := parse;
      lenBuf, lenFilled, body, bodyFilled, refused := [0, 0, 0, 0], 0, [], 0, false;
    }

    /** What is still to be understood: the partial frame and everything the socket has not given. */
    ghost function Pending(src: Socket): (b: seq<byte>)
      requires Valid() && src.Valid()
      reads this, src
    {
      Partial() + src.Rest()
    }

    /** Under way within the limit. */
    ghost predicate Ready(max: nat)
      reads this
    {
      Valid() && !refused && (lenFilled == PREFIX ==> |body| <= max)
    }

    /** Bounds how many more polls there can be. */
    ghost function Measure(src: Socket): (n: nat)
      requires src.Valid()
      reads src
    {
      |src.schedule| + (|src.stream| - src.pos)
    }

    /** What the outcome of a poll says about what was pending before and what is pending after. A
        message consumes exactly its frame; everything else leaves what is pending as it was. */
    ghost predicate Tells(p: Poll<M>, max: nat, before: seq<byte>, after: seq<byte>, had: seq<byte>, partial: seq<byte>,
                          rest: seq<byte>)
    {
      match p
      case Message(m) => partial == [] && Yields(parse, m, max, before, after)
      case Eof => before == [] && after == []
      case Progress => after == before && |partial| > |had|
      case WouldBlock(inProgress) => after == before && partial == had && (inProgress <==> partial != [])
      case Error(e) => after == before && Refuses(parse, e, max, partial, rest)
    }

    /** One read toward the next frame. Once a frame has been refused, the stream is torn for good. */
    method Poll(src: Socket, max: nat) returns (p: Poll<M>)
      requires Valid() && src.Valid() && max <= U32_MAX && (refused || Ready(max))
      modifies this, src
      ensures Valid() && src.Valid()
      ensures old(refused) ==> refused && p == Error(TornBody) && Pending(src) == old(Pending(src))
      ensures !old(refused) ==>
                && Tells(p, max, old(Pending(src)), Pending(src), old(Partial()), Partial(), src.Rest())
                && (refused <==> p.Error? && (p.error.Parse? || p.error.TooLarge?))
                && (!refused ==> Ready(max))
      ensures (p == Error(Io) ==> Fail in old(src.schedule)) && (p.WouldBlock? ==> Block in old(src.schedule))
      ensures Measure(src) <= old(Measure(src))
      ensures !p.Error? && !p.Eof? ==> Measure(src) < old(Measure(src))
      ensures forall m :: m in src.schedule ==> m in old(src.schedule)
    {
      var room := if lenFilled < PREFIX then PREFIX - lenFilled else |body| - bodyFilled;
      assert lenFilled == PREFIX ==> Partial()[..PREFIX] == lenBuf;
      var step := src.ReadOnce(room);
      match step {
        case AtEof =>
          return if lenFilled == PREFIX then Error(TornBody) else if lenFilled == 0 then Eof else Error(TornPrefix);
        case Broken =>
          return Error(Io);
        case Blocked =>
          return WouldBlock(lenFilled > 0);
        case Got(bytes) =>
          Joined(Partial(), bytes, src.Rest());
          if lenFilled < PREFIX {
            p := GotPrefix(bytes, src, max);
          } else {
            p := GotBody(bytes, src, max);
          }
      }
    }

    /** Bytes of the length prefix. */
    method GotPrefix(bytes: seq<byte>, src: Socket, max: nat) returns (p: Poll<M>)
      requires Ready(max) && src.Valid() && lenFilled < PREFIX && 0 < |bytes| <= PREFIX - lenFilled && max <= U32_MAX
      modifies this
      ensures Valid() && (refused <==> p.Error?) && (!refused ==> Ready(max))
      ensures p.Error? ==> p.error.Parse? || p.error.TooLarge?
      ensures !p.Eof? && !p.WouldBlock?
      ensures Tells(p, max, old(Partial()) + bytes + src.Rest(), Pending(src), old(Partial()), Partial(), src.Rest())
    {
      ghost var had := Partial();
      lenBuf := lenBuf[..lenFilled] + bytes + lenBuf[lenFilled + |bytes|..];
      lenFilled := lenFilled + |bytes|;
      assert lenBuf[..lenFilled] == had + bytes;
      if lenFilled < PREFIX {
        return Progress;
      }
      var len := FromBE(lenBuf);
      if len > max {
        refused := true;
        return Error(TooLarge(len, max));
      }
      body := seq(len, _ => 0);
      bodyFilled := 0;
      if len == 0 {
        p := Finish(src, max);
        return;
      }
      return Progress;
    }

    /** Bytes of the body. */
    method GotBody(bytes: seq<byte>, src: Socket, max: nat) returns (p: Poll<M>)
      requires Ready(max) && src.Valid() && lenFilled == PREFIX && 0 < |bytes| <= |body| - bodyFilled && max <= U32_MAX
      modifies this
      ensures Valid() && (refused <==> p.Error?) && (!refused ==> Ready(max))
      ensures p.Error? ==> p.error.Parse? || p.error.TooLarge?
      ensures !p.Eof? && !p.WouldBlock?
      ensures Tells(p, max, old(Partial()) + bytes + src.Rest(), Pending(src), old(Partial()), Partial(), src.Rest())
    {
      ghost var had, was := Partial(), body[..bodyFilled];
      body := body[..bodyFilled] + bytes + body[bodyFilled + |bytes|..];
      bodyFilled := bodyFilled + |bytes|;
      assert body[..bodyFilled] == was + bytes;
      assert lenBuf[..lenFilled] + (was + bytes) == had + bytes;
      if bodyFilled < |body| {
        return Progress;
      }
      p := Finish(src, max);
    }

    /** Parses a whole body and goes back to a frame boundary; a body that does not parse stays. */
    method Finish(src: Socket, max: nat) returns (p: Poll<M>)
      requires |lenBuf| == PREFIX == lenFilled && bodyFilled == |body| == FromBE(lenBuf) && !refused && src.Valid()
      requires |body| <= max <= U32_MAX
      modifies this
      ensures Valid() && (refused <==> p.Error?) && (!refused ==> Ready(max))
      ensures p.Error? ==> p.error.Parse? || p.error.TooLarge?
      ensures p.Message? || p.Error?
      ensures var before := old(lenBuf[..lenFilled] + body[..bodyFilled] + src.Rest());
              Tells(p, max, before, Pending(src), [], Partial(), src.Rest())
    {
      ghost var whole := lenBuf + body + src.Rest();
      assert lenBuf[..lenFilled] + body[..bodyFilled] + src.Rest() == whole;
      assert whole[..PREFIX] == lenBuf && whole[PREFIX..PREFIX + |body|] == body;
      assert whole[PREFIX + |body|..] == src.Rest();
      var m := parse(body);
      if m.None? {
        refused := true;
        assert Partial()[..PREFIX] == lenBuf && Partial()[PREFIX..] == body;
        return Error(Parse);
      }
      lenFilled := 0;
      body := [];
      bodyFilled := 0;
      assert Pending(src) == src.Rest();
      return Message(m.value);
    }
  }

  lemma Joined(a: seq<byte>, b: seq<byte>, c: seq<byte>)
    ensures a + (b + c) == a + b + c
  {
  }

  /** Polls until the stream ends, retrying as often as a read finds nothing. Whatever the schedule of
      read sizes, interruptions and would-blocks, the messages are exactly those of the frames in the
      stream, in order, and the end is clean exactly when the stream ends on a frame boundary. */
  method ReadAll<M>(src: Socket, reader: FrameReader<M>, max: nat) returns (messages: seq<M>, end: Poll<M>)
    requires src.Valid() && src.pos == 0 && reader.Ready(max) && reader.Partial() == [] && max <= U32_MAX
    requires src as object != reader && Fail !in src.schedule
    modifies src, reader
    ensures Ends(reader.parse, Unframe(src.stream, max), messages, end)
  {
    hide Unframe, Yields, Refuses, Parses, Ends;
    messages := [];
    ghost var u := Unframe(src.stream, max);
    ghost var done: seq<seq<byte>> := [];
    StartOf(reader.parse, u);
    assert reader.Pending(src) == src.stream;
    while true
      invariant src.Valid() && reader.Ready(max) && Fail !in src.schedule
      invariant Parses(reader.parse, done, messages)
      invariant u == Through(done, Unframe(reader.Pending(src), max))
      decreases reader.Measure(src)
    {
      ghost var before := reader.Pending(src);
      end := reader.Poll(src, max);
      if end.Eof? {
        EndOf(reader.parse, done, messages, max);
        return;
      } else if end.Error? {
        RefusedAt(reader.parse, end.error, done, messages, max, reader.Partial(), src.Rest());
        return;
      } else if end.Message? {
        done := MessageAt(reader.parse, end.message, done, messages, max, before, reader.Pending(src));
        messages := messages + [end.message];
      }
    }
  }

  /** What an error of `read_frame` says about the stream it read from, or about the transport. */
  ghost predicate Explains<M>(parse: seq<byte> -> Option<M>, e: FrameError, max: nat, stream: seq<byte>,
                              moves: seq<Move>)
  {
    var u := Unframe(stream, max);
    match e
    case Io => Fail in moves
    case TimedOut => Block in moves
    case TornPrefix => u == Unframed([], Torn)
    case TornBody => u == Unframed([], Torn)
    case TooLarge(len, limit) => limit == max && u == Unframed([], Oversize(len))
    case Parse => u.bodies != [] && parse(u.bodies[0]).None?
  }

  /** `read_frame`: one frame through a reader of its own. A message is that of the first frame, and
      nothing of the next is consumed; the end is clean only if nothing was left; a would-block is a
      failure here; every error means what it says. */
  method ReadFrame<M>(src: Socket, parse: seq<byte> -> Option<M>, max: nat) returns (p: Poll<M>)
    requires src.Valid() && max <= U32_MAX
    modifies src
    ensures src.Valid() && (p.Message? || p.Eof? || p.Error?)
    ensures p.Message? ==> Yields(parse, p.message, max, old(src.Rest()), src.Rest())
    ensures p.Eof? ==> old(src.Rest()) == []
    ensures p.Error? ==> Explains(parse, p.error, max, old(src.Rest()), old(src.schedule))
  {
    hide Yields, Refuses, Unframe;
    var frames := new FrameReader<M>(parse);
    ghost var stream, moves := src.Rest(), src.schedule;
    assert frames.Pending(src) == src.Rest();
    p := Progress;
    while p.Progress?
      invariant src.Valid() && frames.Valid() && fresh(frames) && frames.parse == parse
      invariant forall m :: m in src.schedule ==> m in moves
      invariant p.Progress? ==> frames.Ready(max) && frames.Pending(src) == stream
      invariant p.Message? ==> Yields(parse, p.message, max, stream, src.Rest())
      invariant p.Eof? ==> stream == []
      invariant p.Error? ==> Explains(parse, p.error, max, stream, moves)
      invariant p.WouldBlock? ==> Block in moves
      decreases frames.Measure(src), p.Progress?
    {
      p := frames.Poll(src, max);
      assert p.Message? ==> frames.Pending(src) == src.Rest();
      if p.Error? {
        StreamRefused(parse, p.error, max, frames.Partial(), src.Rest());
        LimitOf(parse, p.error, max, frames.Partial(), src.Rest());
      }
    }
    if p.WouldBlock? {
      return Error(TimedOut);
    }
  }

  lemma LimitOf<M>(parse: seq<byte> -> Option<M>, e: FrameError, max: nat, partial: seq<byte>, rest: seq<byte>)
    requires Refuses(parse, e, max, partial, rest)
    ensures !e.TimedOut? && (e.TooLarge? ==> e.max == max)
  {
  }

  /** How the messages and the last poll relate to the frames of the stream. */
  ghost predicate Ends<M>(parse: seq<byte> -> Option<M>, u: Unframed, messages: seq<M>, end: Poll<M>) {
    if end.Eof? then u.end == Clean && Parses(parse, u.bodies, messages)
    else
      && end.Error? && !end.error.Io?
      && (end.error.TornPrefix? || end.error.TornBody? ==> u.end == Torn && Parses(parse, u.bodies, messages))
      && (end.error.TooLarge? ==> u.end == Oversize(end.error.len) && Parses(parse, u.bodies, messages))
      && (end.error.Parse? ==>
            && |messages| < |u.bodies| && Parses(parse, u.bodies[..|messages|], messages)
            && parse(u.bodies[|messages|]).None?)
  }

  /** A stream read up to some point and what is left of it. */
  ghost function Through(done: seq<seq<byte>>, left: Unframed): (u: Unframed) {
    Unframed(done + left.bodies, left.end)
  }

  lemma StartOf<M>(parse: seq<byte> -> Option<M>, u: Unframed)
    ensures Parses(parse, [], []) && Through([], u) == u
  {
    assert [] + u.bodies == u.bodies;
  }

  lemma EndOf<M>(parse: seq<byte> -> Option<M>, done: seq<seq<byte>>, messages: seq<M>, max: nat)
    requires Parses(parse, done, messages)
    ensures Ends(parse, Through(done, Unframe([], max)), messages, Eof)
  {
    assert done + [] == done;
  }

  lemma RefusedAt<M>(parse: seq<byte> -> Option<M>, e: FrameError, done: seq<seq<byte>>, messages: seq<M>, max: nat,
                     partial: seq<byte>, rest: seq<byte>)
    requires Parses(parse, done, messages) && Refuses(parse, e, max, partial, rest) && !e.Io?
    ensures Ends(parse, Through(done, Unframe(partial + rest, max)), messages, Error(e))
  {
    hide Unframe, Refuses;
    StreamRefused(parse, e, max, partial, rest);
    LimitOf(parse, e, max, partial, rest);
    var u := Through(done, Unframe(partial + rest, max));
    assert u.bodies[..|messages|] == done;
    if !e.Parse? { assert u.bodies == done; }
  }

  lemma MessageAt<M>(parse: seq<byte> -> Option<M>, m: M, done: seq<seq<byte>>, messages: seq<M>, max: nat,
                     before: seq<byte>, after: seq<byte>) returns (more: seq<seq<byte>>)
    requires Parses(parse, done, messages) && Yields(parse, m, max, before, after)
    ensures Parses(parse, more, messages + [m])
    ensures Through(done, Unframe(before, max)) == Through(more, Unframe(after, max))
  {
    hide FromBE;
    var n := FromBE(before[..PREFIX]);
    var b := before[PREFIX..PREFIX + n];
    more := done + [b];
    var u := Unframe(after, max);
    assert Unframe(before, max) == Unframed([b] + u.bodies, u.end);
    assert done + ([b] + u.bodies) == more + u.bodies;
  }

  ghost predicate Parses<M>(parse: seq<byte> -> Option<M>, bodies: seq<seq<byte>>, messages: seq<M>) {
    |bodies| == |messages| && forall i :: 0 <= i < |bodies| ==> parse(bodies[i]) == Some(messages[i])
  }

  /** An error at a frame says how the rest of the stream reads. */
  lemma StreamRefused<M>(parse: seq<byte> -> Option<M>, e: FrameError, max: nat, partial: seq<byte>, rest: seq<byte>)
    requires Refuses(parse, e, max, partial, rest)
    ensures var u := Unframe(partial + rest, max);
            && (e.TornPrefix? || e.TornBody? ==> u == Unframed([], Torn))
            && (e.TooLarge? ==> u == Unframed([], Oversize(e.len)))
            && (e.Parse? ==> u.bodies != [] && parse(u.bodies[0]).None?)
  {
    hide FromBE;
    var s := partial + rest;
    if |partial| >= PREFIX {
      assert s[..PREFIX] == partial[..PREFIX];
      if e.Parse? {
        assert s[PREFIX..|partial|] == partial[PREFIX..];
      }
    }
  }
}
