/** The packed event codec: a length header, then type, sorted tags and payload with no slack. */
module EventCodec {
  import opened Bytes
  import opened Names
  import opened Events

  const FIXED_HEADER: nat := 4

  datatype EncodeError = TooManyTags(count: nat) | TooLarge(size: nat)

  datatype DecodeError = Truncated | Oversized | EmptyType | EmptyTag | InvalidUtf8 | TagsNotSorted

  function HeaderLen(tagCount: nat): (n: nat) { FIXED_HEADER + 2 * tagCount }

  function Lengths(tags: seq<Name>): (lens: seq<nat>)
    ensures |lens| == |tags| && forall i :: 0 <= i < |tags| ==> lens[i] == |tags[i]|
  {
    seq(|tags|, i requires 0 <= i < |tags| => |tags[i]|)
  }

  function Sum(lens: seq<nat>): (n: nat) {
    if lens == [] then 0 else Sum(lens[..|lens| - 1]) + lens[|lens| - 1]
  }

  /** Where the payload begins. */
  function DataStart(typeLen: nat, lens: seq<nat>): (n: nat) {
    HeaderLen(|lens|) + typeLen + Sum(lens)
  }

  // ------------------------------------------------------------------ encoding

  /** Names that passed construction: not empty, short enough, UTF-8. */
  predicate NameOk(name: Name, utf8: seq<byte> -> bool) {
    1 <= |name| <= MAX_NAME_LEN && utf8(name)
  }

  ghost predicate EventOk(e: Event, utf8: seq<byte> -> bool) {
    NameOk(e.ty, utf8) && Ascending(e.tags) && forall i :: 0 <= i < |e.tags| ==> NameOk(e.tags[i], utf8)
  }

  /** The encoded form of an event. */
  function Layout(e: Event): (b: seq<byte>) {
    LE(|e.ty|, 2) + LE(|e.tags|, 2) + Flat(Cells(Lengths(e.tags))) + e.ty + Flat(e.tags) + e.payload
  }

  function Encoded(e: Event): (r: Result<seq<byte>, EncodeError>) {
    var size := DataStart(|e.ty|, Lengths(e.tags));
    if |e.tags| > U16_MAX then Err(TooManyTags(|e.tags|))
    else if size > U32_MAX then Err(TooLarge(size))
    else Ok(Layout(e))
  }

  /** `Event::new`, as it fills its buffer. */
  method Encode(e: Event) returns (r: Result<seq<byte>, EncodeError>)
    ensures r == Encoded(e)
  {
    hide LE, Flat;
    var lens := Lengths(e.tags);
    if |e.tags| > U16_MAX {
      return Err(TooManyTags(|e.tags|));
    }
    var total := 0;
    for i := 0 to |lens|
      invariant total == Sum(lens[..i])
    {
      assert lens[..i + 1][..i] == lens[..i];
      total := total + lens[i];
    }
    assert lens[..|lens|] == lens;
    var size := HeaderLen(|e.tags|) + |e.ty| + total;
    if size > U32_MAX {
      return Err(TooLarge(size));
    }
    var buf := LE(|e.ty|, 2) + LE(|e.tags|, 2);
    buf := ExtendAll(buf, Cells(lens));
    buf := buf + e.ty;
    buf := ExtendAll(buf, e.tags);
    buf := buf + e.payload;
    return Ok(buf);
  }

  method ExtendAll(buf: seq<byte>, parts: seq<seq<byte>>) returns (out: seq<byte>)
    ensures out == buf + Flat(parts)
  {
    out := buf;
    for i := 0 to |parts|
      invariant out == buf + Flat(parts[..i])
    {
      FlatSnoc(parts[..i], parts[i]);
      assert parts[..i + 1] == parts[..i] + [parts[i]];
      out := out + parts[i];
    }
    assert parts[..|parts|] == parts;
  }

  // ------------------------------------------------------------------ decoding

  /** Cuts the front of `data` into pieces of the given lengths. */
  function Cut(data: seq<byte>, lens: seq<nat>): (pieces: seq<seq<byte>>)
    requires Sum(lens) <= |data|
    ensures |pieces| == |lens|
    decreases |lens|
  {
    if lens == [] then []
    else
      var n := |lens| - 1;
      var at := Sum(lens[..n]);
      Cut(data[..at], lens[..n]) + [data[at..at + lens[n]]]
  }

  /** The first thing wrong with the tags from `i` on. */
  function TagError(tags: seq<Name>, i: nat, utf8: seq<byte> -> bool): (error: Option<DecodeError>)
    requires i <= |tags|
    decreases |tags| - i
  {
    if i == |tags| then None
    else if !utf8(tags[i]) then Some(InvalidUtf8)
    else if i > 0 && !Less(tags[i - 1], tags[i]) then Some(TagsNotSorted)
    else TagError(tags, i + 1, utf8)
  }

  /** The lengths in the header of `buf`. */
  function HeaderLengths(buf: seq<byte>): (lens: seq<nat>)
    requires |buf| >= FIXED_HEADER && |buf| >= HeaderLen(FromLE(buf[2..4]))
    ensures |lens| == FromLE(buf[2..4])
  {
    Words(buf[FIXED_HEADER..HeaderLen(FromLE(buf[2..4]))])
  }

  /** The checks of `from_bytes`, in order, and what passes them. */
  function Decoded(buf: seq<byte>, utf8: seq<byte> -> bool): (r: Result<Event, DecodeError>) {
    if |buf| < FIXED_HEADER then Err(Truncated)
    else
      var typeLen, count := FromLE(buf[..2]), FromLE(buf[2..4]);
      var hlen := HeaderLen(count);
      if |buf| < hlen then Err(Truncated)
      else if typeLen == 0 then Err(EmptyType)
      else
        var lens := HeaderLengths(buf);
        if exists i :: 0 <= i < |lens| && lens[i] == 0 then Err(EmptyTag)
        else
          var start := DataStart(typeLen, lens);
          if |buf| < start then Err(Truncated)
          else if start > U32_MAX then Err(Oversized)
          else Contents(buf, hlen, typeLen, lens, utf8)
  }

  function Contents(buf: seq<byte>, hlen: nat, typeLen: nat, lens: seq<nat>, utf8: seq<byte> -> bool)
    : (r: Result<Event, DecodeError>)
    requires hlen + typeLen + Sum(lens) <= |buf|
  {
    var ty := buf[hlen..hlen + typeLen];
    var tags := Cut(buf[hlen + typeLen..], lens);
    if !utf8(ty) then Err(InvalidUtf8)
    else
      match TagError(tags, 0, utf8)
      case Some(error) => Err(error)
      case None => Ok(Event(ty, tags, buf[hlen + typeLen + Sum(lens)..]))
  }

  // ------------------------------------------------------------------ pieces

  lemma {:induction false} CutFlat(pieces: seq<seq<byte>>, after: seq<byte>)
    ensures Sum(Lengths(pieces)) == |Flat(pieces)|
    ensures Cut(Flat(pieces) + after, Lengths(pieces)) == pieces
  {
    if pieces != [] {
      var n := |pieces| - 1;
      CutFlat(pieces[..n], []);
      assert Lengths(pieces)[..n] == Lengths(pieces[..n]);
      var front := Flat(pieces[..n]);
      assert front + [] == front;
      var data := Flat(pieces) + after;
      assert data[..|front|] == front;
      assert data[|front|..|front| + |pieces[n]|] == pieces[n];
    }
  }

  lemma {:induction false} FlatCut(data: seq<byte>, lens: seq<nat>)
    requires Sum(lens) <= |data|
    ensures Flat(Cut(data, lens)) == data[..Sum(lens)]
    ensures Lengths(Cut(data, lens)) == lens
    decreases |lens|
  {
    hide Flat;
    assert Flat([]) == [] by { FlatNone(); }
    if lens != [] {
      var n := |lens| - 1;
      var at := Sum(lens[..n]);
      FlatCut(data[..at], lens[..n]);
      var init, last := Cut(data[..at], lens[..n]), data[at..at + lens[n]];
      FlatSnoc(init, last);
      assert Lengths(init + [last]) == Lengths(init) + [|last|];
      assert data[..at][..at] + last == data[..at + lens[n]];
    }
  }

  lemma {:induction false} TagErrorNone(tags: seq<Name>, i: nat, utf8: seq<byte> -> bool)
    requires i <= |tags|
    ensures TagError(tags, i, utf8).None? <==>
              && (forall j :: i <= j < |tags| ==> utf8(tags[j]))
              && (forall j :: i <= j < |tags| && j > 0 ==> Less(tags[j - 1], tags[j]))
    decreases |tags| - i
  {
    if i < |tags| { TagErrorNone(tags, i + 1, utf8); }
  }

  lemma TagsAccepted(tags: seq<Name>, utf8: seq<byte> -> bool)
    ensures TagError(tags, 0, utf8).None? <==> Ascending(tags) && forall j :: 0 <= j < |tags| ==> utf8(tags[j])
  {
    hide Less;
    TagErrorNone(tags, 0, utf8);
    if TagError(tags, 0, utf8).None? {
      AscendingFromNeighbours(tags);
    }
  }

  // ------------------------------------------------------------------ the bijection

  /** The parts of an encoded event sit where the decoder looks for them. */
  lemma LayoutParts(e: Event)
    requires |e.tags| <= U16_MAX
    ensures var b, h := Layout(e), HeaderLen(|e.tags|);
            && |b| == h + |e.ty| + |Flat(e.tags)| + |e.payload|
            && b[..2] == LE(|e.ty|, 2) && b[2..4] == LE(|e.tags|, 2)
            && b[FIXED_HEADER..h] == Flat(Cells(Lengths(e.tags)))
            && b[h..h + |e.ty|] == e.ty && b[h + |e.ty|..] == Flat(e.tags) + e.payload
            && b[h + |e.ty| + |Flat(e.tags)|..] == e.payload
  {
    hide LE, Flat, Cells;
    CellsLength(Lengths(e.tags));
  }

  /** Decoding an encoded event gives it back, whenever the encoder accepts it. */
  lemma DecodeEncoded(e: Event, utf8: seq<byte> -> bool)
    requires EventOk(e, utf8) && Encoded(e).Ok?
    ensures Decoded(Encoded(e).value, utf8) == Ok(e)
  {
    hide LE, FromLE, Flat, Cells, Less, Words, Layout, Contents;
    var b := Layout(e);
    var lens := Lengths(e.tags);
    LayoutParts(e);
    Capacities();
    LERoundTrip(|e.ty|, 2);
    LERoundTrip(|e.tags|, 2);
    WordsOfCells(lens);
    CutFlat(e.tags, e.payload);
    ContentsOf(e, b, utf8);
  }

  lemma ContentsOf(e: Event, b: seq<byte>, utf8: seq<byte> -> bool)
    requires EventOk(e, utf8) && |e.tags| <= U16_MAX && b == Layout(e)
    ensures var h, lens := HeaderLen(|e.tags|), Lengths(e.tags);
            && h + |e.ty| + Sum(lens) <= |b|
            && Contents(b, h, |e.ty|, lens, utf8) == Ok(e)
  {
    hide LE, FromLE, Flat, Cells, Less, Layout, Cut, TagError;
    LayoutParts(e);
    CutFlat(e.tags, e.payload);
    TagsAccepted(e.tags, utf8);
  }

  /** Whatever decodes is exactly the encoding of what it decodes to, and the encoder accepts that
      event: both sides draw the same line at 32 bits. */
  lemma EncodeDecoded(b: seq<byte>, utf8: seq<byte> -> bool)
    requires Decoded(b, utf8).Ok?
    ensures EventOk(Decoded(b, utf8).value, utf8)
    ensures Encoded(Decoded(b, utf8).value) == Ok(b)
  {
    hide LE, FromLE, Flat, Cells, Less, Words, Cut, TagError;
    var e := Decoded(b, utf8).value;
    var typeLen, count := FromLE(b[..2]), FromLE(b[2..4]);
    var h := HeaderLen(count);
    var lens := HeaderLengths(b);
    var rest := b[h + typeLen..];
    FromLERoundTrip(b[..2]);
    FromLERoundTrip(b[2..4]);
    Capacities();
    CellsOfWords(b[FIXED_HEADER..h]);
    FlatCut(rest, lens);
    TagsAccepted(e.tags, utf8);
    Reassembled(b, h, typeLen, Sum(lens));
    forall i | 0 <= i < |e.tags| ensures NameOk(e.tags[i], utf8) {
      assert lens[i] == |e.tags[i]|;
    }
  }

  lemma Reassembled(b: seq<byte>, h: nat, typeLen: nat, tagsLen: nat)
    requires FIXED_HEADER <= h && h + typeLen + tagsLen <= |b|
    ensures var ty, rest := b[h..h + typeLen], b[h + typeLen..];
            b == b[..2] + b[2..4] + b[FIXED_HEADER..h] + ty + rest[..tagsLen] + b[h + typeLen + tagsLen..]
  {
  }

  // ------------------------------------------------------------------ what each error means

  /** Lengths the header can hold. */
  ghost predicate Layable(e: Event) {
    |e.ty| <= U16_MAX && |e.tags| <= U16_MAX && forall i :: 0 <= i < |e.tags| ==> |e.tags[i]| <= U16_MAX
  }

  /** The bytes before the payload. */
  function Front(e: Event): (n: nat) { |Layout(e.(payload := []))| }

  lemma FrontLength(e: Event)
    requires |e.tags| <= U16_MAX
    ensures Front(e) == DataStart(|e.ty|, Lengths(e.tags)) == |Layout(e)| - |e.payload|
  {
    hide LE, Flat, Cells, Layout;
    LayoutParts(e);
    LayoutParts(e.(payload := []));
    CutFlat(e.tags, []);
  }

  /** An event is refused for its tags' number, or else for the length of what precedes its payload. */
  lemma EncodeSays(e: Event)
    ensures Encoded(e) == if |e.tags| > U16_MAX then Err(TooManyTags(|e.tags|))
                          else if Front(e) > U32_MAX then Err(TooLarge(Front(e)))
                          else Ok(Layout(e))
  {
    hide LE, Flat, Cells, Layout;
    if |e.tags| <= U16_MAX {
      FrontLength(e);
    }
  }

  /** Tag `i` is the first that is not UTF-8, or not past the one before it. */
  ghost predicate FirstBad(tags: seq<Name>, i: nat, utf8: seq<byte> -> bool) {
    && i < |tags| && !TagFits(tags, i, utf8) && forall j :: 0 <= j < i ==> TagFits(tags, j, utf8)
  }

  ghost predicate TagFits(tags: seq<Name>, i: nat, utf8: seq<byte> -> bool)
    requires i < |tags|
  {
    utf8(tags[i]) && (i > 0 ==> Less(tags[i - 1], tags[i]))
  }

  lemma {:induction false} TagErrorSays(tags: seq<Name>, i: nat, utf8: seq<byte> -> bool)
    requires i <= |tags| && forall j :: 0 <= j < i ==> TagFits(tags, j, utf8)
    ensures match TagError(tags, i, utf8)
            case None => forall j :: 0 <= j < |tags| ==> TagFits(tags, j, utf8)
            case Some(error) => exists k: nat :: FirstBad(tags, k, utf8)
                                         && error == if utf8(tags[k]) then TagsNotSorted else InvalidUtf8
    decreases |tags| - i
  {
    hide Less;
    if i < |tags| {
      if TagFits(tags, i, utf8) {
        TagErrorSays(tags, i + 1, utf8);
      } else {
        assert FirstBad(tags, i, utf8);
      }
    }
  }

  /** What the layout of every event decodes to: the event, or the first thing that is wrong with it. */
  lemma LayoutSays(e: Event, utf8: seq<byte> -> bool)
    requires Layable(e)
    ensures var r := Decoded(Layout(e), utf8);
            if e.ty == [] then r == Err(EmptyType)
            else if [] in e.tags then r == Err(EmptyTag)
            else if Front(e) > U32_MAX then r == Err(Oversized)
            else if !utf8(e.ty) then r == Err(InvalidUtf8)
            else if forall j :: 0 <= j < |e.tags| ==> TagFits(e.tags, j, utf8) then r == Ok(e)
            else exists k: nat :: FirstBad(e.tags, k, utf8)
                          && r == Err(if utf8(e.tags[k]) then TagsNotSorted else InvalidUtf8)
  {
    hide LE, FromLE, Flat, Cells, Less, Words, Layout, Contents, TagFits;
    var b, lens := Layout(e), Lengths(e.tags);
    LayoutParts(e);
    Capacities();
    LERoundTrip(|e.ty|, 2);
    LERoundTrip(|e.tags|, 2);
    WordsOfCells(lens);
    CutFlat(e.tags, e.payload);
    EmptyLength(e.tags);
    FrontLength(e);
    ContentsSay(e, utf8);
    TagErrorSays(e.tags, 0, utf8);
  }

  lemma EmptyLength(tags: seq<Name>)
    ensures [] in tags <==> exists i :: 0 <= i < |Lengths(tags)| && Lengths(tags)[i] == 0
  {
    if i :| 0 <= i < |Lengths(tags)| && Lengths(tags)[i] == 0 {
      assert tags[i] == [];
    }
    if [] in tags {
      var i :| 0 <= i < |tags| && tags[i] == [];
      assert Lengths(tags)[i] == 0;
    }
  }

  lemma ContentsSay(e: Event, utf8: seq<byte> -> bool)
    requires |e.tags| <= U16_MAX
    ensures var h, lens := HeaderLen(|e.tags|), Lengths(e.tags);
            && h + |e.ty| + Sum(lens) <= |Layout(e)|
            && Contents(Layout(e), h, |e.ty|, lens, utf8)
            == if !utf8(e.ty) then Err(InvalidUtf8)
               else
                 match TagError(e.tags, 0, utf8)
                 case Some(error) => Err(error)
                 case None => Ok(e)
  {
    hide LE, FromLE, Flat, Cells, Less, Layout, Cut, TagError;
    LayoutParts(e);
    CutFlat(e.tags, e.payload);
  }

  /** A layout without empty names, cut anywhere before its payload, is truncated. */
  lemma CutLayoutTruncated(e: Event, n: nat, utf8: seq<byte> -> bool)
    requires Layable(e) && e.ty != [] && [] !in e.tags && n < Front(e)
    ensures n < |Layout(e)| && Decoded(Layout(e)[..n], utf8) == Err(Truncated)
  {
    hide LE, FromLE, Flat, Cells, Less, Words, Layout, Contents;
    FrontLength(e);
    var b, h, lens := Layout(e), HeaderLen(|e.tags|), Lengths(e.tags);
    var cut := b[..n];
    LayoutParts(e);
    Capacities();
    LERoundTrip(|e.ty|, 2);
    LERoundTrip(|e.tags|, 2);
    WordsOfCells(lens);
    CutFlat(e.tags, e.payload);
    EmptyLength(e.tags);
    assert n >= FIXED_HEADER ==> cut[..2] == b[..2] && cut[2..4] == b[2..4];
    assert n >= h ==> cut[FIXED_HEADER..h] == b[FIXED_HEADER..h];
  }

  // ------------------------------------------------------------------ the loops

  /** `from_bytes`, as it runs. */
  method FromBytes(buf: seq<byte>, utf8: seq<byte> -> bool) returns (r: Result<Event, DecodeError>)
    ensures r == Decoded(buf, utf8)
  {
    hide FromLE, Words, Cut, TagError, Sum;
    if |buf| < FIXED_HEADER { return Err(Truncated); }
    var typeLen, count := FromLE(buf[..2]), FromLE(buf[2..4]);
    var hlen := HeaderLen(count);
    if |buf| < hlen { return Err(Truncated); }
    if typeLen == 0 { return Err(EmptyType); }
    ghost var lens := HeaderLengths(buf);
    var total := SumLengths(buf, hlen, lens);
    if total.None? { return Err(EmptyTag); }
    var start := hlen + typeLen + total.value;
    if |buf| < start { return Err(Truncated); }
    if start > U32_MAX { return Err(Oversized); }
    if !utf8(buf[hlen..hlen + typeLen]) { return Err(InvalidUtf8); }
    var tags := ReadTags(buf, hlen, typeLen, lens, utf8);
    if tags.Err? { return Err(tags.error); }
    return Ok(Event(buf[hlen..hlen + typeLen], tags.value, buf[start..]));
  }

  function ReadU16(buf: seq<byte>, at: nat): (n: nat)
    requires at + 2 <= |buf|
  {
    FromLE(buf[at..at + 2])
  }

  lemma HeaderCell(buf: seq<byte>, hlen: nat, i: nat)
    requires FIXED_HEADER + 2 * i + 2 <= hlen <= |buf|
    ensures Words(buf[FIXED_HEADER..hlen])[i] == ReadU16(buf, FIXED_HEADER + 2 * i)
  {
    SliceOfSlice(buf, FIXED_HEADER, hlen - FIXED_HEADER, 2 * i, 2 * i + 2);
  }

  /** The sum of the tag lengths; none as soon as one is zero. */
  method SumLengths(buf: seq<byte>, hlen: nat, ghost lens: seq<nat>) returns (total: Option<nat>)
    requires FIXED_HEADER <= hlen <= |buf| && hlen % 2 == 0 && lens == Words(buf[FIXED_HEADER..hlen])
    ensures total == if exists i :: 0 <= i < |lens| && lens[i] == 0 then None else Some(Sum(lens))
  {
    hide Words;
    var count := (hlen - FIXED_HEADER) / 2;
    var sum := 0;
    for i := 0 to count
      invariant sum == Sum(lens[..i])
      invariant forall j :: 0 <= j < i ==> lens[j] != 0
    {
      HeaderCell(buf, hlen, i);
      var len := ReadU16(buf, FIXED_HEADER + 2 * i);
      if len == 0 {
        assert lens[i] == 0;
        return None;
      }
      assert lens[..i + 1][..i] == lens[..i];
      sum := sum + len;
    }
    assert lens[..count] == lens;
    return Some(sum);
  }

  /** The tags, checked one against the one before. */
  method ReadTags(buf: seq<byte>, hlen: nat, typeLen: nat, ghost lens: seq<nat>, utf8: seq<byte> -> bool)
    returns (r: Result<seq<Name>, DecodeError>)
    requires FIXED_HEADER <= hlen && hlen % 2 == 0 && hlen + typeLen + Sum(lens) <= |buf|
    requires lens == Words(buf[FIXED_HEADER..hlen])
    ensures var tags := Cut(buf[hlen + typeLen..], lens);
            r == match TagError(tags, 0, utf8) case Some(error) => Err(error) case None => Ok(tags)
  {
    hide Words, Less, Cut, TagError, Sum;
    SumNone();
    ghost var all := Cut(buf[hlen + typeLen..], lens);
    var count := (hlen - FIXED_HEADER) / 2;
    var pos, tags: seq<Name> := hlen + typeLen, [];
    for i := 0 to count
      invariant tags == all[..i] && pos == hlen + typeLen + Sum(lens[..i])
      invariant TagError(all, 0, utf8) == TagError(all, i, utf8)
    {
      HeaderCell(buf, hlen, i);
      var len := ReadU16(buf, FIXED_HEADER + 2 * i);
      CutAt(buf[hlen + typeLen..], lens, i);
      SliceOfSlice(buf, hlen + typeLen, |buf| - hlen - typeLen, pos - hlen - typeLen, pos - hlen - typeLen + len);
      var tag := buf[pos..pos + len];
      assert tag == all[i];
      TagErrorStep(all, i, utf8);
      if !utf8(tag) { return Err(InvalidUtf8); }
      if i > 0 && !Less(tags[i - 1], tag) { return Err(TagsNotSorted); }
      tags := tags + [tag];
      pos := pos + len;
    }
    TagErrorEnd(all, utf8);
    assert all[..count] == all;
    return Ok(tags);
  }

  lemma TagErrorStep(tags: seq<Name>, i: nat, utf8: seq<byte> -> bool)
    requires i < |tags|
    ensures TagError(tags, i, utf8)
         == if !utf8(tags[i]) then Some(InvalidUtf8)
            else if i > 0 && !Less(tags[i - 1], tags[i]) then Some(TagsNotSorted)
            else TagError(tags, i + 1, utf8)
  {
  }

  lemma TagErrorEnd(tags: seq<Name>, utf8: seq<byte> -> bool)
    ensures TagError(tags, |tags|, utf8) == None
  {
  }

  /** Piece `i` of a cut. */
  lemma {:induction false} CutAt(data: seq<byte>, lens: seq<nat>, i: nat)
    requires Sum(lens) <= |data| && i < |lens|
    ensures Sum(lens[..i + 1]) == Sum(lens[..i]) + lens[i] <= Sum(lens)
    ensures Cut(data, lens)[i] == data[Sum(lens[..i])..Sum(lens[..i]) + lens[i]]
    decreases |lens|
  {
    var n := |lens| - 1;
    assert lens[..i + 1][..i] == lens[..i];
    if i < n {
      var at := Sum(lens[..n]);
      CutAt(data[..at], lens[..n], i);
      assert lens[..n][..i] == lens[..i] && lens[..n][..i + 1] == lens[..i + 1];
      var from := Sum(lens[..i]);
      SliceOfSlice(data, 0, at, from, from + lens[i]);
      assert data[0..at] == data[..at];
      assert Cut(data, lens)[i] == Cut(data[..at], lens[..n])[i];
    } else {
      assert lens[..n + 1] == lens;
    }
  }

  // ------------------------------------------------------------------ the borrowed tag iterator

  lemma {:induction false} SumCons(x: nat, rest: seq<nat>)
    ensures Sum([x] + rest) == x + Sum(rest)
  {
    if rest == [] {
      assert [x] + rest == [x] && [x][..0] == [];
      assert Sum([x]) == Sum([x][..0]) + x;
    } else {
      var n := |rest| - 1;
      SumCons(x, rest[..n]);
      assert ([x] + rest)[..n + 1] == [x] + rest[..n];
    }
  }

  /** Cutting off the first piece and cutting up what is left. */
  lemma {:induction false} CutCons(data: seq<byte>, x: nat, rest: seq<nat>)
    requires x + Sum(rest) <= |data|
    ensures Sum([x] + rest) == x + Sum(rest)
    ensures Cut(data, [x] + rest) == [data[..x]] + Cut(data[x..], rest)
  {
    hide Cut, Sum;
    SumCons(x, rest);
    var lens := [x] + rest;
    var whole, parts := Cut(data, lens), [data[..x]] + Cut(data[x..], rest);
    forall i | 0 <= i < |lens| ensures whole[i] == parts[i] {
      CutAt(data, lens, i);
      if i > 0 {
        CutAt(data[x..], rest, i - 1);
        SumCons(x, rest[..i - 1]);
        assert lens[..i] == [x] + rest[..i - 1];
        var at := Sum(rest[..i - 1]);
        SliceOfSlice(data, x, |data| - x, at, at + rest[i - 1]);
      } else {
        SumNone();
        assert lens[..0] == [];
      }
    }
  }

  lemma SumNone()
    ensures Sum([]) == 0
  {
  }

  class TagsRef {
    var data: seq<byte>
    const lens: seq<byte>
    var idx: nat
    /** The tags not yielded yet. */
    ghost var left: seq<Name>

    ghost predicate Valid()
      reads this
    {
      && |lens| % 2 == 0 && idx <= |lens| / 2
      && Sum(Words(lens)[idx..]) <= |data| && left == Cut(data, Words(lens)[idx..])
    }

    /** Over the tags of a buffer that decodes. */
    constructor (buf: seq<byte>, ghost utf8: seq<byte> -> bool)
      requires Decoded(buf, utf8).Ok?
      ensures Valid() && left == Decoded(buf, utf8).value.tags
    {
      hide Words, Cut, FromLE, TagError;
      var typeLen, count := FromLE(buf[..2]), FromLE(buf[2..4]);
      data := buf[HeaderLen(count) + typeLen..];
      lens := buf[FIXED_HEADER..HeaderLen(count)];
      idx := 0;
      left := Decoded(buf, utf8).value.tags;
    }

    /** The next tag, in order. */
    method Next() returns (tag: Option<Name>)
      requires Valid()
      modifies this
      ensures Valid()
      ensures if old(left) == [] then tag == None && left == [] else tag == Some(old(left)[0]) && left == old(left)[1..]
    {
      hide Cut, Sum, FromLE, Words;
      if 2 * idx + 2 > |lens| {
        return None;
      }
      var len := FromLE(lens[2 * idx..2 * idx + 2]);
      ghost var all := Words(lens);
      SumFront(all[idx..]);
      assert all[idx..] == [len] + all[idx + 1..];
      CutCons(data, len, all[idx + 1..]);
      idx := idx + 1;
      tag := Some(data[..len]);
      data := data[len..];
      left := left[1..];
    }
  }

  lemma SumFront(lens: seq<nat>)
    requires lens != []
    ensures Sum(lens) == lens[0] + Sum(lens[1..])
  {
    SumCons(lens[0], lens[1..]);
    assert lens == [lens[0]] + lens[1..];
  }
}
