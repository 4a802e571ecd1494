/** The on-disk index segment: one immutable file per sealed log segment, holding the index a tail
    holds in memory in a form that is queried in place. Header, type column, type dictionary,
    postings region and term dictionary follow one another in the file. */
module Segment {
  import opened Bytes
  import opened Names
  import opened Events
  import opened Search
  import opened Tail
  import opened ActiveTail
  import Header
  import Postings

  // ------------------------------------------------------------------ foreign libraries

  /** What the source takes from libraries: the checksum, UTF-8 validity, and the FST map, which is
      built from ascending keys and opened from its bytes. */
  datatype Library = Library(
    crc: Checksum,
    utf8: seq<byte> -> bool,
    fstBuild: (seq<Name>, seq<nat>) -> seq<byte>,
    fstOpen: seq<byte> -> Option<map<Name, nat>>)

  ghost predicate DictionaryOf(m: map<Name, nat>, keys: seq<Name>, values: seq<nat>)
    requires |keys| == |values|
  {
    && (forall a :: a in m <==> a in keys)
    && (forall k :: 0 <= k < |keys| ==> keys[k] in m && m[keys[k]] == values[k])
  }

  ghost predicate FstHolds(lib: Library, keys: seq<Name>, values: seq<nat>)
    requires |keys| == |values|
  {
    match lib.fstOpen(lib.fstBuild(keys, values))
    case None => false
    case Some(m) => DictionaryOf(m, keys, values)
  }

  /** The contract of the FST library: ascending keys with `u64` values come back as that map. */
  ghost predicate FstExact(lib: Library) {
    forall keys, values ::
      |keys| == |values| && Ascending(keys) && (forall k :: 0 <= k < |values| ==> values[k] <= U64_MAX) ==>
        FstHolds(lib, keys, values)
  }

  // ------------------------------------------------------------------ the frozen inputs

  /** What the sealer reads off a tail that has stopped being fed: the type column, the type names in
      id order, and the tags in ascending order, each with its postings. */
  datatype Frozen = Frozen(base: nat, column: seq<nat>, names: seq<Name>, tags: seq<Name>, lists: seq<seq<nat>>)

  ghost predicate NamesInOrder(names: seq<Name>, types: map<Name, nat>) {
    |names| == |types| && forall a :: a in types ==> types[a] < |names| && names[types[a]] == a
  }

  function SlotPostings(t: Tail, tag: Name): (list: seq<nat>) {
    match FullPostings(t, tag)
    case None => []
    case Some(list) => list
  }

  ghost predicate FrozenFrom(f: Frozen, t: Tail) {
    && f.base == t.base && f.column == t.column
    && NamesInOrder(f.names, t.types)
    && Ascending(f.tags) && (forall a :: a in f.tags <==> a in t.tags)
    && |f.lists| == |f.tags| && forall k :: 0 <= k < |f.tags| ==> f.lists[k] == SlotPostings(t, f.tags[k])
  }

  /** `type_names`: the map's entries, met in any order, each put at its id. */
  method TypeNames(types: map<Name, nat>) returns (names: seq<Name>)
    requires TypesOk(types)
    ensures NamesInOrder(names, types)
  {
    names := seq(|types|, _ => []);
    var rest := types.Keys;
    while rest != {}
      invariant rest <= types.Keys && |names| == |types|
      invariant forall a :: a in types && a !in rest ==> names[types[a]] == a
    {
      var a :| a in rest;
      forall b | b in types && b !in rest ensures types[b] != types[a] {
        assert Distinct(types, a, b);
      }
      names := names[types[a] := a];
      rest := rest - {a};
    }
  }

  /** `terms_sorted_with_postings`: the tags, met in any order, with their postings, sorted by tag. */
  method TermsSorted(t: Tail) returns (tags: seq<Name>, lists: seq<seq<nat>>)
    ensures Ascending(tags) && forall a :: a in tags <==> a in t.tags
    ensures |lists| == |tags| && forall k :: 0 <= k < |tags| ==> lists[k] == SlotPostings(t, tags[k])
  {
    tags, lists := [], [];
    var rest := t.tags.Keys;
    while rest != {}
      invariant rest <= t.tags.Keys
      invariant Ascending(tags) && forall a :: a in tags <==> a in t.tags && a !in rest
      invariant |lists| == |tags| && forall k :: 0 <= k < |tags| ==> lists[k] == SlotPostings(t, tags[k])
    {
      hide Less, SlotPostings;
      var a :| a in rest;
      var at := InsertionPoint(tags, a);
      Inserted(tags, at, a);
      tags := tags[..at] + [a] + tags[at..];
      lists := lists[..at] + [SlotPostings(t, a)] + lists[at..];
      rest := rest - {a};
    }
  }

  lemma Inserted(tags: seq<Name>, at: nat, a: Name)
    requires Ascending(tags) && at <= |tags|
    requires forall i :: 0 <= i < at ==> Less(tags[i], a)
    requires forall i :: at <= i < |tags| ==> Less(a, tags[i])
    ensures Ascending(tags[..at] + [a] + tags[at..])
    ensures forall b :: b in tags[..at] + [a] + tags[at..] <==> b in tags || b == a
  {
    hide Less;
    assert tags == tags[..at] + tags[at..];
  }

  method InsertionPoint(tags: seq<Name>, a: Name) returns (at: nat)
    requires Ascending(tags) && a !in tags
    ensures at <= |tags|
    ensures forall i :: 0 <= i < at ==> Less(tags[i], a)
    ensures forall i :: at <= i < |tags| ==> Less(a, tags[i])
  {
    at := 0;
    while at < |tags| && Less(tags[at], a)
      invariant at <= |tags|
      invariant forall i :: 0 <= i < at ==> Less(tags[i], a)
    {
      at := at + 1;
    }
    forall i | at <= i < |tags| ensures Less(a, tags[i]) {
      LessTotal(tags[at], a);
      if at < i { LessTransitive(a, tags[at], tags[i]); }
    }
  }

  method Freeze(t: Tail) returns (f: Frozen)
    requires TypesOk(t.types)
    ensures FrozenFrom(f, t)
  {
    var names := TypeNames(t.types);
    var tags, lists := TermsSorted(t);
    f := Frozen(t.base, t.column, names, tags, lists);
  }

  // ------------------------------------------------------------------ the file

  function Entry(name: Name): (b: seq<byte>) {
    LE(|name|, 2) + name
  }

  function Entries(names: seq<Name>): (parts: seq<seq<byte>>)
    ensures |parts| == |names| && forall i :: 0 <= i < |names| ==> parts[i] == Entry(names[i])
  {
    seq(|names|, i requires 0 <= i < |names| => Entry(names[i]))
  }

  function Values(lists: seq<seq<nat>>): (values: seq<nat>)
    ensures |values| == |lists| && forall k :: 0 <= k < |lists| ==> values[k] == Postings.SeriesValue(lists, k)
  {
    seq(|lists|, k requires 0 <= k < |lists| => Postings.SeriesValue(lists, k))
  }

  /** The four sections of the body. */
  datatype Sections = Sections(column: seq<byte>, typedict: seq<byte>, postings: seq<byte>, fst: seq<byte>)

  function SectionsOf(f: Frozen, lib: Library): (s: Sections) {
    Sections(Flat(Cells(f.column)), Flat(Entries(f.names)), Flat(Postings.Blocks(f.lists)),
             lib.fstBuild(f.tags, Values(f.lists)))
  }

  function Body(s: Sections): (b: seq<byte>) {
    s.column + s.typedict + s.postings + s.fst
  }

  function HeaderOf(base: nat, count: nat, s: Sections, created: nat, crc: Checksum): (h: Header.Header) {
    var typedict := Header.HEADER_SIZE + |s.column|;
    Header.Header(
      Header.VERSION, created, base, count,
      typedict, typedict + |s.typedict|, typedict + |s.typedict| + |s.postings|, |s.fst|, crc(Body(s)))
  }

  function Image(f: Frozen, created: nat, lib: Library): (data: seq<byte>) {
    var s := SectionsOf(f, lib);
    Header.ToBytes(HeaderOf(f.base, |f.column|, s, created, lib.crc), lib.crc) + Body(s)
  }

  /** No conversion of a length or an offset overflows. */
  predicate Encodes(f: Frozen, lib: Library) {
    var s := SectionsOf(f, lib);
    && (forall i :: 0 <= i < |f.names| ==> |f.names[i]| <= U16_MAX)
    && Header.HEADER_SIZE + |s.column| + |s.typedict| + |s.postings| <= U32_MAX
    && |s.fst| <= U32_MAX
  }

  /** `encode_at`; no image when a length or offset does not fit its field, where the source panics. */
  method EncodeAt(f: Frozen, created: nat, lib: Library) returns (data: Option<seq<byte>>)
    requires |f.lists| == |f.tags| && Ascending(f.tags)
    requires forall k :: 0 <= k < |f.lists| ==> f.lists[k] != [] && Rising(f.lists[k])
    ensures data == if Encodes(f, lib) then Some(Image(f, created, lib)) else None
  {
    var column := EncodeColumn(f.column);
    var typedict := EncodeTypeDict(f.names);
    if typedict.None? { return None; }
    var values, region := EncodeTerms(f.lists);
    var fst := lib.fstBuild(f.tags, values);
    var s := Sections(column, typedict.value, region, fst);
    assert values == Values(f.lists);
    assert s == SectionsOf(f, lib);
    if Header.HEADER_SIZE + |column| + |typedict.value| + |region| > U32_MAX || |fst| > U32_MAX {
      return None;
    }
    var h := HeaderOf(f.base, |f.column|, s, created, lib.crc);
    data := Some(Header.ToBytes(h, lib.crc) + Body(s));
  }

  method EncodeColumn(column: seq<nat>) returns (out: seq<byte>)
    ensures out == Flat(Cells(column))
  {
    hide Flat, Cells, LE;
    FlatNone();
    out := [];
    for i := 0 to |column|
      invariant out == Flat(Cells(column)[..i])
    {
      out := out + LE(column[i], 2);
      FlatSnoc(Cells(column)[..i], LE(column[i], 2));
      assert Cells(column)[..i + 1] == Cells(column)[..i] + [LE(column[i], 2)];
    }
    assert Cells(column)[..|column|] == Cells(column);
  }

  method EncodeTypeDict(names: seq<Name>) returns (out: Option<seq<byte>>)
    ensures out == if forall i :: 0 <= i < |names| ==> |names[i]| <= U16_MAX then Some(Flat(Entries(names))) else None
  {
    hide Entry, Entries, Flat;
    FlatNone();
    var dict := [];
    for i := 0 to |names|
      invariant dict == Flat(Entries(names)[..i])
      invariant forall j :: 0 <= j < i ==> |names[j]| <= U16_MAX
    {
      if |names[i]| > U16_MAX { return None; }
      dict := dict + Entry(names[i]);
      FlatSnoc(Entries(names)[..i], Entry(names[i]));
      assert Entries(names)[..i + 1] == Entries(names)[..i] + [Entry(names[i])];
    }
    assert Entries(names)[..|names|] == Entries(names);
    return Some(dict);
  }

  /** Lays the posting blocks down one after another, keeping each term's value. */
  method EncodeTerms(lists: seq<seq<nat>>) returns (values: seq<nat>, region: seq<byte>)
    requires forall k :: 0 <= k < |lists| ==> lists[k] != [] && Rising(lists[k])
    ensures values == Values(lists)
    ensures region == Flat(Postings.Blocks(lists))
  {
    hide Flat, Values, Postings.Blocks, Postings.RegionBytes, Postings.TermValue;
    FlatNone();
    values, region := [], [];
    ghost var blocks := Postings.Blocks(lists);
    for k := 0 to |lists|
      invariant values == Values(lists)[..k]
      invariant region == Flat(blocks[..k])
    {
      var value;
      value, region := Postings.EncodePostings(lists[k], region);
      values := values + [value];
      FlatSnoc(blocks[..k], blocks[k]);
      assert blocks[..k + 1] == blocks[..k] + [blocks[k]];
    }
    assert blocks[..|lists|] == blocks;
  }

  // ------------------------------------------------------------------ opening a file

  datatype DictError = LengthTruncated | NameTruncated | NotUtf8

  datatype Error =
    | TooShort(len: nat)
    | BadHeader(cause: Header.HeaderError)
    | LengthMismatch(header: nat, actual: nat)
    | BodyChecksumMismatch(expected: nat, computed: nat)
    | MalformedTypeDict(detail: DictError)
    | Fst

  datatype IndexSegment = IndexSegment(header: Header.Header, data: seq<byte>, terms: map<Name, nat>, names: seq<Name>)
  {
    function Region(): (b: seq<byte>) {
      if header.postings <= header.fst <= |data| then data[header.postings..header.fst] else []
    }
  }

  /** The names of a type dictionary, ids by position, until the region is exhausted. */
  function TypeDict(buf: seq<byte>, utf8: seq<byte> -> bool): (r: Result<seq<Name>, Error>) {
    if buf == [] then Ok([])
    else if |buf| < 2 then Err(MalformedTypeDict(LengthTruncated))
    else
      var len := FromLE(buf[..2]);
      if |buf| - 2 < len then Err(MalformedTypeDict(NameTruncated))
      else if !utf8(buf[2..2 + len]) then Err(MalformedTypeDict(NotUtf8))
      else
        var rest :- TypeDict(buf[2 + len..], utf8);
        Ok([buf[2..2 + len]] + rest)
  }

  /** What is left to parse, after the names parsed so far. */
  function Onto(names: seq<Name>, rest: Result<seq<Name>, Error>): (r: Result<seq<Name>, Error>) {
    if rest.Ok? then Ok(names + rest.value) else rest
  }

  lemma TypeDictUnfolds(buf: seq<byte>, utf8: seq<byte> -> bool)
    ensures TypeDict(buf, utf8)
         == if buf == [] then Ok([])
            else if |buf| < 2 then Err(MalformedTypeDict(LengthTruncated))
            else
              var len := FromLE(buf[..2]);
              if |buf| - 2 < len then Err(MalformedTypeDict(NameTruncated))
              else if !utf8(buf[2..2 + len]) then Err(MalformedTypeDict(NotUtf8))
              else Onto([buf[2..2 + len]], TypeDict(buf[2 + len..], utf8))
  {
    hide FromLE;
  }

  /** `parse_type_dict`, as the loop it is. */
  method ParseTypeDict(region: seq<byte>, utf8: seq<byte> -> bool) returns (r: Result<seq<Name>, Error>)
    ensures r == TypeDict(region, utf8)
  {
    hide TypeDict, FromLE;
    var buf, names: seq<Name> := region, [];
    ghost var all := TypeDict(region, utf8);
    assert all.Ok? ==> [] + all.value == all.value;
    while buf != []
      invariant all == Onto(names, TypeDict(buf, utf8))
      decreases |buf|
    {
      TypeDictUnfolds(buf, utf8);
      if |buf| < 2 { return Err(MalformedTypeDict(LengthTruncated)); }
      var len := FromLE(buf[..2]);
      if |buf| - 2 < len { return Err(MalformedTypeDict(NameTruncated)); }
      var name := buf[2..2 + len];
      if !utf8(name) { return Err(MalformedTypeDict(NotUtf8)); }
      ghost var rest := TypeDict(buf[2 + len..], utf8);
      assert rest.Ok? ==> names + ([name] + rest.value) == (names + [name]) + rest.value;
      names := names + [name];
      buf := buf[2 + len..];
    }
    TypeDictUnfolds(buf, utf8);
    assert names + [] == names;
    return Ok(names);
  }

  /** The checks on a segment file, in order, and what it opens to. */
  function Opened(data: seq<byte>, lib: Library): (r: Result<IndexSegment, Error>) {
    if |data| < Header.HEADER_SIZE then Err(TooShort(|data|))
    else
      match Header.FromBytes(data[..Header.HEADER_SIZE], lib.crc)
      case Err(cause) => Err(BadHeader(cause))
      case Ok(h) =>
        var crc := lib.crc(data[Header.HEADER_SIZE..]);
        if h.SegmentLen() != |data| then Err(LengthMismatch(h.SegmentLen(), |data|))
        else if crc != h.bodyCrc then Err(BodyChecksumMismatch(h.bodyCrc, crc))
        else
          var names :- TypeDict(data[h.typedict..h.postings], lib.utf8);
          match lib.fstOpen(data[h.fst..])
          case None => Err(Fst)
          case Some(terms) => Ok(IndexSegment(h, data, terms, names))
  }

  method FromBytes(data: seq<byte>, lib: Library) returns (r: Result<IndexSegment, Error>)
    ensures r == Opened(data, lib)
  {
    if |data| < Header.HEADER_SIZE { return Err(TooShort(|data|)); }
    var decoded := Header.FromBytes(data[..Header.HEADER_SIZE], lib.crc);
    if decoded.Err? { return Err(BadHeader(decoded.error)); }
    var h := decoded.value;
    if h.SegmentLen() != |data| { return Err(LengthMismatch(h.SegmentLen(), |data|)); }
    var crc := lib.crc(data[Header.HEADER_SIZE..]);
    if crc != h.bodyCrc { return Err(BodyChecksumMismatch(h.bodyCrc, crc)); }
    var names := ParseTypeDict(data[h.typedict..h.postings], lib.utf8);
    if names.Err? { return Err(names.error); }
    var terms := lib.fstOpen(data[h.fst..]);
    if terms.None? { return Err(Fst); }
    return Ok(IndexSegment(h, data, terms.value, names.value));
  }

  // ------------------------------------------------------------------ probing a segment

  /** The first position of `name`. */
  function IndexOf(names: seq<Name>, name: Name, i: nat): (at: Option<nat>)
    requires i <= |names|
    decreases |names| - i
  {
    if i == |names| then None else if names[i] == name then Some(i) else IndexOf(names, name, i + 1)
  }

  /** A term's postings. A value that does not decode is an integrity panic in the source. */
  function SegPostings(seg: IndexSegment, tag: Name): (list: Option<seq<nat>>) {
    if tag !in seg.terms then None
    else
      match Postings.DecodePostings(seg.terms[tag], seg.Region())
      case Ok(list) => Some(list)
      case Err(_) => None
  }

  function SegTermLen(seg: IndexSegment, tag: Name): (n: Option<nat>) {
    if tag !in seg.terms then None
    else
      match Postings.PostingLen(seg.terms[tag], seg.Region())
      case Ok(n) => Some(n)
      case Err(_) => None
  }

  function SegTypeId(seg: IndexSegment, name: Name): (id: Option<nat>) {
    match IndexOf(seg.names, name, 0)
    case None => None
    case Some(i) => Some(i % (U16_MAX + 1))
  }

  function SegTypeAt(seg: IndexSegment, local: nat): (id: nat) {
    var start := Header.HEADER_SIZE + 2 * local;
    if start + 2 <= |seg.data| then FromLE(seg.data[start..start + 2]) else 0
  }

  function SegmentView(seg: IndexSegment): (ix: SegmentIndex) {
    SegmentIndex(
      seg.header.base, seg.header.count % (U32_MAX + 1),
      (_, tag) => SegPostings(seg, tag),
      (_, tag) => SegTermLen(seg, tag),
      (_, name) => SegTypeId(seg, name),
      (_, local) => SegTypeAt(seg, local))
  }

  /** No probe of the segment can hit an integrity panic. */
  ghost predicate Sound(seg: IndexSegment) {
    && forall tag :: tag in seg.terms ==>
         && Postings.DecodePostings(seg.terms[tag], seg.Region()).Ok?
         && Postings.PostingLen(seg.terms[tag], seg.Region()).Ok?
  }

  // ------------------------------------------------------------------ the sections come back

  /** Names an event type can have. */
  ghost predicate Nameable(names: seq<Name>, utf8: seq<byte> -> bool) {
    forall i :: 0 <= i < |names| ==> |names[i]| <= U16_MAX && utf8(names[i])
  }

  lemma TypeDictStep(name: Name, rest: seq<byte>, utf8: seq<byte> -> bool)
    requires |name| <= U16_MAX && utf8(name)
    ensures TypeDict(Entry(name) + rest, utf8)
         == match TypeDict(rest, utf8)
            case Ok(names) => Ok([name] + names)
            case Err(e) => Err(e)
  {
    hide LE, FromLE;
    var buf := Entry(name) + rest;
    Capacities();
    LERoundTrip(|name|, 2);
    assert buf[..2] == LE(|name|, 2);
    assert buf[2..2 + |name|] == name;
    assert buf[2 + |name|..] == rest;
  }

  /** The dictionary gives every name back at its id, without a stored count. */
  lemma {:induction false} TypeDictRoundTrip(names: seq<Name>, utf8: seq<byte> -> bool)
    requires Nameable(names, utf8)
    ensures TypeDict(Flat(Entries(names)), utf8) == Ok(names)
  {
    if names != [] {
      TypeDictRoundTrip(names[1..], utf8);
      TypeDictStep(names[0], Flat(Entries(names[1..])), utf8);
      EntriesCons(names[0], names[1..]);
      assert [names[0]] + names[1..] == names;
    }
  }

  lemma EntriesCons(name: Name, rest: seq<Name>)
    ensures Flat(Entries([name] + rest)) == Entry(name) + Flat(Entries(rest))
  {
    hide Entry, Flat;
    assert Entries([name] + rest) == [Entry(name)] + Entries(rest);
    FlatOne(Entry(name));
    FlatConcat([Entry(name)], Entries(rest));
  }

  lemma FlatOne(part: seq<byte>)
    ensures Flat([part]) == part
  {
    FlatSnoc([], part);
  }

  lemma EntryAt(buf: seq<byte>, len: nat)
    requires |buf| >= 2 + len && LE(len, 2) == buf[..2] && len < Capacity(2)
    ensures buf == Entry(buf[2..2 + len]) + buf[2 + len..] && len <= U16_MAX
  {
    hide LE;
    Capacities();
  }

  /** What parses as a dictionary is the encoding of the names it parses to. */
  lemma {:induction false} TypeDictCanonical(buf: seq<byte>, utf8: seq<byte> -> bool)
    requires TypeDict(buf, utf8).Ok?
    ensures Flat(Entries(TypeDict(buf, utf8).value)) == buf
    ensures Nameable(TypeDict(buf, utf8).value, utf8)
  {
    hide Entry, Flat, FromLE;
    if buf == [] {
      FlatNone();
      assert Entries([]) == [];
    } else {
      var len := FromLE(buf[..2]);
      var name, rest := buf[2..2 + len], buf[2 + len..];
      FromLERoundTrip(buf[..2]);
      EntryAt(buf, len);
      TypeDictCanonical(rest, utf8);
      var names := TypeDict(rest, utf8).value;
      EntriesCons(name, names);
      assert TypeDict(buf, utf8) == Ok([name] + names);
    }
  }

  /** The header's offsets cut the file into exactly the sections that went into it. */
  lemma SectionsSit(head: seq<byte>, s: Sections)
    requires |head| == Header.HEADER_SIZE
    ensures var data, typedict := head + Body(s), Header.HEADER_SIZE + |s.column|;
            var postings := typedict + |s.typedict|;
            var fst := postings + |s.postings|;
            && data[..Header.HEADER_SIZE] == head && data[Header.HEADER_SIZE..] == Body(s)
            && data[Header.HEADER_SIZE..typedict] == s.column
            && data[typedict..postings] == s.typedict
            && data[postings..fst] == s.postings
            && data[fst..] == s.fst && |data| == fst + |s.fst|
  {
  }

  // ------------------------------------------------------------------ sealing preserves meaning

  /** A frozen tail of real events: ids fit the column, names are event types, and every list is a
      non-empty ascending list of local positions. */
  ghost predicate Sealable(f: Frozen, lib: Library) {
    && |f.column| <= U32_MAX && f.base <= U64_MAX
    && Nameable(f.names, lib.utf8)
    && |f.lists| == |f.tags| && Ascending(f.tags)
    && forall k :: 0 <= k < |f.lists| ==> Postings.Encodable(f.lists[k]) && |f.lists[k]| <= U32_MAX
  }

  lemma ValuesFit(lists: seq<seq<nat>>, k: nat)
    requires k < |lists| && Postings.Encodable(lists[k]) && |Flat(Postings.Blocks(lists))| <= U32_MAX
    ensures |Flat(Postings.Blocks(lists)[..k])| <= U32_MAX && Postings.SeriesValue(lists, k) <= U64_MAX
  {
    FlatAt(Postings.Blocks(lists), k);
  }

  lemma TermsOpen(f: Frozen, lib: Library)
    requires FstExact(lib) && Sealable(f, lib) && |Flat(Postings.Blocks(f.lists))| <= U32_MAX
    ensures FstHolds(lib, f.tags, Values(f.lists))
  {
    forall k | 0 <= k < |f.lists| ensures Values(f.lists)[k] <= U64_MAX {
      ValuesFit(f.lists, k);
    }
  }

  /** A just-encoded segment opens exactly when the whole file is addressable by a `u32`, and then
      its dictionary is the frozen one. */
  lemma ImageOpens(f: Frozen, created: nat, lib: Library)
    requires FstExact(lib) && Sealable(f, lib) && Encodes(f, lib) && created <= U64_MAX
    ensures var r := Opened(Image(f, created, lib), lib);
            && (r.Ok? <==> |Image(f, created, lib)| <= U32_MAX)
            && (r.Ok? ==>
                  && r.value.names == f.names && r.value.data == Image(f, created, lib)
                  && r.value.header == HeaderOf(f.base, |f.column|, SectionsOf(f, lib), created, lib.crc)
                  && DictionaryOf(r.value.terms, f.tags, Values(f.lists)))
  {
    hide Opened, Header.FromBytes, Header.ToBytes, TypeDict;
    var s := SectionsOf(f, lib);
    var h := HeaderOf(f.base, |f.column|, s, created, lib.crc);
    CellsLength(f.column);
    Header.RoundTrip(h, lib.crc);
    HeaderOrRejected(h, lib.crc);
    TypeDictRoundTrip(f.names, lib.utf8);
    TermsOpen(f, lib);
    OpensAs(Header.ToBytes(h, lib.crc), h, s, f.names, lib);
  }

  /** Opening a file, given what its header and its sections read as on their own. */
  lemma OpensAs(head: seq<byte>, h: Header.Header, s: Sections, names: seq<Name>, lib: Library)
    requires |head| == Header.HEADER_SIZE && h == HeaderOf(h.base, h.count, s, h.created, lib.crc)
    requires Header.FromBytes(head, lib.crc).Ok? ==> Header.FromBytes(head, lib.crc).value == h
    requires TypeDict(s.typedict, lib.utf8) == Ok(names) && lib.fstOpen(s.fst).Some?
    ensures Opened(head + Body(s), lib)
         == match Header.FromBytes(head, lib.crc)
            case Err(cause) => Err(BadHeader(cause))
            case Ok(_) => Ok(IndexSegment(h, head + Body(s), lib.fstOpen(s.fst).value, names))
  {
    hide Header.FromBytes, TypeDict, Body;
    SectionsSit(head, s);
  }

  /** A header that does not come back as itself does not come back at all. */
  lemma HeaderOrRejected(h: Header.Header, crc: Checksum)
    requires Header.Fits(h)
    ensures var r := Header.FromBytes(Header.ToBytes(h, crc), crc); r.Ok? ==> r.value == h
  {
    hide Header.Front, Header.Fields, Header.AllZero, Header.LaidOut, LE, FromLE;
    Header.FieldsRoundTrip(h, LE(crc(Header.Front(h)), 4));
  }

  /** An image cut short anywhere, as a failing write leaves it, does not open: the header is cut, or gives a
      length that the file does not have. */
  lemma CutImageRejected(f: Frozen, created: nat, lib: Library, n: nat)
    requires Encodes(f, lib) && f.base <= U64_MAX && created <= U64_MAX && n < |Image(f, created, lib)|
    ensures Opened(Image(f, created, lib)[..n], lib)
         == if n < Header.HEADER_SIZE then Err(TooShort(n))
            else if |Image(f, created, lib)| > U32_MAX then Err(BadHeader(Header.SectionsOverflow))
            else Err(LengthMismatch(|Image(f, created, lib)|, n))
  {
    hide Header.FromBytes, Header.ToBytes, TypeDict, SectionsOf;
    var s := SectionsOf(f, lib);
    var h := HeaderOf(f.base, |f.column|, s, created, lib.crc);
    var head := Header.ToBytes(h, lib.crc);
    assert |s.column| == 2 * |f.column| by { ColumnSection(f, lib); }
    Header.EncodedSays(h, lib.crc);
    SectionsSit(head, s);
    var cut := (head + Body(s))[..n];
    assert n >= Header.HEADER_SIZE ==> cut[..Header.HEADER_SIZE] == head;
  }

  lemma ColumnSection(f: Frozen, lib: Library)
    ensures |SectionsOf(f, lib).column| == 2 * |f.column|
  {
    CellsLength(f.column);
  }

  /** A dictionary cut short inside an entry: in its length, or in its name. */
  lemma CutDictRejected(names: seq<Name>, next: Name, n: nat, utf8: seq<byte> -> bool)
    requires Nameable(names, utf8) && |next| <= U16_MAX && 0 < n < |Entry(next)|
    ensures TypeDict(Flat(Entries(names)) + Entry(next)[..n], utf8)
         == Err(MalformedTypeDict(if n == 1 then LengthTruncated else NameTruncated))
  {
    hide LE, FromLE;
    var cut := Entry(next)[..n];
    Capacities();
    LERoundTrip(|next|, 2);
    assert n >= 2 ==> cut[..2] == LE(|next|, 2);
    DictStopsAt(names, cut, utf8);
  }

  /** A name that is not UTF-8 is refused as such. */
  lemma ForeignNameRejected(names: seq<Name>, next: Name, rest: seq<byte>, utf8: seq<byte> -> bool)
    requires Nameable(names, utf8) && |next| <= U16_MAX && !utf8(next)
    ensures TypeDict(Flat(Entries(names)) + (Entry(next) + rest), utf8) == Err(MalformedTypeDict(NotUtf8))
  {
    hide LE, FromLE;
    var buf := Entry(next) + rest;
    Capacities();
    LERoundTrip(|next|, 2);
    assert buf[..2] == LE(|next|, 2) && buf[2..2 + |next|] == next;
    DictStopsAt(names, buf, utf8);
  }

  lemma {:induction false} DictStopsAt(names: seq<Name>, rest: seq<byte>, utf8: seq<byte> -> bool)
    requires Nameable(names, utf8) && TypeDict(rest, utf8).Err?
    ensures TypeDict(Flat(Entries(names)) + rest, utf8) == TypeDict(rest, utf8)
  {
    hide TypeDict, Entry, Flat;
    if names == [] {
      FlatNone();
      assert Entries([]) == [] && [] + rest == rest;
    } else {
      DictStopsAt(names[1..], rest, utf8);
      TypeDictStep(names[0], Flat(Entries(names[1..])) + rest, utf8);
      EntriesCons(names[0], names[1..]);
      assert [names[0]] + names[1..] == names;
      assert (Entry(names[0]) + Flat(Entries(names[1..]))) + rest
          == Entry(names[0]) + (Flat(Entries(names[1..])) + rest);
    }
  }

  // ------------------------------------------------------------------ which files open

  /** `data` is, byte for byte, a header and the sections it describes, the checksum over them included. */
  ghost predicate Spells(data: seq<byte>, h: Header.Header, s: Sections, names: seq<Name>, lib: Library) {
    && data == Header.ToBytes(h, lib.crc) + Body(s)
    && h == HeaderOf(h.base, h.count, s, h.created, lib.crc) && Header.Fits(h) && Header.LaidOut(h)
    && s.typedict == Flat(Entries(names)) && Nameable(names, lib.utf8)
  }

  /** Such a file opens to just that, unless its term dictionary does not open. */
  lemma SpelledOpens(data: seq<byte>, h: Header.Header, s: Sections, names: seq<Name>, lib: Library)
    requires Spells(data, h, s, names, lib)
    ensures Opened(data, lib)
         == match lib.fstOpen(s.fst)
            case None => Err(Fst)
            case Some(terms) => Ok(IndexSegment(h, data, terms, names))
  {
    hide Header.FromBytes, Header.ToBytes, TypeDict, Header.Fits, Flat, Body, Entries;
    Header.RoundTrip(h, lib.crc);
    TypeDictRoundTrip(names, lib.utf8);
    SectionsSit(Header.ToBytes(h, lib.crc), s);
  }

  /** The sections an opened file's header cuts it into. */
  function SectionsIn(seg: IndexSegment): (s: Sections)
    requires Header.LaidOut(seg.header) && seg.header.SegmentLen() == |seg.data|
  {
    var h, d := seg.header, seg.data;
    Sections(d[Header.HEADER_SIZE..h.typedict], d[h.typedict..h.postings], d[h.postings..h.fst], d[h.fst..])
  }

  lemma OpenedSpells(data: seq<byte>, lib: Library)
    requires Opened(data, lib).Ok?
    ensures var seg := Opened(data, lib).value;
            && seg.data == data && Header.LaidOut(seg.header) && seg.header.SegmentLen() == |data|
            && Spells(data, seg.header, SectionsIn(seg), seg.names, lib)
            && lib.fstOpen(SectionsIn(seg).fst) == Some(seg.terms)
  {
    hide TypeDict, Header.FromBytes, Header.ToBytes, Flat, Header.Fits, Entries, Nameable;
    var seg := Opened(data, lib).value;
    var h := seg.header;
    Header.Canonical(data[..Header.HEADER_SIZE], lib.crc);
    TypeDictCanonical(data[h.typedict..h.postings], lib.utf8);
    var s := SectionsIn(seg);
    assert Body(s) == data[Header.HEADER_SIZE..];
    assert data == data[..Header.HEADER_SIZE] + data[Header.HEADER_SIZE..];
    HeaderOfVersion(data[..Header.HEADER_SIZE], lib.crc);
  }

  lemma HeaderOfVersion(head: seq<byte>, crc: Checksum)
    requires |head| == Header.HEADER_SIZE && Header.FromBytes(head, crc).Ok?
    ensures Header.FromBytes(head, crc).value.version == Header.VERSION
  {
    hide Header.FromBytes, Header.ToBytes, Header.Fits, Header.LaidOut;
    Header.Canonical(head, crc);
    Header.RoundTrip(Header.FromBytes(head, crc).value, crc);
  }

  /** A file opens exactly when it is the spelling of some header, sections and names, and its term dictionary
      opens. */
  lemma OpensIff(data: seq<byte>, lib: Library)
    ensures Opened(data, lib).Ok? <==>
              exists h, s, names :: Spells(data, h, s, names, lib) && lib.fstOpen(s.fst).Some?
  {
    hide Opened, Spells;
    if Opened(data, lib).Ok? {
      OpenedSpells(data, lib);
    }
    if h, s, names :| Spells(data, h, s, names, lib) && lib.fstOpen(s.fst).Some? {
      SpelledOpens(data, h, s, names, lib);
    }
  }

  /** A body that was changed, in any bytes and any number of them, is rejected for its length, or for its
      checksum unless that is the checksum of the body that was there. */
  lemma DamagedBodyRejected(data: seq<byte>, body: seq<byte>, lib: Library)
    requires Opened(data, lib).Ok? && lib.crc(body) != lib.crc(data[Header.HEADER_SIZE..])
    ensures Opened(data[..Header.HEADER_SIZE] + body, lib)
         == if Header.HEADER_SIZE + |body| != |data| then Err(LengthMismatch(|data|, Header.HEADER_SIZE + |body|))
            else Err(BodyChecksumMismatch(lib.crc(data[Header.HEADER_SIZE..]), lib.crc(body)))
  {
    hide Header.FromBytes, Header.ToBytes, TypeDict, Spells, SectionsIn;
    OpenedSpells(data, lib);
    var other := data[..Header.HEADER_SIZE] + body;
    assert other[..Header.HEADER_SIZE] == data[..Header.HEADER_SIZE] && other[Header.HEADER_SIZE..] == body;
  }

  /** Event types that passed validation: short enough, and UTF-8. */
  ghost predicate WellNamed(log: seq<Event>, utf8: seq<byte> -> bool) {
    forall i :: 0 <= i < |log| ==> |log[i].ty| <= U16_MAX && utf8(log[i].ty)
  }

  /** The id behind dictionary position `i`. */
  lemma NameAt(s: Writer, names: seq<Name>, i: nat)
    requires Interned(s) && NamesInOrder(names, s.tail.types) && i < |names|
    ensures names[i] in s.tail.types && s.tail.types[names[i]] == i
    ensures exists j :: 0 <= j < |s.log| && s.log[j].ty == names[i]
  {
    assert IdTaken(s.tail.types, i);
    var a :| a in s.tail.types && s.tail.types[a] == i;
    assert a in TypeSet(s.log);
  }

  lemma ListsSealable(s: Writer, f: Frozen, k: nat)
    requires Quiet(s) && FrozenFrom(f, s.tail) && k < |f.lists| && |s.log| <= U32_MAX
    ensures f.lists[k] == PostingsOf(s.log, f.tags[k])
    ensures Postings.Encodable(f.lists[k]) && |f.lists[k]| <= U32_MAX
  {
    var tag := f.tags[k];
    assert tag in f.tags;
    FullPostingsExact(s, tag);
    PostingsOfSpec(s.log, tag);
    var list := f.lists[k];
    forall i | 0 <= i < |list| ensures list[i] <= U32_MAX {
      assert list[i] in list;
    }
  }

  lemma FrozenSealable(s: Writer, f: Frozen, lib: Library)
    requires Quiet(s) && FrozenFrom(f, s.tail) && WellNamed(s.log, lib.utf8) && s.tail.base <= U64_MAX
    ensures Sealable(f, lib)
  {
    forall i | 0 <= i < |f.names| ensures |f.names[i]| <= U16_MAX && lib.utf8(f.names[i]) {
      NameAt(s, f.names, i);
    }
    forall k | 0 <= k < |f.lists| ensures Postings.Encodable(f.lists[k]) && |f.lists[k]| <= U32_MAX {
      ListsSealable(s, f, k);
    }
  }

  /** Two indexes no query can tell apart. */
  ghost predicate SameProbes(a: SegmentIndex, b: SegmentIndex) {
    && a.base == b.base && a.len == b.len
    && (forall k, tag :: a.termPostings(k, tag) == b.termPostings(k, tag))
    && (forall k, tag :: a.termLen(k, tag) == b.termLen(k, tag))
    && (forall k, name :: a.typeId(k, name) == b.typeId(k, name))
    && (forall k, local: nat :: local < a.len ==> a.typeAt(k, local) == b.typeAt(k, local))
  }

  lemma SameProbesAnswer(a: SegmentIndex, b: SegmentIndex, events: seq<Event>)
    requires SameProbes(a, b) && Answers(a, events)
    ensures Answers(b, events)
  {
    forall k, tag
      ensures match b.termPostings(k, tag)
              case None => PostingsOf(events, tag) == []
              case Some(list) => list == PostingsOf(events, tag)
      ensures match b.termLen(k, tag)
              case None => PostingsOf(events, tag) == []
              case Some(n) => n >= |PostingsOf(events, tag)|
    {
      assert a.termPostings(k, tag) == b.termPostings(k, tag) && a.termLen(k, tag) == b.termLen(k, tag);
    }
    forall k, name
      ensures match b.typeId(k, name)
              case None => forall i :: 0 <= i < |events| ==> events[i].ty != name
              case Some(id) => IdStandsFor(b, events, id, name)
    {
      assert a.typeId(k, name) == b.typeId(k, name);
      if b.typeId(k, name).Some? {
        assert IdStandsFor(a, events, b.typeId(k, name).value, name);
      }
    }
  }

  /** `seg` is what sealing the quiet tail of `s` produced. */
  ghost predicate Seals(seg: IndexSegment, s: Writer, f: Frozen, created: nat, lib: Library) {
    && Quiet(s) && FrozenFrom(f, s.tail) && Sealable(f, lib) && Encodes(f, lib) && FstExact(lib) && created <= U64_MAX
    && Opened(Image(f, created, lib), lib) == Ok(seg)
  }

  ghost predicate SameTerm(seg: IndexSegment, t: Tail, tag: Name) {
    && SegPostings(seg, tag) == FullPostings(t, tag)
    && SegTermLen(seg, tag) == FullTermLen(t, tag)
    && (tag in seg.terms ==>
          && Postings.DecodePostings(seg.terms[tag], seg.Region()).Ok?
          && Postings.PostingLen(seg.terms[tag], seg.Region()).Ok?)
  }

  ghost predicate SameTerms(seg: IndexSegment, t: Tail) {
    forall tag :: SameTerm(seg, t, tag)
  }

  lemma SealedTerm(seg: IndexSegment, s: Writer, f: Frozen, created: nat, lib: Library, tag: Name)
    requires Seals(seg, s, f, created, lib)
    ensures SameTerm(seg, s.tail, tag)
  {
    hide Postings.DecodePostings, Postings.PostingLen, Postings.SeriesValue, Opened, Quiet, Body, Sealable;
    hide FullPostings, FullTermLen, Ascending, NamesInOrder, Image, SectionsOf, HeaderOf;
    ImageOpens(f, created, lib);
    FullPostingsExact(s, tag);
    if tag in f.tags {
      var k :| 0 <= k < |f.tags| && f.tags[k] == tag;
      SealedRegion(seg, f, created, lib);
      RegionOf(f, lib);
      TermFound(seg, s, f, k);
    } else {
      assert tag !in seg.terms && tag !in s.tail.tags;
      UnmappedProbes(s.tail, tag);
    }
  }

  lemma UnmappedProbes(t: Tail, tag: Name)
    requires tag !in t.tags
    ensures FullPostings(t, tag) == None && FullTermLen(t, tag) == None
  {
  }

  lemma SealedRegion(seg: IndexSegment, f: Frozen, created: nat, lib: Library)
    requires seg.data == Image(f, created, lib)
    requires seg.header == HeaderOf(f.base, |f.column|, SectionsOf(f, lib), created, lib.crc)
    ensures seg.Region() == Flat(Postings.Blocks(f.lists))
  {
    hide Header.ToBytes, Body, SectionsOf, Flat, Postings.Blocks;
    var s := SectionsOf(f, lib);
    RegionOf(f, lib);
    SectionsSit(Header.ToBytes(seg.header, lib.crc), s);
  }

  lemma RegionOf(f: Frozen, lib: Library)
    ensures SectionsOf(f, lib).postings == Flat(Postings.Blocks(f.lists))
    ensures Encodes(f, lib) ==> |Flat(Postings.Blocks(f.lists))| <= U32_MAX
  {
    hide Flat, Postings.Blocks;
  }

  lemma TermFound(seg: IndexSegment, s: Writer, f: Frozen, k: nat)
    requires Quiet(s) && FrozenFrom(f, s.tail) && k < |f.tags|
    requires |Flat(Postings.Blocks(f.lists))| <= U32_MAX && seg.Region() == Flat(Postings.Blocks(f.lists))
    requires DictionaryOf(seg.terms, f.tags, Values(f.lists))
    ensures var tag, list := f.tags[k], PostingsOf(s.log, f.tags[k]);
            && tag in seg.terms
            && Postings.DecodePostings(seg.terms[tag], seg.Region()) == Ok(list)
            && Postings.PostingLen(seg.terms[tag], seg.Region()) == Ok(|list|)
  {
    hide Postings.DecodePostings, Postings.PostingLen, Postings.SeriesValue, Postings.Blocks, Flat;
    hide Values, Ascending, NamesInOrder, Postings.Encodable, PostingsOf;
    ListsSealable(s, f, k);
    ValuesFit(f.lists, k);
    Postings.SeriesRoundTrip(f.lists, k, []);
    assert Flat(Postings.Blocks(f.lists)) + [] == Flat(Postings.Blocks(f.lists));
  }

  lemma {:induction false} IndexOfFirst(names: seq<Name>, name: Name, i: nat)
    requires i <= |names|
    ensures match IndexOf(names, name, i)
            case None => forall j :: i <= j < |names| ==> names[j] != name
            case Some(at) => i <= at < |names| && names[at] == name
    decreases |names| - i
  {
    if i < |names| { IndexOfFirst(names, name, i + 1); }
  }

  lemma FewTypes(s: Writer)
    requires Interned(s)
    ensures |s.tail.types| <= MAX_TYPES
    ensures forall a :: a in s.tail.types ==> s.tail.types[a] <= U16_MAX
  {
  }

  lemma ColumnFits(s: Writer)
    requires Quiet(s)
    ensures |s.tail.column| == |s.log| <= U32_MAX
    ensures forall i :: 0 <= i < |s.tail.column| ==> s.tail.column[i] <= U16_MAX
  {
    FewTypes(s);
  }

  lemma SmallMod(i: nat)
    requires i <= U16_MAX
    ensures i % (U16_MAX + 1) == i
  {
  }

  /** Type ids survive, up to all 65536 of them. */
  lemma SealedTypeId(s: Writer, names: seq<Name>, name: Name)
    requires Interned(s) && NamesInOrder(names, s.tail.types)
    ensures match IndexOf(names, name, 0)
            case None => name !in s.tail.types
            case Some(i) => name in s.tail.types && i % (U16_MAX + 1) == s.tail.types[name]
  {
    hide TypesOk, IndexOf, TypeSet, Less;
    IndexOfFirst(names, name, 0);
    if IndexOf(names, name, 0).Some? {
      var i := IndexOf(names, name, 0).value;
      FewTypes(s);
      NameAt(s, names, i);
      SmallMod(i);
    }
  }

  lemma SealedTypeAt(seg: IndexSegment, f: Frozen, created: nat, lib: Library, local: nat)
    requires seg.data == Image(f, created, lib) && local < |f.column| && f.column[local] <= U16_MAX
    ensures SegTypeAt(seg, local) == f.column[local]
  {
    hide Header.ToBytes, LE, FromLE, Flat;
    var s := SectionsOf(f, lib);
    var head := Header.ToBytes(HeaderOf(f.base, |f.column|, s, created, lib.crc), lib.crc);
    var rest := s.typedict + s.postings + s.fst;
    CellHeld(f.column, local, rest);
    assert seg.data == head + (s.column + rest);
    CellInFile(head, s.column + rest, 2 * local, LE(f.column[local], 2));
    Capacities();
    LERoundTrip(f.column[local], 2);
  }

  lemma CellInFile(head: seq<byte>, body: seq<byte>, at: nat, cell: seq<byte>)
    requires Holds(body, at, cell)
    ensures |head| + at + |cell| <= |head + body|
    ensures (head + body)[|head| + at..|head| + at + |cell|] == cell
  {
  }

  /** Sealing preserves meaning. The file a frozen tail encodes to opens exactly when its size fits a
      `u32`; opened, no probe can panic, every probe answers as the tail's own full view does, and so
      every query over it is the scan of the events the tail was fed. */
  lemma SealPreservesMeaning(s: Writer, f: Frozen, created: nat, lib: Library)
    requires Quiet(s) && FrozenFrom(f, s.tail) && FstExact(lib)
    requires WellNamed(s.log, lib.utf8) && s.tail.base <= U64_MAX && created <= U64_MAX
    requires Encodes(f, lib)
    ensures Opened(Image(f, created, lib), lib).Ok? <==> |Image(f, created, lib)| <= U32_MAX
    ensures var r := Opened(Image(f, created, lib), lib);
            r.Ok? ==>
              && Sound(r.value)
              && SameProbes(FullView(s.tail), SegmentView(r.value))
              && Answers(SegmentView(r.value), s.log)
              && r.value.header.base == s.tail.base && r.value.header.count == |s.log|
  {
    FrozenSealable(s, f, lib);
    ImageOpens(f, created, lib);
    var r := Opened(Image(f, created, lib), lib);
    if r.Ok? {
      SealedProbes(r.value, s, f, created, lib);
      FullViewAnswers(s);
      SameProbesAnswer(FullView(s.tail), SegmentView(r.value), s.log);
    }
  }

  lemma SealedTypes(seg: IndexSegment, s: Writer, f: Frozen, created: nat, lib: Library)
    requires Seals(seg, s, f, created, lib)
    ensures var a, b := FullView(s.tail), SegmentView(seg);
            && a.base == b.base && a.len == b.len
            && seg.header.count == |s.log| && seg.header.base == s.tail.base
            && (forall k, name :: a.typeId(k, name) == b.typeId(k, name))
            && (forall k, local: nat :: local < a.len ==> a.typeAt(k, local) == b.typeAt(k, local))
  {
    hide Opened, Image, Encodes, SectionsOf, Indexed, Sealable, DictionaryOf, FstExact, IndexOf, SegTypeAt, TypesOk;
    ImageOpens(f, created, lib);
    ColumnFits(s);
    FullViewProbes(s);
    var a, b := FullView(s.tail), SegmentView(seg);
    forall k: nat, name ensures a.typeId(k, name) == b.typeId(k, name) {
      SealedTypeId(s, f.names, name);
    }
    forall k: nat, local: nat | local < a.len ensures a.typeAt(k, local) == b.typeAt(k, local) {
      SealedTypeAt(seg, f, created, lib, local);
    }
  }

  lemma SealedProbes(seg: IndexSegment, s: Writer, f: Frozen, created: nat, lib: Library)
    requires Seals(seg, s, f, created, lib)
    ensures Sound(seg) && SameProbes(FullView(s.tail), SegmentView(seg))
  {
    hide Opened, SegPostings, SegTermLen, FullPostings, FullTermLen, SegTypeAt, SegTypeId, Image;
    hide Encodes, SectionsOf, Inv, Sealable, DictionaryOf, FstExact, FrozenFrom;
    assert SameTerms(seg, s.tail) by {
      forall tag ensures SameTerm(seg, s.tail, tag) {
        SealedTerm(seg, s, f, created, lib, tag);
      }
    }
    FullViewProbes(s);
    var a, b := FullView(s.tail), SegmentView(seg);
    forall k: nat, tag
      ensures a.termPostings(k, tag) == b.termPostings(k, tag) && a.termLen(k, tag) == b.termLen(k, tag)
    {
      assert SameTerm(seg, s.tail, tag);
    }
    forall tag | tag in seg.terms
      ensures Postings.DecodePostings(seg.terms[tag], seg.Region()).Ok?
      ensures Postings.PostingLen(seg.terms[tag], seg.Region()).Ok?
    {
      assert SameTerm(seg, s.tail, tag);
    }
    SealedTypes(seg, s, f, created, lib);
  }

  // ------------------------------------------------------------------ a file too large to open

  /** As many events of one one-letter type as leave no byte for the term dictionary. */
  const CROWD: nat := 2_147_483_614

  const LONE_TYPE: Name := [0x41]

  ghost function Crowded(base: nat): (s: Writer) {
    Writer(
      Tail(base, seq(CROWD, _ => 0), 0x20_0000, [], 0, map[], map[LONE_TYPE := 0], false),
      seq(CROWD, _ => Event(LONE_TYPE, [], [])), Idle)
  }

  lemma CrowdedIsQuiet(base: nat)
    ensures Quiet(Crowded(base))
  {
    var s := Crowded(base);
    assert s.log[0].ty == LONE_TYPE;
    assert s.tail.types[LONE_TYPE] == 0 && IdTaken(s.tail.types, 0);
    forall a, b ensures Distinct(s.tail.types, a, b) {}
    forall a ensures TagOk(s, a) {
      assert s.log[..|s.tail.column|] == s.log;
      Untagged(s.log, a);
    }
  }

  lemma {:induction false} Untagged(events: seq<Event>, tag: Name)
    requires forall i :: 0 <= i < |events| ==> events[i].tags == []
    ensures PostingsOf(events, tag) == []
  {
    if events != [] { Untagged(events[..|events| - 1], tag); }
  }

  /** Each offset fits its field and yet the file does not fit a `u32`: over this tail, whatever the term
      dictionary's bytes are, encoding succeeds and opening what it wrote fails. */
  lemma OversizeImage(base: nat, created: nat, lib: Library)
    requires FstExact(lib) && lib.utf8(LONE_TYPE) && 1 <= |lib.fstBuild([], [])| <= U32_MAX
    requires base <= U64_MAX && created <= U64_MAX
    ensures var f := Frozen(base, Crowded(base).tail.column, [LONE_TYPE], [], []);
            && Quiet(Crowded(base)) && FrozenFrom(f, Crowded(base).tail)
            && Encodes(f, lib) && |Image(f, created, lib)| > U32_MAX
            && Opened(Image(f, created, lib), lib).Err?
  {
    var s := Crowded(base);
    var f := Frozen(base, s.tail.column, [LONE_TYPE], [], []);
    CrowdedIsQuiet(base);
    assert FrozenFrom(f, s.tail);
    CrowdedSections(f, lib);
    hide Crowded, SectionsOf, Flat, Opened, Header.ToBytes, Quiet, FrozenFrom, Sealable, WellNamed, FstExact, Body;
    SizeOf(f, lib);
    assert WellNamed(s.log, lib.utf8) by { CrowdedNamed(base, lib); }
    FrozenSealable(s, f, lib);
    ImageOpens(f, created, lib);
  }

  /** What an image's sections add up to, and when they encode. */
  lemma SizeOf(f: Frozen, lib: Library)
    requires forall i :: 0 <= i < |f.names| ==> |f.names[i]| <= U16_MAX
    ensures var s := SectionsOf(f, lib);
            && |Body(s)| == |s.column| + |s.typedict| + |s.postings| + |s.fst|
            && (Header.HEADER_SIZE + |s.column| + |s.typedict| + |s.postings| <= U32_MAX && |s.fst| <= U32_MAX
                <==> Encodes(f, lib))
  {
    hide SectionsOf;
  }

  lemma CrowdedNamed(base: nat, lib: Library)
    requires lib.utf8(LONE_TYPE)
    ensures WellNamed(Crowded(base).log, lib.utf8) && Crowded(base).tail.base == base
  {
  }

  lemma CrowdedSections(f: Frozen, lib: Library)
    requires |f.column| == CROWD && f.names == [LONE_TYPE] && f.tags == [] && f.lists == []
    ensures var s := SectionsOf(f, lib);
            && |s.column| == 2 * CROWD && |s.typedict| == 3 && s.postings == [] && s.fst == lib.fstBuild([], [])
  {
    hide LE;
    CellsLength(f.column);
    EntriesCons(LONE_TYPE, []);
    assert [LONE_TYPE] + [] == [LONE_TYPE];
    assert Entries([]) == [] && Postings.Blocks([]) == [] && Values([]) == [];
    FlatNone();
  }
}
