/** The index-driven query evaluator. It is written once, against the probes of a segment index,
    and proved once: over any index whose answers are adequate it returns what the scan returns. */
module Search {
  import opened Bytes
  import opened Names
  import opened Events

  /** One segment's worth of index, as the probes a query can make of it. The first argument of a
      probe is its number within the query: a view of a tail that is still being fed may answer the
      same question differently at different moments. Positions are local (`global - base`). */
  datatype SegmentIndex = SegmentIndex(
    base: nat,
    len: nat,
    termPostings: (nat, Name) -> Option<seq<nat>>,
    termLen: (nat, Name) -> Option<nat>,
    typeId: (nat, Name) -> Option<nat>,
    typeAt: (nat, nat) -> nat)

  ghost predicate PostingsAdequate(ix: SegmentIndex, events: seq<Event>) {
    forall k, tag ::
      match ix.termPostings(k, tag)
      case None => PostingsOf(events, tag) == []
      case Some(list) => list == PostingsOf(events, tag)
  }

  ghost predicate LengthsAdequate(ix: SegmentIndex, events: seq<Event>) {
    forall k, tag ::
      match ix.termLen(k, tag)
      case None => PostingsOf(events, tag) == []
      case Some(n) => n >= |PostingsOf(events, tag)|
  }

  /** An id stands for a name when the type column shows it exactly where the name occurs. */
  ghost predicate IdStandsFor(ix: SegmentIndex, events: seq<Event>, id: nat, name: Name) {
    forall k, local :: 0 <= local < |events| ==> (ix.typeAt(k, local) == id <==> events[local].ty == name)
  }

  ghost predicate TypesAdequate(ix: SegmentIndex, events: seq<Event>) {
    forall k, name ::
      match ix.typeId(k, name)
      case None => forall i :: 0 <= i < |events| ==> events[i].ty != name
      case Some(id) => IdStandsFor(ix, events, id, name)
  }

  /** Every probe, whenever it is made, tells the truth about `events`. */
  ghost predicate Answers(ix: SegmentIndex, events: seq<Event>) {
    && ix.len == |events|
    && PostingsAdequate(ix, events)
    && LengthsAdequate(ix, events)
    && TypesAdequate(ix, events)
  }

  // ------------------------------------------------------------------ the local match set

  /** The local positions of the matching events, ascending. */
  function Hits(events: seq<Event>, q: Query): (locals: seq<nat>) {
    if events == [] then []
    else
      var n := |events| - 1;
      if Matches(q, events[n]) then Hits(events[..n], q) + [n] else Hits(events[..n], q)
  }

  lemma {:induction false} HitsSpec(events: seq<Event>, q: Query)
    ensures Rising(Hits(events, q))
    ensures forall x :: x in Hits(events, q) <==> 0 <= x < |events| && Matches(q, events[x])
  {
    if events != [] {
      var init := events[..|events| - 1];
      HitsSpec(init, q);
      RisingSnoc(Hits(init, q), |init|);
    }
  }

  function GlobalsAfter(locals: seq<nat>, base: nat, after: nat): (found: seq<nat>) {
    if locals == [] then []
    else
      var n := |locals| - 1;
      var found := GlobalsAfter(locals[..n], base, after);
      if base + locals[n] > after then found + [base + locals[n]] else found
  }

  function GlobalsBackBefore(locals: seq<nat>, base: nat, before: nat): (found: seq<nat>) {
    if locals == [] then []
    else
      var n := |locals| - 1;
      var found := GlobalsBackBefore(locals[..n], base, before);
      if base + locals[n] < before then [base + locals[n]] + found else found
  }

  lemma {:induction false} ScanOfHits(events: seq<Event>, base: nat, q: Query, after: nat)
    ensures Scan(events, base, q, after) == GlobalsAfter(Hits(events, q), base, after)
  {
    if events != [] {
      var n := |events| - 1;
      ScanOfHits(events[..n], base, q, after);
      var h := Hits(events[..n], q);
      assert (h + [n])[..|h|] == h;
    }
  }

  lemma {:induction false} ScanBackOfHits(events: seq<Event>, base: nat, q: Query, before: nat)
    ensures ScanBack(events, base, q, before) == GlobalsBackBefore(Hits(events, q), base, before)
  {
    if events != [] {
      var n := |events| - 1;
      ScanBackOfHits(events[..n], base, q, before);
      var h := Hits(events[..n], q);
      if Matches(q, events[n]) {
        assert Hits(events, q) == h + [n];
        assert (h + [n])[..|h|] == h;
      } else {
        assert Hits(events, q) == h;
      }
    }
  }

  /** `0..n`. */
  function Range(n: nat): (r: seq<nat>)
    ensures Rising(r)
    ensures forall x :: x in r <==> 0 <= x < n
  {
    if n == 0 then [] else RisingSnoc(Range(n - 1), n - 1); Range(n - 1) + [n - 1]
  }

  // ------------------------------------------------------------------ the evaluator

  /** Positions of the events matching `q`, ascending, strictly after `after`. */
  method Search(ix: SegmentIndex, q: Query, after: nat, ghost events: seq<Event>) returns (found: seq<nat>)
    requires Answers(ix, events)
    ensures found == Scan(events, ix.base, q, after)
  {
    var locals := LocalMatches(ix, q, events);
    found := [];
    for i := 0 to |locals|
      invariant found == GlobalsAfter(locals[..i], ix.base, after)
    {
      assert locals[..i + 1][..i] == locals[..i];
      if ix.base + locals[i] > after {
        found := found + [ix.base + locals[i]];
      }
    }
    assert locals[..|locals|] == locals;
    ScanOfHits(events, ix.base, q, after);
  }

  /** The same match set, descending, strictly before `before`. */
  method SearchBack(ix: SegmentIndex, q: Query, before: nat, ghost events: seq<Event>) returns (found: seq<nat>)
    requires Answers(ix, events)
    ensures found == ScanBack(events, ix.base, q, before)
  {
    var locals := LocalMatches(ix, q, events);
    found := [];
    var i := |locals|;
    assert locals[..i] == locals;
    while i > 0
      invariant 0 <= i <= |locals|
      invariant found + GlobalsBackBefore(locals[..i], ix.base, before) == GlobalsBackBefore(locals, ix.base, before)
    {
      i := i - 1;
      assert locals[..i + 1][..i] == locals[..i];
      if ix.base + locals[i] < before {
        found := found + [ix.base + locals[i]];
      }
    }
    ScanBackOfHits(events, ix.base, q, before);
  }

  /** The union over the items, sorted and deduplicated. */
  method LocalMatches(ix: SegmentIndex, q: Query, ghost events: seq<Event>) returns (locals: seq<nat>)
    requires Answers(ix, events)
    ensures locals == Hits(events, q)
  {
    HitsSpec(events, q);
    match q {
      case All =>
        locals := Range(ix.len);
      case Items(items) =>
        var gathered: seq<nat> := [];
        var probe := 0;
        for i := 0 to |items|
          invariant forall x :: x in gathered <==>
                                0 <= x < |events| && exists j :: 0 <= j < i && ItemMatches(items[j], events[x])
        {
          var more;
          more, probe := ItemLocals(ix, items[i], probe, events);
          ghost var before := gathered;
          gathered := gathered + more;
          forall x ensures x in gathered <==>
                           0 <= x < |events| && exists j :: 0 <= j < i + 1 && ItemMatches(items[j], events[x]) {
            assert x in gathered <==> x in before || x in more;
          }
        }
        locals := SortDedup(gathered);
    }
    RisingUnique(locals, Hits(events, q));
  }

  /** The local positions matching one item, ascending. */
  method ItemLocals(ix: SegmentIndex, item: QueryItem, probe: nat, ghost events: seq<Event>)
    returns (locals: seq<nat>, next: nat)
    requires Answers(ix, events)
    ensures Rising(locals)
    ensures forall x :: x in locals <==> 0 <= x < |events| && ItemMatches(item, events[x])
  {
    // Resolve the type constraint up front; types nobody has drop out.
    var ids;
    ids, next := ResolveTypes(ix, item.types, probe, events);
    if item.types != [] && ids == [] {
      forall x | 0 <= x < |events| ensures !ItemMatches(item, events[x]) {
        assert ix.typeAt(0, x) !in ids;
      }
      return [], next;
    }
    var candidates;
    if item.tags == [] {
      candidates := Range(ix.len);
    } else {
      candidates, next := TagCandidates(ix, item.tags, next, events);
    }
    assert forall x :: x in candidates <==> 0 <= x < |events| && HasTags(item.tags, events[x]);
    locals := [];
    for i := 0 to |candidates|
      invariant Rising(locals)
      invariant forall x :: x in locals <==>
                            x in candidates[..i] && x < |events| && (item.types == [] || events[x].ty in item.types)
    {
      var x := candidates[i];
      assert x in candidates;
      var keep := true;
      if item.types != [] {
        keep := ix.typeAt(next, x) in ids;
        next := next + 1;
      }
      assert candidates[..i + 1] == candidates[..i] + [x];
      if keep {
        RisingSnoc(locals, x);
        locals := locals + [x];
      }
    }
    assert candidates[..|candidates|] == candidates;
  }

  /** The ids of the listed types, those that are indexed. */
  method ResolveTypes(ix: SegmentIndex, types: seq<Name>, probe: nat, ghost events: seq<Event>)
    returns (ids: seq<nat>, next: nat)
    requires Answers(ix, events)
    ensures forall x, k :: 0 <= x < |events| ==> (ix.typeAt(k, x) in ids <==> events[x].ty in types)
  {
    next := probe;
    ids := [];
    for i := 0 to |types|
      invariant forall x, k :: 0 <= x < |events| ==> (ix.typeAt(k, x) in ids <==> events[x].ty in types[..i])
    {
      var id := ix.typeId(next, types[i]);
      ghost var was := ids;
      if id.Some? {
        assert IdStandsFor(ix, events, id.value, types[i]);
        ids := ids + [id.value];
      }
      next := next + 1;
      assert types[..i + 1] == types[..i] + [types[i]];
      forall x, k | 0 <= x < |events|
        ensures ix.typeAt(k, x) in ids <==> events[x].ty in types[..i + 1]
      {
        assert ix.typeAt(k, x) in was <==> events[x].ty in types[..i];
      }
    }
    assert types[..|types|] == types;
  }

  /** The events carrying every one of `tags`; none as soon as a tag is not indexed. */
  method TagCandidates(ix: SegmentIndex, tags: seq<Name>, probe: nat, ghost events: seq<Event>)
    returns (candidates: seq<nat>, next: nat)
    requires Answers(ix, events) && tags != []
    ensures Rising(candidates)
    ensures forall x :: x in candidates <==> 0 <= x < |events| && HasTags(tags, events[x])
  {
    next := probe;
    var lists: seq<seq<nat>> := [];
    for i := 0 to |tags|
      invariant |lists| == i
      invariant forall j :: 0 <= j < i ==> lists[j] == PostingsOf(events, tags[j])
    {
      var list := ix.termPostings(next, tags[i]);
      next := next + 1;
      if list.None? {
        PostingsOfSpec(events, tags[i]);
        forall x | 0 <= x < |events| ensures !HasTags(tags, events[x]) {
          assert tags[i] in tags && x !in PostingsOf(events, tags[i]);
        }
        return [], next;
      }
      lists := lists + [list.value];
    }
    forall j | 0 <= j < |lists|
      ensures Rising(lists[j])
      ensures forall x :: x in lists[j] <==> 0 <= x < |events| && tags[j] in events[x].tags
    {
      PostingsOfSpec(events, tags[j]);
    }
    candidates := Intersect(lists);
    forall x ensures x in candidates <==> 0 <= x < |events| && HasTags(tags, events[x]) {
      TagsOfLists(lists, tags, events, x);
    }
  }

  lemma TagsOfLists(lists: seq<seq<nat>>, tags: seq<Name>, events: seq<Event>, x: int)
    requires |lists| == |tags| > 0
    requires forall j :: 0 <= j < |lists| ==> (x in lists[j] <==> 0 <= x < |events| && tags[j] in events[x].tags)
    ensures (forall l :: l in lists ==> x in l) <==> 0 <= x < |events| && HasTags(tags, events[x])
  {
    assert forall j :: 0 <= j < |lists| ==> lists[j] in lists && tags[j] in tags;
    assert lists[0] in lists;
  }

  /** Intersects ascending posting lists: walk a shortest one, binary-search each other. */
  method Intersect(lists: seq<seq<nat>>) returns (common: seq<nat>)
    requires lists != []
    requires forall l :: l in lists ==> Rising(l)
    ensures Rising(common)
    ensures forall x :: x in common <==> forall l :: l in lists ==> x in l
  {
    var s := 0;
    for i := 1 to |lists|
      invariant 0 <= s < |lists|
      invariant forall j :: 0 <= j < i ==> |lists[s]| <= |lists[j]|
    {
      if |lists[i]| < |lists[s]| { s := i; }
    }
    var shortest := lists[s];
    var rest := lists[..s] + lists[s + 1..];
    assert forall l :: l in lists <==> l == shortest || l in rest by {
      assert lists == lists[..s] + [shortest] + lists[s + 1..];
    }
    common := [];
    for i := 0 to |shortest|
      invariant Rising(common)
      invariant forall x :: x in common <==> x in shortest[..i] && forall l :: l in rest ==> x in l
    {
      var x := shortest[i];
      var everywhere := InAll(rest, x);
      assert shortest[..i + 1] == shortest[..i] + [x];
      if everywhere {
        assert shortest in lists;
        RisingSnoc(common, x);
        common := common + [x];
      }
    }
    assert shortest[..|shortest|] == shortest;
  }

  /** Whether `x` is in every list. */
  method InAll(lists: seq<seq<nat>>, x: nat) returns (everywhere: bool)
    requires forall l :: l in lists ==> Rising(l)
    ensures everywhere <==> forall l :: l in lists ==> x in l
  {
    for j := 0 to |lists|
      invariant forall k :: 0 <= k < j ==> x in lists[k]
    {
      assert lists[j] in lists;
      var found := BinarySearch(lists[j], x);
      if !found {
        return false;
      }
    }
    return true;
  }

  method BinarySearch(list: seq<nat>, x: nat) returns (found: bool)
    requires Rising(list)
    ensures found <==> x in list
  {
    var lo, hi := 0, |list|;
    while lo < hi
      invariant 0 <= lo <= hi <= |list|
      invariant forall i :: 0 <= i < lo ==> list[i] < x
      invariant forall i :: hi <= i < |list| ==> x < list[i]
    {
      var mid := (lo + hi) / 2;
      if list[mid] == x { return true; }
      if list[mid] < x { lo := mid + 1; } else { hi := mid; }
    }
    return false;
  }

  /** Sorts and drops duplicates. */
  method SortDedup(s: seq<nat>) returns (out: seq<nat>)
    ensures Rising(out)
    ensures forall x :: x in out <==> x in s
  {
    out := [];
    for i := 0 to |s|
      invariant Rising(out)
      invariant forall x :: x in out <==> x in s[..i]
    {
      var at := 0;
      while at < |out| && out[at] < s[i]
        invariant 0 <= at <= |out|
        invariant forall j :: 0 <= j < at ==> out[j] < s[i]
      {
        at := at + 1;
      }
      assert s[..i + 1] == s[..i] + [s[i]];
      if at == |out| || out[at] != s[i] {
        ghost var was := out;
        out := out[..at] + [s[i]] + out[at..];
        forall x ensures x in out <==> x in was || x == s[i] {
          assert was == was[..at] + was[at..];
        }
      }
    }
    assert s[..|s|] == s;
  }
}
