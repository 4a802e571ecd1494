/** Events, queries and the one definition of "does this event match", together with the linear
    scan that every index-driven answer is measured against. */
module Events {
  import opened Bytes
  import opened Names

  datatype Event = Event(ty: Name, tags: seq<Name>, payload: seq<byte>)

  /** One alternative of a query: type in the list (or the list is empty) and all tags present. */
  datatype QueryItem = QueryItem(types: seq<Name>, tags: seq<Name>)

  datatype Query = All | Items(items: seq<QueryItem>)

  predicate HasTags(required: seq<Name>, e: Event) {
    forall t :: t in required ==> t in e.tags
  }

  predicate ItemMatches(item: QueryItem, e: Event) {
    (item.types == [] || e.ty in item.types) && HasTags(item.tags, e)
  }

  predicate Matches(q: Query, e: Event) {
    match q
    case All => true
    case Items(items) => exists i :: 0 <= i < |items| && ItemMatches(items[i], e)
  }

  /** What a query's parts add up to: items widen it, tags narrow an item, types widen an item that has some,
      and with neither an item takes everything. */
  lemma MatchLaws(e: Event, a: seq<QueryItem>, b: seq<QueryItem>, item: QueryItem, tag: Name, ty: Name)
    ensures Matches(All, e) && !Matches(Items([]), e) && Matches(Items([QueryItem([], [])]), e)
    ensures Matches(Items(a + b), e) <==> Matches(Items(a), e) || Matches(Items(b), e)
    ensures ItemMatches(QueryItem(item.types, item.tags + [tag]), e) <==> ItemMatches(item, e) && tag in e.tags
    ensures ItemMatches(QueryItem([ty], item.tags), e) <==>
              ItemMatches(QueryItem([], item.tags), e) && e.ty == ty
    ensures item.types != [] ==>
              (ItemMatches(QueryItem(item.types + [ty], item.tags), e) <==>
                 ItemMatches(item, e) || ItemMatches(QueryItem([ty], item.tags), e))
    ensures Matches(Items([item]), e) <==> ItemMatches(item, e)
  {
    assert [QueryItem([], [])][0] == QueryItem([], []) && [item][0] == item;
    assert forall i :: 0 <= i < |a| ==> (a + b)[i] == a[i];
    assert forall i :: 0 <= i < |b| ==> (a + b)[|a| + i] == b[i];
    assert forall i :: |a| <= i < |a + b| ==> (a + b)[i] == b[i - |a|];
    assert forall t :: t in item.tags + [tag] <==> t in item.tags || t == tag;
  }

  /** Tag containment as the predicate computes it: one merge over two sorted sequences. */
  method TagsContained(required: seq<Name>, e: Event) returns (contained: bool)
    requires Ascending(required) && Ascending(e.tags)
    ensures contained <==> HasTags(required, e)
  {
    var cursor := 0;
    for r := 0 to |required|
      invariant 0 <= cursor <= |e.tags|
      invariant forall i :: 0 <= i < r ==> required[i] in e.tags
      invariant forall c, i :: 0 <= c < cursor && r <= i < |required| ==> Less(e.tags[c], required[i])
    {
      var req := required[r];
      while cursor < |e.tags| && Less(e.tags[cursor], req)
        invariant 0 <= cursor <= |e.tags|
        invariant forall c, i :: 0 <= c < cursor && r <= i < |required| ==> Less(e.tags[c], required[i])
      {
        forall i | r <= i < |required| ensures Less(e.tags[cursor], required[i]) {
          if r < i { LessTransitive(e.tags[cursor], req, required[i]); }
        }
        cursor := cursor + 1;
      }
      if cursor == |e.tags| || e.tags[cursor] != req {
        if req in e.tags {
          MergeOvershot(e.tags, cursor, req);
        }
        assert req in required;
        return false;
      }
      forall i | r < i < |required| ensures Less(e.tags[cursor], required[i]) {}
      cursor := cursor + 1;
    }
    return true;
  }

  /** Once a sorted cursor has passed a name without meeting it, the name is absent. */
  lemma MergeOvershot(tags: seq<Name>, cursor: nat, req: Name)
    requires Ascending(tags) && cursor <= |tags|
    requires forall c :: 0 <= c < cursor ==> Less(tags[c], req)
    requires cursor < |tags| ==> tags[cursor] != req && !Less(tags[cursor], req)
    ensures req !in tags
  {
    LessIrreflexive(req);
    forall k | 0 <= k < |tags| ensures tags[k] != req {
      assert cursor < k ==> Less(tags[cursor], tags[k]);
    }
  }

  // ------------------------------------------------------------------ ascending integer lists

  ghost predicate Rising(s: seq<nat>) {
    forall i, j :: 0 <= i < j < |s| ==> s[i] < s[j]
  }

  lemma RisingSnoc(s: seq<nat>, x: nat)
    requires Rising(s) && forall y :: y in s ==> y < x
    ensures Rising(s + [x])
  {
    assert forall i :: 0 <= i < |s| ==> s[i] in s;
  }

  lemma RisingSameLast(a: seq<nat>, b: seq<nat>)
    requires Rising(a) && Rising(b) && a != [] && b != []
    requires forall x :: x in a <==> x in b
    ensures a[|a| - 1] == b[|b| - 1]
  {
    assert a[|a| - 1] in b;
    assert b[|b| - 1] in a;
  }

  /** A strictly ascending list is determined by its elements. */
  lemma {:induction false} RisingUnique(a: seq<nat>, b: seq<nat>)
    requires Rising(a) && Rising(b)
    requires forall x :: x in a <==> x in b
    ensures a == b
  {
    assert a != [] ==> a[0] in a;
    assert b != [] ==> b[0] in b;
    if a != [] && b != [] {
      RisingSameLast(a, b);
      var last := a[|a| - 1];
      var a', b' := a[..|a| - 1], b[..|b| - 1];
      assert a == a' + [last] && b == b' + [last];
      assert last !in a' && last !in b';
      forall x ensures x in a' <==> x in b' {
        assert x in a <==> x in b;
        assert x in a <==> x in a' || x == last;
        assert x in b <==> x in b' || x == last;
      }
      RisingUnique(a', b');
    }
  }

  // ------------------------------------------------------------------ what an index must answer

  /** The local positions of the events that carry `tag`, ascending. */
  function PostingsOf(events: seq<Event>, tag: Name): (p: seq<nat>) {
    if events == [] then []
    else
      var n := |events| - 1;
      if tag in events[n].tags then PostingsOf(events[..n], tag) + [n] else PostingsOf(events[..n], tag)
  }

  lemma {:induction false} PostingsOfSpec(events: seq<Event>, tag: Name)
    ensures Rising(PostingsOf(events, tag))
    ensures forall x :: x in PostingsOf(events, tag) <==> 0 <= x < |events| && tag in events[x].tags
  {
    if events != [] {
      var init := events[..|events| - 1];
      PostingsOfSpec(init, tag);
      RisingSnoc(PostingsOf(init, tag), |init|);
    }
  }

  /** The linear scan: positions (`base` + local) of the matching events, ascending, past `after`. */
  function Scan(events: seq<Event>, base: nat, q: Query, after: nat): (found: seq<nat>) {
    if events == [] then []
    else
      var n := |events| - 1;
      var found := Scan(events[..n], base, q, after);
      if Matches(q, events[n]) && base + n > after then found + [base + n] else found
  }

  lemma {:induction false} ScanSpec(events: seq<Event>, base: nat, q: Query, after: nat)
    ensures Rising(Scan(events, base, q, after))
    ensures forall p :: p in Scan(events, base, q, after) <==>
                        base <= p < base + |events| && p > after && Matches(q, events[p - base])
  {
    if events != [] {
      var init := events[..|events| - 1];
      ScanSpec(init, base, q, after);
      RisingSnoc(Scan(init, base, q, after), base + |init|);
    }
  }

  /** Scanning two adjacent runs of events is scanning them one after the other. */
  lemma {:induction false} ScanConcat(a: seq<Event>, b: seq<Event>, base: nat, q: Query, after: nat)
    ensures Scan(a + b, base, q, after) == Scan(a, base, q, after) + Scan(b, base + |a|, q, after)
  {
    if b == [] {
      assert a + b == a;
    } else {
      var b' := b[..|b| - 1];
      ScanConcat(a, b', base, q, after);
      assert (a + b)[..|a + b| - 1] == a + b';
      assert (a + b)[|a + b| - 1] == b[|b| - 1];
    }
  }

  /** Nothing past the end of a run can be found in it. */
  lemma {:induction false} ScanPruned(events: seq<Event>, base: nat, q: Query, after: nat)
    requires base + |events| <= after + 1
    ensures Scan(events, base, q, after) == []
  {
    if events != [] { ScanPruned(events[..|events| - 1], base, q, after); }
  }

  lemma {:induction false} ScanOfNone(events: seq<Event>, base: nat, q: Query, after: nat)
    requires forall i :: 0 <= i < |events| ==> !Matches(q, events[i])
    ensures Scan(events, base, q, after) == []
  {
    if events != [] { ScanOfNone(events[..|events| - 1], base, q, after); }
  }

  /** The scan from the other end: descending, strictly before `before`. */
  function ScanBack(events: seq<Event>, base: nat, q: Query, before: nat): (found: seq<nat>) {
    if events == [] then []
    else
      var n := |events| - 1;
      var found := ScanBack(events[..n], base, q, before);
      if Matches(q, events[n]) && base + n < before then [base + n] + found else found
  }

  function Reverse(s: seq<nat>): (r: seq<nat>)
    ensures |r| == |s|
    ensures forall i :: 0 <= i < |s| ==> r[i] == s[|s| - 1 - i]
  {
    if s == [] then [] else [s[|s| - 1]] + Reverse(s[..|s| - 1])
  }

  function Above(s: seq<nat>, a: nat): (r: seq<nat>) {
    if s == [] then []
    else if s[|s| - 1] > a then Above(s[..|s| - 1], a) + [s[|s| - 1]]
    else Above(s[..|s| - 1], a)
  }

  function Below(s: seq<nat>, b: nat): (r: seq<nat>) {
    if s == [] then []
    else if s[|s| - 1] < b then Below(s[..|s| - 1], b) + [s[|s| - 1]]
    else Below(s[..|s| - 1], b)
  }

  lemma {:induction false} AbovePrepend(x: nat, s: seq<nat>, a: nat)
    ensures Above([x] + s, a) == if x > a then [x] + Above(s, a) else Above(s, a)
  {
    if s == [] {
      assert [x] + s == [x] && [x][..0] == [];
    } else {
      AbovePrepend(x, s[..|s| - 1], a);
      assert ([x] + s)[..|s|] == [x] + s[..|s| - 1];
    }
  }

  lemma BelowSnoc(s: seq<nat>, x: nat, b: nat)
    ensures Below(s + [x], b) == if x < b then Below(s, b) + [x] else Below(s, b)
  {
    assert (s + [x])[..|s|] == s;
  }

  lemma ReverseSnoc(s: seq<nat>, x: nat)
    ensures Reverse(s + [x]) == [x] + Reverse(s)
  {
    assert (s + [x])[..|s|] == s;
  }

  lemma NothingFound(a: nat, b: nat)
    ensures Above([], a) == [] == Reverse(Below([], b))
  {
  }

  lemma ScansStep(init: seq<Event>, last: Event, base: nat, q: Query, a: nat, b: nat)
    ensures var p, back, fwd := base + |init|, ScanBack(init, base, q, b), Scan(init, base, q, a);
            && ScanBack(init + [last], base, q, b) == (if Matches(q, last) && p < b then [p] + back else back)
            && Scan(init + [last], base, q, a) == if Matches(q, last) && p > a then fwd + [p] else fwd
  {
    hide Matches;
    assert (init + [last])[..|init|] == init;
  }

  /** One more position at the far end keeps the two in mirror. */
  lemma MirrorStep(back: seq<nat>, fwd: seq<nat>, p: nat, a: nat, b: nat)
    requires Above(back, a) == Reverse(Below(fwd, b))
    ensures Above(if p < b then [p] + back else back, a) == Reverse(Below(if p > a then fwd + [p] else fwd, b))
  {
    AbovePrepend(p, back, a);
    BelowSnoc(fwd, p, b);
    ReverseSnoc(Below(fwd, b), p);
    hide Above, Below, Reverse;
  }

  /** Forward and backward scans see the same events: cut to the open interval (a, b), one is the
      reverse of the other. */
  lemma {:induction false} ScanBackIsScanReversed(events: seq<Event>, base: nat, q: Query, a: nat, b: nat)
    ensures Above(ScanBack(events, base, q, b), a) == Reverse(Below(Scan(events, base, q, a), b))
  {
    hide Above, Below, Reverse, Matches;
    if events == [] {
      NothingFound(a, b);
    } else {
      var n := |events| - 1;
      var init, last := events[..n], events[n];
      assert events == init + [last];
      ScanBackIsScanReversed(init, base, q, a, b);
      ScansStep(init, last, base, q, a, b);
      MirrorStep(ScanBack(init, base, q, b), Scan(init, base, q, a), base + n, a, b);
    }
  }
}
