/** The query planner's cost model: an upper bound on the matches in a range, and the choice between
    fetching through the index and scanning the range. */
module Plan {
  import opened Bytes
  import opened Names
  import opened Events
  import opened Search
  import opened Tail
  import opened ActiveTail
  import Segment

  datatype Access = Index | Scan

  function SaturatingAdd(a: nat, b: nat): (c: nat) { Min(a + b, U64_MAX) }

  function SaturatingMul(a: nat, b: nat): (c: nat) { Min(a * b, U64_MAX) }

  // ------------------------------------------------------------------ the true counts

  /** How many of the events at locals `lo..hi` match. */
  function Count(events: seq<Event>, q: Query, lo: nat, hi: nat): (n: nat)
    requires hi <= |events|
    ensures n <= if lo <= hi then hi - lo else 0
  {
    if hi <= lo then 0
    else Count(events, q, lo, hi - 1) + if Matches(q, events[hi - 1]) then 1 else 0
  }

  /** Each match carries each required tag, so it is in that tag's posting list. */
  lemma {:induction false} CountWithinPostings(events: seq<Event>, item: QueryItem, tag: Name, lo: nat, hi: nat)
    requires hi <= |events| && tag in item.tags
    ensures Count(events, Items([item]), lo, hi) <= |PostingsOf(events[..hi], tag)|
    decreases hi
  {
    if lo < hi {
      CountWithinPostings(events, item, tag, lo, hi - 1);
      assert events[..hi][..hi - 1] == events[..hi - 1];
    }
  }

  lemma CountWithinList(events: seq<Event>, item: QueryItem, tag: Name, lo: nat, hi: nat)
    requires hi <= |events| && tag in item.tags
    ensures Count(events, Items([item]), lo, hi) <= |PostingsOf(events, tag)|
  {
    CountWithinPostings(events, item, tag, lo, hi);
    PostingsPrefix(events, hi, |events|, tag);
    assert events[..|events|] == events;
  }

  /** The union is at most the sum. */
  lemma {:induction false} CountUnion(events: seq<Event>, items: seq<QueryItem>, k: nat, lo: nat, hi: nat)
    requires hi <= |events| && k < |items|
    ensures Count(events, Items(items[..k + 1]), lo, hi)
         <= Count(events, Items(items[..k]), lo, hi) + Count(events, Items([items[k]]), lo, hi)
    decreases hi
  {
    if lo < hi {
      CountUnion(events, items, k, lo, hi - 1);
      var e := events[hi - 1];
      if Matches(Items(items[..k + 1]), e) {
        var i :| 0 <= i < k + 1 && ItemMatches(items[..k + 1][i], e);
        if i == k {
          assert ItemMatches([items[k]][0], e);
        } else {
          assert ItemMatches(items[..k][i], e);
        }
      }
    }
  }

  lemma {:induction false} CountNone(events: seq<Event>, lo: nat, hi: nat)
    requires hi <= |events|
    ensures Count(events, Items([]), lo, hi) == 0
    decreases hi
  {
    if lo < hi { CountNone(events, lo, hi - 1); }
  }

  // ------------------------------------------------------------------ how tight the bound is

  function LengthOf(events: seq<Event>, tag: Name): (len: Option<nat>) {
    if PostingsOf(events, tag) == [] then None else Some(|PostingsOf(events, tag)|)
  }

  /** Term lengths are exact, as on a sealed segment or a quiet tail; a live view may overcount. */
  ghost predicate ExactLengths(ix: SegmentIndex, events: seq<Event>) {
    forall k, tag :: ix.termLen(k, tag) == LengthOf(events, tag)
  }

  /** The shortest posting list among the tags. */
  function Shortest(events: seq<Event>, tags: seq<Name>): (n: nat)
    requires tags != []
  {
    var last := |PostingsOf(events, tags[|tags| - 1])|;
    if |tags| == 1 then last else Min(Shortest(events, tags[..|tags| - 1]), last)
  }

  function ItemBound(events: seq<Event>, item: QueryItem, width: nat): (n: nat) {
    if item.tags == [] then width else Min(Shortest(events, item.tags), width)
  }

  function ItemsBound(events: seq<Event>, items: seq<QueryItem>, width: nat): (n: nat) {
    if items == [] then 0
    else ItemsBound(events, items[..|items| - 1], width) + ItemBound(events, items[|items| - 1], width)
  }

  lemma {:induction false} ShortestIsLeast(events: seq<Event>, tags: seq<Name>, i: nat)
    requires i < |tags|
    ensures Shortest(events, tags) <= |PostingsOf(events, tags[i])|
  {
    if i < |tags| - 1 {
      ShortestIsLeast(events, tags[..|tags| - 1], i);
    }
  }

  lemma {:induction false} BoundGrows(events: seq<Event>, items: seq<QueryItem>, k: nat, width: nat)
    requires k <= |items|
    ensures ItemsBound(events, items[..k], width) <= ItemsBound(events, items, width)
  {
    if k < |items| {
      BoundGrows(events, items[..|items| - 1], k, width);
      assert items[..|items| - 1][..k] == items[..k];
    } else {
      assert items[..k] == items;
    }
  }

  /** The lengths of a quiet tail's full view are exact. */
  lemma QuietTailIsExact(s: Writer)
    requires Quiet(s)
    ensures ExactLengths(FullView(s.tail), s.log)
  {
    forall k: nat, tag
      ensures FullView(s.tail).termLen(k, tag) == LengthOf(s.log, tag)
    {
      FullPostingsExact(s, tag);
    }
  }

  /** And so are those of anything that probes the same, such as the segment it seals to. */
  lemma SameProbesExact(a: SegmentIndex, b: SegmentIndex, events: seq<Event>)
    requires Segment.SameProbes(a, b) && ExactLengths(a, events)
    ensures ExactLengths(b, events)
  {
    forall k, tag
      ensures b.termLen(k, tag) == LengthOf(events, tag)
    {
      assert a.termLen(k, tag) == b.termLen(k, tag);
    }
  }

  // ------------------------------------------------------------------ the estimator

  /** At least the true matches of the query in the window `lo..hi`, at most its width; over exact
      lengths, the sum of the items' shortest lists, capped at the width. */
  method EstimateMatches(ix: SegmentIndex, q: Query, ghost events: seq<Event>, ghost lo: nat, ghost hi: nat, width: nat)
    returns (estimate: nat)
    requires Answers(ix, events) && lo <= hi <= |events| && width == hi - lo <= U64_MAX
    ensures Count(events, q, lo, hi) <= estimate <= width
    ensures ExactLengths(ix, events) ==>
              estimate == match q case All => width case Items(items) => Min(ItemsBound(events, items, width), width)
  {
    hide PostingsOf, ItemBound;
    if q.All? {
      return width;
    }
    var items, total: nat, probe := q.items, 0, 0;
    CountNone(events, lo, hi);
    assert items[..0] == [];
    for k := 0 to |items|
      invariant Count(events, Items(items[..k]), lo, hi) <= total <= width
      invariant ExactLengths(ix, events) ==> total == ItemsBound(events, items[..k], width)
    {
      var one;
      one, probe := EstimateItem(ix, items[k], probe, events, lo, hi, width);
      CountUnion(events, items, k, lo, hi);
      assert items[..k + 1][..k] == items[..k];
      BoundGrows(events, items, k + 1, width);
      total := SaturatingAdd(total, one);
      if total >= width {
        return width;
      }
    }
    assert items[..|items|] == items;
    return Min(total, width);
  }

  /** The same for one item: the shortest posting list bounds an intersection. */
  method EstimateItem(ix: SegmentIndex, item: QueryItem, probe: nat, ghost events: seq<Event>, ghost lo: nat,
                      ghost hi: nat,
                      width: nat)
    returns (estimate: nat, next: nat)
    requires Answers(ix, events) && lo <= hi <= |events| && width == hi - lo <= U64_MAX
    ensures Count(events, Items([item]), lo, hi) <= estimate <= width
    ensures ExactLengths(ix, events) ==> estimate == ItemBound(events, item, width)
  {
    hide PostingsOf;
    next := probe;
    var tags := item.tags;
    if tags == [] {
      return width, next;
    }
    var smallest := U64_MAX;
    for i := 0 to |tags|
      invariant Count(events, Items([item]), lo, hi) <= smallest
      invariant ExactLengths(ix, events) ==>
                  smallest == if i == 0 then U64_MAX else Min(U64_MAX, Shortest(events, tags[..i]))
    {
      CountWithinList(events, item, tags[i], lo, hi);
      ShortestIsLeast(events, tags, i);
      assert tags[..i + 1][..i] == tags[..i];
      var len := ix.termLen(next, tags[i]);
      next := next + 1;
      if len.None? {
        return 0, next;
      }
      smallest := Min(smallest, len.value);
    }
    assert tags[..|tags|] == tags;
    return Min(smallest, width), next;
  }

  function Choose(estimate: nat, width: nat, scanBias: nat): (a: Access) {
    if SaturatingMul(estimate, scanBias) <= width then Index else Scan
  }

  /** The index is chosen exactly when the bias times the estimate fits the range, saturation or not, and so
      only for a truly selective query: the bias times the matches there really are fits it too. */
  lemma ChooseIsSelective(events: seq<Event>, q: Query, lo: nat, hi: nat, estimate: nat, scanBias: nat)
    requires lo <= hi <= |events| && Count(events, q, lo, hi) <= estimate <= hi - lo < U64_MAX
    ensures Choose(estimate, hi - lo, scanBias) == Index <==> estimate * scanBias <= hi - lo
    ensures Choose(estimate, hi - lo, scanBias) == Index ==> Count(events, q, lo, hi) * scanBias <= hi - lo
  {
    hide Count;
    MulMonotone(Count(events, q, lo, hi), estimate, scanBias);
  }

  lemma {:induction false} MulMonotone(a: nat, b: nat, k: nat)
    requires a <= b
    ensures a * k <= b * k
  {
    if k > 0 {
      MulMonotone(a, b, k - 1);
      assert a * k == a * (k - 1) + a && b * k == b * (k - 1) + b;
    }
  }
}
