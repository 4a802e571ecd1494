/** Event type and tag names. A name is an opaque byte string; `str` order is byte-lexicographic. */
module Names {
  import opened Bytes

  type Name = seq<byte>

  const MAX_NAME_LEN: nat := U16_MAX

  /** Strict byte-lexicographic order. */
  predicate Less(a: Name, b: Name) {
    b != [] && (a == [] || a[0] < b[0] || (a[0] == b[0] && Less(a[1..], b[1..])))
  }

  /** A name comes first when it is a proper prefix of the other, or smaller in the first byte where they
      differ. */
  ghost predicate Precedes(a: Name, b: Name) {
    a < b || exists k: nat :: DiffersAt(a, b, k)
  }

  ghost predicate DiffersAt(a: Name, b: Name, k: nat) {
    k < |a| && k < |b| && a[..k] == b[..k] && a[k] < b[k]
  }

  lemma FirstBytes(a: Name, b: Name)
    requires a != [] && b != []
    ensures Precedes(a, b) ==> a[0] <= b[0]
  {
    if k: nat :| DiffersAt(a, b, k) {
      if k > 0 { assert a[..k][0] == a[0] && b[..k][0] == b[0]; }
    }
  }

  lemma {:induction false} LessIsLexicographic(a: Name, b: Name)
    ensures Less(a, b) <==> Precedes(a, b)
  {
    if a != [] && b != [] && a[0] == b[0] {
      var x, y := a[1..], b[1..];
      LessIsLexicographic(x, y);
      assert a == [a[0]] + x && b == [b[0]] + y;
      if k: nat :| DiffersAt(x, y, k) {
        assert a[..k + 1] == [a[0]] + x[..k] && b[..k + 1] == [b[0]] + y[..k];
        assert DiffersAt(a, b, k + 1);
      }
      if k: nat :| DiffersAt(a, b, k) {
        assert k > 0;
        assert a[..k][1..] == x[..k - 1] && b[..k][1..] == y[..k - 1];
        assert DiffersAt(x, y, k - 1);
      }
    } else if a != [] && b != [] && a[0] < b[0] {
      assert DiffersAt(a, b, 0);
    } else if a != [] && b != [] {
      FirstBytes(a, b);
    }
  }

  lemma {:induction false} LessIrreflexive(a: Name)
    ensures !Less(a, a)
  {
    if a != [] { LessIrreflexive(a[1..]); }
  }

  lemma {:induction false} LessTransitive(a: Name, b: Name, c: Name)
    requires Less(a, b) && Less(b, c)
    ensures Less(a, c)
  {
    if a != [] && a[0] == b[0] && b[0] == c[0] {
      LessTransitive(a[1..], b[1..], c[1..]);
    }
  }

  lemma {:induction false} LessTotal(a: Name, b: Name)
    ensures a == b || Less(a, b) || Less(b, a)
  {
    if a != [] && b != [] && a[0] == b[0] {
      LessTotal(a[1..], b[1..]);
      assert a == [a[0]] + a[1..] && b == [b[0]] + b[1..];
    }
  }

  /** Strictly ascending, hence also duplicate-free: the invariant of a tag set. */
  ghost predicate Ascending(names: seq<Name>) {
    forall i, j :: 0 <= i < j < |names| ==> Less(names[i], names[j])
  }

  lemma AscendingDistinct(names: seq<Name>)
    requires Ascending(names)
    ensures forall i, j :: 0 <= i < |names| && 0 <= j < |names| && names[i] == names[j] ==> i == j
  {
    forall i, j | 0 <= i < |names| && 0 <= j < |names| && names[i] == names[j] ensures i == j {
      LessIrreflexive(names[i]);
    }
  }

  /** Comparing each name with its predecessor only is enough, as a decoder does. */
  lemma {:induction false} AscendingFromNeighbours(names: seq<Name>)
    requires forall i :: 0 < i < |names| ==> Less(names[i - 1], names[i])
    ensures Ascending(names)
  {
    if |names| > 0 {
      var init := names[..|names| - 1];
      AscendingFromNeighbours(init);
      forall i | 0 <= i < |names| - 1 ensures Less(names[i], names[|names| - 1]) {
        if i < |names| - 2 {
          assert Less(init[i], init[|names| - 2]);
          LessTransitive(names[i], names[|names| - 2], names[|names| - 1]);
        }
      }
      forall i, j | 0 <= i < j < |names| ensures Less(names[i], names[j]) {
        if j < |names| - 1 { assert Less(init[i], init[j]); }
      }
    }
  }
}
