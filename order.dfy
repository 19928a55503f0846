/** Go compares strings byte by byte (`sort.StringSlice` uses `<`).
    Dafny's `<` on sequences is the proper-prefix order, so the
    lexicographic order is defined here and proved to be a strict total
    order. A Dafny `char` is a Unicode scalar value; UTF-8 encoding keeps
    the order of scalar values, so comparing characters gives the same
    answer as comparing the UTF-8 bytes. */
module StringOrder {

  /** `a` sorts strictly before `b`. */
  predicate Less(a: string, b: string)
    decreases |a|
  {
    if |a| == 0 then |b| > 0
    else if |b| == 0 then false
    else if a[0] != b[0] then a[0] < b[0]
    else Less(a[1..], b[1..])
  }

  predicate LessEq(a: string, b: string) {
    a == b || Less(a, b)
  }

  lemma {:induction false} LessIrreflexive(a: string)
    ensures !Less(a, a)
  {
    if |a| > 0 {
      LessIrreflexive(a[1..]);
    }
  }

  lemma {:induction false} LessTransitive(a: string, b: string, c: string)
    requires Less(a, b) && Less(b, c)
    ensures Less(a, c)
  {
    if |a| > 0 && a[0] == b[0] && b[0] == c[0] {
      LessTransitive(a[1..], b[1..], c[1..]);
    }
  }

  /** Any two distinct strings are ordered one way or the other. */
  lemma {:induction false} LessTotal(a: string, b: string)
    ensures a == b || Less(a, b) || Less(b, a)
  {
    if |a| > 0 && |b| > 0 && a[0] == b[0] {
      LessTotal(a[1..], b[1..]);
      if a[1..] == b[1..] {
        assert a == [a[0]] + a[1..] && b == [b[0]] + b[1..];
      }
    }
  }

  lemma LessAsymmetric(a: string, b: string)
    requires Less(a, b)
    ensures !Less(b, a)
  {
    if Less(b, a) {
      LessTransitive(a, b, a);
      LessIrreflexive(a);
    }
  }

  lemma LessEqTransitive(a: string, b: string, c: string)
    requires LessEq(a, b) && LessEq(b, c)
    ensures LessEq(a, c)
  {
    if a != b && b != c {
      LessTransitive(a, b, c);
    }
  }

  /** `!Less(a, b)` is the same as `LessEq(b, a)`. */
  lemma NotLessIsLessEq(a: string, b: string)
    ensures !Less(a, b) <==> LessEq(b, a)
  {
    LessTotal(a, b);
    if Less(a, b) && LessEq(b, a) {
      LessIrreflexive(a);
      if b != a {
        LessAsymmetric(a, b);
      }
    }
  }

  /** The four properties together: `Less` is a strict total order on strings. */
  lemma LessIsStrictTotalOrder()
    ensures forall a: string :: !Less(a, a)
    ensures forall a: string, b: string :: Less(a, b) ==> !Less(b, a)
    ensures forall a: string, b: string, c: string :: Less(a, b) && Less(b, c) ==> Less(a, c)
    ensures forall a: string, b: string :: a == b || Less(a, b) || Less(b, a)
  {
    forall a: string ensures !Less(a, a) {
      LessIrreflexive(a);
    }
    forall a: string, b: string | Less(a, b) ensures !Less(b, a) {
      LessAsymmetric(a, b);
    }
    forall a: string, b: string, c: string | Less(a, b) && Less(b, c) ensures Less(a, c) {
      LessTransitive(a, b, c);
    }
    forall a: string, b: string ensures a == b || Less(a, b) || Less(b, a) {
      LessTotal(a, b);
    }
  }

  /** Ascending with no duplicates. */
  predicate StrictlySorted(s: seq<string>) {
    forall i, j :: 0 <= i < j < |s| ==> Less(s[i], s[j])
  }

  /** Ascending, duplicates allowed: what `sort.Sort` promises. */
  predicate Sorted(s: seq<string>) {
    forall i, j :: 0 <= i < j < |s| ==> LessEq(s[i], s[j])
  }

  /** Every neighbouring pair is in order: what an insertion sort maintains. */
  predicate AdjacentSorted(s: seq<string>) {
    forall k :: 0 <= k < |s| - 1 ==> LessEq(s[k], s[k + 1])
  }

  predicate Distinct(s: seq<string>) {
    forall i, j :: 0 <= i < j < |s| ==> s[i] != s[j]
  }

  lemma {:induction false} AdjacentSortedIsSorted(s: seq<string>)
    requires AdjacentSorted(s)
    ensures Sorted(s)
  {
    if |s| >= 2 {
      var n := |s| - 1;
      var p := s[..n];
      assert AdjacentSorted(p) by {
        forall k | 0 <= k < |p| - 1 ensures LessEq(p[k], p[k + 1]) {
          assert p[k] == s[k] && p[k + 1] == s[k + 1];
        }
      }
      AdjacentSortedIsSorted(p);
      forall i, j | 0 <= i < j < |s| ensures LessEq(s[i], s[j]) {
        if j < n {
          assert p[i] == s[i] && p[j] == s[j];
        } else if i < n - 1 {
          assert p[i] == s[i] && p[n - 1] == s[n - 1];
          LessEqTransitive(s[i], s[n - 1], s[n]);
        }
      }
    }
  }

  lemma SortedDistinctIsStrictlySorted(s: seq<string>)
    requires Sorted(s) && Distinct(s)
    ensures StrictlySorted(s)
  {
  }

  /** A strictly sorted sequence is determined by its elements: whatever the
      order they were collected in, sorting them gives one answer. */
  lemma {:induction false} StrictlySortedUnique(s: seq<string>, t: seq<string>)
    requires StrictlySorted(s) && StrictlySorted(t)
    requires forall x :: x in s <==> x in t
    ensures s == t
  {
    // Either sequence's first element is in the other, so both are empty
    // or neither is.
    if |t| > 0 {
      assert t[0] in t;
    }
    if |s| > 0 {
      assert s[0] in s;
      assert |t| > 0;
      assert t[0] in t;
      if s[0] != t[0] {
        var k :| 0 <= k < |s| && s[k] == t[0];
        var m :| 0 <= m < |t| && t[m] == s[0];
        assert Less(s[0], t[0]);
        assert Less(t[0], s[0]);
        LessAsymmetric(s[0], t[0]);
      }
      forall x ensures x in s[1..] <==> x in t[1..] {
        TailMembership(s, x);
        TailMembership(t, x);
      }
      StrictlySortedUnique(s[1..], t[1..]);
      assert s == [s[0]] + s[1..] && t == [t[0]] + t[1..];
    }
  }

  /** Below the head of a strictly sorted sequence lie exactly the other elements. */
  lemma TailMembership(s: seq<string>, x: string)
    requires StrictlySorted(s) && |s| > 0
    ensures x in s[1..] <==> x in s && x != s[0]
  {
    if x in s[1..] {
      var i :| 0 <= i < |s| - 1 && s[1..][i] == x;
      assert Less(s[0], s[i + 1]);
      if x == s[0] { LessIrreflexive(x); }
    }
    if x in s && x != s[0] {
      var i :| 0 <= i < |s| && s[i] == x;
      assert s[1..][i - 1] == x;
    }
  }

  /** In a strictly sorted sequence the last element is the greatest. */
  lemma LastIsGreatest(s: seq<string>, x: string)
    requires StrictlySorted(s) && x in s
    ensures LessEq(x, s[|s| - 1])
  {
  }

  lemma {:induction false} DistinctMultiplicity(s: seq<string>, x: string)
    requires Distinct(s)
    ensures multiset(s)[x] <= 1
  {
    if |s| > 0 {
      assert s == [s[0]] + s[1..];
      assert Distinct(s[1..]) by {
        forall i, j | 0 <= i < j < |s| - 1 ensures s[1..][i] != s[1..][j] {
          assert s[1..][i] == s[i + 1] && s[1..][j] == s[j + 1];
        }
      }
      DistinctMultiplicity(s[1..], x);
      if x == s[0] {
        assert x !in s[1..] by {
          forall j | 0 <= j < |s| - 1 ensures s[1..][j] != x {
            assert s[1..][j] == s[j + 1];
          }
        }
      }
    }
  }

  lemma DuplicateMultiplicity(t: seq<string>, i: nat, j: nat)
    requires i < j < |t| && t[i] == t[j]
    ensures multiset(t)[t[i]] >= 2
  {
    assert t == t[..i] + [t[i]] + t[i + 1..j] + [t[j]] + t[j + 1..];
  }

  /** Reordering a duplicate-free sequence keeps it duplicate-free. */
  lemma PermutationKeepsDistinct(s: seq<string>, t: seq<string>)
    requires multiset(s) == multiset(t) && Distinct(s)
    ensures Distinct(t)
  {
    forall i, j | 0 <= i < j < |t| ensures t[i] != t[j] {
      if t[i] == t[j] {
        DuplicateMultiplicity(t, i, j);
        DistinctMultiplicity(s, t[i]);
      }
    }
  }
}
