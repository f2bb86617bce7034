// The base offsets `Log.setup` collects from its directory and sorts.
module Listing {

  ghost predicate Sorted(s: seq<nat>) {
    forall i, j :: 0 <= i < j < |s| ==> s[i] <= s[j]
  }

  function Insert(s: seq<nat>, x: nat): seq<nat> {
    if s == [] || x <= s[0] then [x] + s else [s[0]] + Insert(s[1..], x)
  }

  lemma {:induction false} InsertAdds(s: seq<nat>, x: nat)
    ensures multiset(Insert(s, x)) == multiset(s) + multiset{x}
  {
    if s != [] && x > s[0] {
      InsertAdds(s[1..], x);
      assert s == [s[0]] + s[1..];
    }
  }

  lemma {:induction false} InsertSorted(s: seq<nat>, x: nat)
    requires Sorted(s)
    ensures Sorted(Insert(s, x))
  {
    hide Sorted;
    if s != [] {
      SortedTail(s);
    }
    if s == [] || x <= s[0] {
      assert s != [] ==> s == [s[0]] + s[1..];
      SortedCons(x, s);
    } else {
      InsertSorted(s[1..], x);
      InInserted(s[1..], x);
      SortedCons(s[0], Insert(s[1..], x));
    }
  }

  lemma {:induction false} InInserted(s: seq<nat>, x: nat)
    ensures forall y :: y in Insert(s, x) <==> y == x || y in s
  {
    if s != [] && x > s[0] {
      InInserted(s[1..], x);
      assert s == [s[0]] + s[1..];
    }
  }

  lemma {:induction false} SortedCons(x: nat, s: seq<nat>)
    requires Sorted(s) && forall y :: y in s ==> x <= y
    ensures Sorted([x] + s)
  {
    forall j | 0 <= j < |s|
      ensures x <= s[j]
    {
      assert s[j] in s;
    }
  }

  lemma {:induction false} SortedUnique(a: seq<nat>, b: seq<nat>)
    requires Sorted(a) && Sorted(b) && multiset(a) == multiset(b)
    ensures a == b
  {
    hide Sorted;
    if a == [] {
      assert |multiset(b)| == |b|;
    } else {
      SameFirst(a, b);
      SortedTail(a);
      SortedTail(b);
      SortedUnique(a[1..], b[1..]);
    }
  }

  lemma {:induction false} SameFirst(a: seq<nat>, b: seq<nat>)
    requires Sorted(a) && Sorted(b) && multiset(a) == multiset(b) && a != []
    ensures b != [] && a[0] == b[0]
  {
    assert a[0] in multiset(b) && a[0] in b;
    assert b[0] in multiset(a) && b[0] in a;
  }

  lemma {:induction false} SortedTail(s: seq<nat>)
    requires Sorted(s) && s != []
    ensures s == [s[0]] + s[1..] && Sorted(s[1..]) && multiset(s[1..]) == multiset(s) - multiset{s[0]}
    ensures forall y :: y in s[1..] ==> s[0] <= y
  {
    assert s == [s[0]] + s[1..];
  }

  ghost predicate Ascending(s: seq<nat>) {
    forall i, j :: 0 <= i < j < |s| ==> s[i] < s[j]
  }

  /** Every element of `s` twice over, in the order of `s`. */
  function Doubled(s: seq<nat>): (r: seq<nat>)
    ensures |r| == 2 * |s|
  {
    if s == [] then [] else [s[0], s[0]] + Doubled(s[1..])
  }

  lemma {:induction false} DoubledAt(s: seq<nat>, i: nat)
    requires i < |s|
    ensures Doubled(s)[2 * i] == Doubled(s)[2 * i + 1] == s[i]
  {
    if i > 0 {
      DoubledAt(s[1..], i - 1);
    }
  }

  lemma {:induction false} DoubledMultiset(s: seq<nat>)
    ensures multiset(Doubled(s)) == multiset(s) + multiset(s)
  {
    if s != [] {
      DoubledMultiset(s[1..]);
      assert s == [s[0]] + s[1..];
    }
  }

  lemma {:induction false} DoubledSorted(s: seq<nat>)
    requires Sorted(s)
    ensures Sorted(Doubled(s))
  {
    forall i, j | 0 <= i < j < |Doubled(s)|
      ensures Doubled(s)[i] <= Doubled(s)[j]
    {
      DoubledAt(s, i / 2);
      DoubledAt(s, j / 2);
      assert i == 2 * (i / 2) || i == 2 * (i / 2) + 1;
      assert j == 2 * (j / 2) || j == 2 * (j / 2) + 1;
    }
  }

  lemma {:induction false} AscendingMultiset(s: seq<nat>, keys: set<nat>)
    requires Ascending(s) && keys == set x | x in s
    ensures multiset(s) == multiset(keys)
  {
    if s != [] {
      assert s == [s[0]] + s[1..];
      AscendingMultiset(s[1..], keys - {s[0]});
    }
  }

  /** Sorting the listing of a directory that holds `perBase` files for each of
      the ascending `bases` gives every base that many times. */
  lemma {:induction false} ListingIs(listing: seq<nat>, bases: seq<nat>, keys: set<nat>, perFile: bool)
    requires Sorted(listing) && Ascending(bases) && keys == set x | x in bases
    requires multiset(listing) == if perFile then multiset(keys) + multiset(keys) else multiset(keys)
    ensures listing == if perFile then Doubled(bases) else bases
  {
    AscendingMultiset(bases, keys);
    DoubledMultiset(bases);
    DoubledSorted(bases);
    SortedUnique(listing, if perFile then Doubled(bases) else bases);
  }
}
