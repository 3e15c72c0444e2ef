/** Byte strings: a Go string is modelled as a `string` with one char per byte.
    Their order is the byte-wise one `sort.Strings` uses. */
module Strings {

  predicate Leq(a: string, b: string)
  {
    a == [] || (b != [] && (a[0] < b[0] || (a[0] == b[0] && Leq(a[1..], b[1..]))))
  }

  lemma {:induction false} LeqTotal(a: string, b: string)
    ensures Leq(a, b) || Leq(b, a)
  {
    if a != [] && b != [] {
      LeqTotal(a[1..], b[1..]);
    }
  }

  lemma {:induction false} LeqAntisymmetric(a: string, b: string)
    requires Leq(a, b) && Leq(b, a)
    ensures a == b
  {
    if a != [] {
      LeqAntisymmetric(a[1..], b[1..]);
      assert a == [a[0]] + a[1..] && b == [b[0]] + b[1..];
    }
  }

  lemma {:induction false} LeqTransitive(a: string, b: string, c: string)
    requires Leq(a, b) && Leq(b, c)
    ensures Leq(a, c)
  {
    if a != [] && a[0] == b[0] == c[0] {
      LeqTransitive(a[1..], b[1..], c[1..]);
    }
  }

  /** The strings part at place k: there one ends, or its byte is lower. */
  predicate LowerAt(a: string, b: string, k: nat)
  {
    k <= |a| && k < |b| && a[..k] == b[..k] && (k == |a| || a[k] < b[k])
  }

  /** Lower in byte order. */
  ghost predicate Below(a: string, b: string)
  {
    exists k :: LowerAt(a, b, k)
  }

  lemma LowerAtTail(a: string, b: string, k: nat)
    requires a != [] && b != [] && a[0] == b[0]
    ensures LowerAt(a[1..], b[1..], k) <==> LowerAt(a, b, k + 1)
  {
    if k <= |a[1..]| && k <= |b[1..]| {
      assert a[..k + 1] == [a[0]] + a[1..][..k] && b[..k + 1] == [b[0]] + b[1..][..k];
      assert a[1..][..k] == a[..k + 1][1..] && b[1..][..k] == b[..k + 1][1..];
    }
  }

  lemma BelowTail(a: string, b: string)
    requires a != [] && b != [] && a[0] == b[0]
    ensures Below(a, b) <==> Below(a[1..], b[1..])
  {
    if k: nat :| LowerAt(a[1..], b[1..], k) {
      LowerAtTail(a, b, k);
    }
    if k: nat :| LowerAt(a, b, k) {
      assert k > 0;
      LowerAtTail(a, b, k - 1);
    }
  }

  lemma BelowStartsLow(a: string, b: string)
    ensures a == [] ==> (Below(a, b) <==> b != [])
    ensures b == [] ==> !Below(a, b)
    ensures a != [] && b != [] && a[0] != b[0] ==> (Below(a, b) <==> a[0] < b[0])
  {
    assert a[..0] == b[..0];
    assert LowerAt(a, b, 0) <==> b != [] && (a == [] || a[0] < b[0]);
    forall k: nat | LowerAt(a, b, k) && k > 0 ensures a != [] && b != [] && a[0] == b[0] {
      assert a[0] == a[..k][0] && b[0] == b[..k][0];
    }
  }

  lemma {:induction false} LeqMeaning(a: string, b: string)
    ensures Leq(a, b) <==> a == b || Below(a, b)
  {
    BelowStartsLow(a, b);
    if a != [] && b != [] && a[0] == b[0] {
      LeqMeaning(a[1..], b[1..]);
      BelowTail(a, b);
      assert a == [a[0]] + a[1..] && b == [b[0]] + b[1..];
    }
  }

  predicate Sorted(s: seq<string>)
  {
    forall i, j :: 0 <= i < j < |s| ==> Leq(s[i], s[j])
  }

  ghost predicate NoDuplicates<T>(s: seq<T>)
  {
    forall i, j :: 0 <= i < j < |s| ==> s[i] != s[j]
  }

  function Insert(x: string, s: seq<string>): (r: seq<string>)
    requires Sorted(s)
    ensures Sorted(r) && multiset(r) == multiset(s) + multiset{x}
  {
    if s == [] then [x]
    else if Leq(x, s[0]) then
      HeadIsLeast(x, s);
      [x] + s
    else
      assert s == [s[0]] + s[1..];
      LeqTotal(x, s[0]);
      LeastStaysFirst(s[0], s[1..] + [x], Insert(x, s[1..]));
      [s[0]] + Insert(x, s[1..])
  }

  lemma HeadIsLeast(x: string, s: seq<string>)
    requires Sorted(s) && s != [] && Leq(x, s[0])
    ensures Sorted([x] + s)
  {
    forall j | 0 < j < |s| ensures Leq(x, s[j]) {
      LeqTransitive(x, s[0], s[j]);
    }
  }

  lemma LeastStaysFirst(head: string, all: seq<string>, r: seq<string>)
    requires Sorted(r) && multiset(r) == multiset(all)
    requires forall j :: 0 <= j < |all| ==> Leq(head, all[j])
    ensures Sorted([head] + r)
  {
    forall j | 0 <= j < |r| ensures Leq(head, r[j]) {
      assert r[j] in multiset(r);
      assert r[j] in all;
    }
  }

  /** The sorted arrangement of a list, as `sort.Strings` leaves it. */
  function Sort(s: seq<string>): (r: seq<string>)
    ensures Sorted(r) && multiset(r) == multiset(s)
  {
    if s == [] then []
    else
      assert s == [s[0]] + s[1..];
      Insert(s[0], Sort(s[1..]))
  }

  lemma SortedHeads(a: seq<string>, b: seq<string>)
    requires Sorted(a) && Sorted(b) && multiset(a) == multiset(b) && a != []
    ensures b != [] && a[0] == b[0]
  {
    assert a[0] in multiset(b);
    assert b[0] in multiset(a);
    var i :| 0 <= i < |b| && b[i] == a[0];
    var j :| 0 <= j < |a| && a[j] == b[0];
    if a[0] != b[0] {
      LeqAntisymmetric(a[0], b[0]);
    }
  }

  lemma TailMultiset(a: seq<string>)
    requires a != []
    ensures multiset(a[1..]) == multiset(a) - multiset{a[0]}
  {
    assert a == [a[0]] + a[1..];
  }

  /** Two sorted lists with the same elements are the same list. */
  lemma {:induction false} SortedUnique(a: seq<string>, b: seq<string>)
    requires Sorted(a) && Sorted(b) && multiset(a) == multiset(b)
    ensures a == b
  {
    if a == [] {
      assert |multiset(b)| == 0;
    } else {
      SortedHeads(a, b);
      TailMultiset(a);
      TailMultiset(b);
      SortedUnique(a[1..], b[1..]);
    }
  }

  /** Two lists sort alike exactly when they hold the same elements. */
  lemma SortDecides(a: seq<string>, b: seq<string>)
    ensures Sort(a) == Sort(b) <==> multiset(a) == multiset(b)
  {
    if multiset(a) == multiset(b) {
      SortedUnique(Sort(a), Sort(b));
    }
  }

  ghost function ToSeq(s: set<string>): (r: seq<string>)
    ensures NoDuplicates(r) && (forall x :: x in r <==> x in s)
  {
    if s == {} then []
    else
      var x :| x in s;
      [x] + ToSeq(s - {x})
  }

  lemma NoDuplicatesCount(s: seq<string>)
    requires NoDuplicates(s)
    ensures forall x :: multiset(s)[x] <= 1
  {
    if s != [] {
      NoDuplicatesCount(s[1..]);
      assert s == [s[0]] + s[1..];
      assert s[0] !in s[1..];
    }
  }

  ghost predicate SameMembers(a: seq<string>, b: seq<string>)
  {
    forall x :: x in a <==> x in b
  }

  lemma SameMultisetSameMembers(a: seq<string>, b: seq<string>)
    ensures multiset(a) == multiset(b) ==> SameMembers(a, b)
  {
    forall x ensures (x in a <==> x in multiset(a)) && (x in b <==> x in multiset(b)) {
    }
  }

  /** Of two lists with the same members, one of them free of repetition, the
      multisets agree exactly when the other is free of repetition too. */
  lemma SameMultisetIff(a: seq<string>, b: seq<string>)
    requires NoDuplicates(a) && SameMembers(a, b)
    ensures multiset(a) == multiset(b) <==> NoDuplicates(b)
  {
    if NoDuplicates(b) {
      SameElementsSameMultiset(a, b);
    }
    if multiset(a) == multiset(b) {
      NoDuplicatesCount(a);
      forall i, j | 0 <= i < j < |b| ensures b[i] != b[j] {
        if b[i] == b[j] {
          RepetitionCounts(b, i, j);
        }
      }
    }
  }

  lemma RepetitionCounts(s: seq<string>, i: nat, j: nat)
    requires i < j < |s| && s[i] == s[j]
    ensures multiset(s)[s[i]] >= 2
  {
    assert s == s[..j] + s[j..] && s[..j][i] == s[i] && s[j..][0] == s[j];
    assert s[i] in multiset(s[..j]) && s[j] in multiset(s[j..]);
    assert multiset(s) == multiset(s[..j]) + multiset(s[j..]);
  }

  lemma SameElementsSameMultiset(a: seq<string>, b: seq<string>)
    requires NoDuplicates(a) && NoDuplicates(b)
    requires forall x :: x in a <==> x in b
    ensures multiset(a) == multiset(b)
  {
    NoDuplicatesCount(a);
    NoDuplicatesCount(b);
    forall x ensures multiset(a)[x] == multiset(b)[x] {
      assert x in a <==> x in multiset(a);
      assert x in b <==> x in multiset(b);
    }
  }

  /** The sorted listing of a set of strings. */
  ghost function Listing(s: set<string>): (r: seq<string>)
    ensures Sorted(r) && (forall x :: x in r <==> x in s)
  {
    var r := Sort(ToSeq(s));
    assert forall x :: x in r <==> x in multiset(r);
    assert forall x :: x in ToSeq(s) <==> x in multiset(ToSeq(s));
    r
  }

  /** A listing rises strictly in byte order. */
  lemma ListingRises(s: set<string>)
    ensures var r := Listing(s); forall i, j :: 0 <= i < j < |r| ==> Below(r[i], r[j])
  {
    var r := Listing(s);
    forall i, j | 0 <= i < j < |r| ensures Below(r[i], r[j]) {
      LeqMeaning(r[i], r[j]);
      assert multiset(r) == multiset(ToSeq(s));
      if r[i] == r[j] {
        NoDuplicatesCount(ToSeq(s));
        RepetitionCounts(r, i, j);
      }
    }
  }

  /** Sorting any duplicate-free enumeration of a set yields its listing. */
  lemma SortIsListing(s: seq<string>, elements: set<string>)
    requires NoDuplicates(s)
    requires forall x :: x in s <==> x in elements
    ensures Sort(s) == Listing(elements)
  {
    SameElementsSameMultiset(s, ToSeq(elements));
    SortedUnique(Sort(s), Listing(elements));
  }

  /** The members of a set in sorted order, however they are enumerated. */
  method SortedElements(elements: set<string>) returns (list: seq<string>)
    ensures list == Listing(elements)
  {
    list := [];
    var rest := elements;
    while rest != {}
      invariant rest <= elements && NoDuplicates(list)
      invariant forall x :: x in list <==> x in elements - rest
      decreases rest
    {
      var x :| x in rest;
      rest := rest - {x};
      assert x !in list;
      list := list + [x];
    }
    SortIsListing(list, elements);
    list := Sort(list);
  }

  /** A slash-free string not yet used, standing for a random one. */
  method NewName(used: set<string>) returns (name: string)
    ensures name !in used && name != "" && '/' !in name
  {
    name := "0";
    var rest := used;
    while rest != {}
      invariant rest <= used && name != "" && '/' !in name
      invariant forall k :: k in used && k !in rest ==> |k| < |name|
      decreases rest
    {
      var k :| k in rest;
      rest := rest - {k};
      while |name| <= |k|
        invariant name != "" && '/' !in name
        invariant forall x :: x in used && x !in rest && x != k ==> |x| < |name|
        decreases |k| - |name|
      {
        name := name + "0";
      }
    }
  }
}
