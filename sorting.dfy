/**
 Go's string order and `sort.Strings`, specified as "the sorted permutation":
 the library's algorithm is not modelled, only what it guarantees.
 */
module Sorting {

  /** Go's `<` on strings. Go compares UTF-8 bytes; on decoded characters that is
      the same as lexicographic order on code points. */
  predicate Less(a: string, b: string)
  {
    if a == [] then b != []
    else b != [] && (a[0] < b[0] || (a[0] == b[0] && Less(a[1..], b[1..])))
  }

  lemma {:induction false} LessIrreflexive(a: string)
    ensures !Less(a, a)
  {
    if a != [] {
      LessIrreflexive(a[1..]);
    }
  }

  lemma {:induction false} LessTransitive(a: string, b: string, c: string)
    requires Less(a, b) && Less(b, c)
    ensures Less(a, c)
  {
    if a != [] && a[0] == b[0] && b[0] == c[0] {
      LessTransitive(a[1..], b[1..], c[1..]);
    }
  }

  lemma {:induction false} LessTotal(a: string, b: string)
    ensures a == b || Less(a, b) || Less(b, a)
  {
    if a != [] && b != [] && a[0] == b[0] {
      LessTotal(a[1..], b[1..]);
      if a[1..] == b[1..] {
        assert a == [a[0]] + a[1..] && b == [b[0]] + b[1..];
      }
    }
  }

  /** Not-less is transitive: the order used by `Sorted` chains. */
  lemma NotLessTransitive(a: string, b: string, c: string)
    requires !Less(b, a) && !Less(c, b)
    ensures !Less(c, a)
  {
    if Less(c, a) {
      LessTotal(a, b);
      if Less(a, b) {
        LessTransitive(c, a, b);
      }
    }
  }

  /** Two strings neither of which is below the other are equal. */
  lemma NotLessAntisymmetric(a: string, b: string)
    requires !Less(a, b) && !Less(b, a)
    ensures a == b
  {
    LessTotal(a, b);
  }

  /** Non-decreasing in Go's string order. */
  predicate Sorted(xs: seq<string>)
  {
    forall i, j :: 0 <= i < j < |xs| ==> !Less(xs[j], xs[i])
  }

  lemma InsertFrontSorted(x: string, xs: seq<string>)
    requires Sorted(xs) && (xs == [] || !Less(xs[0], x))
    ensures Sorted([x] + xs)
  {
    forall j | 0 <= j < |xs|
      ensures !Less(xs[j], x)
    {
      if j > 0 {
        NotLessTransitive(x, xs[0], xs[j]);
      }
    }
  }

  lemma ConsSorted(y: string, ys: seq<string>, x: string, rest: seq<string>)
    requires Sorted(rest) && Less(y, x)
    requires Sorted([y] + ys)
    requires multiset(rest) == multiset(ys) + multiset{x}
    ensures Sorted([y] + rest)
  {
    forall j | 0 <= j < |rest|
      ensures !Less(rest[j], y)
    {
      assert rest[j] in multiset(rest);
      if rest[j] == x {
        LessIrreflexive(y);
        if Less(x, y) {
          LessTransitive(y, x, y);
        }
      } else {
        assert rest[j] in multiset(ys);
        var k :| 0 <= k < |ys| && ys[k] == rest[j];
        assert ([y] + ys)[k + 1] == ys[k] && ([y] + ys)[0] == y;
      }
    }
    var r := [y] + rest;
    forall i, j | 0 <= i < j < |r|
      ensures !Less(r[j], r[i])
    {
      if i > 0 {
        assert r[i] == rest[i - 1] && r[j] == rest[j - 1];
      }
    }
  }

  /** One step of insertion sort. */
  function Insert(x: string, xs: seq<string>): (r: seq<string>)
    requires Sorted(xs)
    ensures Sorted(r) && multiset(r) == multiset(xs) + multiset{x}
  {
    if xs == [] then [x]
    else if !Less(xs[0], x) then
      InsertFrontSorted(x, xs);
      [x] + xs
    else
      var rest := Insert(x, xs[1..]);
      assert xs == [xs[0]] + xs[1..];
      ConsSorted(xs[0], xs[1..], x, rest);
      [xs[0]] + rest
  }

  /** `sort.Strings`: the result is sorted and a permutation of the input. */
  function SortStrings(xs: seq<string>): (r: seq<string>)
    ensures Sorted(r) && multiset(r) == multiset(xs)
  {
    if xs == [] then []
    else
      assert xs == [xs[0]] + xs[1..];
      Insert(xs[0], SortStrings(xs[1..]))
  }

  /** A sorted permutation is unique: sorting forgets the order of its input. */
  lemma {:induction false} SortedUnique(a: seq<string>, b: seq<string>)
    requires Sorted(a) && Sorted(b) && multiset(a) == multiset(b)
    ensures a == b
  {
    if a != [] {
      SortedHeads(a, b);
      DropHead(a, b);
      SortedUnique(a[1..], b[1..]);
      assert a == [a[0]] + a[1..] && b == [b[0]] + b[1..];
    } else {
      assert |multiset(b)| == 0;
    }
  }

  /** Two sorted permutations of each other start alike. */
  lemma SortedHeads(a: seq<string>, b: seq<string>)
    requires Sorted(a) && Sorted(b) && multiset(a) == multiset(b) && a != []
    ensures b != [] && a[0] == b[0]
  {
    assert a[0] in multiset(b);
    assert b != [];
    assert b[0] in multiset(a);
    var i :| 0 <= i < |a| && a[i] == b[0];
    var j :| 0 <= j < |b| && b[j] == a[0];
    assert !Less(a[0], b[0]) by {
      if j > 0 { assert !Less(b[j], b[0]); } else { LessIrreflexive(a[0]); }
    }
    assert !Less(b[0], a[0]) by {
      if i > 0 { assert !Less(a[i], a[0]); } else { LessIrreflexive(b[0]); }
    }
    NotLessAntisymmetric(a[0], b[0]);
  }

  /** Dropping equal heads keeps two sequences permutations of each other, and
      keeps them sorted. */
  lemma DropHead(a: seq<string>, b: seq<string>)
    requires Sorted(a) && Sorted(b) && multiset(a) == multiset(b)
    requires a != [] && b != [] && a[0] == b[0]
    ensures Sorted(a[1..]) && Sorted(b[1..]) && multiset(a[1..]) == multiset(b[1..])
  {
    SortedTail(a);
    SortedTail(b);
    assert a == [a[0]] + a[1..] && b == [b[0]] + b[1..];
    assert multiset(a) == multiset{a[0]} + multiset(a[1..]);
    assert multiset(b) == multiset{b[0]} + multiset(b[1..]);
    assert multiset(a[1..]) == multiset(a) - multiset{a[0]};
    assert multiset(b[1..]) == multiset(b) - multiset{b[0]};
  }

  lemma SortedTail(a: seq<string>)
    requires Sorted(a) && a != []
    ensures Sorted(a[1..])
  {
    forall i, j | 0 <= i < j < |a| - 1
      ensures !Less(a[1..][j], a[1..][i])
    {
      assert a[1..][j] == a[j + 1] && a[1..][i] == a[i + 1];
    }
  }

  predicate NoDup(xs: seq<string>)
  {
    forall i, j :: 0 <= i < j < |xs| ==> xs[i] != xs[j]
  }

  /** A duplicate-free sequence holds each of its elements exactly once. */
  lemma {:induction false} NoDupMultiset(xs: seq<string>, s: set<string>)
    requires NoDup(xs) && forall x :: x in xs <==> x in s
    ensures multiset(xs) == multiset(s)
  {
    if xs == [] {
      assert s == {};
    } else {
      var rest := xs[1..];
      assert xs == [xs[0]] + rest;
      assert xs[0] !in rest by {
        forall k | 0 <= k < |rest| ensures rest[k] != xs[0] {
          assert rest[k] == xs[k + 1];
        }
      }
      assert forall x :: x in rest <==> x in s - {xs[0]};
      NoDupMultiset(rest, s - {xs[0]});
      assert s == (s - {xs[0]}) + {xs[0]};
    }
  }

  /** Some listing of a finite set, with each element once. */
  ghost function SeqOfSet(s: set<string>): (r: seq<string>)
    ensures multiset(r) == multiset(s)
  {
    if s == {} then []
    else
      var x :| x in s;
      assert s == (s - {x}) + {x};
      [x] + SeqOfSet(s - {x})
  }

  /** The keys of a map in ascending order, each exactly once. */
  ghost function SortedKeys(s: set<string>): (r: seq<string>)
    ensures Sorted(r) && multiset(r) == multiset(s)
    ensures forall i :: 0 <= i < |r| ==> r[i] in s
  {
    var r := SortStrings(SeqOfSet(s));
    assert forall i :: 0 <= i < |r| ==> r[i] in multiset(r);
    r
  }

  /** Two positions holding the same element make it occur twice. */
  lemma TwiceCounted(r: seq<string>, i: int, j: int)
    requires 0 <= i < j < |r| && r[i] == r[j]
    ensures multiset(r)[r[i]] >= 2
  {
    assert r == r[..j] + r[j..];
    assert r[i] == r[..j][i];
    assert r[j] == r[j..][0];
    assert multiset(r) == multiset(r[..j]) + multiset(r[j..]);
  }

  /** A sorted listing of a set is strictly increasing. */
  lemma SortedSetStrict(r: seq<string>, s: set<string>)
    requires Sorted(r) && multiset(r) == multiset(s)
    ensures forall i, j :: 0 <= i < j < |r| ==> Less(r[i], r[j])
  {
    forall i, j | 0 <= i < j < |r|
      ensures Less(r[i], r[j])
    {
      if r[i] == r[j] {
        TwiceCounted(r, i, j);
      }
      LessTotal(r[i], r[j]);
    }
  }

  /** Sorting any duplicate-free listing of a set gives the same sequence:
      the order in which the listing was gathered does not matter. */
  lemma SortedListing(ks: seq<string>, s: set<string>)
    requires NoDup(ks) && forall x :: x in ks <==> x in s
    ensures SortStrings(ks) == SortedKeys(s)
  {
    NoDupMultiset(ks, s);
    SortedUnique(SortStrings(ks), SortedKeys(s));
  }
}
