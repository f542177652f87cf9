/** The two JavaScript string primitives the service relies on: lower-casing
    (`String.prototype.toLowerCase`) and the default order of `Array.prototype.sort`,
    which compares strings character by character. */
module Strings {
  import opened Collections

  /** Lower-cases one character; only A-Z change. */
  function LowerChar(c: char): char {
    if 'A' <= c <= 'Z' then (c as int - 'A' as int + 'a' as int) as char else c
  }

  /** `s.toLowerCase()` restricted to ASCII letters. */
  function Lower(s: string): (r: string)
    ensures |r| == |s|
    ensures forall k :: 0 <= k < |s| ==> r[k] == LowerChar(s[k])
  {
    seq(|s|, k requires 0 <= k < |s| => LowerChar(s[k]))
  }

  /** `emails.map((e) => e.toLowerCase())`. */
  function LowerAll(ss: seq<string>): (r: seq<string>)
    ensures |r| == |ss|
    ensures forall k :: 0 <= k < |ss| ==> r[k] == Lower(ss[k])
  {
    seq(|ss|, k requires 0 <= k < |ss| => Lower(ss[k]))
  }

  /** A string already in lower case. */
  predicate IsLower(s: string) {
    Lower(s) == s
  }

  /** Lower-casing twice is lower-casing once, so every stored key is lower case. */
  lemma LowerIdempotent(s: string)
    ensures IsLower(Lower(s))
  {
    assert forall k :: 0 <= k < |s| ==> LowerChar(LowerChar(s[k])) == LowerChar(s[k]);
  }

  /** Strict lexicographic order on code units: the comparison the default
      `sort()` makes between two strings. A proper prefix comes first. */
  predicate Less(a: string, b: string) {
    if |b| == 0 then false
    else if |a| == 0 then true
    else if a[0] != b[0] then a[0] < b[0]
    else Less(a[1..], b[1..])
  }

  lemma {:induction false} LessIrreflexive(a: string)
    ensures !Less(a, a)
  {
    if |a| > 0 { LessIrreflexive(a[1..]); }
  }

  lemma {:induction false} LessTransitive(a: string, b: string, c: string)
    requires Less(a, b) && Less(b, c)
    ensures Less(a, c)
  {
    if |a| > 0 && a[0] == b[0] && b[0] == c[0] {
      LessTransitive(a[1..], b[1..], c[1..]);
    }
  }

  /** Two different strings are always ordered one way or the other. */
  lemma {:induction false} LessTotal(a: string, b: string)
    requires a != b
    ensures Less(a, b) || Less(b, a)
  {
    if |a| > 0 && |b| > 0 && a[0] == b[0] {
      assert a == [a[0]] + a[1..] && b == [b[0]] + b[1..];
      LessTotal(a[1..], b[1..]);
    }
  }

  lemma LessAsymmetric(a: string, b: string)
    requires Less(a, b)
    ensures !Less(b, a)
  {
    if Less(b, a) {
      LessTransitive(a, b, a);
      LessIrreflexive(a);
    }
  }

  /** Non-decreasing order: no later element sorts before an earlier one. */
  ghost predicate Sorted(s: seq<string>) {
    forall i, j :: 0 <= i < j < |s| ==> !Less(s[j], s[i])
  }

  /** Strictly increasing order: sorted and free of duplicates. */
  ghost predicate StrictlySorted(s: seq<string>) {
    forall i, j :: 0 <= i < j < |s| ==> Less(s[i], s[j])
  }

  /** Inserts `x` before the first element that does not sort before it. */
  function Insert(x: string, ys: seq<string>): (r: seq<string>)
    ensures multiset(r) == multiset(ys) + multiset{x}
  {
    if ys == [] then [x]
    else if Less(ys[0], x) then
      assert ys == [ys[0]] + ys[1..];
      [ys[0]] + Insert(x, ys[1..])
    else [x] + ys
  }

  /** Inserting into a sorted list keeps it sorted. */
  lemma {:induction false} InsertSorted(x: string, ys: seq<string>)
    requires Sorted(ys)
    ensures Sorted(Insert(x, ys))
  {
    if ys == [] {
    } else if Less(ys[0], x) {
      InsertSorted(x, ys[1..]);
      InsertAfterHead(x, ys);
    } else {
      InsertAtHead(x, ys);
    }
  }

  lemma InsertAfterHead(x: string, ys: seq<string>)
    requires ys != [] && Less(ys[0], x)
    requires Sorted(ys) && Sorted(Insert(x, ys[1..]))
    ensures Sorted(Insert(x, ys))
  {
    LessAsymmetric(ys[0], x);
    forall k | 0 <= k < |ys[1..]| ensures !Less(ys[1..][k], ys[0]) {
      assert ys[1..][k] == ys[k + 1];
    }
    InsertAtLeast(x, ys[1..], ys[0]);
    SortedCons(ys[0], Insert(x, ys[1..]));
  }

  /** No element of `s` sorts before `h`. */
  ghost predicate AtLeast(h: string, s: seq<string>) {
    forall k :: 0 <= k < |s| ==> !Less(s[k], h)
  }

  lemma {:induction false} InsertAtLeast(x: string, ys: seq<string>, h: string)
    requires AtLeast(h, ys) && !Less(x, h)
    ensures AtLeast(h, Insert(x, ys))
  {
    if ys != [] && Less(ys[0], x) {
      InsertAtLeast(x, ys[1..], h);
      var r := Insert(x, ys);
      assert r == [ys[0]] + Insert(x, ys[1..]);
      forall k | 0 < k < |r| ensures !Less(r[k], h) {
        assert r[k] == Insert(x, ys[1..])[k - 1];
      }
    }
  }

  lemma SortedCons(h: string, rest: seq<string>)
    requires Sorted(rest) && AtLeast(h, rest)
    ensures Sorted([h] + rest)
  {
    var r := [h] + rest;
    forall i, j | 0 <= i < j < |r| ensures !Less(r[j], r[i]) {
      assert r[j] == rest[j - 1];
      if i > 0 { assert r[i] == rest[i - 1]; }
    }
  }

  lemma InsertAtHead(x: string, ys: seq<string>)
    requires ys != [] && !Less(ys[0], x)
    requires Sorted(ys)
    ensures Sorted(Insert(x, ys))
  {
    var r := [x] + ys;
    assert r == Insert(x, ys);
    forall j | 0 <= j < |ys| ensures !Less(ys[j], x) {
      if j > 0 {
        NotBelowHead(x, ys, j);
      }
    }
    forall i, j | 0 <= i < j < |r| ensures !Less(r[j], r[i]) {
      assert r[j] == ys[j - 1];
      if i > 0 { assert r[i] == ys[i - 1]; }
    }
  }

  lemma NotBelowHead(x: string, ys: seq<string>, j: nat)
    requires 0 < j < |ys| && !Less(ys[0], x) && Sorted(ys)
    ensures !Less(ys[j], x)
  {
    var y := ys[j];
    assert !Less(y, ys[0]);
    if Less(y, x) {
      if y == ys[0] {
      } else {
        LessTotal(ys[0], y);
        LessTransitive(ys[0], y, x);
      }
    }
  }

  /** `array.sort()` on strings: an insertion sort by `Less`. The result is a
      sorted permutation of the input. */
  function Sort(xs: seq<string>): (r: seq<string>)
    ensures multiset(r) == multiset(xs)
    ensures Sorted(r)
  {
    if xs == [] then []
    else
      assert xs == [xs[0]] + xs[1..];
      var rest := Sort(xs[1..]);
      InsertSorted(xs[0], rest);
      Insert(xs[0], rest)
  }

  /** A sorted list without duplicates is strictly increasing. */
  lemma SortedDistinct(s: seq<string>)
    requires Sorted(s) && NoDup(s)
    ensures StrictlySorted(s)
  {
    forall i, j | 0 <= i < j < |s| ensures Less(s[i], s[j]) {
      LessTotal(s[i], s[j]);
    }
  }

  /** Sorting a list that repeats nothing gives the strictly increasing list
      of the same elements. */
  lemma SortDistinct(xs: seq<string>)
    requires NoDup(xs)
    ensures StrictlySorted(Sort(xs))
    ensures Elements(Sort(xs)) == Elements(xs)
  {
    var r := Sort(xs);
    assert forall x :: x in r <==> x in multiset(r);
    assert forall x :: x in xs <==> x in multiset(xs);
    ElementsCard(xs);
    ElementsCard(r);
    assert |r| == |multiset(r)| == |xs|;
    assert Elements(r) == Elements(xs);
    SortedDistinct(r);
  }

  /** A strictly increasing list is determined by its elements: two calls that
      return the same set of emails return the same array. */
  lemma {:induction false} StrictlySortedUnique(a: seq<string>, b: seq<string>)
    requires StrictlySorted(a) && StrictlySorted(b)
    requires Elements(a) == Elements(b)
    ensures a == b
  {
    if a != [] { assert a[0] in Elements(a); }
    if b != [] { assert b[0] in Elements(b); }
    if a != [] && b != [] {
      assert a[0] in Elements(b) && b[0] in Elements(a);
      if a[0] != b[0] {
        var i :| 0 <= i < |b| && b[i] == a[0];
        var j :| 0 <= j < |a| && a[j] == b[0];
        assert i > 0 && j > 0;
        assert Less(b[0], b[i]) && Less(a[0], a[j]);
        LessAsymmetric(a[0], b[0]);
      }
      assert Elements(a[1..]) == Elements(b[1..]) by {
        forall x | x in Elements(a[1..]) ensures x in Elements(b[1..]) {
          var i :| 1 <= i < |a| && a[i] == x;
          assert Less(a[0], x) && x in Elements(a);
          var j :| 0 <= j < |b| && b[j] == x;
          if j == 0 { LessIrreflexive(x); }
        }
        forall x | x in Elements(b[1..]) ensures x in Elements(a[1..]) {
          var j :| 1 <= j < |b| && b[j] == x;
          assert Less(b[0], x) && x in Elements(b);
          var i :| 0 <= i < |a| && a[i] == x;
          if i == 0 { LessIrreflexive(x); }
        }
      }
      StrictlySortedUnique(a[1..], b[1..]);
      assert a == [a[0]] + a[1..] && b == [b[0]] + b[1..];
    }
  }
}
