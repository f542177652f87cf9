/** Facts about sequences viewed as sets: the row lists the database returns
    and the JavaScript arrays the service builds never repeat an element, and
    the service compares their lengths with the sizes of sets. */
module Collections {

  /** No element occurs twice. */
  predicate NoDup<T(==)>(s: seq<T>) {
    forall i, j :: 0 <= i < j < |s| ==> s[i] != s[j]
  }

  /** The elements of a sequence. */
  function Elements<T>(s: seq<T>): set<T> {
    set x | x in s
  }

  /** A sequence has at most as many distinct elements as it is long, and
      exactly as many when (and only when) it repeats none. */
  lemma {:induction false} ElementsCard<T>(s: seq<T>)
    ensures |Elements(s)| <= |s|
    ensures |Elements(s)| == |s| <==> NoDup(s)
  {
    if s != [] {
      var t := s[1..];
      ElementsCard(t);
      assert Elements(s) == {s[0]} + Elements(t) by {
        forall x | x in Elements(s) ensures x in {s[0]} + Elements(t) {
          var k :| 0 <= k < |s| && s[k] == x;
          if k > 0 { assert t[k - 1] == x; }
        }
      }
      if s[0] in t {
        assert Elements(s) == Elements(t);
        var k :| 0 <= k < |t| && t[k] == s[0];
        assert s[0] == s[k + 1];
        assert !NoDup(s);
      } else {
        assert |Elements(s)| == |Elements(t)| + 1;
        if NoDup(t) {
          forall i, j | 0 <= i < j < |s| ensures s[i] != s[j] {
            if i == 0 { assert s[j] == t[j - 1]; } else { assert s[i] == t[i - 1] && s[j] == t[j - 1]; }
          }
        } else {
          var i, j :| 0 <= i < j < |t| && t[i] == t[j];
          assert s[i + 1] == s[j + 1];
        }
      }
    }
  }

  /** A subset is no larger than its superset, and one of the same size is
      the whole superset. */
  lemma SubsetCard<T>(a: set<T>, b: set<T>)
    requires a <= b
    ensures |a| <= |b|
    ensures |a| == |b| ==> a == b
  {
    assert b == a + (b - a);
    assert a * (b - a) == {};
    if |a| == |b| {
      assert |b - a| == 0;
    }
  }

  /** The keys of `m` in `dom` map to pairwise distinct values. */
  ghost predicate InjectiveOn<K, V>(m: map<K, V>, dom: set<K>)
    requires dom <= m.Keys
  {
    forall x, y :: x in dom && y in dom && x != y ==> m[x] != m[y]
  }

  /** The values `m` gives the keys in `dom`. */
  function Image<K, V>(m: map<K, V>, dom: set<K>): set<V>
    requires dom <= m.Keys
  {
    set x | x in dom :: m[x]
  }

  /** An injective map sends a set onto an image of the same size. */
  lemma {:induction false} InjectiveImageCard<K, V>(m: map<K, V>, dom: set<K>)
    requires dom <= m.Keys && InjectiveOn(m, dom)
    ensures |Image(m, dom)| == |dom|
    decreases dom
  {
    if dom != {} {
      var x :| x in dom;
      var rest := dom - {x};
      InjectiveImageCard(m, rest);
      assert Image(m, dom) == Image(m, rest) + {m[x]};
      assert m[x] !in Image(m, rest);
    }
  }

  /** The rows of a query result: the elements of `s`, each once, in an order
      the caller cannot rely on (SQL without ORDER BY). */
  method Enumerate<T(==)>(s: set<T>) returns (r: seq<T>)
    ensures NoDup(r) && Elements(r) == s
  {
    r := [];
    var rest := s;
    while rest != {}
      invariant NoDup(r)
      invariant Elements(r) + rest == s && Elements(r) * rest == {}
      decreases |rest|
    {
      var x :| x in rest;
      r := r + [x];
      rest := rest - {x};
    }
  }

  /** `items.forEach((x) => set.add(x))` on a JavaScript Set, kept as the list
      of its elements in insertion order: an element already present is not
      added again, the others are appended in turn. */
  method AddEach<T(==)>(set0: seq<T>, items: seq<T>) returns (r: seq<T>)
    requires NoDup(set0)
    ensures NoDup(r)
    ensures Elements(r) == Elements(set0) + Elements(items)
    ensures |set0| <= |r| && r[..|set0|] == set0
  {
    r := set0;
    for i := 0 to |items|
      invariant NoDup(r)
      invariant Elements(r) == Elements(set0) + Elements(items[..i])
      invariant |set0| <= |r| && r[..|set0|] == set0
    {
      assert Elements(items[..i + 1]) == Elements(items[..i]) + {items[i]} by {
        assert items[..i + 1] == items[..i] + [items[i]];
      }
      if items[i] !in r {
        assert Elements(r + [items[i]]) == Elements(r) + {items[i]};
        r := r + [items[i]];
      }
    }
    assert items[..|items|] == items;
  }
}
