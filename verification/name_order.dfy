/** Ordering by a text key as Python's `sorted(xs, key=...)` does it: `str`
    comparison is lexicographic by code point, and the sort is stable. The sort
    is given here as an insertion sort and characterised by three facts:
    the result is ordered, it is a permutation of the input, and the items that
    share a key keep their input order; those facts determine it uniquely, so any
    stable sort (Python's included) yields the same sequence. */
module NameOrder {

  /** Python's `a < b` on `str`. */
  predicate Less(a: string, b: string) {
    if a == [] then b != []
    else if b == [] then false
    else if a[0] != b[0] then a[0] < b[0]
    else Less(a[1..], b[1..])
  }

  lemma {:induction false} LessIrreflexive(a: string)
    ensures !Less(a, a)
  {
    if a != [] {
      LessIrreflexive(a[1..]);
    }
  }

  lemma {:induction false} LessTransitive(a: string, b: string, c: string)
    requires Less(a, b) && Less(b, c)
    ensures Less(a, c)
  {
    if a != [] && a[0] == b[0] && b[0] == c[0] {
      LessTransitive(a[1..], b[1..], c[1..]);
    }
  }

  lemma {:induction false} LessTotal(a: string, b: string)
    ensures a == b || Less(a, b) || Less(b, a)
  {
    if a != [] && b != [] && a[0] == b[0] {
      LessTotal(a[1..], b[1..]);
      if a[1..] == b[1..] {
        assert a == [a[0]] + a[1..] && b == [b[0]] + b[1..];
      }
    }
  }

  lemma LessAsymmetric(a: string, b: string)
    requires Less(a, b)
    ensures !Less(b, a)
  {
    if Less(b, a) {
      LessTransitive(a, b, a);
      LessIrreflexive(a);
    }
  }

  /** `s` is in non-decreasing order of `key`. */
  predicate SortedBy<T>(s: seq<T>, key: T -> string) {
    forall i, j :: 0 <= i < j < |s| ==> !Less(key(s[j]), key(s[i]))
  }

  /** The items of `s` whose key is `k`, in their order in `s`. */
  function WithKey<T>(s: seq<T>, key: T -> string, k: string): seq<T> {
    if s == [] then []
    else (if key(s[0]) == k then [s[0]] else []) + WithKey(s[1..], key, k)
  }

  lemma {:induction false} WithKeyAppend<T>(a: seq<T>, b: seq<T>, key: T -> string, k: string)
    ensures WithKey(a + b, key, k) == WithKey(a, key, k) + WithKey(b, key, k)
  {
    if a == [] {
      assert a + b == b;
    } else {
      assert (a + b)[1..] == a[1..] + b;
      WithKeyAppend(a[1..], b, key, k);
    }
  }

  /** `x` placed into the sorted `t` after every item whose key is not greater. */
  function Insert<T>(t: seq<T>, x: T, key: T -> string): (r: seq<T>)
    ensures multiset(r) == multiset(t) + multiset{x}
  {
    if t == [] then [x]
    else if Less(key(x), key(t[0])) then [x] + t
    else
      assert t == [t[0]] + t[1..];
      [t[0]] + Insert(t[1..], x, key)
  }

  lemma {:induction false} InsertSorted<T>(t: seq<T>, x: T, key: T -> string)
    requires SortedBy(t, key)
    ensures SortedBy(Insert(t, x, key), key)
  {
    if t == [] {
    } else if Less(key(x), key(t[0])) {
      forall j | 0 <= j < |t|
        ensures !Less(key(t[j]), key(x))
      {
        if j > 0 {
          LessTotal(key(t[0]), key(t[j]));
          if Less(key(t[0]), key(t[j])) {
            LessTransitive(key(x), key(t[0]), key(t[j]));
          }
        }
        LessAsymmetric(key(x), key(t[j]));
      }
    } else {
      var rest := Insert(t[1..], x, key);
      InsertSorted(t[1..], x, key);
      forall j | 0 <= j < |rest|
        ensures !Less(key(rest[j]), key(t[0]))
      {
        assert rest[j] in multiset(rest);
        if rest[j] != x {
          assert rest[j] in multiset(t[1..]);
          var m :| 0 <= m < |t[1..]| && t[1..][m] == rest[j];
          assert t[m + 1] == rest[j];
        }
      }
    }
  }

  /** Inserting `x` appends it to the items that share its key and changes no other key's items. */
  lemma {:induction false} WithKeyInsert<T>(t: seq<T>, x: T, key: T -> string, k: string)
    requires SortedBy(t, key)
    ensures WithKey(Insert(t, x, key), key, k) == WithKey(t, key, k) + (if key(x) == k then [x] else [])
  {
    if t == [] {
    } else if Less(key(x), key(t[0])) {
      if key(x) == k {
        WithKeyAbsent(t, key, k);
      }
    } else {
      WithKeyInsert(t[1..], x, key, k);
    }
  }

  /** No item of a sorted sequence whose first key is greater than `k` has key `k`. */
  lemma {:induction false} WithKeyAbsent<T>(t: seq<T>, key: T -> string, k: string)
    requires SortedBy(t, key) && t != [] && Less(k, key(t[0]))
    ensures WithKey(t, key, k) == []
  {
    LessIrreflexive(k);
    if |t| > 1 {
      LessTotal(key(t[0]), key(t[1]));
      if Less(key(t[0]), key(t[1])) {
        LessTransitive(k, key(t[0]), key(t[1]));
      }
      WithKeyAbsent(t[1..], key, k);
    }
  }

  /** `sorted(s, key=key)`. */
  function SortBy<T>(s: seq<T>, key: T -> string): (r: seq<T>)
    ensures multiset(r) == multiset(s)
    ensures SortedBy(r, key)
  {
    if s == [] then []
    else
      var p := s[..|s| - 1];
      assert s == p + [s[|s| - 1]];
      var sp := SortBy(p, key);
      InsertSorted(sp, s[|s| - 1], key);
      Insert(sp, s[|s| - 1], key)
  }

  /** The sort is stable: the items sharing any one key keep their input order. */
  lemma {:induction false} SortByStable<T>(s: seq<T>, key: T -> string, k: string)
    ensures WithKey(SortBy(s, key), key, k) == WithKey(s, key, k)
  {
    if s != [] {
      var p := s[..|s| - 1];
      var x := s[|s| - 1];
      assert s == p + [x];
      SortByStable(p, key, k);
      WithKeyInsert(SortBy(p, key), x, key, k);
      WithKeyAppend(p, [x], key, k);
    }
  }

  /** Two sorted sequences that agree on the items of every key are equal: the
      three facts above pin the result of any stable sort down. */
  lemma {:induction false} SortedUnique<T>(a: seq<T>, b: seq<T>, key: T -> string)
    requires SortedBy(a, key) && SortedBy(b, key) && multiset(a) == multiset(b)
    requires forall k :: WithKey(a, key, k) == WithKey(b, key, k)
    ensures a == b
  {
    assert |a| == |multiset(a)| == |multiset(b)| == |b|;
    if a != [] {
      var ka, kb := key(a[0]), key(b[0]);
      WithKeyFirst(a, key, kb);
      WithKeyFirst(b, key, ka);
      LessTotal(ka, kb);
      assert a[0] == WithKey(a, key, ka)[0] == WithKey(b, key, kb)[0] == b[0];
      TailsAgree(a, b, key);
      SortedTail(a, key);
      SortedTail(b, key);
      SortedUnique(a[1..], b[1..], key);
      assert a == [a[0]] + a[1..] && b == [b[0]] + b[1..];
    }
  }

  /** Removing the same first item from two sequences that agree per key and as
      multisets leaves two that still agree. */
  lemma TailsAgree<T>(a: seq<T>, b: seq<T>, key: T -> string)
    requires a != [] && b != [] && a[0] == b[0] && multiset(a) == multiset(b)
    requires forall k :: WithKey(a, key, k) == WithKey(b, key, k)
    ensures multiset(a[1..]) == multiset(b[1..])
    ensures forall k :: WithKey(a[1..], key, k) == WithKey(b[1..], key, k)
  {
    assert a == [a[0]] + a[1..] && b == [b[0]] + b[1..];
    assert multiset(a[1..]) == multiset(a) - multiset{a[0]};
    assert multiset(b[1..]) == multiset(b) - multiset{b[0]};
    forall k
      ensures WithKey(a[1..], key, k) == WithKey(b[1..], key, k)
    {
      var head := if key(a[0]) == k then [a[0]] else [];
      assert WithKey(a, key, k) == head + WithKey(a[1..], key, k);
      assert WithKey(b, key, k) == head + WithKey(b[1..], key, k);
      assert (head + WithKey(a[1..], key, k))[|head|..] == WithKey(a[1..], key, k);
      assert (head + WithKey(b[1..], key, k))[|head|..] == WithKey(b[1..], key, k);
    }
  }

  lemma SortedTail<T>(s: seq<T>, key: T -> string)
    requires SortedBy(s, key) && s != []
    ensures SortedBy(s[1..], key)
  {
    forall i, j | 0 <= i < j < |s[1..]|
      ensures !Less(key(s[1..][j]), key(s[1..][i]))
    {
      assert s[1..][i] == s[i + 1] && s[1..][j] == s[j + 1];
    }
  }

  /** In a sorted sequence, a key that occurs is not below the first key. */
  lemma {:induction false} WithKeyFirst<T>(s: seq<T>, key: T -> string, k: string)
    requires SortedBy(s, key) && s != []
    requires WithKey(s, key, k) != []
    ensures !Less(k, key(s[0]))
  {
    if Less(k, key(s[0])) {
      WithKeyAbsent(s, key, k);
    }
  }
}
