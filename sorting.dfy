/** `Array.prototype.sort` with a comparator of the form
    `(a, b) => key(b) - key(a)`, as the post listings and the related-posts
    ranking use it: a stable sort into non-increasing key order. */
module StableSort {

  /** Keys never increase from left to right. */
  ghost predicate SortedDesc<T>(s: seq<T>, key: T -> int) {
    forall i, j :: 0 <= i < j < |s| ==> key(s[i]) >= key(s[j])
  }

  /** The elements of `s` whose key is `k`, in their order in `s`. */
  function WithKey<T>(s: seq<T>, key: T -> int, k: int): seq<T> {
    if s == [] then []
    else (if key(s[0]) == k then [s[0]] else []) + WithKey(s[1..], key, k)
  }

  /** Places `x` in front of the first element whose key is not larger than
      its own, so `x` precedes the elements of equal key that follow it. */
  function Insert<T>(x: T, s: seq<T>, key: T -> int): seq<T> {
    if s == [] || key(s[0]) <= key(x) then [x] + s
    else [s[0]] + Insert(x, s[1..], key)
  }

  lemma {:induction false} InsertSorted<T>(x: T, s: seq<T>, key: T -> int)
    requires SortedDesc(s, key)
    ensures SortedDesc(Insert(x, s, key), key)
    ensures |Insert(x, s, key)| == |s| + 1
    ensures Insert(x, s, key) != [] && Insert(x, s, key)[0] in {x} + (if s == [] then {} else {s[0]})
  {
    if s == [] || key(s[0]) <= key(x) {
    } else {
      var t := s[1..];
      assert SortedDesc(t, key) by {
        forall i, j | 0 <= i < j < |t| ensures key(t[i]) >= key(t[j]) {
          assert t[i] == s[i + 1] && t[j] == s[j + 1];
        }
      }
      InsertSorted(x, t, key);
      var r := Insert(x, s, key);
      var rt := Insert(x, t, key);
      assert r == [s[0]] + rt;
      var below := (y: T) => key(y) <= key(s[0]);
      forall m | 0 <= m < |t| ensures below(t[m]) {
        assert t[m] == s[m + 1];
      }
      InsertAll(x, t, key, below);
      forall j | 0 < j < |r| ensures key(r[0]) >= key(r[j]) {
        assert r[j] == rt[j - 1];
      }
    }
  }

  /** Every element of the insertion is `x` or an element of `s`, so a
      property they all have carries over. */
  lemma {:induction false} InsertAll<T>(x: T, s: seq<T>, key: T -> int, p: T -> bool)
    requires p(x) && forall m :: 0 <= m < |s| ==> p(s[m])
    ensures forall m :: 0 <= m < |Insert(x, s, key)| ==> p(Insert(x, s, key)[m])
  {
    if !(s == [] || key(s[0]) <= key(x)) {
      var t := s[1..];
      forall m | 0 <= m < |t| ensures p(t[m]) {
        assert t[m] == s[m + 1];
      }
      InsertAll(x, t, key, p);
    }
  }

  lemma {:induction false} InsertMultiset<T>(x: T, s: seq<T>, key: T -> int)
    ensures multiset(Insert(x, s, key)) == multiset(s) + multiset{x}
  {
    if s == [] || key(s[0]) <= key(x) {
    } else {
      InsertMultiset(x, s[1..], key);
      assert s == [s[0]] + s[1..];
    }
  }

  lemma {:induction false} WithKeyCons<T>(x: T, s: seq<T>, key: T -> int, k: int)
    ensures WithKey([x] + s, key, k) == (if key(x) == k then [x] else []) + WithKey(s, key, k)
  {
    assert ([x] + s)[1..] == s;
  }

  /** Inserting `x` adds it to the front of its own key group and leaves every
      other key group as it was. */
  lemma {:induction false} InsertWithKey<T>(x: T, s: seq<T>, key: T -> int, k: int)
    ensures WithKey(Insert(x, s, key), key, k) ==
            if key(x) == k then [x] + WithKey(s, key, k) else WithKey(s, key, k)
  {
    if s == [] || key(s[0]) <= key(x) {
      WithKeyCons(x, s, key, k);
    } else {
      InsertWithKey(x, s[1..], key, k);
      WithKeyCons(s[0], Insert(x, s[1..], key), key, k);
      assert s == [s[0]] + s[1..];
      WithKeyCons(s[0], s[1..], key, k);
    }
  }

  /** One step of the sort: putting the head back into the sorted tail. */
  lemma {:induction false} SortStep<T>(s: seq<T>, rest: seq<T>, key: T -> int)
    requires s != [] && SortedDesc(rest, key) && multiset(rest) == multiset(s[1..])
    requires forall k :: WithKey(rest, key, k) == WithKey(s[1..], key, k)
    ensures SortedDesc(Insert(s[0], rest, key), key)
    ensures multiset(Insert(s[0], rest, key)) == multiset(s)
    ensures forall k :: WithKey(Insert(s[0], rest, key), key, k) == WithKey(s, key, k)
  {
    InsertSorted(s[0], rest, key);
    InsertMultiset(s[0], rest, key);
    assert s == [s[0]] + s[1..];
    forall k ensures WithKey(Insert(s[0], rest, key), key, k) == WithKey(s, key, k) {
      InsertWithKey(s[0], rest, key, k);
      WithKeyCons(s[0], s[1..], key, k);
    }
  }

  /** The stable sort: the result is in non-increasing key order, is a
      permutation of the input, and lists the elements of each key in the
      order the input lists them. */
  function SortDesc<T(==)>(s: seq<T>, key: T -> int): (r: seq<T>)
    ensures SortedDesc(r, key)
    ensures multiset(r) == multiset(s)
    ensures forall k :: WithKey(r, key, k) == WithKey(s, key, k)
  {
    if s == [] then []
    else
      var rest := SortDesc(s[1..], key);
      SortStep(s, rest, key);
      Insert(s[0], rest, key)
  }

  lemma SortDescLength<T>(s: seq<T>, key: T -> int)
    ensures |SortDesc(s, key)| == |s|
  {
    assert |multiset(SortDesc(s, key))| == |multiset(s)|;
  }

  /** The sorted sequence holds exactly the input's elements. */
  lemma SortDescMembers<T>(s: seq<T>, key: T -> int)
    ensures |SortDesc(s, key)| == |s|
    ensures forall i :: 0 <= i < |SortDesc(s, key)| ==> SortDesc(s, key)[i] in s
    ensures forall k :: 0 <= k < |s| ==> s[k] in SortDesc(s, key)
  {
    var r := SortDesc(s, key);
    SortDescLength(s, key);
    forall i | 0 <= i < |r| ensures r[i] in s {
      assert r[i] in multiset(r);
    }
    forall k | 0 <= k < |s| ensures s[k] in r {
      assert s[k] in multiset(s);
    }
  }

  /** Elements of equal key appear in increasing `ord` order. */
  ghost predicate StableWrt<T>(s: seq<T>, key: T -> int, ord: T -> int) {
    forall i, j :: 0 <= i < j < |s| && key(s[i]) == key(s[j]) ==> ord(s[i]) < ord(s[j])
  }

  lemma {:induction false} InsertStable<T>(x: T, s: seq<T>, key: T -> int, ord: T -> int)
    requires StableWrt(s, key, ord)
    requires forall m :: 0 <= m < |s| ==> ord(x) < ord(s[m])
    ensures StableWrt(Insert(x, s, key), key, ord)
  {
    var r := Insert(x, s, key);
    if s == [] || key(s[0]) <= key(x) {
      forall i, j | 0 <= i < j < |r| && key(r[i]) == key(r[j]) ensures ord(r[i]) < ord(r[j]) {
        assert r[j] == s[j - 1];
        if i > 0 { assert r[i] == s[i - 1]; }
      }
    } else {
      var t := s[1..];
      assert StableWrt(t, key, ord) by {
        forall i, j | 0 <= i < j < |t| && key(t[i]) == key(t[j]) ensures ord(t[i]) < ord(t[j]) {
          assert t[i] == s[i + 1] && t[j] == s[j + 1];
        }
      }
      InsertStable(x, t, key, ord);
      var rt := Insert(x, t, key);
      assert r == [s[0]] + rt;
      var after := (y: T) => key(y) == key(s[0]) ==> ord(s[0]) < ord(y);
      forall m | 0 <= m < |t| ensures after(t[m]) {
        assert t[m] == s[m + 1];
      }
      InsertAll(x, t, key, after);
      forall i, j | 0 <= i < j < |r| && key(r[i]) == key(r[j]) ensures ord(r[i]) < ord(r[j]) {
        assert r[j] == rt[j - 1];
        if i > 0 {
          assert r[i] == rt[i - 1];
        }
      }
    }
  }

  /** Stability stated through an order the input already follows: elements
      of equal key keep that order after sorting. */
  lemma {:induction false} SortDescKeepsOrder<T>(s: seq<T>, key: T -> int, ord: T -> int)
    requires forall a, b :: 0 <= a < b < |s| ==> ord(s[a]) < ord(s[b])
    ensures StableWrt(SortDesc(s, key), key, ord)
  {
    if s != [] {
      var t := s[1..];
      assert forall a, b :: 0 <= a < b < |t| ==> ord(t[a]) < ord(t[b]) by {
        forall a, b | 0 <= a < b < |t| ensures ord(t[a]) < ord(t[b]) {
          assert t[a] == s[a + 1] && t[b] == s[b + 1];
        }
      }
      SortDescKeepsOrder(t, key, ord);
      var rest := SortDesc(t, key);
      forall m | 0 <= m < |rest| ensures ord(s[0]) < ord(rest[m]) {
        assert rest[m] in multiset(rest);
        assert rest[m] in t;
        var a :| 0 <= a < |t| && t[a] == rest[m];
        assert t[a] == s[a + 1];
      }
      InsertStable(s[0], rest, key, ord);
    }
  }
}
