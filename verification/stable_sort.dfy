/**
 * Stable descending sort by a real-valued key.
 *
 * The source sorts with `Array.prototype.sort((a, b) => key(b) - key(a))`,
 * which is stable; `StableSortIsUnique` shows that every stable descending
 * permutation is this one, so insertion sort is a faithful stand-in.
 */
module StableSort {

  /** `s` is non-increasing in `key`. */
  ghost predicate SortedDesc<T>(s: seq<T>, key: T -> real) {
    forall i, j :: 0 <= i < j < |s| ==> key(s[i]) >= key(s[j])
  }

  /** The elements of `s` whose key is `v`, in their order in `s`. */
  function KeyClass<T>(s: seq<T>, key: T -> real, v: real): seq<T>
  {
    if s == [] then []
    else (if key(s[0]) == v then [s[0]] else []) + KeyClass(s[1..], key, v)
  }

  lemma {:induction false} KeyClassMember<T>(s: seq<T>, key: T -> real, v: real, x: T)
    ensures x in KeyClass(s, key, v) <==> x in s && key(x) == v
  {
    if s != [] {
      KeyClassMember(s[1..], key, v, x);
      assert s == [s[0]] + s[1..];
    }
  }

  /** Inserts `x` in front of the first element whose key is not larger. */
  function Insert<T>(x: T, s: seq<T>, key: T -> real): (r: seq<T>)
    requires SortedDesc(s, key)
    ensures SortedDesc(r, key)
    ensures multiset(r) == multiset(s) + multiset{x}
    ensures |r| == |s| + 1
    ensures r[0] == x || (s != [] && r[0] == s[0])
  {
    if s == [] || key(x) >= key(s[0]) then [x] + s
    else
      var tail := Insert(x, s[1..], key);
      assert key(s[0]) >= key(tail[0]);
      assert s == [s[0]] + s[1..];
      [s[0]] + tail
  }

  /** An element at least as large as the head goes in front. */
  lemma InsertFront<T>(x: T, s: seq<T>, key: T -> real)
    requires SortedDesc(s, key)
    requires s == [] || key(x) >= key(s[0])
    ensures Insert(x, s, key) == [x] + s
  {
  }

  /** An element smaller than the head goes into the tail. */
  lemma InsertPast<T>(x: T, s: seq<T>, key: T -> real)
    requires SortedDesc(s, key)
    requires s != [] && key(x) < key(s[0])
    ensures SortedDesc(s[1..], key)
    ensures Insert(x, s, key) == [s[0]] + Insert(x, s[1..], key)
  {
  }

  /** Sorts `s` by non-increasing key, keeping equal-key elements in their input order. */
  function SortDesc<T>(s: seq<T>, key: T -> real): (r: seq<T>)
    ensures SortedDesc(r, key)
    ensures multiset(r) == multiset(s)
    ensures |r| == |s|
  {
    if s == [] then []
    else
      assert s == [s[0]] + s[1..];
      Insert(s[0], SortDesc(s[1..], key), key)
  }

  lemma KeyClassCons<T>(a: T, t: seq<T>, key: T -> real, v: real)
    ensures KeyClass([a] + t, key, v) == (if key(a) == v then [a] else []) + KeyClass(t, key, v)
  {
    assert ([a] + t)[0] == a && ([a] + t)[1..] == t;
  }

  lemma {:induction false} InsertClass<T>(x: T, s: seq<T>, key: T -> real, v: real)
    requires SortedDesc(s, key)
    ensures KeyClass(Insert(x, s, key), key, v)
         == (if key(x) == v then [x] else []) + KeyClass(s, key, v)
  {
    if s == [] || key(x) >= key(s[0]) {
      KeyClassCons(x, s, key, v);
    } else {
      var tail := Insert(x, s[1..], key);
      assert Insert(x, s, key) == [s[0]] + tail;
      InsertClass(x, s[1..], key, v);
      KeyClassCons(s[0], tail, key, v);
      KeyClassCons(s[0], s[1..], key, v);
      assert s == [s[0]] + s[1..];
      var cx: seq<T> := if key(x) == v then [x] else [];
      var c0: seq<T> := if key(s[0]) == v then [s[0]] else [];
      var rest := KeyClass(s[1..], key, v);
      assert cx == [] || c0 == [];
      assert c0 + (cx + rest) == cx + (c0 + rest);
    }
  }

  /** Stability: sorting does not reorder elements that share a key. */
  lemma {:induction false} SortDescStable<T>(s: seq<T>, key: T -> real, v: real)
    ensures KeyClass(SortDesc(s, key), key, v) == KeyClass(s, key, v)
  {
    if s != [] {
      SortDescStable(s[1..], key, v);
      InsertClass(s[0], SortDesc(s[1..], key), key, v);
    }
  }

  lemma SortedHeadIsMax<T>(s: seq<T>, key: T -> real, x: T)
    requires SortedDesc(s, key)
    requires x in s
    ensures key(s[0]) >= key(x)
  {
    var i :| 0 <= i < |s| && s[i] == x;
    if i > 0 {
      assert key(s[0]) >= key(s[i]);
    }
  }

  lemma HeadClassNonEmpty<T>(s: seq<T>, key: T -> real)
    ensures s != [] ==> KeyClass(s, key, key(s[0])) != []
  {
  }

  /**
   * Two non-increasing sequences whose key classes agree are equal: the
   * stable descending order of a sequence is unique.
   */
  lemma {:induction false} StableOrderUnique<T>(a: seq<T>, b: seq<T>, key: T -> real)
    requires SortedDesc(a, key) && SortedDesc(b, key)
    requires forall v :: KeyClass(a, key, v) == KeyClass(b, key, v)
    ensures a == b
    decreases |a|
  {
    HeadClassNonEmpty(a, key);
    HeadClassNonEmpty(b, key);
    if a == [] || b == [] {
    } else {
      var m := key(a[0]);
      KeyClassMember(a, key, m, a[0]);
      KeyClassMember(b, key, m, a[0]);
      SortedHeadIsMax(b, key, a[0]);
      KeyClassMember(b, key, key(b[0]), b[0]);
      KeyClassMember(a, key, key(b[0]), b[0]);
      SortedHeadIsMax(a, key, b[0]);
      assert key(b[0]) == m;
      assert KeyClass(a, key, m) == [a[0]] + KeyClass(a[1..], key, m);
      assert KeyClass(b, key, m) == [b[0]] + KeyClass(b[1..], key, m);
      assert KeyClass(a, key, m) == KeyClass(b, key, m);
      assert KeyClass(a, key, m)[0] == a[0];
      assert KeyClass(b, key, m)[0] == b[0];
      forall v
        ensures KeyClass(a[1..], key, v) == KeyClass(b[1..], key, v)
      {
        assert KeyClass(a, key, v) == KeyClass(b, key, v);
        assert KeyClass(a, key, v) == (if m == v then [a[0]] else []) + KeyClass(a[1..], key, v);
        assert KeyClass(b, key, v) == (if m == v then [b[0]] else []) + KeyClass(b[1..], key, v);
        if m == v {
          assert KeyClass(a[1..], key, v) == KeyClass(a, key, v)[1..];
          assert KeyClass(b[1..], key, v) == KeyClass(b, key, v)[1..];
        } else {
          assert KeyClass(a[1..], key, v) == KeyClass(a, key, v);
          assert KeyClass(b[1..], key, v) == KeyClass(b, key, v);
        }
      }
      StableOrderUnique(a[1..], b[1..], key);
      assert a == [a[0]] + a[1..];
      assert b == [b[0]] + b[1..];
    }
  }

  /** Any stable non-increasing arrangement of `s` is `SortDesc(s, key)`. */
  lemma StableSortIsUnique<T>(s: seq<T>, r: seq<T>, key: T -> real)
    requires SortedDesc(r, key)
    requires forall v :: KeyClass(r, key, v) == KeyClass(s, key, v)
    ensures r == SortDesc(s, key)
  {
    forall v
      ensures KeyClass(r, key, v) == KeyClass(SortDesc(s, key), key, v)
    {
      SortDescStable(s, key, v);
    }
    StableOrderUnique(r, SortDesc(s, key), key);
  }

  /** Sorting a list that is already non-increasing leaves it unchanged; in particular sorting twice is sorting once. */
  lemma {:induction false} SortDescOfSorted<T>(s: seq<T>, key: T -> real)
    requires SortedDesc(s, key)
    ensures SortDesc(s, key) == s
  {
    if s != [] {
      assert SortedDesc(s[1..], key);
      SortDescOfSorted(s[1..], key);
      assert s == [s[0]] + s[1..];
    }
  }

  lemma SortDescMember<T>(s: seq<T>, key: T -> real, x: T)
    ensures x in SortDesc(s, key) <==> x in s
  {
    assert x in multiset(SortDesc(s, key)) <==> x in multiset(s);
  }

  lemma {:induction false} KeyClassPositions<T>(s: seq<T>, key: T -> real, a: nat, b: nat)
    requires a < b < |s|
    requires key(s[a]) == key(s[b])
    ensures exists pa, pb :: (0 <= pa < pb < |KeyClass(s, key, key(s[a]))|
      && KeyClass(s, key, key(s[a]))[pa] == s[a] && KeyClass(s, key, key(s[a]))[pb] == s[b])
  {
    var v := key(s[a]);
    var c := KeyClass(s, key, v);
    var rest := KeyClass(s[1..], key, v);
    assert s[1..][b - 1] == s[b];
    if a == 0 {
      assert c == [s[0]] + rest;
      KeyClassMember(s[1..], key, v, s[b]);
      var q :| 0 <= q < |rest| && rest[q] == s[b];
      assert c[0] == s[a] && c[q + 1] == s[b];
    } else {
      assert s[1..][a - 1] == s[a];
      KeyClassPositions(s[1..], key, a - 1, b - 1);
      var pa, pb :| 0 <= pa < pb < |rest| && rest[pa] == s[a] && rest[pb] == s[b];
      var h := if key(s[0]) == v then 1 else 0;
      assert c == (if h == 1 then [s[0]] else []) + rest;
      assert c[pa + h] == s[a] && c[pb + h] == s[b];
    }
  }

  lemma {:induction false} KeyClassOrigins<T>(s: seq<T>, key: T -> real, v: real, pa: nat, pb: nat)
    requires pa < pb < |KeyClass(s, key, v)|
    ensures exists a, b :: (0 <= a < b < |s|
      && s[a] == KeyClass(s, key, v)[pa] && s[b] == KeyClass(s, key, v)[pb])
  {
    var c := KeyClass(s, key, v);
    var rest := KeyClass(s[1..], key, v);
    if key(s[0]) == v {
      assert c == [s[0]] + rest;
      if pa == 0 {
        assert c[pb] in rest;
        KeyClassMember(s[1..], key, v, c[pb]);
        var q :| 0 <= q < |s[1..]| && s[1..][q] == c[pb];
        assert s[0] == c[0] && s[q + 1] == c[pb];
      } else {
        KeyClassOrigins(s[1..], key, v, pa - 1, pb - 1);
        var a, b :| 0 <= a < b < |s[1..]| && s[1..][a] == rest[pa - 1] && s[1..][b] == rest[pb - 1];
        assert s[a + 1] == c[pa] && s[b + 1] == c[pb];
      }
    } else {
      assert c == rest;
      KeyClassOrigins(s[1..], key, v, pa, pb);
      var a, b :| 0 <= a < b < |s[1..]| && s[1..][a] == rest[pa] && s[1..][b] == rest[pb];
      assert s[a + 1] == c[pa] && s[b + 1] == c[pb];
    }
  }

  /** Pointwise stability: two equal-key elements of the sorted output occur in the same order in the input. */
  lemma SortDescKeepsTieOrder<T>(s: seq<T>, key: T -> real, a: nat, b: nat)
    requires a < b < |SortDesc(s, key)|
    requires key(SortDesc(s, key)[a]) == key(SortDesc(s, key)[b])
    ensures exists a', b' :: (0 <= a' < b' < |s|
      && s[a'] == SortDesc(s, key)[a] && s[b'] == SortDesc(s, key)[b])
  {
    var r := SortDesc(s, key);
    var v := key(r[a]);
    KeyClassPositions(r, key, a, b);
    var pa, pb :| 0 <= pa < pb < |KeyClass(r, key, v)| && KeyClass(r, key, v)[pa] == r[a] && KeyClass(r, key, v)[pb] == r[b];
    SortDescStable(s, key, v);
    KeyClassOrigins(s, key, v, pa, pb);
  }
}
