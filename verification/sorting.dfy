/** `Array.prototype.sort` with the comparator `(a, b) => key(b) - key(a)`,
    which every "newest first" list of the application uses. ECMAScript
    requires the sort to be stable (section 23.1.3.30 of ECMA-262), so the
    model is a stable insertion sort: the result is the unique
    permutation of the input that is non-increasing in `key` and keeps
    elements of equal key in their original order. */
module Sorting {

  predicate SortedDesc<T>(s: seq<T>, key: T -> int) {
    forall i, j :: 0 <= i < j < |s| ==> key(s[i]) >= key(s[j])
  }

  /** The elements of `s` whose key is `v`, in their order in `s`. */
  function WithKey<T>(s: seq<T>, key: T -> int, v: int): seq<T> {
    if s == [] then [] else (if key(s[0]) == v then [s[0]] else []) + WithKey(s[1..], key, v)
  }

  lemma WithKeyCons<T>(x: T, s: seq<T>, key: T -> int, v: int)
    ensures WithKey([x] + s, key, v) == (if key(x) == v then [x] else []) + WithKey(s, key, v)
  {
    assert ([x] + s)[1..] == s;
  }

  /** Places `x` in front of the first element whose key is not larger. */
  function Insert<T>(x: T, s: seq<T>, key: T -> int): (r: seq<T>)
    requires SortedDesc(s, key)
    ensures |r| == |s| + 1
    ensures SortedDesc(r, key)
    ensures multiset(r) == multiset(s) + multiset{x}
    ensures forall v :: WithKey(r, key, v) == (if key(x) == v then [x] else []) + WithKey(s, key, v)
  {
    if s == [] || key(s[0]) <= key(x) then
      InsertFront(x, s, key);
      [x] + s
    else
      var t := Insert(x, s[1..], key);
      InsertBehind(x, s, t, key);
      [s[0]] + t
  }

  lemma InsertFront<T>(x: T, s: seq<T>, key: T -> int)
    requires SortedDesc(s, key)
    requires s == [] || key(s[0]) <= key(x)
    ensures SortedDesc([x] + s, key)
    ensures forall v :: WithKey([x] + s, key, v) == (if key(x) == v then [x] else []) + WithKey(s, key, v)
  {
    forall v ensures WithKey([x] + s, key, v) == (if key(x) == v then [x] else []) + WithKey(s, key, v) {
      WithKeyCons(x, s, key, v);
    }
    PrependMaximum(x, s, key);
  }

  lemma InsertBehind<T>(x: T, s: seq<T>, t: seq<T>, key: T -> int)
    requires s != [] && key(s[0]) > key(x)
    requires SortedDesc(s, key) && SortedDesc(t, key)
    requires multiset(t) == multiset(s[1..]) + multiset{x}
    requires forall v :: WithKey(t, key, v) == (if key(x) == v then [x] else []) + WithKey(s[1..], key, v)
    ensures SortedDesc([s[0]] + t, key)
    ensures multiset([s[0]] + t) == multiset(s) + multiset{x}
    ensures forall v :: WithKey([s[0]] + t, key, v) == (if key(x) == v then [x] else []) + WithKey(s, key, v)
  {
    var h, rest := s[0], s[1..];
    assert s == [h] + rest;
    HeadKeys(h, rest, t, x, key);
    BelowHead(x, s, t, key);
    PrependMaximum(h, t, key);
  }

  /** Selecting by key commutes with putting back a head that is larger
      than the inserted element. */
  lemma HeadKeys<T>(h: T, rest: seq<T>, t: seq<T>, x: T, key: T -> int)
    requires key(h) > key(x)
    requires forall v :: WithKey(t, key, v) == (if key(x) == v then [x] else []) + WithKey(rest, key, v)
    ensures forall v :: WithKey([h] + t, key, v) == (if key(x) == v then [x] else []) + WithKey([h] + rest, key, v)
  {
    forall v ensures WithKey([h] + t, key, v) == (if key(x) == v then [x] else []) + WithKey([h] + rest, key, v) {
      HeadKeysAt(h, rest, t, x, key, v);
    }
  }

  /** HeadKeys for a single key value. */
  lemma HeadKeysAt<T>(h: T, rest: seq<T>, t: seq<T>, x: T, key: T -> int, v: int)
    requires key(h) > key(x)
    requires WithKey(t, key, v) == (if key(x) == v then [x] else []) + WithKey(rest, key, v)
    ensures WithKey([h] + t, key, v) == (if key(x) == v then [x] else []) + WithKey([h] + rest, key, v)
  {
    WithKeyCons(h, t, key, v);
    WithKeyCons(h, rest, key, v);
  }

  /** Every element of the rest with `x` inserted has a key no larger
      than the head's. */
  lemma BelowHead<T>(x: T, s: seq<T>, t: seq<T>, key: T -> int)
    requires s != [] && key(s[0]) > key(x) && SortedDesc(s, key)
    requires multiset(t) == multiset(s[1..]) + multiset{x}
    ensures forall i :: 0 <= i < |t| ==> key(t[i]) <= key(s[0])
  {
    forall i | 0 <= i < |t| ensures key(t[i]) <= key(s[0]) {
      var y := t[i];
      assert y in multiset(t);
      if y != x {
        assert y in multiset(s[1..]);
        var k :| 0 <= k < |s[1..]| && s[1..][k] == y;
        assert s[k + 1] == y;
      }
    }
  }

  /** `list.sort((a, b) => key(b) - key(a))`. */
  function SortDesc<T>(s: seq<T>, key: T -> int): (r: seq<T>)
    ensures |r| == |s|
    ensures SortedDesc(r, key)
    ensures multiset(r) == multiset(s)
    ensures forall v :: WithKey(r, key, v) == WithKey(s, key, v)
  {
    if s == [] then []
    else
      assert s == [s[0]] + s[1..];
      Insert(s[0], SortDesc(s[1..], key), key)
  }

  /** Putting an element whose key is at least every other key in front of
      a sorted list keeps it sorted. */
  lemma PrependMaximum<T>(x: T, s: seq<T>, key: T -> int)
    requires SortedDesc(s, key)
    requires forall i :: 0 <= i < |s| ==> key(s[i]) <= key(x)
    ensures SortedDesc([x] + s, key)
  {
    forall i, j | 0 <= i < j < |[x] + s|
      ensures key(([x] + s)[i]) >= key(([x] + s)[j])
    {
      if i > 0 {
        assert ([x] + s)[i] == s[i - 1];
      }
    }
  }

  lemma {:induction false} WithKeyAppend<T>(a: seq<T>, b: seq<T>, key: T -> int, v: int)
    ensures WithKey(a + b, key, v) == WithKey(a, key, v) + WithKey(b, key, v)
  {
    if a == [] {
      assert a + b == b;
    } else {
      var h, rest := a[0], a[1..];
      WithKeyAppend(rest, b, key, v);
      assert a == [h] + rest;
      assert a + b == [h] + (rest + b);
      WithKeyCons(h, rest + b, key, v);
      WithKeyCons(h, rest, key, v);
    }
  }

  /** A key value that no element carries selects nothing; one that some
      element carries selects something. */
  lemma {:induction false} WithKeyEmpty<T>(s: seq<T>, key: T -> int, v: int)
    ensures WithKey(s, key, v) == [] <==> forall i :: 0 <= i < |s| ==> key(s[i]) != v
  {
    if s != [] {
      WithKeyEmpty(s[1..], key, v);
      assert forall i :: 1 <= i < |s| ==> s[i] == s[1..][i - 1];
    }
  }

  /** A non-increasing arrangement is pinned down by which elements carry
      each key and in what order: the sort's result is the only one. */
  lemma {:induction false} SortedUnique<T>(a: seq<T>, b: seq<T>, key: T -> int)
    requires SortedDesc(a, key) && SortedDesc(b, key)
    requires forall v :: WithKey(a, key, v) == WithKey(b, key, v)
    ensures a == b
    decreases |a|
  {
    SameKeysSameEmptiness(a, b, key);
    if a == [] {
    } else {
      WithKeyEmpty(b, key, key(a[0]));
      WithKeyEmpty(a, key, key(b[0]));
      assert WithKey(a, key, key(a[0])) != [];
      assert WithKey(b, key, key(b[0])) != [];
      assert key(a[0]) == key(b[0]);
      assert a[0] == b[0] by {
        assert WithKey(a, key, key(a[0]))[0] == a[0];
        assert WithKey(b, key, key(a[0]))[0] == b[0];
      }
      forall v ensures WithKey(a[1..], key, v) == WithKey(b[1..], key, v) {
        var p := if key(a[0]) == v then [a[0]] else [];
        assert WithKey(a, key, v) == p + WithKey(a[1..], key, v);
        assert WithKey(b, key, v) == p + WithKey(b[1..], key, v);
        assert (p + WithKey(a[1..], key, v))[|p|..] == WithKey(a[1..], key, v);
        assert (p + WithKey(b[1..], key, v))[|p|..] == WithKey(b[1..], key, v);
      }
      SortedUnique(a[1..], b[1..], key);
      assert a == [a[0]] + a[1..] && b == [b[0]] + b[1..];
    }
  }

  lemma SameKeysSameEmptiness<T>(a: seq<T>, b: seq<T>, key: T -> int)
    requires forall v :: WithKey(a, key, v) == WithKey(b, key, v)
    ensures a == [] <==> b == []
  {
    if a != [] {
      WithKeyEmpty(a, key, key(a[0]));
      WithKeyEmpty(b, key, key(a[0]));
    }
    if b != [] {
      WithKeyEmpty(a, key, key(b[0]));
      WithKeyEmpty(b, key, key(b[0]));
    }
  }

  /** Sorting a list that is already newest-first returns it unchanged. */
  lemma SortSortedIsIdentity<T>(s: seq<T>, key: T -> int)
    requires SortedDesc(s, key)
    ensures SortDesc(s, key) == s
  {
    SortedUnique(SortDesc(s, key), s, key);
  }

  /** Adding an element strictly newer than all others at the end and
      sorting puts it in front of the sorted rest. */
  lemma SortAppendNewest<T>(s: seq<T>, x: T, key: T -> int)
    requires forall i :: 0 <= i < |s| ==> key(s[i]) < key(x)
    ensures SortDesc(s + [x], key) == [x] + SortDesc(s, key)
  {
    var t := SortDesc(s, key);
    assert forall i :: 0 <= i < |t| ==> key(t[i]) < key(x) by {
      forall i | 0 <= i < |t| ensures key(t[i]) < key(x) {
        assert t[i] in multiset(s);
      }
    }
    PrependMaximum(x, t, key);
    forall v ensures WithKey(SortDesc(s + [x], key), key, v) == WithKey([x] + t, key, v) {
      AppendNewestKeys(s, x, t, key, v);
    }
    SortedUnique(SortDesc(s + [x], key), [x] + t, key);
  }

  lemma AppendNewestKeys<T>(s: seq<T>, x: T, t: seq<T>, key: T -> int, v: int)
    requires forall i :: 0 <= i < |s| ==> key(s[i]) < key(x)
    requires WithKey(t, key, v) == WithKey(s, key, v)
    ensures WithKey(s + [x], key, v) == WithKey([x] + t, key, v)
  {
    WithKeyAppend(s, [x], key, v);
    WithKeyCons(x, t, key, v);
    WithKeyCons(x, [], key, v);
    assert [x] + [] == [x];
    if key(x) == v {
      WithKeyEmpty(s, key, v);
    }
  }
}
