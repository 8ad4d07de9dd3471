/** The stable sort both searches and the visit listing rely on (Python's
    `list.sort` with a key, and `ORDER BY` on the start instant), as an
    insertion sort: each element is placed after every element whose key is
    not larger, so elements with equal keys keep their input order. */
module StableSort {

  /** A sort key: an instant, then a display name. */
  datatype SortKey = SortKey(primary: int, secondary: string)

  /** Python's ordering of `str`: code point by code point, a proper prefix first. */
  predicate StrLe(a: string, b: string)
    decreases |a|
  {
    if |a| == 0 then true
    else if |b| == 0 then false
    else if a[0] != b[0] then a[0] < b[0]
    else StrLe(a[1..], b[1..])
  }

  lemma {:induction false} StrLeRefl(a: string)
    ensures StrLe(a, a)
    decreases |a|
  {
    if |a| > 0 {
      StrLeRefl(a[1..]);
    }
  }

  lemma {:induction false} StrLeTotal(a: string, b: string)
    ensures StrLe(a, b) || StrLe(b, a)
    decreases |a|
  {
    if |a| > 0 && |b| > 0 && a[0] == b[0] {
      StrLeTotal(a[1..], b[1..]);
    }
  }

  lemma {:induction false} StrLeTrans(a: string, b: string, c: string)
    requires StrLe(a, b) && StrLe(b, c)
    ensures StrLe(a, c)
    decreases |a|
  {
    if |a| > 0 && |b| > 0 && |c| > 0 && a[0] == b[0] == c[0] {
      StrLeTrans(a[1..], b[1..], c[1..]);
    }
  }

  /** Lexicographic order on keys: the instant first, the name second. */
  predicate KeyLe(x: SortKey, y: SortKey) {
    x.primary < y.primary || (x.primary == y.primary && StrLe(x.secondary, y.secondary))
  }

  lemma KeyLeTotal(x: SortKey, y: SortKey)
    ensures KeyLe(x, y) || KeyLe(y, x)
  {
    StrLeTotal(x.secondary, y.secondary);
  }

  lemma KeyLeTrans(x: SortKey, y: SortKey, z: SortKey)
    requires KeyLe(x, y) && KeyLe(y, z)
    ensures KeyLe(x, z)
  {
    if x.primary == y.primary == z.primary {
      StrLeTrans(x.secondary, y.secondary, z.secondary);
    }
  }

  ghost predicate SortedBy<T>(s: seq<T>, key: T -> SortKey) {
    forall i, j :: 0 <= i < j < |s| ==> KeyLe(key(s[i]), key(s[j]))
  }

  /** Places `x` after the longest prefix of `s` whose keys are not larger than its own. */
  function Insert<T>(x: T, s: seq<T>, key: T -> SortKey): seq<T> {
    if |s| == 0 then [x]
    else if !KeyLe(key(s[0]), key(x)) then [x] + s
    else [s[0]] + Insert(x, s[1..], key)
  }

  /** The sort: the elements are inserted in input order. */
  function Sort<T>(s: seq<T>, key: T -> SortKey): seq<T> {
    if |s| == 0 then []
    else Insert(s[|s| - 1], Sort(s[..|s| - 1], key), key)
  }

  /** The elements whose key is `k`, in their order of appearance. */
  function WithKey<T>(s: seq<T>, key: T -> SortKey, k: SortKey): seq<T> {
    if |s| == 0 then []
    else (if key(s[0]) == k then [s[0]] else []) + WithKey(s[1..], key, k)
  }

  lemma {:induction false} InsertPermutes<T>(x: T, s: seq<T>, key: T -> SortKey)
    ensures multiset(Insert(x, s, key)) == multiset(s) + multiset{x}
  {
    if |s| > 0 && KeyLe(key(s[0]), key(x)) {
      InsertPermutes(x, s[1..], key);
      assert s == [s[0]] + s[1..];
    }
  }

  /** Prepending an element no larger than every element keeps a sequence sorted. */
  lemma SortedCons<T>(h: T, t: seq<T>, key: T -> SortKey)
    requires SortedBy(t, key)
    requires forall j :: 0 <= j < |t| ==> KeyLe(key(h), key(t[j]))
    ensures SortedBy([h] + t, key)
  {
    var r := [h] + t;
    forall i, j | 0 <= i < j < |r| ensures KeyLe(key(r[i]), key(r[j])) {
      assert r[j] == t[j - 1];
      if i > 0 {
        assert r[i] == t[i - 1];
      }
    }
  }

  /** Inserting keeps every lower bound the element and the sequence share. */
  lemma InsertKeepsLowerBound<T>(b: SortKey, x: T, s: seq<T>, key: T -> SortKey)
    requires KeyLe(b, key(x))
    requires forall j :: 0 <= j < |s| ==> KeyLe(b, key(s[j]))
    ensures forall j :: 0 <= j < |Insert(x, s, key)| ==> KeyLe(b, key(Insert(x, s, key)[j]))
  {
    var t := Insert(x, s, key);
    InsertPermutes(x, s, key);
    forall j | 0 <= j < |t| ensures KeyLe(b, key(t[j])) {
      assert t[j] in multiset(t);
      if t[j] != x {
        assert t[j] in multiset(s);
        var i :| 0 <= i < |s| && s[i] == t[j];
      }
    }
  }

  lemma {:induction false} InsertSorted<T>(x: T, s: seq<T>, key: T -> SortKey)
    requires SortedBy(s, key)
    ensures SortedBy(Insert(x, s, key), key)
  {
    if |s| == 0 {
    } else if !KeyLe(key(s[0]), key(x)) {
      KeyLeTotal(key(s[0]), key(x));
      forall j | 0 <= j < |s| ensures KeyLe(key(x), key(s[j])) {
        if j > 0 {
          KeyLeTrans(key(x), key(s[0]), key(s[j]));
        }
      }
      SortedCons(x, s, key);
    } else {
      InsertSorted(x, s[1..], key);
      InsertKeepsLowerBound(key(s[0]), x, s[1..], key);
      SortedCons(s[0], Insert(x, s[1..], key), key);
    }
  }

  /** The result is sorted by key. */
  lemma {:induction false} SortSorted<T>(s: seq<T>, key: T -> SortKey)
    ensures SortedBy(Sort(s, key), key)
  {
    if |s| > 0 {
      SortSorted(s[..|s| - 1], key);
      InsertSorted(s[|s| - 1], Sort(s[..|s| - 1], key), key);
    }
  }

  /** The result is a permutation of the input: nothing is dropped or merged,
      so duplicate elements stay duplicated. */
  lemma {:induction false} SortPermutes<T>(s: seq<T>, key: T -> SortKey)
    ensures multiset(Sort(s, key)) == multiset(s)
  {
    if |s| > 0 {
      SortPermutes(s[..|s| - 1], key);
      InsertPermutes(s[|s| - 1], Sort(s[..|s| - 1], key), key);
      assert s == s[..|s| - 1] + [s[|s| - 1]];
    }
  }

  lemma {:induction false} WithKeyAppend<T>(a: seq<T>, b: seq<T>, key: T -> SortKey, k: SortKey)
    ensures WithKey(a + b, key, k) == WithKey(a, key, k) + WithKey(b, key, k)
  {
    if |a| > 0 {
      WithKeyAppend(a[1..], b, key, k);
      assert (a + b)[1..] == a[1..] + b;
    } else {
      assert a + b == b;
    }
  }

  lemma {:induction false} WithKeyNone<T>(s: seq<T>, key: T -> SortKey, k: SortKey)
    requires forall i :: 0 <= i < |s| ==> key(s[i]) != k
    ensures WithKey(s, key, k) == []
  {
    if |s| > 0 {
      WithKeyNone(s[1..], key, k);
    }
  }

  /** In a sorted sequence whose head is larger than `k`, no element has key `k`. */
  lemma NoKeyBelowHead<T>(s: seq<T>, key: T -> SortKey, k: SortKey)
    requires SortedBy(s, key) && |s| > 0 && !KeyLe(key(s[0]), k)
    ensures forall i :: 0 <= i < |s| ==> key(s[i]) != k
  {
    StrLeRefl(k.secondary);
    forall i | 0 < i < |s| ensures key(s[i]) != k {
      assert KeyLe(key(s[0]), key(s[i]));
    }
  }

  lemma {:induction false} InsertWithKey<T>(x: T, s: seq<T>, key: T -> SortKey, k: SortKey)
    requires SortedBy(s, key)
    ensures WithKey(Insert(x, s, key), key, k) == WithKey(s, key, k) + (if key(x) == k then [x] else [])
  {
    var tail: seq<T> := if key(x) == k then [x] else [];
    if |s| == 0 {
      assert WithKey([x], key, k) == tail + WithKey([x][1..], key, k);
    } else if !KeyLe(key(s[0]), key(x)) {
      var r := [x] + s;
      assert Insert(x, s, key) == r;
      assert r[1..] == s;
      assert WithKey(r, key, k) == tail + WithKey(s, key, k);
      if key(x) == k {
        NoKeyBelowHead(s, key, k);
        WithKeyNone(s, key, k);
      }
    } else {
      var t := Insert(x, s[1..], key);
      var head: seq<T> := if key(s[0]) == k then [s[0]] else [];
      assert SortedBy(s[1..], key);
      InsertWithKey(x, s[1..], key, k);
      var r := [s[0]] + t;
      assert Insert(x, s, key) == r;
      assert r[1..] == t;
      assert WithKey(r, key, k) == head + WithKey(t, key, k);
      assert WithKey(s, key, k) == head + WithKey(s[1..], key, k);
    }
  }

  /** Stability: for every key, the elements carrying it appear in the result
      in exactly the order they had in the input. */
  lemma {:induction false} SortStable<T>(s: seq<T>, key: T -> SortKey, k: SortKey)
    ensures WithKey(Sort(s, key), key, k) == WithKey(s, key, k)
  {
    if |s| > 0 {
      var init, last := s[..|s| - 1], s[|s| - 1];
      SortStable(init, key, k);
      SortSorted(init, key);
      InsertWithKey(last, Sort(init, key), key, k);
      assert s == init + [last];
      WithKeyAppend(init, [last], key, k);
    }
  }
}
