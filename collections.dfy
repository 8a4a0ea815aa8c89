/** Sequence operations shared by the models: first-match lookup, order-preserving
    deduplication (a dataframe's drop_duplicates / unique with keep="first"),
    and removal of a first match. */
module Collections {
  import opened Wrappers

  /** `f` applied to each element of `s`, in order. */
  function MapSeq<A, B>(s: seq<A>, f: A -> B): (r: seq<B>)
    ensures |r| == |s| && forall i :: 0 <= i < |s| ==> r[i] == f(s[i])
  {
    seq(|s|, i requires 0 <= i < |s| => f(s[i]))
  }

  /** Each element is its own key: DedupBy with this key compares whole elements, as a
      dataframe's drop_duplicates compares whole rows. */
  function Whole<T>(x: T): T
  {
    x
  }

  /** The prefix one element longer is the prefix followed by that element. */
  lemma TakeNext<T>(s: seq<T>, i: nat)
    requires i < |s|
    ensures s[..i + 1] == s[..i] + [s[i]]
  {
  }

  /** Index of the first element of `s` that satisfies `p`, if there is one. */
  function FirstWhere<T>(s: seq<T>, p: T -> bool): (r: Option<nat>)
    ensures r.Some? ==> r.value < |s| && p(s[r.value])
    ensures r.Some? ==> forall j :: 0 <= j < r.value ==> !p(s[j])
    ensures r.None? <==> forall j :: 0 <= j < |s| ==> !p(s[j])
  {
    if |s| == 0 then None
    else if p(s[0]) then Some(0)
    else match FirstWhere(s[1..], p)
      case None => None
      case Some(k) => Some(k + 1)
  }

  /** Index of the first occurrence of `x` in `s`, or |s| when `x` does not occur. */
  function IndexOf<T(==)>(s: seq<T>, x: T): (r: nat)
    ensures r <= |s|
    ensures r < |s| <==> x in s
    ensures r < |s| ==> s[r] == x
    ensures forall j :: 0 <= j < r ==> s[j] != x
  {
    if |s| == 0 then 0
    else if s[0] == x then 0
    else IndexOf(s[1..], x) + 1
  }

  /** Index of the first element of `s` whose key is `k`, or |s| when there is none. */
  function KeyPos<T, K(==)>(s: seq<T>, key: T -> K, k: K): (r: nat)
    ensures r <= |s|
    ensures r < |s| ==> key(s[r]) == k
    ensures forall j :: 0 <= j < r ==> key(s[j]) != k
  {
    if |s| == 0 then 0
    else if key(s[0]) == k then 0
    else KeyPos(s[1..], key, k) + 1
  }

  /** Appending an element does not move the first position of a key already present. */
  lemma KeyPosAppend<T, K>(s: seq<T>, x: T, key: T -> K, k: K)
    ensures KeyPos(s, key, k) < |s| ==> KeyPos(s + [x], key, k) == KeyPos(s, key, k)
    ensures KeyPos(s, key, k) == |s| ==>
      KeyPos(s + [x], key, k) == if key(x) == k then |s| else |s| + 1
  {
    var p, q := KeyPos(s, key, k), KeyPos(s + [x], key, k);
    assert forall j :: 0 <= j < |s| ==> (s + [x])[j] == s[j];
    if p < |s| {
      assert key((s + [x])[p]) == k;
      assert q <= p;
    } else if key(x) == k {
      assert (s + [x])[|s|] == x;
    }
  }

  /** Two sequences whose elements have the same keys, position by position, give the same
      first position for every key. */
  lemma {:induction false} KeyPosSameKeys<T, U, K>(a: seq<T>, ka: T -> K, b: seq<U>, kb: U -> K, k: K)
    requires |a| == |b| && forall i :: 0 <= i < |a| ==> ka(a[i]) == kb(b[i])
    ensures KeyPos(a, ka, k) == KeyPos(b, kb, k)
  {
    if |a| > 0 && ka(a[0]) != k {
      KeyPosSameKeys(a[1..], ka, b[1..], kb, k);
    }
  }

  /** The elements of `s` whose key has not occurred earlier in `s`, in their original order. */
  function DedupBy<T, K(==)>(s: seq<T>, key: T -> K): (r: seq<T>)
    ensures |r| <= |s|
    ensures forall i :: 0 <= i < |r| ==> r[i] in s
  {
    if |s| == 0 then []
    else
      var init, last := s[..|s| - 1], s[|s| - 1];
      var d := DedupBy(init, key);
      if KeyPos(d, key, key(last)) < |d| then d else d + [last]
  }

  /** DedupBy keeps exactly one element per key of `s`: no key twice, and every key of `s`. */
  lemma {:induction false} DedupByKeys<T, K>(s: seq<T>, key: T -> K)
    ensures forall i, j :: 0 <= i < j < |DedupBy(s, key)| ==> key(DedupBy(s, key)[i]) != key(DedupBy(s, key)[j])
    ensures forall x :: x in s ==> KeyPos(DedupBy(s, key), key, key(x)) < |DedupBy(s, key)|
  {
    if |s| > 0 {
      var init, last := s[..|s| - 1], s[|s| - 1];
      assert s == init + [last];
      var d := DedupBy(init, key);
      DedupByKeys(init, key);
      var r := DedupBy(s, key);
      if KeyPos(d, key, key(last)) < |d| {
        assert r == d;
      } else {
        assert r == d + [last];
        KeyPosAppendAll(d, last, key);
        forall i, j | 0 <= i < j < |r| ensures key(r[i]) != key(r[j]) {
          assert r[i] == d[i];
          if j == |d| {
            assert r[j] == last;
            assert key(d[i]) != key(last);
          } else {
            assert r[j] == d[j];
          }
        }
        forall x | x in s ensures KeyPos(r, key, key(x)) < |r| {
          if x != last {
            assert x in init;
            assert KeyPos(d, key, key(x)) < |d|;
            KeyPosAppend(d, last, key, key(x));
          } else {
            KeyPosAppend(d, last, key, key(x));
          }
        }
      }
    }
  }

  /** After appending, every key that had a position in `d` still has one, and so does the new key. */
  lemma KeyPosAppendAll<T, K>(d: seq<T>, x: T, key: T -> K)
    ensures forall k :: KeyPos(d, key, k) < |d| ==> KeyPos(d + [x], key, k) < |d| + 1
    ensures KeyPos(d + [x], key, key(x)) < |d| + 1
  {
    forall k | KeyPos(d, key, k) < |d| ensures KeyPos(d + [x], key, k) < |d| + 1 {
      KeyPosAppend(d, x, key, k);
    }
    KeyPosAppend(d, x, key, key(x));
  }

  /** Each element DedupBy keeps is the FIRST element of `s` with its key, and the kept
      elements appear in the order in which their keys first occur in `s`. */
  lemma {:induction false} DedupByFirstSeen<T, K>(s: seq<T>, key: T -> K)
    ensures forall i :: 0 <= i < |DedupBy(s, key)| ==>
      KeyPos(s, key, key(DedupBy(s, key)[i])) < |s| &&
      DedupBy(s, key)[i] == s[KeyPos(s, key, key(DedupBy(s, key)[i]))]
    ensures forall i, j :: 0 <= i < j < |DedupBy(s, key)| ==>
      KeyPos(s, key, key(DedupBy(s, key)[i])) < KeyPos(s, key, key(DedupBy(s, key)[j]))
  {
    if |s| > 0 {
      var init, last := s[..|s| - 1], s[|s| - 1];
      assert s == init + [last];
      var d := DedupBy(init, key);
      DedupByFirstSeen(init, key);
      DedupByKeys(init, key);
      var r := DedupBy(s, key);
      forall i | 0 <= i < |d|
        ensures KeyPos(s, key, key(d[i])) == KeyPos(init, key, key(d[i])) < |init|
      {
        KeyPosAppend(init, last, key, key(d[i]));
      }
      if KeyPos(d, key, key(last)) == |d| {
        assert r == d + [last];
        KeyPosAppend(init, last, key, key(last));
        assert KeyPos(s, key, key(last)) == |init|;
        forall i | 0 <= i < |r|
          ensures KeyPos(s, key, key(r[i])) < |s| && r[i] == s[KeyPos(s, key, key(r[i]))]
        {
          if i < |d| { assert r[i] == d[i]; } else { assert r[i] == last; }
        }
        forall i, j | 0 <= i < j < |r|
          ensures KeyPos(s, key, key(r[i])) < KeyPos(s, key, key(r[j]))
        {
          assert r[i] == d[i];
          if j < |d| { assert r[j] == d[j]; } else { assert r[j] == last; }
        }
      } else {
        assert r == d;
      }
    }
  }

  /** `s` with the first element satisfying `p` removed; `s` itself when none does. */
  function RemoveFirst<T>(s: seq<T>, p: T -> bool): (r: seq<T>)
    ensures FirstWhere(s, p).None? ==> r == s
    ensures FirstWhere(s, p).Some? ==>
      var k := FirstWhere(s, p).value;
      |r| == |s| - 1 && r[..k] == s[..k] && r[k..] == s[k + 1..]
  {
    match FirstWhere(s, p)
    case None => s
    case Some(k) => s[..k] + s[k + 1..]
  }

  /** RemoveFirst deletes at most one element, and only one that satisfies `p`: the
      multiset of elements loses exactly that element. */
  lemma RemoveFirstAtMostOne<T>(s: seq<T>, p: T -> bool)
    ensures |RemoveFirst(s, p)| == if exists i :: 0 <= i < |s| && p(s[i]) then |s| - 1 else |s|
    ensures multiset(RemoveFirst(s, p)) <= multiset(s)
    ensures forall x :: x in s && !p(x) ==> multiset(RemoveFirst(s, p))[x] == multiset(s)[x]
  {
    match FirstWhere(s, p)
    case None =>
    case Some(k) =>
      assert s == s[..k] + [s[k]] + s[k + 1..];
      assert multiset(s) == multiset(RemoveFirst(s, p)) + multiset{s[k]};
  }
}
