/**
 * The LINQ sequence operators that the location factory chains together
 * (`Where`, `Select`, `SelectMany`, `ToHashSet`, `DistinctBy`), over finite
 * sequences, together with a reference definition of what `DistinctBy` keeps.
 */
module Linq {

  /** `Where`: the elements of `s` that satisfy `p`, in their original order. */
  function Where<T>(s: seq<T>, p: T -> bool): (r: seq<T>)
    ensures |r| <= |s|
  {
    if s == [] then []
    else if p(s[0]) then [s[0]] + Where(s[1..], p)
    else Where(s[1..], p)
  }

  /** An element is kept by `Where` iff it is in `s` and satisfies `p`. */
  lemma {:induction false} WhereMembers<T>(s: seq<T>, p: T -> bool, x: T)
    ensures x in Where(s, p) <==> x in s && p(x)
  {
    if s != [] {
      WhereMembers(s[1..], p, x);
      assert x in s <==> x == s[0] || x in s[1..];
    }
  }

  /** `Where` keeps a sequence whose every element passes. */
  lemma {:induction false} WhereKeepsAll<T>(s: seq<T>, p: T -> bool)
    requires forall i :: 0 <= i < |s| ==> p(s[i])
    ensures Where(s, p) == s
  {
    if s != [] {
      WhereKeepsAll(s[1..], p);
    }
  }

  /** `Where` drops a first element that fails. */
  lemma WhereSkipsFirst<T>(x: T, s: seq<T>, p: T -> bool)
    requires !p(x)
    ensures Where([x] + s, p) == Where(s, p)
  {
    assert ([x] + s)[0] == x;
    assert ([x] + s)[1..] == s;
  }

  /** `Select`: `f` applied to every element, position by position. */
  function Select<T, U>(s: seq<T>, f: T -> U): (r: seq<U>)
    ensures |r| == |s|
    ensures forall i :: 0 <= i < |s| ==> r[i] == f(s[i])
  {
    if s == [] then [] else [f(s[0])] + Select(s[1..], f)
  }

  /** `SelectMany(x => x)`: the rows concatenated in order. */
  function Flatten<T>(rows: seq<seq<T>>): seq<T>
  {
    if rows == [] then [] else rows[0] + Flatten(rows[1..])
  }

  /** An element is in the flattened rows iff it is in one of the rows. */
  lemma {:induction false} FlattenMembers<T>(rows: seq<seq<T>>, x: T)
    ensures x in Flatten(rows) <==> exists row :: row in rows && x in row
  {
    if rows != [] {
      FlattenMembers(rows[1..], x);
      assert forall row :: row in rows <==> row == rows[0] || row in rows[1..];
    }
  }

  /** `ToHashSet`: the set of the elements. */
  function ToHashSet<T(!new)>(s: seq<T>): set<T>
  {
    set x | x in s
  }

  /**
   * `DistinctBy` as the enumerator runs it: walk `s` from position `i`, keep an
   * element when its key is not in `seen`, and add the key to `seen`.
   */
  function DistinctByFrom<T, K(==)>(s: seq<T>, key: T -> K, i: nat, seen: set<K>): seq<T>
    requires i <= |s|
    decreases |s| - i
  {
    if i == |s| then []
    else if key(s[i]) in seen then DistinctByFrom(s, key, i + 1, seen)
    else [s[i]] + DistinctByFrom(s, key, i + 1, seen + {key(s[i])})
  }

  /** `DistinctBy(key)`: the first element of each key, in the order of `s`. */
  function DistinctBy<T, K(==)>(s: seq<T>, key: T -> K): seq<T>
  {
    DistinctByFrom(s, key, 0, {})
  }

  /** The position of the first element of `s` whose key is `k`, or `|s|` if there is none. */
  ghost function IndexOfKey<T, K>(s: seq<T>, key: T -> K, k: K): (p: nat)
    ensures p <= |s|
  {
    if s == [] then 0
    else if key(s[0]) == k then 0
    else 1 + IndexOfKey(s[1..], key, k)
  }

  /** No element before `IndexOfKey` has key `k`, and the element there, if any, has it. */
  lemma {:induction false} IndexOfKeySpec<T, K>(s: seq<T>, key: T -> K, k: K)
    ensures forall j :: 0 <= j < IndexOfKey(s, key, k) ==> key(s[j]) != k
    ensures IndexOfKey(s, key, k) < |s| ==> key(s[IndexOfKey(s, key, k)]) == k
  {
    if s != [] && key(s[0]) != k {
      IndexOfKeySpec(s[1..], key, k);
      assert forall j :: 1 <= j < |s| ==> s[j] == s[1..][j - 1];
    }
  }

  /** Position `i` holds the first element of `s` with its key. */
  ghost predicate IsFirstOccurrence<T, K>(s: seq<T>, key: T -> K, i: int)
  {
    0 <= i < |s| && forall j :: 0 <= j < i ==> key(s[j]) != key(s[i])
  }

  /**
   * Reference definition: the elements at first-occurrence positions among the
   * first `n` elements of `s`, in the order of their positions.
   */
  ghost function FirstOccurrences<T, K>(s: seq<T>, key: T -> K, n: nat): seq<T>
    requires n <= |s|
  {
    if n == 0 then []
    else FirstOccurrences(s, key, n - 1) + (if IsFirstOccurrence(s, key, n - 1) then [s[n - 1]] else [])
  }

  /** The keys of the first `i` elements of `s`. */
  ghost function SeenBefore<T, K>(s: seq<T>, key: T -> K, i: nat): set<K>
    requires i <= |s|
  {
    set j | 0 <= j < i :: key(s[j])
  }

  lemma IsFirstOccurrenceIndex<T, K>(s: seq<T>, key: T -> K, i: nat)
    requires IsFirstOccurrence(s, key, i)
    ensures IndexOfKey(s, key, key(s[i])) == i
  {
    IndexOfKeySpec(s, key, key(s[i]));
  }

  /** Running `DistinctByFrom` with `seen` = the keys already passed completes the reference prefix. */
  lemma {:induction false} DistinctByFromCompletes<T, K>(s: seq<T>, key: T -> K, i: nat)
    requires i <= |s|
    ensures FirstOccurrences(s, key, i) + DistinctByFrom(s, key, i, SeenBefore(s, key, i))
            == FirstOccurrences(s, key, |s|)
    decreases |s| - i
  {
    if i < |s| {
      var seen := SeenBefore(s, key, i);
      var next := SeenBefore(s, key, i + 1);
      assert next == seen + {key(s[i])};
      DistinctByFromCompletes(s, key, i + 1);
      if key(s[i]) in seen {
        var j :| 0 <= j < i && key(s[j]) == key(s[i]);
        assert !IsFirstOccurrence(s, key, i);
        assert next == seen;
        assert FirstOccurrences(s, key, i + 1) == FirstOccurrences(s, key, i);
        assert DistinctByFrom(s, key, i, seen) == DistinctByFrom(s, key, i + 1, next);
      } else {
        assert IsFirstOccurrence(s, key, i);
        assert FirstOccurrences(s, key, i + 1) == FirstOccurrences(s, key, i) + [s[i]];
        assert DistinctByFrom(s, key, i, seen) == [s[i]] + DistinctByFrom(s, key, i + 1, next);
      }
    }
  }

  /** `DistinctBy` equals the reference definition. */
  lemma DistinctByIsFirstOccurrences<T, K>(s: seq<T>, key: T -> K)
    ensures DistinctBy(s, key) == FirstOccurrences(s, key, |s|)
  {
    DistinctByFromCompletes(s, key, 0);
    assert SeenBefore(s, key, 0) == {};
    assert FirstOccurrences(s, key, 0) == [];
  }

  /** Every element the reference keeps from the first `n` is the first element of its key there. */
  lemma {:induction false} FirstOccurrencesSound<T, K>(s: seq<T>, key: T -> K, n: nat)
    requires n <= |s|
    ensures forall x :: x in FirstOccurrences(s, key, n) ==>
      IndexOfKey(s, key, key(x)) < n && x == s[IndexOfKey(s, key, key(x))]
  {
    if n > 0 {
      FirstOccurrencesSound(s, key, n - 1);
      if IsFirstOccurrence(s, key, n - 1) {
        IsFirstOccurrenceIndex(s, key, n - 1);
      }
    }
  }

  /** The reference keeps its elements in the order in which their keys first occur. */
  lemma {:induction false} FirstOccurrencesOrdered<T, K>(s: seq<T>, key: T -> K, n: nat)
    requires n <= |s|
    ensures forall i, j :: 0 <= i < j < |FirstOccurrences(s, key, n)| ==>
      IndexOfKey(s, key, key(FirstOccurrences(s, key, n)[i])) < IndexOfKey(s, key, key(FirstOccurrences(s, key, n)[j]))
  {
    if n > 0 {
      FirstOccurrencesOrdered(s, key, n - 1);
      var prev := FirstOccurrences(s, key, n - 1);
      if IsFirstOccurrence(s, key, n - 1) {
        FirstOccurrencesSound(s, key, n - 1);
        IsFirstOccurrenceIndex(s, key, n - 1);
        var r := prev + [s[n - 1]];
        assert r == FirstOccurrences(s, key, n);
        forall i, j | 0 <= i < j < |r|
          ensures IndexOfKey(s, key, key(r[i])) < IndexOfKey(s, key, key(r[j]))
        {
          assert r[i] == prev[i];
          if j == |prev| {
            assert prev[i] in prev;
          } else {
            assert r[j] == prev[j];
          }
        }
      }
    }
  }

  /** Projecting a longer sequence keeps the projections of its prefix. */
  lemma SelectExtends<T, U>(s: seq<T>, extra: seq<T>, f: T -> U, y: U)
    requires y in Select(s, f)
    ensures y in Select(s + extra, f)
  {
    var i :| 0 <= i < |s| && Select(s, f)[i] == y;
    assert (s + extra)[i] == s[i];
    assert Select(s + extra, f)[i] == y;
  }

  /** Every key among the first `n` elements has an element in the reference. */
  lemma {:induction false} FirstOccurrencesCover<T, K>(s: seq<T>, key: T -> K, n: nat)
    requires n <= |s|
    ensures forall k :: 0 <= k < n ==> key(s[k]) in Select(FirstOccurrences(s, key, n), key)
  {
    if n > 0 {
      FirstOccurrencesCover(s, key, n - 1);
      var prev := FirstOccurrences(s, key, n - 1);
      var extra := if IsFirstOccurrence(s, key, n - 1) then [s[n - 1]] else [];
      assert FirstOccurrences(s, key, n) == prev + extra;
      forall k | 0 <= k < n - 1 ensures key(s[k]) in Select(prev + extra, key) {
        SelectExtends(prev, extra, key, key(s[k]));
      }
      if IsFirstOccurrence(s, key, n - 1) {
        assert Select(prev + extra, key)[|prev|] == key(s[n - 1]);
      } else {
        IndexOfKeySpec(s, key, key(s[n - 1]));
        var j := IndexOfKey(s, key, key(s[n - 1]));
        assert j < n - 1 && key(s[j]) == key(s[n - 1]);
      }
    }
  }

  /**
   * `DistinctBy` keeps exactly the first element of every key of `s`, in the
   * order in which those keys first occur.
   */
  lemma DistinctBySpec<T, K>(s: seq<T>, key: T -> K)
    ensures forall x :: x in DistinctBy(s, key) ==> x in s
    ensures forall i, j :: 0 <= i < j < |DistinctBy(s, key)| ==>
      key(DistinctBy(s, key)[i]) != key(DistinctBy(s, key)[j])
    ensures forall x :: x in s ==> key(x) in Select(DistinctBy(s, key), key)
    ensures forall i :: 0 <= i < |DistinctBy(s, key)| ==>
      IndexOfKey(s, key, key(DistinctBy(s, key)[i])) < |s| &&
      DistinctBy(s, key)[i] == s[IndexOfKey(s, key, key(DistinctBy(s, key)[i]))]
    ensures forall i, j :: 0 <= i < j < |DistinctBy(s, key)| ==>
      IndexOfKey(s, key, key(DistinctBy(s, key)[i])) < IndexOfKey(s, key, key(DistinctBy(s, key)[j]))
  {
    DistinctByIsFirstOccurrences(s, key);
    FirstOccurrencesSound(s, key, |s|);
    FirstOccurrencesOrdered(s, key, |s|);
    FirstOccurrencesCover(s, key, |s|);
    var r := DistinctBy(s, key);
    forall x | x in s ensures key(x) in Select(r, key) {
      var k :| 0 <= k < |s| && s[k] == x;
    }
  }
}
