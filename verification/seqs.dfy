/** Generic sequence operations standing for the MongoDB and Python list
    primitives the backend relies on: `find_one` (the first match), `find`
    (all matches, in storage order), `$addToSet`, `str.endswith` and the
    stable `list.sort(key=..., reverse=True)`. */
module Seqs {
  import opened Types

  /** The position of the first element satisfying `p`, as `find_one` does. */
  function First<T>(s: seq<T>, p: T -> bool): (r: Option<nat>)
    ensures r.Some? ==> r.value < |s| && p(s[r.value])
    ensures r.Some? ==> forall k :: 0 <= k < r.value ==> !p(s[k])
    ensures r.None? <==> forall k :: 0 <= k < |s| ==> !p(s[k])
    decreases |s|
  {
    if s == [] then None
    else if p(s[0]) then Some(0)
    else match First(s[1..], p)
      case None => None
      case Some(k) => Some(k + 1)
  }

  /** The positions of all elements satisfying `p`, in storage order, as
      `find` returns them. */
  function Indices<T>(s: seq<T>, p: T -> bool): (r: seq<nat>)
    ensures forall k :: 0 <= k < |r| ==> r[k] < |s| && p(s[r[k]])
    ensures forall i :: 0 <= i < |s| && p(s[i]) ==> i in r
    ensures forall a, b :: 0 <= a < b < |r| ==> r[a] < r[b]
  {
    if s == [] then []
    else
      var n := |s| - 1;
      var r0 := Indices(s[..n], p);
      assert forall k :: 0 <= k < |r0| ==> s[..n][r0[k]] == s[r0[k]];
      assert forall i :: 0 <= i < n ==> s[..n][i] == s[i];
      if p(s[n]) then r0 + [n] else r0
  }

  /** No element occurs twice. */
  predicate NoDuplicates<T(==)>(s: seq<T>) {
    forall i, j :: 0 <= i < j < |s| ==> s[i] != s[j]
  }

  /** `$addToSet`: append `x` unless it is already present. */
  function AddToSet(s: seq<string>, x: string): (r: seq<string>)
    ensures forall y :: y in r <==> y in s || y == x
    ensures NoDuplicates(s) ==> NoDuplicates(r)
    ensures s <= r && |r| <= |s| + 1
  {
    if x in s then s else s + [x]
  }

  /** `str.endswith`. */
  predicate EndsWith(s: string, suffix: string) {
    |suffix| <= |s| && s[|s| - |suffix|..] == suffix
  }

  lemma EndsWithIsSplit(s: string, suffix: string)
    ensures EndsWith(s, suffix) <==> exists local: string :: local + suffix == s
  {
    if EndsWith(s, suffix) {
      var local := s[..|s| - |suffix|];
      assert local + suffix == s;
    }
    if exists local: string :: local + suffix == s {
      var local: string :| local + suffix == s;
      assert s[|s| - |suffix|..] == suffix;
    }
  }

  /** The keys never increase along `s`. */
  ghost predicate SortedDesc<T>(s: seq<T>, key: T -> nat) {
    forall i, j :: 0 <= i < j < |s| ==> key(s[i]) >= key(s[j])
  }

  /** Insert `x` in front of the first element whose key is not greater,
      so that `x` precedes the elements of `s` with the same key. */
  function InsertDesc<T>(x: T, s: seq<T>, key: T -> nat): (r: seq<T>)
    requires SortedDesc(s, key)
    ensures SortedDesc(r, key)
    ensures multiset(r) == multiset(s) + multiset{x}
  {
    if s == [] || key(s[0]) <= key(x) then [x] + s
    else
      var rest := InsertDesc(x, s[1..], key);
      assert s == [s[0]] + s[1..];
      forall k | 0 <= k < |rest| ensures key(s[0]) >= key(rest[k]) {
        assert rest[k] in multiset(rest);
        if rest[k] != x {
          assert rest[k] in multiset(s[1..]);
          var j :| 0 <= j < |s[1..]| && s[1..][j] == rest[k];
          assert s[j + 1] == rest[k];
        }
      }
      [s[0]] + rest
  }

  /** `list.sort(key=key, reverse=True)`: newest first; Python's sort is
      stable, so records with the same key keep their storage order. */
  function SortDesc<T>(s: seq<T>, key: T -> nat): (r: seq<T>)
    ensures SortedDesc(r, key)
    ensures multiset(r) == multiset(s)
    ensures |r| == |s|
  {
    if s == [] then []
    else
      assert s == [s[0]] + s[1..];
      InsertDesc(s[0], SortDesc(s[1..], key), key)
  }

  lemma {:induction false} NoDuplicatesCountsOnce<T>(s: seq<T>, x: T)
    requires NoDuplicates(s)
    ensures multiset(s)[x] <= 1
  {
    if s != [] {
      assert s == [s[0]] + s[1..];
      NoDuplicatesCountsOnce(s[1..], x);
      if x == s[0] {
        assert x !in s[1..];
      }
    }
  }

  /** Reordering a sequence without repetitions creates none. */
  lemma NoDuplicatesPermutation<T>(s: seq<T>, r: seq<T>)
    requires NoDuplicates(s) && multiset(r) == multiset(s)
    ensures NoDuplicates(r)
  {
    forall a, b | 0 <= a < b < |r| ensures r[a] != r[b] {
      NoDuplicatesCountsOnce(s, r[a]);
      assert r == r[..b] + [r[b]] + r[b + 1..];
      assert r[..b][a] == r[a];
      assert multiset(r) == multiset(r[..b]) + multiset{r[b]} + multiset(r[b + 1..]);
    }
  }
}
