/** Sequence operations the sources use on Python lists and JavaScript
    arrays: `list.remove(x)`, `Array.prototype.indexOf` and the helpers the
    proofs about them need. */
module Seqs {

  import opened Wrappers

  /** `Array.prototype.indexOf`: the first position of `x`, or -1. */
  function IndexOf<T(==)>(s: seq<T>, x: T): (i: int)
    ensures -1 <= i < |s|
    ensures i == -1 <==> x !in s
    ensures 0 <= i ==> i < |s| && s[i] == x && x !in s[..i]
  {
    if s == [] then -1
    else if s[0] == x then 0
    else
      var k := IndexOf(s[1..], x);
      if k == -1 then -1
      else
        assert s[..k + 1] == [s[0]] + s[1..][..k];
        k + 1
  }

  /** `list.remove(x)`: drops the first occurrence of `x`.  Python raises
      `ValueError` when `x` is absent, so callers must show it is there. */
  function RemoveFirst<T(==)>(s: seq<T>, x: T): (r: seq<T>)
    requires x in s
    ensures |r| == |s| - 1
    ensures multiset(r) == multiset(s) - multiset{x}
  {
    if s[0] == x then
      assert s == [s[0]] + s[1..];
      s[1..]
    else
      assert s == [s[0]] + s[1..];
      [s[0]] + RemoveFirst(s[1..], x)
  }

  /** The elements of a sequence, as a set. */
  function Elems<T>(s: seq<T>): set<T> {
    set x | x in s
  }

  /** No element occurs twice. */
  predicate Distinct<T(==)>(s: seq<T>) {
    forall i, j :: 0 <= i < j < |s| ==> s[i] != s[j]
  }

  /** The elements of `s` that are in `keep`, in their order in `s`. */
  function KeepIn<T(==)>(s: seq<T>, keep: set<T>): (r: seq<T>)
    ensures |r| <= |s|
    ensures forall x :: x in r ==> x in s && x in keep
    ensures forall x :: x in s && x in keep ==> x in r
  {
    if s == [] then []
    else if s[0] in keep then [s[0]] + KeepIn(s[1..], keep)
    else KeepIn(s[1..], keep)
  }

  /** Removing one element of a duplicate-free sequence from the kept part
      is the same as no longer keeping it. */
  lemma {:induction false} RemoveFirstKeepIn<T>(s: seq<T>, keep: set<T>, x: T)
    requires Distinct(s) && x in s && x in keep
    ensures x in KeepIn(s, keep)
    ensures RemoveFirst(KeepIn(s, keep), x) == KeepIn(s, keep - {x})
  {
    if s[0] == x {
      assert x !in s[1..] by {
        forall j | 0 <= j < |s[1..]| ensures s[1..][j] != x {
          assert s[1..][j] == s[j + 1];
        }
      }
      KeepInIgnoresAbsent(s[1..], keep, x);
    } else {
      assert Distinct(s[1..]) by {
        forall i, j | 0 <= i < j < |s[1..]| ensures s[1..][i] != s[1..][j] {
          assert s[1..][i] == s[i + 1] && s[1..][j] == s[j + 1];
        }
      }
      assert x in s[1..];
      RemoveFirstKeepIn(s[1..], keep, x);
    }
  }

  /** Dropping an absent element from the keep-set changes nothing. */
  lemma {:induction false} KeepInIgnoresAbsent<T>(s: seq<T>, keep: set<T>, x: T)
    requires x !in s
    ensures KeepIn(s, keep - {x}) == KeepIn(s, keep)
  {
    if s != [] {
      KeepInIgnoresAbsent(s[1..], keep, x);
    }
  }

  /** Keeping everything keeps the sequence. */
  lemma {:induction false} KeepInAll<T>(s: seq<T>, keep: set<T>)
    requires forall i :: 0 <= i < |s| ==> s[i] in keep
    ensures KeepIn(s, keep) == s
  {
    if s != [] {
      KeepInAll(s[1..], keep);
    }
  }

  /** `list.remove(x)` deletes the element at the first position of `x` and
      keeps the others in order. */
  lemma {:induction false} RemoveFirstAt<T>(s: seq<T>, x: T) returns (i: nat)
    requires x in s
    ensures i == IndexOf(s, x)
    ensures RemoveFirst(s, x) == s[..i] + s[i + 1..]
  {
    i := IndexOf(s, x);
    RemoveFirstSplit(s, x, i);
  }

  /** `list.remove(x)` when `x` first occurs at `i`. */
  lemma {:induction false} RemoveFirstSplit<T>(s: seq<T>, x: T, i: nat)
    requires i < |s| && s[i] == x && x !in s[..i]
    ensures RemoveFirst(s, x) == s[..i] + s[i + 1..]
  {
    if i > 0 {
      var t := s[1..];
      assert s[0] != x by { assert s[0] == s[..i][0]; }
      assert x !in t[..i - 1] by { assert t[..i - 1] == s[1..i]; }
      RemoveFirstSplit(t, x, i - 1);
      assert s[..i] == [s[0]] + t[..i - 1];
      assert s[i + 1..] == t[i..];
    }
  }

  /** The present elements of a sequence of options, in order. */
  function Somes<T>(xs: seq<Option<T>>): (r: seq<T>)
    ensures |r| <= |xs|
  {
    if xs == [] then []
    else Somes(xs[..|xs| - 1]) + (if xs[|xs| - 1].Some? then [xs[|xs| - 1].value] else [])
  }

  /** `list.remove(x)` on a list that starts with `x`. */
  lemma RemoveFirstHead<T>(x: T, rest: seq<T>)
    ensures RemoveFirst([x] + rest, x) == rest
  {
    assert ([x] + rest)[1..] == rest;
  }

  /** `list.remove(x)` passes over a different first element. */
  lemma RemoveFirstCons<T>(y: T, rest: seq<T>, x: T)
    requires y != x && x in rest
    ensures RemoveFirst([y] + rest, x) == [y] + RemoveFirst(rest, x)
  {
    assert ([y] + rest)[1..] == rest;
  }

  /** `KeepIn` of a longer sequence keeps the added element when it is
      kept. */
  lemma {:induction false} KeepInAppend<T>(s: seq<T>, x: T, keep: set<T>)
    ensures KeepIn(s + [x], keep) == KeepIn(s, keep) + (if x in keep then [x] else [])
  {
    if s != [] {
      assert (s + [x])[1..] == s[1..] + [x];
      KeepInAppend(s[1..], x, keep);
    }
  }

  /** A duplicate-free sequence keeps no duplicates. */
  lemma {:induction false} KeepInDistinct<T>(s: seq<T>, keep: set<T>)
    requires Distinct(s)
    ensures Distinct(KeepIn(s, keep))
  {
    if s != [] {
      assert Distinct(s[1..]) by {
        forall i, j | 0 <= i < j < |s[1..]| ensures s[1..][i] != s[1..][j] {
          assert s[1..][i] == s[i + 1] && s[1..][j] == s[j + 1];
        }
      }
      KeepInDistinct(s[1..], keep);
      if s[0] in keep {
        var r := KeepIn(s[1..], keep);
        forall j | 0 <= j < |r| ensures r[j] != s[0] {
          assert r[j] in r;
          var k :| 0 <= k < |s[1..]| && s[1..][k] == r[j];
          assert s[k + 1] == r[j];
        }
      }
    }
  }

  /** Only the membership of the sequence's own elements matters. */
  lemma {:induction false} KeepInSame<T>(s: seq<T>, a: set<T>, b: set<T>)
    requires forall i :: 0 <= i < |s| ==> (s[i] in a <==> s[i] in b)
    ensures KeepIn(s, a) == KeepIn(s, b)
  {
    if s != [] {
      KeepInSame(s[1..], a, b);
    }
  }

  /** Appending a new element keeps a sequence duplicate-free. */
  lemma DistinctSnoc<T>(s: seq<T>, x: T)
    requires Distinct(s) && x !in s
    ensures Distinct(s + [x])
  {
    forall i, j | 0 <= i < j < |s + [x]| ensures (s + [x])[i] != (s + [x])[j] {
      assert (s + [x])[i] == s[i];
      if j < |s| {
        assert (s + [x])[j] == s[j];
      }
    }
  }

  /** Concatenation regrouped to the right. */
  lemma Regroup<T>(a: seq<T>, x: T, m: seq<T>, y: T, p: seq<T>)
    ensures a + [x] + m + [y] + p == a + ([x] + (m + ([y] + p)))
    ensures a + [y] + p == a + ([y] + p)
  {
  }

  /** A suffix cut in three places. */
  lemma Slices<T>(s: seq<T>, a: nat, b: nat, c: nat)
    requires a <= b <= c <= |s|
    ensures s[a..] == s[a..b] + s[b..c] + s[c..]
  {
  }

  /** Deleting the element at `i` of a duplicate-free sequence leaves a
      duplicate-free sequence without it. */
  lemma DistinctRemoveAt<T>(s: seq<T>, i: nat)
    requires Distinct(s) && i < |s|
    ensures Distinct(s[..i] + s[i + 1..]) && s[i] !in s[..i] + s[i + 1..]
  {
    var r := s[..i] + s[i + 1..];
    assert forall j :: 0 <= j < |r| ==> r[j] == (if j < i then s[j] else s[j + 1]);
  }
}
