// The list operations the application builds everything from: `filter`,
// a `map` that rewrites only the selected elements, order-preserving
// sub-sequences and strictly increasing keys.

module Seqs {

  /** `r` is `s` with some elements left out, the rest in their original order. */
  ghost predicate IsSubseq<T>(r: seq<T>, s: seq<T>)
    decreases |s|
  {
    if r == [] then true
    else if s == [] then false
    else if r[0] == s[0] then IsSubseq(r[1..], s[1..])
    else IsSubseq(r, s[1..])
  }

  /** `Array.prototype.filter`. */
  function Filter<T(!new)>(s: seq<T>, keep: T -> bool): (r: seq<T>)
    ensures |r| <= |s|
    ensures forall x :: x in r <==> x in s && keep(x)
    ensures IsSubseq(r, s)
    ensures (forall i :: 0 <= i < |s| ==> keep(s[i])) ==> r == s
  {
    if s == [] then []
    else if keep(s[0]) then [s[0]] + Filter(s[1..], keep)
    else Filter(s[1..], keep)
  }

  /** Every kept value is kept as often as it occurs, every other value never:
      with `IsSubseq`, this fixes the result of `Filter` completely. */
  lemma {:induction false} FilterCounts<T(!new)>(s: seq<T>, keep: T -> bool)
    ensures forall x :: multiset(Filter(s, keep))[x] == if keep(x) then multiset(s)[x] else 0
  {
    if s != [] {
      FilterCounts(s[1..], keep);
      assert s == [s[0]] + s[1..];
      assert multiset(s) == multiset{s[0]} + multiset(s[1..]);
    }
  }

  /** The position where `x` first occurs in `xs`. */
  ghost function FirstIndex<T>(xs: seq<T>, x: T): (i: nat)
    requires x in xs
    ensures i < |xs| && xs[i] == x && x !in xs[..i]
  {
    if xs[0] == x then 0
    else
      var j := FirstIndex(xs[1..], x);
      assert xs[..j + 1] == [xs[0]] + xs[1..][..j];
      1 + j
  }

  /** A value met before position `k` is first met at the same place in `xs[..k]`. */
  lemma FirstIndexPrefix<T>(xs: seq<T>, k: int, x: T)
    requires 0 <= k <= |xs| && x in xs[..k]
    ensures FirstIndex(xs, x) == FirstIndex(xs[..k], x)
  {
    var i := FirstIndex(xs, x);
    var j := FirstIndex(xs[..k], x);
    assert xs[..k][..j] == xs[..j];
  }

  /** `s.map(x => sel(x) ? f(x) : x)`, the shape of every update by id. */
  function MapWhere<T>(s: seq<T>, sel: T -> bool, f: T -> T): (r: seq<T>)
    ensures |r| == |s|
    ensures forall i :: 0 <= i < |s| && sel(s[i]) ==> r[i] == f(s[i])
    ensures forall i :: 0 <= i < |s| && !sel(s[i]) ==> r[i] == s[i]
  {
    if s == [] then []
    else [if sel(s[0]) then f(s[0]) else s[0]] + MapWhere(s[1..], sel, f)
  }

  ghost predicate StrictlyIncreasing<T>(s: seq<T>, key: T -> int)
  {
    forall i, j :: 0 <= i < j < |s| ==> key(s[i]) < key(s[j])
  }

  lemma {:induction false} SubseqMembers<T(!new)>(r: seq<T>, s: seq<T>)
    requires IsSubseq(r, s)
    ensures forall x :: x in r ==> x in s
    decreases |s|
  {
    if r != [] {
      if r[0] == s[0] {
        SubseqMembers(r[1..], s[1..]);
        assert forall x :: x in r ==> x == r[0] || x in r[1..];
      } else {
        SubseqMembers(r, s[1..]);
      }
    }
  }

  /** Leaving elements out keeps keys strictly increasing. */
  lemma {:induction false} SubseqIncreasing<T(!new)>(r: seq<T>, s: seq<T>, key: T -> int)
    requires IsSubseq(r, s) && StrictlyIncreasing(s, key)
    ensures StrictlyIncreasing(r, key)
    decreases |s|
  {
    if r != [] {
      assert StrictlyIncreasing(s[1..], key);
      if r[0] == s[0] {
        SubseqIncreasing(r[1..], s[1..], key);
        SubseqMembers(r[1..], s[1..]);
        forall j | 1 <= j < |r| ensures key(r[0]) < key(r[j]) {
          assert r[j] == r[1..][j - 1];
          assert r[j] in r[1..];
          assert r[j] in s[1..];
          var k :| 0 <= k < |s[1..]| && s[1..][k] == r[j];
          assert s[k + 1] == r[j];
        }
      } else {
        SubseqIncreasing(r, s[1..], key);
      }
    }
  }

  /** Rewriting elements without touching their keys keeps keys strictly increasing. */
  lemma MapWhereIncreasing<T>(s: seq<T>, sel: T -> bool, f: T -> T, key: T -> int)
    requires StrictlyIncreasing(s, key)
    requires forall x :: sel(x) ==> key(f(x)) == key(x)
    ensures StrictlyIncreasing(MapWhere(s, sel, f), key)
  {
    var r := MapWhere(s, sel, f);
    assert forall i :: 0 <= i < |s| ==> key(r[i]) == key(s[i]);
  }

  lemma SplitAround<T>(s: seq<T>, j: int)
    requires 0 < j < |s|
    ensures [s[0]] + (s[1..][..j - 1] + s[1..][j..]) == s[..j] + s[j + 1..]
  {
    assert s[1..][..j - 1] == s[1..j] && s[1..][j..] == s[j + 1..];
    assert [s[0]] + s[1..j] == s[..j];
  }

  /** Filtering out exactly the element at `j` leaves the others in order. */
  lemma {:induction false} FilterDropsOne<T(!new)>(s: seq<T>, keep: T -> bool, j: int)
    requires 0 <= j < |s| && !keep(s[j])
    requires forall k :: 0 <= k < |s| && k != j ==> keep(s[k])
    ensures Filter(s, keep) == s[..j] + s[j+1..]
  {
    if j == 0 {
      assert s[..0] + s[1..] == s[1..];
    } else {
      var t := s[1..];
      forall k | 0 <= k < |t| && k != j - 1 ensures keep(t[k]) {
        assert t[k] == s[k + 1];
      }
      FilterDropsOne(t, keep, j - 1);
      assert keep(s[0]);
      SplitAround(s, j);
    }
  }
}
