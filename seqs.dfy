/** Generic sequence tools shared by the table model: boolean row masks (the
    `df[mask]` of pandas), counting, and the insertion sort that stands for
    every `sort_values` of the source. */
module Seqs {

  datatype Option<+T> = None | Some(value: T)

  /** No entry occurs twice. */
  predicate Distinct<T(==)>(s: seq<T>)
  {
    forall i, j :: 0 <= i < j < |s| ==> s[i] != s[j]
  }

  /** Number of `true` entries of a mask. */
  function CountTrue(m: seq<bool>): nat
  {
    if |m| == 0 then 0 else (if m[0] then 1 else 0) + CountTrue(m[1..])
  }

  /** The entries of `s` whose mask entry is `true`, in their original order. */
  function Mask<T>(s: seq<T>, m: seq<bool>): (r: seq<T>)
    requires |s| == |m|
    ensures |r| == CountTrue(m)
  {
    if |s| == 0 then [] else (if m[0] then [s[0]] else []) + Mask(s[1..], m[1..])
  }

  /** A mask that keeps everything. */
  function Ones(n: nat): (m: seq<bool>)
    ensures |m| == n && forall i :: 0 <= i < n ==> m[i]
  {
    seq(n, _ => true)
  }

  /** Pointwise conjunction of two masks. */
  function And(a: seq<bool>, b: seq<bool>): (m: seq<bool>)
    requires |a| == |b|
    ensures |m| == |a| && forall i :: 0 <= i < |a| ==> m[i] == (a[i] && b[i])
  {
    seq(|a|, i requires 0 <= i < |a| => a[i] && b[i])
  }

  lemma MaskOnes<T>(s: seq<T>)
    ensures Mask(s, Ones(|s|)) == s
  {
    if |s| > 0 {
      assert Ones(|s|)[1..] == Ones(|s| - 1);
      MaskOnes(s[1..]);
    }
  }

  lemma AndOnes(a: seq<bool>)
    ensures And(a, Ones(|a|)) == a
  {
  }

  /** Filtering by `a` and then by `b` (restricted to the survivors of `a`) keeps
      exactly the entries that pass both: sequential narrowing is a joint filter. */
  lemma {:induction false} MaskOfMask<T>(s: seq<T>, a: seq<bool>, b: seq<bool>)
    requires |s| == |a| == |b|
    ensures Mask(Mask(s, a), Mask(b, a)) == Mask(s, And(a, b))
    decreases |s|
  {
    if |s| > 0 {
      MaskOfMask(s[1..], a[1..], b[1..]);
      assert And(a, b)[1..] == And(a[1..], b[1..]);
      var x, y := Mask(s, a), Mask(b, a);
      if a[0] {
        assert x == [s[0]] + Mask(s[1..], a[1..]);
        assert y == [b[0]] + Mask(b[1..], a[1..]);
        assert x[1..] == Mask(s[1..], a[1..]) && y[1..] == Mask(b[1..], a[1..]);
      } else {
        assert x == Mask(s[1..], a[1..]);
        assert y == Mask(b[1..], a[1..]);
      }
    }
  }

  /** Narrowing the second mask to the survivors of the first counts the joint survivors. */
  lemma CountTrueMask(a: seq<bool>, b: seq<bool>)
    requires |a| == |b|
    ensures CountTrue(Mask(b, a)) == CountTrue(And(a, b))
  {
    MaskOfMask(a, a, b);
  }

  lemma {:induction false} CountTrueOnes(n: nat)
    ensures CountTrue(Ones(n)) == n
  {
    if n > 0 {
      assert Ones(n)[1..] == Ones(n - 1);
      CountTrueOnes(n - 1);
    }
  }

  /** `f` applied to every entry. */
  function Map<A, B>(s: seq<A>, f: A -> B): (r: seq<B>)
    ensures |r| == |s| && forall i :: 0 <= i < |s| ==> r[i] == f(s[i])
  {
    seq(|s|, i requires 0 <= i < |s| => f(s[i]))
  }

  /** A pointwise map and a filter commute. */
  lemma {:induction false} MapMask<A, B>(s: seq<A>, m: seq<bool>, f: A -> B)
    requires |s| == |m|
    ensures Map(Mask(s, m), f) == Mask(Map(s, f), m)
    decreases |s|
  {
    if |s| > 0 {
      MapMask(s[1..], m[1..], f);
      var t := Map(s, f);
      assert t[1..] == Map(s[1..], f);
      var rest := Mask(s[1..], m[1..]);
      if m[0] {
        assert Mask(s, m) == [s[0]] + rest;
        assert Map([s[0]] + rest, f) == [f(s[0])] + Map(rest, f);
      } else {
        assert Mask(s, m) == rest;
      }
    }
  }

  /** `p` holds at every index below `i`, one index after the other. */
  predicate AllBelow(p: nat -> bool, i: nat)
  {
    i == 0 || (AllBelow(p, i - 1) && p(i - 1))
  }

  lemma {:induction false} AllBelowForall(p: nat -> bool, i: nat)
    ensures AllBelow(p, i) <==> forall j: nat :: j < i ==> p(j)
  {
    if i > 0 {
      AllBelowForall(p, i - 1);
    }
  }

  /** `s` without repeats, each entry kept at its first occurrence. */
  function Dedup<T(==,!new)>(s: seq<T>): (r: seq<T>)
    ensures Distinct(r)
    ensures forall x :: x in r <==> x in s
    decreases |s|
  {
    if |s| == 0 then []
    else
      var x := s[|s| - 1];
      assert s == s[..|s| - 1] + [x];
      var r := Dedup(s[..|s| - 1]);
      if x in r then r else r + [x]
  }

  /** A sequence without repeats is its own deduplication. */
  lemma {:induction false} DedupDistinct<T(!new)>(s: seq<T>)
    requires Distinct(s)
    ensures Dedup(s) == s
    decreases |s|
  {
    if |s| > 0 {
      var init := s[..|s| - 1];
      DedupDistinct(init);
      forall k | 0 <= k < |init|
        ensures init[k] != s[|s| - 1]
      {
      }
      assert init + [s[|s| - 1]] == s;
    }
  }

  /** Appending entries already present adds nothing. */
  lemma {:induction false} DedupCovered<T(!new)>(s: seq<T>, t: seq<T>)
    requires forall x :: x in t ==> x in s
    ensures Dedup(s + t) == Dedup(s)
    decreases |t|
  {
    if |t| > 0 {
      var u := t[..|t| - 1];
      assert forall x :: x in u ==> x in t;
      DedupCovered(s, u);
      assert (s + t)[..|s + t| - 1] == s + u;
      assert (s + t)[|s + t| - 1] == t[|t| - 1];
    } else {
      assert s + t == s;
    }
  }

  lemma {:induction false} DistinctAtMostOnce<T>(s: seq<T>)
    requires Distinct(s)
    ensures forall x :: multiset(s)[x] <= 1
    decreases |s|
  {
    if |s| > 0 {
      assert s == [s[0]] + s[1..];
      DistinctAtMostOnce(s[1..]);
      forall k | 0 <= k < |s| - 1
        ensures s[1..][k] != s[0]
      {
        assert s[1..][k] == s[k + 1];
      }
    }
  }

  lemma RepeatedTwice<T>(s: seq<T>, i: nat, j: nat)
    requires i < j < |s| && s[i] == s[j]
    ensures multiset(s)[s[i]] >= 2
  {
    assert s == s[..j] + [s[j]] + s[j + 1..];
    assert s[..j][i] == s[i];
  }

  /** Reordering keeps a sequence free of repeats. */
  lemma DistinctPerm<T>(a: seq<T>, b: seq<T>)
    requires Distinct(a) && multiset(a) == multiset(b)
    ensures Distinct(b)
  {
    DistinctAtMostOnce(a);
    forall i, j | 0 <= i < j < |b|
      ensures b[i] != b[j]
    {
      if b[i] == b[j] {
        RepeatedTwice(b, i, j);
        assert false;
      }
    }
  }

  /** An entry survives a filter exactly when it sits at a kept position. */
  lemma {:induction false} InMask<T>(s: seq<T>, m: seq<bool>, x: T)
    requires |s| == |m|
    ensures x in Mask(s, m) <==> exists r :: 0 <= r < |s| && m[r] && s[r] == x
    decreases |s|
  {
    if |s| > 0 {
      InMask(s[1..], m[1..], x);
      assert Mask(s, m) == (if m[0] then [s[0]] else []) + Mask(s[1..], m[1..]);
      if exists r :: 0 <= r < |s| && m[r] && s[r] == x {
        var r :| 0 <= r < |s| && m[r] && s[r] == x;
        if r > 0 {
          assert m[1..][r - 1] && s[1..][r - 1] == x;
        }
      }
      if exists r :: 0 <= r < |s| - 1 && m[1..][r] && s[1..][r] == x {
        var r :| 0 <= r < |s| - 1 && m[1..][r] && s[1..][r] == x;
        assert m[r + 1] && s[r + 1] == x;
      }
    }
  }

  /** Filtering a sorted sequence leaves it sorted. */
  lemma MaskSorted<T>(s: seq<T>, m: seq<bool>, le: (T, T) -> bool)
    requires |s| == |m| && Sorted(s, le)
    ensures Sorted(Mask(s, m), le)
  {
    var r := Mask(s, m);
    TrueIndicesSpec(m);
    forall k, l | 0 <= k < l < |r|
      ensures le(r[k], r[l])
    {
      MaskAt(s, m, k);
      MaskAt(s, m, l);
    }
  }

  /** `s[p(s)]` keeps every entry that satisfies `p` as often as it occurs, and no other. */
  lemma {:induction false} MaskWhereMultiset<T>(s: seq<T>, p: T -> bool)
    ensures forall x :: multiset(Mask(s, Map(s, p)))[x] == if p(x) then multiset(s)[x] else 0
    decreases |s|
  {
    if |s| > 0 {
      MaskWhereMultiset(s[1..], p);
      assert Map(s, p)[1..] == Map(s[1..], p);
      assert s == [s[0]] + s[1..];
    }
  }

  /** Positions (counted from `offset`) of the `true` entries of a mask, in increasing order. */
  function PositionsFrom(m: seq<bool>, offset: nat): (r: seq<nat>)
    ensures |r| == CountTrue(m)
  {
    if |m| == 0 then [] else (if m[0] then [offset] else []) + PositionsFrom(m[1..], offset + 1)
  }

  /** Positions of the `true` entries of a mask. */
  function TrueIndices(m: seq<bool>): (r: seq<nat>)
    ensures |r| == CountTrue(m)
  {
    PositionsFrom(m, 0)
  }

  /** Every listed position holds a `true` entry. */
  lemma {:induction false} PositionsAreKept(m: seq<bool>, offset: nat)
    ensures forall k :: 0 <= k < |PositionsFrom(m, offset)| ==>
      offset <= PositionsFrom(m, offset)[k] < offset + |m| && m[PositionsFrom(m, offset)[k] - offset]
    decreases |m|
  {
    if |m| > 0 {
      PositionsAreKept(m[1..], offset + 1);
      var rest := PositionsFrom(m[1..], offset + 1);
      var head: seq<nat> := if m[0] then [offset] else [];
      var r := PositionsFrom(m, offset);
      assert r == head + rest;
      forall k | 0 <= k < |r|
        ensures offset <= r[k] < offset + |m| && m[r[k] - offset]
      {
        if k >= |head| {
          assert r[k] == rest[k - |head|];
          assert m[1..][r[k] - offset - 1] == m[r[k] - offset];
        }
      }
    }
  }

  /** Listed positions are strictly increasing. */
  lemma {:induction false} PositionsIncrease(m: seq<bool>, offset: nat)
    ensures forall k, l :: 0 <= k < l < |PositionsFrom(m, offset)| ==>
      PositionsFrom(m, offset)[k] < PositionsFrom(m, offset)[l]
    decreases |m|
  {
    if |m| > 0 {
      PositionsIncrease(m[1..], offset + 1);
      PositionsAreKept(m[1..], offset + 1);
      var rest := PositionsFrom(m[1..], offset + 1);
      var head: seq<nat> := if m[0] then [offset] else [];
      var r := PositionsFrom(m, offset);
      assert r == head + rest;
      forall k, l | 0 <= k < l < |r|
        ensures r[k] < r[l]
      {
        assert r[l] == rest[l - |head|];
        if k >= |head| {
          assert r[k] == rest[k - |head|];
        }
      }
    }
  }

  /** Every `true` entry is listed. */
  lemma {:induction false} PositionsComplete(m: seq<bool>, offset: nat, i: nat)
    requires i < |m| && m[i]
    ensures offset + i in PositionsFrom(m, offset)
    decreases |m|
  {
    var r := PositionsFrom(m, offset);
    var head: seq<nat> := if m[0] then [offset] else [];
    assert r == head + PositionsFrom(m[1..], offset + 1);
    if i == 0 {
      assert r[0] == offset;
    } else {
      assert m[1..][i - 1];
      PositionsComplete(m[1..], offset + 1, i - 1);
    }
  }

  /** `TrueIndices(m)` lists exactly the kept positions, strictly increasing. */
  lemma TrueIndicesSpec(m: seq<bool>)
    ensures forall k :: 0 <= k < |TrueIndices(m)| ==> TrueIndices(m)[k] < |m| && m[TrueIndices(m)[k]]
    ensures forall k, l :: 0 <= k < l < |TrueIndices(m)| ==> TrueIndices(m)[k] < TrueIndices(m)[l]
    ensures forall i :: 0 <= i < |m| && m[i] ==> i in TrueIndices(m)
  {
    PositionsAreKept(m, 0);
    PositionsIncrease(m, 0);
    forall i | 0 <= i < |m| && m[i]
      ensures i in TrueIndices(m)
    {
      PositionsComplete(m, 0, i);
    }
  }

  /** The `k`-th survivor of a mask is the entry at the `k`-th kept position. */
  lemma {:induction false} MaskAtFrom<T>(s: seq<T>, m: seq<bool>, offset: nat, k: nat)
    requires |s| == |m| && k < CountTrue(m)
    ensures offset <= PositionsFrom(m, offset)[k] < offset + |s|
    ensures Mask(s, m)[k] == s[PositionsFrom(m, offset)[k] - offset]
    decreases |s|
  {
    PositionsAreKept(m, offset);
    if !(m[0] && k == 0) {
      var k' := if m[0] then k - 1 else k;
      MaskAtFrom(s[1..], m[1..], offset + 1, k');
      assert Mask(s, m) == (if m[0] then [s[0]] else []) + Mask(s[1..], m[1..]);
      assert PositionsFrom(m, offset) == (if m[0] then [offset] else []) + PositionsFrom(m[1..], offset + 1);
    }
  }

  lemma MaskAt<T>(s: seq<T>, m: seq<bool>, k: nat)
    requires |s| == |m| && k < CountTrue(m)
    ensures TrueIndices(m)[k] < |s| && Mask(s, m)[k] == s[TrueIndices(m)[k]]
  {
    MaskAtFrom(s, m, 0, k);
  }

  /** `Mask(s, m)` reads `s` at the kept positions in increasing order, and it
      skips no kept position. */
  lemma MaskPositions<T>(s: seq<T>, m: seq<bool>)
    requires |s| == |m|
    ensures |Mask(s, m)| == |TrueIndices(m)|
    ensures forall j :: 0 <= j < |Mask(s, m)| ==>
      TrueIndices(m)[j] < |s| && m[TrueIndices(m)[j]] && Mask(s, m)[j] == s[TrueIndices(m)[j]]
    ensures forall k, l :: 0 <= k < l < |TrueIndices(m)| ==> TrueIndices(m)[k] < TrueIndices(m)[l]
    ensures forall i :: 0 <= i < |m| && m[i] ==> i in TrueIndices(m)
  {
    TrueIndicesSpec(m);
    forall j | 0 <= j < |Mask(s, m)|
      ensures TrueIndices(m)[j] < |s| && Mask(s, m)[j] == s[TrueIndices(m)[j]]
    {
      MaskAt(s, m, j);
    }
  }

  /** Number of entries of `s` that satisfy `p`. */
  function CountWhere<T>(s: seq<T>, p: T -> bool): nat
  {
    if |s| == 0 then 0 else (if p(s[0]) then 1 else 0) + CountWhere(s[1..], p)
  }

  lemma {:induction false} CountWhereConcat<T>(a: seq<T>, b: seq<T>, p: T -> bool)
    ensures CountWhere(a + b, p) == CountWhere(a, p) + CountWhere(b, p)
    decreases |a|
  {
    if |a| > 0 {
      assert (a + b)[1..] == a[1..] + b;
      CountWhereConcat(a[1..], b, p);
    } else {
      assert a + b == b;
    }
  }

  lemma {:induction false} CountWhereAll<T>(s: seq<T>, p: T -> bool)
    requires forall i :: 0 <= i < |s| ==> p(s[i])
    ensures CountWhere(s, p) == |s|
    decreases |s|
  {
    if |s| > 0 {
      CountWhereAll(s[1..], p);
    }
  }

  /** Taking out the entry at `j` removes exactly that entry from the multiset. */
  lemma MultisetWithout<T>(b: seq<T>, j: nat)
    requires j < |b|
    ensures multiset(b[..j] + b[j + 1..]) == multiset(b) - multiset{b[j]}
  {
    assert b == b[..j] + [b[j]] + b[j + 1..];
  }

  /** Taking out the entry at `j` lowers the count by one exactly when it satisfies `p`. */
  lemma {:induction false} CountWhereWithout<T>(b: seq<T>, j: nat, p: T -> bool)
    requires j < |b|
    ensures CountWhere(b, p) == CountWhere(b[..j] + b[j + 1..], p) + (if p(b[j]) then 1 else 0)
  {
    var rest := b[..j] + b[j + 1..];
    if j == 0 {
      assert rest == b[1..];
    } else {
      CountWhereWithout(b[1..], j - 1, p);
      assert rest[0] == b[0];
      assert rest[1..] == b[1..][..j - 1] + b[1..][j..];
    }
  }

  /** Counting is insensitive to order: two sequences with the same multiset
      of entries have the same count. */
  lemma {:induction false} CountWherePerm<T>(a: seq<T>, b: seq<T>, p: T -> bool)
    requires multiset(a) == multiset(b)
    ensures CountWhere(a, p) == CountWhere(b, p)
    decreases |a|
  {
    if |a| == 0 {
      assert |b| == |multiset(b)| == 0;
    } else {
      var x := a[0];
      assert a == [x] + a[1..];
      assert multiset(a) == multiset{x} + multiset(a[1..]);
      assert x in multiset(b);
      var j :| 0 <= j < |b| && b[j] == x;
      MultisetWithout(b, j);
      CountWhereWithout(b, j, p);
      var b' := b[..j] + b[j + 1..];
      assert multiset(a[1..]) == multiset(b');
      CountWherePerm(a[1..], b', p);
    }
  }

  /** `le` is total and transitive: a comparison that `sort_values` can sort by. */
  ghost predicate TotalPreorder<T(!new)>(le: (T, T) -> bool)
  {
    && (forall a, b :: le(a, b) || le(b, a))
    && (forall a, b, c :: le(a, b) && le(b, c) ==> le(a, c))
  }

  predicate Sorted<T>(s: seq<T>, le: (T, T) -> bool)
  {
    forall i, j :: 0 <= i < j < |s| ==> le(s[i], s[j])
  }

  /** Inserts `x` before the first entry it may precede. */
  function Insert<T>(x: T, s: seq<T>, le: (T, T) -> bool): (r: seq<T>)
    ensures |r| == |s| + 1 && multiset(r) == multiset(s) + multiset{x}
  {
    if |s| == 0 then [x]
    else if le(x, s[0]) then [x] + s
    else
      assert s == [s[0]] + s[1..];
      [s[0]] + Insert(x, s[1..], le)
  }

  /** Insertion sort; it is stable, which is one of the orders an unstable sort may produce. */
  function SortBy<T>(s: seq<T>, le: (T, T) -> bool): (r: seq<T>)
    ensures |r| == |s| && multiset(r) == multiset(s)
  {
    if |s| == 0 then []
    else
      assert s == [s[0]] + s[1..];
      Insert(s[0], SortBy(s[1..], le), le)
  }

  lemma {:induction false} InsertSorted<T(!new)>(x: T, s: seq<T>, le: (T, T) -> bool)
    requires TotalPreorder(le) && Sorted(s, le)
    ensures Sorted(Insert(x, s, le), le)
    decreases |s|
  {
    if |s| > 0 && !le(x, s[0]) {
      InsertSorted(x, s[1..], le);
      var rest := Insert(x, s[1..], le);
      assert Insert(x, s, le) == [s[0]] + rest;
      forall j | 0 <= j < |rest|
        ensures le(s[0], rest[j])
      {
        assert rest[j] in multiset(rest);
        if rest[j] != x {
          assert rest[j] in multiset(s[1..]);
          var k :| 0 <= k < |s[1..]| && s[1..][k] == rest[j];
          assert s[k + 1] == rest[j];
        }
      }
    }
  }

  /** The sort's output is ordered by `le`. */
  lemma {:induction false} SortBySorted<T(!new)>(s: seq<T>, le: (T, T) -> bool)
    requires TotalPreorder(le)
    ensures Sorted(SortBy(s, le), le)
    decreases |s|
  {
    if |s| > 0 {
      SortBySorted(s[1..], le);
      InsertSorted(s[0], SortBy(s[1..], le), le);
    }
  }
}
