/** Whole-column operations of the view pipeline: a boolean-mask filter, `dropna`
    on a column with missing entries, and element-wise maps that leave missing
    entries missing. */
module Seqs {
  import opened Wrappers

  /** The elements of `s` for which `keep` holds, in their original order
      (a frame indexed by a boolean mask). */
  function Filter<T(!new)>(s: seq<T>, keep: T -> bool): (r: seq<T>)
    ensures |r| <= |s|
    ensures forall x :: x in r <==> x in s && keep(x)
  {
    if s == [] then []
    else (if keep(s[0]) then [s[0]] else []) + Filter(s[1..], keep)
  }

  /** A mask that selects nothing gives an empty result. */
  lemma {:induction false} FilterNone<T(!new)>(s: seq<T>, keep: T -> bool)
    requires forall k :: 0 <= k < |s| ==> !keep(s[k])
    ensures Filter(s, keep) == []
  {
    if s != [] {
      FilterNone(s[1..], keep);
    }
  }

  /** A mask that selects everything keeps the sequence. */
  lemma {:induction false} FilterAll<T(!new)>(s: seq<T>, keep: T -> bool)
    requires forall k :: 0 <= k < |s| ==> keep(s[k])
    ensures Filter(s, keep) == s
  {
    if s != [] {
      FilterAll(s[1..], keep);
    }
  }

  /** A kept head followed only by dropped elements filters to the head. */
  lemma FilterKeepsOnlyHead<T(!new)>(x: T, rest: seq<T>, keep: T -> bool)
    requires keep(x)
    requires forall y :: y in rest ==> !keep(y)
    ensures Filter([x] + rest, keep) == [x]
  {
    FilterNone(rest, keep);
    assert ([x] + rest)[1..] == rest;
  }

  /** How many elements of `s` before index `i` are kept. */
  function Rank<T(!new)>(s: seq<T>, keep: T -> bool, i: nat): nat
    requires i <= |s|
  {
    |Filter(s[..i], keep)|
  }

  lemma {:induction false} FilterConcat<T(!new)>(a: seq<T>, b: seq<T>, keep: T -> bool)
    ensures Filter(a + b, keep) == Filter(a, keep) + Filter(b, keep)
  {
    if a == [] {
      assert a + b == b;
    } else {
      assert (a + b)[1..] == a[1..] + b;
      FilterConcat(a[1..], b, keep);
    }
  }

  /** A kept element lands at its rank: the filter keeps every selected
      element, and nothing is reordered. */
  lemma FilterAt<T(!new)>(s: seq<T>, keep: T -> bool, i: nat)
    requires i < |s| && keep(s[i])
    ensures Rank(s, keep, i) < |Filter(s, keep)|
    ensures Filter(s, keep)[Rank(s, keep, i)] == s[i]
  {
    assert s == s[..i] + [s[i]] + s[i + 1..];
    FilterConcat(s[..i] + [s[i]], s[i + 1..], keep);
    FilterConcat(s[..i], [s[i]], keep);
    assert Filter([s[i]], keep) == [s[i]] by {
      assert [s[i]][1..] == [];
    }
  }

  /** Kept elements keep their relative order. */
  lemma FilterOrder<T(!new)>(s: seq<T>, keep: T -> bool, i: nat, j: nat)
    requires i < j < |s| && keep(s[i])
    ensures Rank(s, keep, i) < Rank(s, keep, j)
  {
    assert s[..j] == s[..i] + s[i..j];
    FilterConcat(s[..i], s[i..j], keep);
    assert s[i] in Filter(s[i..j], keep) by {
      assert s[i..j][0] == s[i];
    }
  }

  /** The rank grows by one past a kept element and stays put past a dropped one. */
  lemma RankStep<T(!new)>(s: seq<T>, keep: T -> bool, i: nat)
    requires i < |s|
    ensures Rank(s, keep, 0) == 0
    ensures Rank(s, keep, i + 1) == Rank(s, keep, i) + (if keep(s[i]) then 1 else 0)
  {
    assert s[..0] == [];
    assert s[..i + 1] == s[..i] + [s[i]];
    FilterConcat(s[..i], [s[i]], keep);
    assert [s[i]][1..] == [];
  }

  lemma {:induction false} RankReaches<T(!new)>(s: seq<T>, keep: T -> bool, k: nat, n: nat)
    requires 1 <= n <= |s| && k < Rank(s, keep, n)
    ensures exists i :: 0 <= i < n && keep(s[i]) && Rank(s, keep, i) == k
  {
    RankStep(s, keep, n - 1);
    if n > 1 && k < Rank(s, keep, n - 1) {
      RankReaches(s, keep, k, n - 1);
    } else {
      if n > 1 {
        assert Rank(s, keep, n - 1) <= k;
      } else {
        assert Rank(s, keep, n - 1) == 0;
      }
      assert keep(s[n - 1]) && Rank(s, keep, n - 1) == k;
    }
  }

  /** Every position of the filtered sequence holds a kept element at its
      rank, so the result has no entries besides the kept ones. */
  lemma FilterPositions<T(!new)>(s: seq<T>, keep: T -> bool, k: nat)
    requires k < |Filter(s, keep)|
    ensures exists i :: 0 <= i < |s| && keep(s[i]) && Rank(s, keep, i) == k && Filter(s, keep)[k] == s[i]
  {
    assert s[..|s|] == s;
    RankReaches(s, keep, k, |s|);
    var i :| 0 <= i < |s| && keep(s[i]) && Rank(s, keep, i) == k;
    FilterAt(s, keep, i);
  }

  // `dropna` follows the same plan as `Filter` (rank, concatenation, position
  // and order lemmas) but is defined on its own. It both selects the present
  // entries and unwraps them (`Option<T>` to `T`), and a definition through
  // `Filter` would need a partial unwrapping function. The direct recursion
  // also gives the membership ensures `x in r <==> Some(x) in s` without an
  // extra quantifier, which the view lemmas lean on.

  /** `dropna`: the present values of a column, in order. */
  function Present<T(!new)>(s: seq<Option<T>>): (r: seq<T>)
    ensures |r| <= |s|
    ensures forall x :: x in r <==> Some(x) in s
  {
    if s == [] then []
    else (if s[0].Some? then [s[0].value] else []) + Present(s[1..])
  }

  /** How many entries of `s` before index `i` are present. */
  function PresentRank<T(!new)>(s: seq<Option<T>>, i: nat): nat
    requires i <= |s|
  {
    |Present(s[..i])|
  }

  lemma {:induction false} PresentConcat<T(!new)>(a: seq<Option<T>>, b: seq<Option<T>>)
    ensures Present(a + b) == Present(a) + Present(b)
  {
    if a == [] {
      assert a + b == b;
    } else {
      assert (a + b)[1..] == a[1..] + b;
      PresentConcat(a[1..], b);
    }
  }

  /** A present entry lands at its rank in the dropped column. */
  lemma PresentAt<T(!new)>(s: seq<Option<T>>, i: nat)
    requires i < |s| && s[i].Some?
    ensures PresentRank(s, i) < |Present(s)|
    ensures Present(s)[PresentRank(s, i)] == s[i].value
  {
    assert s == s[..i] + [s[i]] + s[i + 1..];
    PresentConcat(s[..i] + [s[i]], s[i + 1..]);
    PresentConcat(s[..i], [s[i]]);
    assert Present([s[i]]) == [s[i].value] by {
      assert [s[i]][1..] == [];
    }
  }

  /** Present entries keep their relative order. */
  lemma PresentOrder<T(!new)>(s: seq<Option<T>>, i: nat, j: nat)
    requires i < j < |s| && s[i].Some?
    ensures PresentRank(s, i) < PresentRank(s, j)
  {
    assert s[..j] == s[..i] + s[i..j];
    PresentConcat(s[..i], s[i..j]);
    assert s[i..j][0] == s[i];
    assert s[i].value in Present(s[i..j]);
  }

  /** The rank grows by one past a present entry and stays put past a missing one. */
  lemma PresentRankStep<T(!new)>(s: seq<Option<T>>, i: nat)
    requires i < |s|
    ensures PresentRank(s, 0) == 0
    ensures PresentRank(s, i + 1) == PresentRank(s, i) + (if s[i].Some? then 1 else 0)
  {
    assert s[..0] == [];
    assert s[..i + 1] == s[..i] + [s[i]];
    PresentConcat(s[..i], [s[i]]);
    assert [s[i]][1..] == [];
  }

  lemma {:induction false} PresentRankReaches<T(!new)>(s: seq<Option<T>>, k: nat, n: nat)
    requires 1 <= n <= |s| && k < PresentRank(s, n)
    ensures exists i :: 0 <= i < n && s[i].Some? && PresentRank(s, i) == k
  {
    PresentRankStep(s, n - 1);
    if n > 1 && k < PresentRank(s, n - 1) {
      PresentRankReaches(s, k, n - 1);
    } else {
      if n > 1 {
        assert PresentRank(s, n - 1) <= k;
      } else {
        assert PresentRank(s, n - 1) == 0;
      }
      assert s[n - 1].Some? && PresentRank(s, n - 1) == k;
    }
  }

  /** Every position of the dropped column holds a present entry at its rank,
      so `dropna` adds nothing besides the present values. */
  lemma PresentPositions<T(!new)>(s: seq<Option<T>>, k: nat)
    requires k < |Present(s)|
    ensures exists i :: 0 <= i < |s| && s[i].Some? && PresentRank(s, i) == k && Present(s)[k] == s[i].value
  {
    assert s[..|s|] == s;
    PresentRankReaches(s, k, |s|);
    var i :| 0 <= i < |s| && s[i].Some? && PresentRank(s, i) == k;
    PresentAt(s, i);
  }

  /** A column without missing entries loses nothing to `dropna`. */
  lemma {:induction false} PresentAllSome<T(!new)>(s: seq<Option<T>>)
    requires forall k :: 0 <= k < |s| ==> s[k].Some?
    ensures |Present(s)| == |s|
    ensures forall k :: 0 <= k < |s| ==> Present(s)[k] == s[k].value
  {
    if s != [] {
      PresentAllSome(s[1..]);
    }
  }

  /** Dropping missing entries from a column that is missing wherever `b` is
      leaves at most as many values as dropping them from `b`. */
  lemma {:induction false} PresentFewer<T(!new), U(!new)>(a: seq<Option<T>>, b: seq<Option<U>>)
    requires |a| == |b|
    requires forall k :: 0 <= k < |a| && a[k].Some? ==> b[k].Some?
    ensures |Present(a)| <= |Present(b)|
  {
    if a != [] {
      PresentFewer(a[1..], b[1..]);
    }
  }

  /** Applies `f` to every element. */
  function MapSeq<T, U>(s: seq<T>, f: T -> U): (r: seq<U>)
    ensures |r| == |s|
  {
    seq(|s|, i requires 0 <= i < |s| => f(s[i]))
  }

  lemma MapSeqConcat<T, U>(a: seq<T>, b: seq<T>, f: T -> U)
    ensures MapSeq(a + b, f) == MapSeq(a, f) + MapSeq(b, f)
  {
    assert forall k :: 0 <= k < |a| + |b| ==> MapSeq(a + b, f)[k] == (MapSeq(a, f) + MapSeq(b, f))[k];
  }

  /** Applies `f` to every present entry; missing entries stay missing
      (NaN propagates through element-wise arithmetic). */
  function MapPresent<T, U>(s: seq<Option<T>>, f: T -> U): (r: seq<Option<U>>)
    ensures |r| == |s|
    ensures forall i :: 0 <= i < |s| ==> (r[i].Some? <==> s[i].Some?)
    ensures forall i :: 0 <= i < |s| && s[i].Some? ==> r[i].value == f(s[i].value)
  {
    seq(|s|, i requires 0 <= i < |s| => if s[i].Some? then Some(f(s[i].value)) else None)
  }

  /** Dropping missing entries after an element-wise map is the same as
      mapping the present values. */
  lemma {:induction false} PresentOfMapPresent<T(!new), U(!new)>(s: seq<Option<T>>, f: T -> U)
    ensures Present(MapPresent(s, f)) == MapSeq(Present(s), f)
  {
    if s != [] {
      assert MapPresent(s, f)[1..] == MapPresent(s[1..], f);
      PresentOfMapPresent(s[1..], f);
      var rest := Present(s[1..]);
      if s[0].Some? {
        assert MapSeq([s[0].value] + rest, f) == [f(s[0].value)] + MapSeq(rest, f);
      } else {
        assert Present(s) == rest;
      }
    }
  }
}
