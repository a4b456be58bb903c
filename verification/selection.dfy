/**
 * Keeping, in order, the elements of a sequence that satisfy a test: the
 * `iter().filter(...).collect()` chains of the program.
 */
module Selection {

  /** The elements of `s` for which `keep` holds, in their original order. */
  function Filter<T(!new)>(s: seq<T>, keep: T -> bool): (r: seq<T>)
    ensures |r| <= |s|
  {
    if s == [] then []
    else
      (if keep(s[0]) then [s[0]] else []) + Filter(s[1..], keep)
  }

  /**
   * `idx` lists, in increasing order, exactly the positions of `s` whose
   * element satisfies `keep`, and `r` holds the elements at those positions.
   */
  ghost predicate Selects<T(!new)>(idx: seq<nat>, r: seq<T>, s: seq<T>, keep: T -> bool)
  {
    Picks(idx, r, s) && Increasing(idx) && Covers(idx, s, keep)
  }

  /** `r[k]` is the element of `s` at position `idx[k]`. */
  ghost predicate Picks<T>(idx: seq<nat>, r: seq<T>, s: seq<T>)
  {
    |idx| == |r| && forall k :: 0 <= k < |idx| ==> idx[k] < |s| && s[idx[k]] == r[k]
  }

  ghost predicate Increasing(idx: seq<nat>)
  {
    forall k, l :: 0 <= k < l < |idx| ==> idx[k] < idx[l]
  }

  /** The positions in `idx` are exactly those whose element passes the test. */
  ghost predicate Covers<T(!new)>(idx: seq<nat>, s: seq<T>, keep: T -> bool)
  {
    forall j :: 0 <= j < |s| ==> (keep(s[j]) <==> j in idx)
  }

  /** `idx` with every position moved one place to the right. */
  function Shift(idx: seq<nat>): (r: seq<nat>)
    ensures |r| == |idx|
    ensures forall k :: 0 <= k < |idx| ==> r[k] == idx[k] + 1
  {
    seq(|idx|, k requires 0 <= k < |idx| => idx[k] + 1)
  }

  lemma {:induction false} ShiftMembership(idx: seq<nat>)
    ensures 0 !in Shift(idx)
    ensures forall j: nat :: j in idx <==> j + 1 in Shift(idx)
  {
    var sh := Shift(idx);
    forall j: nat
      ensures j in idx <==> j + 1 in sh
    {
      if j in idx {
        var k :| 0 <= k < |idx| && idx[k] == j;
        assert sh[k] == j + 1;
      }
      if j + 1 in sh {
        var k :| 0 <= k < |sh| && sh[k] == j + 1;
        assert idx[k] == j;
      }
    }
  }

  lemma {:induction false} PicksCons<T>(tail: seq<nat>, r: seq<T>, s: seq<T>)
    requires s != [] && Picks(tail, r, s[1..])
    ensures Picks(Shift(tail), r, s)
    ensures Picks([0] + Shift(tail), [s[0]] + r, s)
  {
    var sh := Shift(tail);
    forall k | 0 <= k < |sh|
      ensures sh[k] < |s| && s[sh[k]] == r[k]
    {
      assert s[tail[k] + 1] == s[1..][tail[k]];
    }
    var idx, r' := [0] + sh, [s[0]] + r;
    forall k | 0 <= k < |idx|
      ensures idx[k] < |s| && s[idx[k]] == r'[k]
    {
      if k > 0 {
        assert idx[k] == sh[k - 1] && r'[k] == r[k - 1];
      }
    }
  }

  lemma {:induction false} IncreasingCons(tail: seq<nat>)
    requires Increasing(tail)
    ensures Increasing(Shift(tail))
    ensures Increasing([0] + Shift(tail))
  {
    var idx := [0] + Shift(tail);
    forall k, l | 0 <= k < l < |idx|
      ensures idx[k] < idx[l]
    {
      if k > 0 {
        assert idx[k] == tail[k - 1] + 1 && idx[l] == tail[l - 1] + 1;
      }
    }
  }

  lemma {:induction false} CoversCons<T(!new)>(tail: seq<nat>, s: seq<T>, keep: T -> bool)
    requires s != [] && Covers(tail, s[1..], keep)
    ensures !keep(s[0]) ==> Covers(Shift(tail), s, keep)
    ensures keep(s[0]) ==> Covers([0] + Shift(tail), s, keep)
  {
    var sh := Shift(tail);
    ShiftMembership(tail);
    forall j | 1 <= j < |s|
      ensures keep(s[j]) <==> j in sh
    {
      assert s[j] == s[1..][j - 1];
      assert j - 1 in tail <==> j in sh;
    }
    if keep(s[0]) {
      forall j | 0 <= j < |s|
        ensures keep(s[j]) <==> j in [0] + sh
      {
        assert j in [0] + sh <==> j == 0 || j in sh;
      }
    }
  }

  /**
   * The result of `Filter` is the subsequence of `s` made of every element
   * that passes the test, in the original order and with repetitions kept.
   */
  lemma {:induction false} FilterSelects<T(!new)>(s: seq<T>, keep: T -> bool)
    ensures exists idx :: Selects(idx, Filter(s, keep), s, keep)
  {
    if s == [] {
      assert Selects([], Filter(s, keep), s, keep);
    } else {
      FilterSelects(s[1..], keep);
      var tail :| Selects(tail, Filter(s[1..], keep), s[1..], keep);
      PicksCons(tail, Filter(s[1..], keep), s);
      IncreasingCons(tail);
      CoversCons(tail, s, keep);
      if keep(s[0]) {
        assert Filter(s, keep) == [s[0]] + Filter(s[1..], keep);
        assert Selects([0] + Shift(tail), Filter(s, keep), s, keep);
      } else {
        assert Filter(s, keep) == Filter(s[1..], keep);
        assert Selects(Shift(tail), Filter(s, keep), s, keep);
      }
    }
  }

  /**
   * Positions of `s` other than 0, listed as a selection from `s` apart from
   * position 0, are a shifted selection from `s[1..]`.
   */
  lemma {:induction false} SelectsUncons<T(!new)>(idx: seq<nat>, r: seq<T>, s: seq<T>, keep: T -> bool) returns (tail: seq<nat>)
    requires s != [] && Picks(idx, r, s) && Increasing(idx) && 0 !in idx
    requires forall j :: 1 <= j < |s| ==> (keep(s[j]) <==> j in idx)
    ensures Selects(tail, r, s[1..], keep)
  {
    assert forall k :: 0 <= k < |idx| ==> idx[k] != 0 by {
      forall k | 0 <= k < |idx| ensures idx[k] != 0 {
        assert idx[k] in idx;
      }
    }
    tail := seq(|idx|, k requires 0 <= k < |idx| => idx[k] - 1);
    assert Shift(tail) == idx;
    ShiftMembership(tail);
    var t := s[1..];
    assert Picks(tail, r, t);
    assert Increasing(tail);
    forall j | 0 <= j < |t|
      ensures keep(t[j]) <==> j in tail
    {
      assert t[j] == s[j + 1];
    }
    assert Selects(tail, r, t, keep);
  }

  /** When the first element passes the test, a selection starts with position 0 and picks `s[0]` there. */
  lemma {:induction false} SelectsKeepFirst<T(!new)>(idx: seq<nat>, r: seq<T>, s: seq<T>, keep: T -> bool) returns (tail: seq<nat>)
    requires s != [] && Selects(idx, r, s, keep) && keep(s[0])
    ensures |r| > 0 && r[0] == s[0] && Selects(tail, r[1..], s[1..], keep)
  {
    assert 0 in idx;
    var k0 :| 0 <= k0 < |idx| && idx[k0] == 0;
    var idx', r' := idx[1..], r[1..];
    assert idx == [0] + idx';
    assert Picks(idx', r', s);
    assert Increasing(idx');
    forall k | 0 <= k < |idx'|
      ensures idx'[k] != 0
    {
      assert idx[0] < idx[k + 1];
    }
    forall j | 1 <= j < |s|
      ensures keep(s[j]) <==> j in idx'
    {
      assert j in idx <==> j in idx';
    }
    tail := SelectsUncons(idx', r', s, keep);
  }

  /** When the first element fails the test, a selection does not use position 0. */
  lemma {:induction false} SelectsSkipFirst<T(!new)>(idx: seq<nat>, r: seq<T>, s: seq<T>, keep: T -> bool)
    requires s != [] && Selects(idx, r, s, keep) && !keep(s[0])
    ensures 0 !in idx
  {
  }

  lemma {:induction false} PicksFirst<T>(idx: seq<nat>, r: seq<T>, s: seq<T>)
    requires Picks(idx, r, s)
    ensures |idx| == |r| && (|idx| > 0 ==> idx[0] < |s|)
  {
  }

  /**
   * The converse: any sequence that selects, in order, exactly the
   * elements of `s` passing the test is `Filter(s, keep)`; so the two
   * descriptions of the result agree.
   */
  lemma {:induction false} SelectsIsFilter<T(!new)>(idx: seq<nat>, r: seq<T>, s: seq<T>, keep: T -> bool)
    requires Selects(idx, r, s, keep)
    ensures r == Filter(s, keep)
    decreases |s|
  {
    if s == [] {
      PicksFirst(idx, r, s);
    } else {
      if keep(s[0]) {
        var tail := SelectsKeepFirst(idx, r, s, keep);
        SelectsIsFilter(tail, r[1..], s[1..], keep);
        assert r == [s[0]] + r[1..];
      } else {
        SelectsSkipFirst(idx, r, s, keep);
        var tail := SelectsUncons(idx, r, s, keep);
        SelectsIsFilter(tail, r, s[1..], keep);
      }
    }
  }

  /** An element is in the result exactly when it is in `s` and passes the test. */
  lemma {:induction false} FilterMembers<T(!new)>(s: seq<T>, keep: T -> bool)
    ensures forall x :: x in Filter(s, keep) <==> x in s && keep(x)
  {
    if s != [] {
      FilterMembers(s[1..], keep);
      assert s == [s[0]] + s[1..];
    }
  }

  /** When every element passes the test, filtering changes nothing. */
  lemma {:induction false} FilterKeepsAll<T(!new)>(s: seq<T>, keep: T -> bool)
    requires forall x :: x in s ==> keep(x)
    ensures Filter(s, keep) == s
  {
    if s != [] {
      assert s[0] in s;
      assert forall x :: x in s[1..] ==> x in s;
      FilterKeepsAll(s[1..], keep);
      assert s == [s[0]] + s[1..];
    }
  }

  /** When no element passes the test, nothing is kept. */
  lemma {:induction false} FilterKeepsNone<T(!new)>(s: seq<T>, keep: T -> bool)
    requires forall x :: x in s ==> !keep(x)
    ensures Filter(s, keep) == []
  {
    if s != [] {
      assert s[0] in s;
      assert forall x :: x in s[1..] ==> x in s;
      FilterKeepsNone(s[1..], keep);
    }
  }

  /** Every element occurs in the result as often as in `s` if it passes the test, and not at all otherwise. */
  lemma {:induction false} FilterCount<T(!new)>(s: seq<T>, keep: T -> bool, x: T)
    ensures multiset(Filter(s, keep))[x] == if keep(x) then multiset(s)[x] else 0
  {
    if s != [] {
      FilterCount(s[1..], keep, x);
      var head := if keep(s[0]) then [s[0]] else [];
      assert s == [s[0]] + s[1..];
      assert multiset(s) == multiset([s[0]]) + multiset(s[1..]);
      assert multiset(Filter(s, keep)) == multiset(head) + multiset(Filter(s[1..], keep));
    }
  }

  /** Filtering distributes over concatenation. */
  lemma {:induction false} FilterAppend<T(!new)>(a: seq<T>, b: seq<T>, keep: T -> bool)
    ensures Filter(a + b, keep) == Filter(a, keep) + Filter(b, keep)
  {
    if a == [] {
      assert a + b == b;
    } else {
      var head := if keep(a[0]) then [a[0]] else [];
      assert (a + b)[0] == a[0];
      assert (a + b)[1..] == a[1..] + b;
      FilterAppend(a[1..], b, keep);
      calc {
        Filter(a + b, keep);
        head + Filter(a[1..] + b, keep);
        head + (Filter(a[1..], keep) + Filter(b, keep));
        (head + Filter(a[1..], keep)) + Filter(b, keep);
      }
    }
  }

  /** Filtering around position `i`: what precedes it, `s[i]` if it passes, then what follows. */
  lemma {:induction false} FilterSplit<T(!new)>(s: seq<T>, keep: T -> bool, i: nat)
    requires i < |s|
    ensures Filter(s, keep) == Filter(s[..i], keep) + (if keep(s[i]) then [s[i]] else []) + Filter(s[i + 1..], keep)
  {
    var tail := s[i..];
    assert s == s[..i] + tail;
    FilterAppend(s[..i], tail, keep);
    assert tail[0] == s[i] && tail[1..] == s[i + 1..];
    assert Filter(tail, keep) == (if keep(s[i]) then [s[i]] else []) + Filter(s[i + 1..], keep);
  }

  /** A longer prefix keeps at least as many elements. */
  lemma {:induction false} FilterPrefixGrows<T(!new)>(s: seq<T>, keep: T -> bool, a: nat, b: nat)
    requires a <= b <= |s|
    ensures |Filter(s[..a], keep)| <= |Filter(s[..b], keep)|
  {
    assert s[..b] == s[..a] + s[a..b];
    FilterAppend(s[..a], s[a..b], keep);
  }

  /**
   * The `k`-th kept element stands at a position `j` of `s` that passes the
   * test, with exactly `k` kept elements before it.
   */
  lemma {:induction false} FilterAt<T(!new)>(s: seq<T>, keep: T -> bool, k: nat) returns (j: nat)
    requires k < |Filter(s, keep)|
    ensures j < |s| && keep(s[j]) && s[j] == Filter(s, keep)[k]
    ensures |Filter(s[..j], keep)| == k
  {
    var head := if keep(s[0]) then [s[0]] else [];
    assert Filter(s, keep) == head + Filter(s[1..], keep);
    if keep(s[0]) && k == 0 {
      j := 0;
      assert s[..0] == [];
    } else {
      var k' := if keep(s[0]) then k - 1 else k;
      var j' := FilterAt(s[1..], keep, k');
      j := j' + 1;
      assert s[..j] == [s[0]] + s[1..][..j'];
      assert s[..j][1..] == s[1..][..j'];
      assert Filter(s[..j], keep) == head + Filter(s[1..][..j'], keep);
    }
  }

  /**
   * Filtering with a stronger test can be done in two stages: first with
   * the weaker test, then with the stronger one.
   */
  lemma {:induction false} FilterNarrows<T(!new)>(s: seq<T>, strong: T -> bool, weak: T -> bool)
    requires forall x :: strong(x) ==> weak(x)
    ensures Filter(s, strong) == Filter(Filter(s, weak), strong)
  {
    if s != [] {
      FilterNarrows(s[1..], strong, weak);
      var fw := Filter(s[1..], weak);
      if weak(s[0]) {
        assert Filter(s, weak) == [s[0]] + fw;
        assert ([s[0]] + fw)[1..] == fw;
        assert Filter([s[0]] + fw, strong) == (if strong(s[0]) then [s[0]] else []) + Filter(fw, strong);
      } else {
        assert !strong(s[0]);
        assert Filter(s, weak) == fw;
      }
    }
  }
}
