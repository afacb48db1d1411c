/**
 * Ordered sequences of frame indices, and the normalisation that
 * `split_long_scenes` applies to the boundaries it has collected:
 * `Vec::sort` followed by `Vec::dedup`.
 */
module Sequences {

  /** Non-decreasing order. */
  ghost predicate Sorted(s: seq<nat>)
  {
    forall i, j :: 0 <= i < j < |s| ==> s[i] <= s[j]
  }

  /** Strictly increasing order: sorted and free of duplicates. */
  ghost predicate StrictlyIncreasing(s: seq<nat>)
  {
    forall i, j :: 0 <= i < j < |s| ==> s[i] < s[j]
  }

  /** The set of values a sequence holds. */
  ghost function Elems(s: seq<nat>): set<nat>
  {
    set x | x in s
  }

  lemma ElemsEmpty(s: seq<nat>)
    ensures Elems(s) == {} <==> s == []
  {
    if s != [] {
      assert s[0] in Elems(s);
    }
  }

  lemma AppendAssoc(a: seq<nat>, b: seq<nat>, c: seq<nat>)
    ensures (a + b) + c == a + (b + c)
  {
  }

  /** Sequences that are permutations of each other hold the same values. */
  lemma SameMembers(a: seq<nat>, b: seq<nat>)
    requires multiset(a) == multiset(b)
    ensures Elems(a) == Elems(b)
  {
    forall x ensures x in a <==> x in b {
      assert x in a <==> x in multiset(a);
      assert x in b <==> x in multiset(b);
    }
  }

  lemma ElemsConcat(a: seq<nat>, b: seq<nat>)
    ensures Elems(a + b) == Elems(a) + Elems(b)
  {
    forall x | x in Elems(a) + Elems(b) ensures x in a + b {
      if x in a {
        var k :| 0 <= k < |a| && a[k] == x;
        assert (a + b)[k] == x;
      } else {
        var k :| 0 <= k < |b| && b[k] == x;
        assert (a + b)[|a| + k] == x;
      }
    }
  }

  /** Dropping the head of a strictly increasing sequence removes exactly its least value. */
  lemma ElemsTail(s: seq<nat>)
    requires StrictlyIncreasing(s) && s != []
    ensures Elems(s[1..]) == Elems(s) - {s[0]}
  {
    assert s == [s[0]] + s[1..];
    ElemsConcat([s[0]], s[1..]);
    forall x | x in s[1..] ensures x != s[0] {
      var k :| 0 <= k < |s[1..]| && s[1..][k] == x;
      assert s[k + 1] == x;
    }
  }

  /**
   * A strictly increasing sequence is determined by the set of its values:
   * "sort, then remove duplicates" has exactly one possible outcome.
   */
  lemma {:induction false} StrictlyIncreasingUnique(a: seq<nat>, b: seq<nat>)
    requires StrictlyIncreasing(a) && StrictlyIncreasing(b)
    requires Elems(a) == Elems(b)
    ensures a == b
    decreases |a|
  {
    ElemsEmpty(a);
    ElemsEmpty(b);
    if a != [] {
      assert a[0] in Elems(b);
      var k :| 0 <= k < |b| && b[k] == a[0];
      assert b[0] in Elems(a);
      var m :| 0 <= m < |a| && a[m] == b[0];
      assert b[0] <= b[k] && a[0] <= a[m];
      assert a[0] == b[0];
      ElemsTail(a);
      ElemsTail(b);
      StrictlyIncreasingUnique(a[1..], b[1..]);
      assert a == [a[0]] + a[1..];
      assert b == [b[0]] + b[1..];
    }
  }

  /** Two strictly increasing sequences joined with the first below the second. */
  lemma StrictlyIncreasingConcat(a: seq<nat>, b: seq<nat>)
    requires StrictlyIncreasing(a) && StrictlyIncreasing(b)
    requires forall x :: x in a ==> forall y :: y in b ==> x < y
    ensures StrictlyIncreasing(a + b)
  {
    forall i, j | 0 <= i < j < |a + b| ensures (a + b)[i] < (a + b)[j] {
      if j < |a| {
        assert (a + b)[i] == a[i] && (a + b)[j] == a[j];
      } else if i >= |a| {
        assert (a + b)[i] == b[i - |a|] && (a + b)[j] == b[j - |a|];
      } else {
        assert a[i] in a && b[j - |a|] in b;
      }
    }
  }

  /**
   * `Vec::sort`: the result is sorted and a permutation of the input.
   * (Rust's sort is a stable sort; on plain integers only its result is
   * observable, and this insertion sort has the same one.)
   */
  method Sort(s: seq<nat>) returns (r: seq<nat>)
    ensures Sorted(r)
    ensures multiset(r) == multiset(s)
  {
    r := [];
    for i := 0 to |s|
      invariant Sorted(r)
      invariant multiset(r) == multiset(s[..i])
    {
      var x := s[i];
      var k := 0;
      while k < |r| && r[k] <= x
        invariant 0 <= k <= |r|
        invariant forall m :: 0 <= m < k ==> r[m] <= x
      {
        k := k + 1;
      }
      assert r == r[..k] + r[k..];
      assert s[..i + 1] == s[..i] + [x];
      r := r[..k] + [x] + r[k..];
    }
    assert s[..|s|] == s;
  }

  /**
   * The input with each element dropped that equals the element just before
   * it in the input: every run of equal adjacent values kept once.
   */
  ghost function WithoutAdjacentRepeats(s: seq<nat>): (r: seq<nat>)
    decreases |s|
  {
    if |s| <= 1 then s
    else
      var kept := WithoutAdjacentRepeats(s[..|s| - 1]);
      if s[|s| - 1] == s[|s| - 2] then kept else kept + [s[|s| - 1]]
  }

  /** One more input element extends the collapsed prefix by at most that element. */
  lemma WithoutAdjacentRepeatsStep(s: seq<nat>, i: nat)
    requires i < |s|
    ensures WithoutAdjacentRepeats(s[..i + 1]) ==
            if i > 0 && s[i] == s[i - 1] then WithoutAdjacentRepeats(s[..i])
            else WithoutAdjacentRepeats(s[..i]) + [s[i]]
  {
    assert s[..i + 1][..i] == s[..i];
  }

  /** Collapsing keeps the first and the last value and never lengthens. */
  lemma {:induction false} WithoutAdjacentRepeatsEnds(s: seq<nat>)
    ensures |WithoutAdjacentRepeats(s)| <= |s|
    ensures s == [] ==> WithoutAdjacentRepeats(s) == []
    ensures s != [] ==> var r := WithoutAdjacentRepeats(s);
              r != [] && r[0] == s[0] && r[|r| - 1] == s[|s| - 1]
    decreases |s|
  {
    if |s| > 1 {
      WithoutAdjacentRepeatsEnds(s[..|s| - 1]);
    }
  }

  /** No two adjacent values of the collapsed sequence are equal. */
  lemma {:induction false} WithoutAdjacentRepeatsDistinct(s: seq<nat>)
    ensures var r := WithoutAdjacentRepeats(s);
            forall k :: 0 < k < |r| ==> r[k - 1] != r[k]
    decreases |s|
  {
    if |s| > 1 {
      WithoutAdjacentRepeatsDistinct(s[..|s| - 1]);
      WithoutAdjacentRepeatsEnds(s[..|s| - 1]);
    }
  }

  /** Collapsing keeps the set of values. */
  lemma {:induction false} WithoutAdjacentRepeatsElems(s: seq<nat>)
    ensures Elems(WithoutAdjacentRepeats(s)) == Elems(s)
    decreases |s|
  {
    if |s| > 1 {
      var init := s[..|s| - 1];
      WithoutAdjacentRepeatsElems(init);
      assert s == init + [s[|s| - 1]];
      ElemsConcat(init, [s[|s| - 1]]);
      ElemsConcat(WithoutAdjacentRepeats(init), [s[|s| - 1]]);
      if s[|s| - 1] == s[|s| - 2] {
        assert s[|s| - 2] in init;
      }
    }
  }

  /** Collapsing a sorted sequence gives a strictly increasing one. */
  lemma {:induction false} WithoutAdjacentRepeatsIncreasing(s: seq<nat>)
    requires Sorted(s)
    ensures StrictlyIncreasing(WithoutAdjacentRepeats(s))
    decreases |s|
  {
    if |s| > 1 {
      var init := s[..|s| - 1];
      var kept := WithoutAdjacentRepeats(init);
      WithoutAdjacentRepeatsIncreasing(init);
      WithoutAdjacentRepeatsEnds(init);
      if s[|s| - 1] != s[|s| - 2] {
        var last := [s[|s| - 1]];
        forall x | x in kept ensures forall y :: y in last ==> x < y {
          var k :| 0 <= k < |kept| && kept[k] == x;
          assert kept[k] <= kept[|kept| - 1];
        }
        StrictlyIncreasingConcat(kept, last);
      }
    }
  }

  /**
   * `Vec::dedup`: every run of equal adjacent values is collapsed to one.
   * On a sorted input the result is strictly increasing.
   */
  method Dedup(s: seq<nat>) returns (r: seq<nat>)
    ensures r == WithoutAdjacentRepeats(s)
    ensures |r| <= |s|
    ensures forall k :: 0 < k < |r| ==> r[k - 1] != r[k]
    ensures Elems(r) == Elems(s)
    ensures s != [] ==> r != [] && r[0] == s[0]
    ensures Sorted(s) ==> StrictlyIncreasing(r)
  {
    r := [];
    for i := 0 to |s|
      invariant r == WithoutAdjacentRepeats(s[..i])
      invariant (i == 0) == (r == [])
      invariant i > 0 ==> r[|r| - 1] == s[i - 1]
    {
      WithoutAdjacentRepeatsStep(s, i);
      if r == [] || r[|r| - 1] != s[i] {
        r := r + [s[i]];
      }
    }
    assert s[..|s|] == s;
    WithoutAdjacentRepeatsFacts(s, r);
  }

  /** What `Vec::dedup` guarantees, derived from the reference definition. */
  lemma WithoutAdjacentRepeatsFacts(s: seq<nat>, r: seq<nat>)
    requires r == WithoutAdjacentRepeats(s)
    ensures |r| <= |s|
    ensures forall k :: 0 < k < |r| ==> r[k - 1] != r[k]
    ensures Elems(r) == Elems(s)
    ensures s != [] ==> r != [] && r[0] == s[0]
    ensures Sorted(s) ==> StrictlyIncreasing(r)
  {
    WithoutAdjacentRepeatsEnds(s);
    WithoutAdjacentRepeatsDistinct(s);
    WithoutAdjacentRepeatsElems(s);
    if Sorted(s) {
      WithoutAdjacentRepeatsIncreasing(s);
    }
  }

  /**
   * `v.sort(); v.dedup();`: the values of the input, each once, in
   * increasing order.
   */
  method SortDedup(s: seq<nat>) returns (r: seq<nat>)
    ensures StrictlyIncreasing(r)
    ensures Elems(r) == Elems(s)
  {
    var sorted := Sort(s);
    r := Dedup(sorted);
    SameMembers(sorted, s);
  }
}
