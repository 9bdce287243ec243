/**
 The filter step of the `/courses` handler: `Array.prototype.filter` with a
 callback that evaluates one condition on each record. It keeps exactly the
 records that satisfy the condition, in their input order, and touches
 nothing else.
 */
module Filtering {
  import opened Conditions

  /** The records of `rs` that satisfy `c`, in input order. */
  function Filter(c: Condition, rs: seq<Record>, test: RegexOracle): (kept: seq<Record>)
    ensures |kept| <= |rs|
    ensures forall i :: 0 <= i < |kept| ==> Check(c, kept[i], test)
  {
    if |rs| == 0 then []
    else
      (if Check(c, rs[0], test) then [rs[0]] else []) + Filter(c, rs[1..], test)
  }

  /**
   Every record that satisfies the condition is kept as often as it occurs in
   the input, and no other record is kept.
   */
  lemma {:induction false} FilterKeepsMultiplicity(c: Condition, rs: seq<Record>, test: RegexOracle, r: Record)
    ensures multiset(Filter(c, rs, test))[r] == if Check(c, r, test) then multiset(rs)[r] else 0
  {
    if |rs| > 0 {
      assert rs == [rs[0]] + rs[1..];
      FilterKeepsMultiplicity(c, rs[1..], test, r);
    }
  }

  /** A record is in the result exactly when it is in the input and satisfies the condition. */
  lemma FilterMembership(c: Condition, rs: seq<Record>, test: RegexOracle, r: Record)
    ensures r in Filter(c, rs, test) <==> r in rs && Check(c, r, test)
  {
    FilterKeepsMultiplicity(c, rs, test, r);
  }

  /** Filtering a concatenation filters each part. */
  lemma {:induction false} FilterConcat(c: Condition, a: seq<Record>, b: seq<Record>, test: RegexOracle)
    ensures Filter(c, a + b, test) == Filter(c, a, test) + Filter(c, b, test)
  {
    if |a| == 0 {
      assert a + b == b;
    } else {
      assert (a + b)[1..] == a[1..] + b;
      FilterConcat(c, a[1..], b, test);
    }
  }

  /**
   The loop of `Array.prototype.filter`: visit the records in index order and
   append each one the callback accepts.
   */
  method FilterInOrder(c: Condition, rs: seq<Record>, test: RegexOracle) returns (kept: seq<Record>)
    ensures kept == Filter(c, rs, test)
  {
    kept := [];
    var k := 0;
    while k < |rs|
      invariant 0 <= k <= |rs|
      invariant kept == Filter(c, rs[..k], test)
    {
      assert rs[..k + 1] == rs[..k] + [rs[k]];
      FilterConcat(c, rs[..k], [rs[k]], test);
      if Check(c, rs[k], test) {
        kept := kept + [rs[k]];
      }
      k := k + 1;
    }
    assert rs[..k] == rs;
  }

  /** `sub` is the subsequence of `full` at the strictly increasing positions `idx`. */
  ghost predicate IsSubsequenceAt(sub: seq<Record>, full: seq<Record>, idx: seq<nat>) {
    && |idx| == |sub|
    && (forall k :: 0 <= k < |idx| ==> idx[k] < |full| && full[idx[k]] == sub[k])
    && (forall k, l :: 0 <= k < l < |idx| ==> idx[k] < idx[l])
  }

  /** The positions of the records of `rs` that satisfy `c`, in increasing order. */
  function Positions(c: Condition, rs: seq<Record>, test: RegexOracle): (idx: seq<nat>)
    ensures forall k :: 0 <= k < |idx| ==> idx[k] < |rs|
    ensures forall j :: 0 <= j < |rs| ==> (j in idx <==> Check(c, rs[j], test))
    ensures forall k, l :: 0 <= k < l < |idx| ==> idx[k] < idx[l]
  {
    if |rs| == 0 then []
    else
      var init := rs[..|rs| - 1];
      Positions(c, init, test) + (if Check(c, rs[|rs| - 1], test) then [|rs| - 1] else [])
  }

  /** The filtered records are the input records at the satisfying positions, in order. */
  lemma {:induction false} FilterIsOrderedSubsequence(c: Condition, rs: seq<Record>, test: RegexOracle)
    ensures IsSubsequenceAt(Filter(c, rs, test), rs, Positions(c, rs, test))
  {
    if |rs| > 0 {
      var n := |rs| - 1;
      var init := rs[..n];
      assert rs == init + [rs[n]];
      FilterConcat(c, init, [rs[n]], test);
      FilterIsOrderedSubsequence(c, init, test);
      var sub := Filter(c, rs, test);
      var idx := Positions(c, rs, test);
      var idx0 := Positions(c, init, test);
      assert |Filter(c, [rs[n]], test)| == (if Check(c, rs[n], test) then 1 else 0);
      forall k | 0 <= k < |idx|
        ensures idx[k] < |rs| && rs[idx[k]] == sub[k]
      {
        if k < |idx0| {
          assert idx[k] == idx0[k];
          assert rs[idx[k]] == init[idx0[k]];
        }
      }
    }
  }

  /** When every record already satisfies the condition, filtering returns the input unchanged. */
  lemma {:induction false} FilterKeepsAllWhenAllMatch(c: Condition, rs: seq<Record>, test: RegexOracle)
    requires forall i :: 0 <= i < |rs| ==> Check(c, rs[i], test)
    ensures Filter(c, rs, test) == rs
  {
    if |rs| > 0 {
      FilterKeepsAllWhenAllMatch(c, rs[1..], test);
    }
  }

  /** Filtering twice with the same condition is filtering once. */
  lemma FilterIdempotent(c: Condition, rs: seq<Record>, test: RegexOracle)
    ensures Filter(c, Filter(c, rs, test), test) == Filter(c, rs, test)
  {
    FilterKeepsAllWhenAllMatch(c, Filter(c, rs, test), test);
  }

  /** Filtering by two conditions in either order gives the same records in the same order. */
  lemma {:induction false} FilterCommutes(c1: Condition, c2: Condition, rs: seq<Record>, test: RegexOracle)
    ensures Filter(c1, Filter(c2, rs, test), test) == Filter(c2, Filter(c1, rs, test), test)
  {
    if |rs| > 0 {
      var head := [rs[0]];
      assert rs == head + rs[1..];
      FilterConcat(c2, head, rs[1..], test);
      FilterConcat(c1, head, rs[1..], test);
      FilterConcat(c1, Filter(c2, head, test), Filter(c2, rs[1..], test), test);
      FilterConcat(c2, Filter(c1, head, test), Filter(c1, rs[1..], test), test);
      FilterCommutes(c1, c2, rs[1..], test);
    }
  }
}
