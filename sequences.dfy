/** Small sequence vocabulary shared by the planner, the distributor and the workers. */
module Sequences {

  /** A worker slot either holds the chunk indices handed to its thread or was skipped. */
  datatype Option<+T> = None | Some(value: T)

  function Min(a: nat, b: nat): (m: nat)
    ensures m <= a && m <= b && (m == a || m == b)
  {
    if a <= b then a else b
  }

  /** The consecutive chunk indices lo, lo + 1, ..., hi - 1. */
  function Range(lo: nat, hi: nat): (r: seq<nat>)
    requires lo <= hi
    ensures |r| == hi - lo
    ensures forall j :: 0 <= j < |r| ==> r[j] == lo + j
    decreases hi - lo
  {
    if lo == hi then [] else [lo] + Range(lo + 1, hi)
  }

  ghost predicate StrictlyIncreasing(s: seq<nat>) {
    forall j, k :: 0 <= j < k < |s| ==> s[j] < s[k]
  }

  /** Every index of `s` is a valid chunk index below `n`. */
  predicate IndicesBelow(s: seq<nat>, n: nat) {
    forall j :: 0 <= j < |s| ==> s[j] < n
  }

  /** The chunk indices of all filled slots, in slot order. */
  function Flatten(slots: seq<Option<seq<nat>>>): seq<nat> {
    if slots == [] then []
    else (match slots[0] case None => [] case Some(ix) => ix) + Flatten(slots[1..])
  }

  lemma RangeIncreasing(lo: nat, hi: nat)
    requires lo <= hi
    ensures StrictlyIncreasing(Range(lo, hi))
  {
  }

  lemma InRange(lo: nat, hi: nat, c: int)
    requires lo <= c < hi
    ensures c in Range(lo, hi)
  {
    assert Range(lo, hi)[c - lo] == c;
  }

  lemma {:induction false} RangeConcat(a: nat, b: nat, c: nat)
    requires a <= b <= c
    ensures Range(a, b) + Range(b, c) == Range(a, c)
  {
    var l, r := Range(a, b) + Range(b, c), Range(a, c);
    assert |l| == |r|;
    forall j | 0 <= j < |l| ensures l[j] == r[j] {
      if j < b - a {
        assert l[j] == Range(a, b)[j];
      } else {
        assert l[j] == Range(b, c)[j - (b - a)];
      }
    }
  }

  lemma {:induction false} FlattenAppend(a: seq<Option<seq<nat>>>, b: seq<Option<seq<nat>>>)
    ensures Flatten(a + b) == Flatten(a) + Flatten(b)
    decreases |a|
  {
    if a == [] {
      assert a + b == b;
    } else {
      assert (a + b)[0] == a[0];
      assert (a + b)[1..] == a[1..] + b;
      FlattenAppend(a[1..], b);
    }
  }
}
