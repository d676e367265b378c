/**
 * Maximal runs of consecutive `true` entries in a boolean column. Every stage
 * of the classifier that scans "while the next row still qualifies" (missing
 * samples, fixation labels) finds such a run; these functions name it.
 */
module Runs {

  /**
   * The first index of the run of `true` entries that ends just before `i`
   * (`i` itself when `m[i-1]` is false): walking back from `i`.
   */
  function RunStart(m: seq<bool>, i: nat): (s: nat)
    requires i <= |m|
    ensures s <= i
    ensures forall k :: s <= k < i ==> m[k]
    ensures s == 0 || !m[s - 1]
    decreases i
  {
    if i > 0 && m[i - 1] then RunStart(m, i - 1) else i
  }

  /** The first index at or after `i` that is `false`, or `|m|`: walking forward from `i`. */
  function RunEnd(m: seq<bool>, i: nat): (e: nat)
    requires i <= |m|
    ensures i <= e <= |m|
    ensures forall k :: i <= k < e ==> m[k]
    ensures e == |m| || !m[e]
    decreases |m| - i
  {
    if i < |m| && m[i] then RunEnd(m, i + 1) else i
  }

  /** `[s, e)` is a maximal non-empty run of `true` entries of `m`. */
  predicate IsRun(m: seq<bool>, s: nat, e: nat)
  {
    && s < e <= |m|
    && (forall k :: s <= k < e ==> m[k])
    && (s == 0 || !m[s - 1])
    && (e == |m| || !m[e])
  }

  /** The length of the run through a `true` entry. */
  function RunLength(m: seq<bool>, j: nat): (len: nat)
    requires j < |m| && m[j]
    ensures len >= 1
  {
    RunEnd(m, j) - RunStart(m, j)
  }

  /** Every `true` entry lies in exactly one maximal run, the one RunStart/RunEnd find. */
  lemma RunAt(m: seq<bool>, j: nat)
    requires j < |m| && m[j]
    ensures IsRun(m, RunStart(m, j), RunEnd(m, j))
    ensures RunStart(m, j) <= j < RunEnd(m, j)
  {
  }

  /** A maximal run is recognised from any of its members. */
  lemma {:induction false} RunUnique(m: seq<bool>, s: nat, e: nat, j: nat)
    requires IsRun(m, s, e) && s <= j < e
    ensures RunStart(m, j) == s && RunEnd(m, j) == e
  {
    var s', e' := RunStart(m, j), RunEnd(m, j);
    assert s <= s' by {
      if s > 0 { assert !m[s - 1]; }
    }
    assert e' <= e by {
      if e < |m| { assert !m[e]; }
    }
  }

  /** Walking back from one past the end of a run, from inside it, finds the same start. */
  lemma RunStartStep(m: seq<bool>, i: nat)
    requires i < |m| && m[i]
    ensures RunStart(m, i + 1) == RunStart(m, i)
  {
  }

  /** Extending a prefix by one element. */
  lemma PrefixStep<T>(s: seq<T>, i: nat)
    requires i < |s|
    ensures s[..i + 1] == s[..i] + [s[i]]
  {
  }

  /** Extending a prefix by a block of equal elements. */
  lemma PrefixBlock<T>(s: seq<T>, a: nat, b: nat, x: T)
    requires a <= b <= |s|
    requires forall k :: a <= k < b ==> s[k] == x
    ensures s[..b] == s[..a] + seq(b - a, _ => x)
  {
  }
}
