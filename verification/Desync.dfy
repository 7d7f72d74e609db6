/** Detection of a desynchronised order stream from the run of decode failures and successes. */
module Desync {
  const FAIL_RECONNECT: nat := 60
  const OK_RESET: nat := 8
  const MAX_U32: nat := 0xFFFF_FFFF

  // Outcomes of the order streams since start or reactivation: true where one decoded.

  /** Eight successes in a row start at `i`. */
  ghost predicate OkRun(t: seq<bool>, i: int) {
    0 <= i && i + 8 <= |t| && forall j :: i <= j < i + 8 ==> t[j]
  }

  /** No such run in the suffix from `k` on. */
  ghost predicate Unbroken(t: seq<bool>, k: nat) {
    k <= |t| && forall i :: k <= i ==> !OkRun(t, i)
  }

  ghost predicate LongestUnbroken(t: seq<bool>, k: nat) {
    Unbroken(t, k) && forall j: nat :: j < k ==> !Unbroken(t, j)
  }

  function Errs(t: seq<bool>): nat {
    if t == [] then 0 else Errs(t[..|t| - 1]) + if t[|t| - 1] then 0 else 1
  }

  function TrailingOks(t: seq<bool>): (n: nat)
    ensures n <= |t| && forall j :: |t| - n <= j < |t| ==> t[j]
    ensures n < |t| ==> !t[|t| - n - 1]
  {
    if t == [] || !t[|t| - 1] then 0 else TrailingOks(t[..|t| - 1]) + 1
  }

  /** The longest unbroken suffix either grows with the outcome, or was just cut to seven successes. */
  lemma LongestGrows(t: seq<bool>, k: nat, ok: bool)
    requires LongestUnbroken(t, k)
    ensures var u := t + [ok];
            LongestUnbroken(u, if TrailingOks(u) >= OK_RESET then |u| - OK_RESET + 1 else k)
  {
    var u := t + [ok];
    assert u[..|t|] == t;
    forall i | 0 <= i && i + OK_RESET <= |t|
      ensures OkRun(u, i) == OkRun(t, i)
    {
    }
    var last := |u| - OK_RESET;
    if TrailingOks(u) >= OK_RESET {
      assert OkRun(u, last);
      forall j: nat | j < last + 1
        ensures !Unbroken(u, j)
      {
      }
    } else {
      assert !OkRun(u, last);
      forall j: nat | j < k
        ensures !Unbroken(u, j)
      {
        assert !Unbroken(t, j);
        var i :| j <= i && OkRun(t, i);
        assert OkRun(u, i);
      }
    }
  }

  lemma LongestUnique(t: seq<bool>, j: nat, k: nat)
    requires LongestUnbroken(t, j) && LongestUnbroken(t, k)
    ensures j == k
  {
  }

  lemma {:induction false} NoErrs(t: seq<bool>)
    requires forall j :: 0 <= j < |t| ==> t[j]
    ensures Errs(t) == 0
  {
    if t != [] {
      NoErrs(t[..|t| - 1]);
    }
  }

  lemma ErrsGrow(t: seq<bool>, k: nat, ok: bool)
    requires k <= |t|
    ensures Errs((t + [ok])[k..]) == Errs(t[k..]) + if ok then 0 else 1
  {
    var s := (t + [ok])[k..];
    assert s[..|s| - 1] == t[k..];
  }

  /** Failures in the longest unbroken suffix. */
  ghost predicate SuffixErrs(t: seq<bool>, n: nat) {
    exists k: nat :: LongestUnbroken(t, k) && Errs(t[k..]) == n
  }

  lemma SuffixErrsUnique(t: seq<bool>, m: nat, n: nat)
    requires SuffixErrs(t, m) && SuffixErrs(t, n)
    ensures m == n
  {
    var j: nat :| LongestUnbroken(t, j) && Errs(t[j..]) == m;
    var k: nat :| LongestUnbroken(t, k) && Errs(t[k..]) == n;
    LongestUnique(t, j, k);
  }

  lemma SuffixErrsGrow(t: seq<bool>, n: nat, ok: bool)
    requires SuffixErrs(t, n)
    ensures SuffixErrs(t + [ok], if TrailingOks(t + [ok]) >= OK_RESET then 0 else if ok then n else n + 1)
  {
    hide Errs, TrailingOks;
    var k: nat :| LongestUnbroken(t, k) && Errs(t[k..]) == n;
    var u := t + [ok];
    LongestGrows(t, k, ok);
    if TrailingOks(u) >= OK_RESET {
      NoErrs(u[|u| - OK_RESET + 1..]);
    } else {
      Inside(t, k);
      ErrsGrow(t, k, ok);
    }
  }

  lemma Inside(t: seq<bool>, k: nat)
    requires LongestUnbroken(t, k)
    ensures k <= |t|
  {
  }

  lemma TrailingGrows(t: seq<bool>, ok: bool)
    ensures TrailingOks(t + [ok]) == if ok then TrailingOks(t) + 1 else 0
  {
    assert (t + [ok])[..|t|] == t;
  }

  class Detector {
    var failStreak: nat
    var okStreak: nat
    ghost var trace: seq<bool>

    ghost predicate Valid()
      reads this
    {
      && okStreak == (if TrailingOks(trace) < MAX_U32 then TrailingOks(trace) else MAX_U32)
      && SuffixErrs(trace, failStreak)
      && failStreak < FAIL_RECONNECT
    }

    constructor ()
      ensures Valid() && trace == []
    {
      failStreak, okStreak, trace := 0, 0, [];
      new;
      assert LongestUnbroken([], 0);
    }

    method Reactivate()
      modifies this
      ensures Valid() && trace == []
    {
      failStreak, okStreak, trace := 0, 0, [];
      assert LongestUnbroken([], 0);
    }

    /** A reconnect is forced exactly at the failure with which the longest suffix without eight successes in a row
        holds sixty. */
    method Observe(ok: bool) returns (reconnect: bool)
      requires Valid()
      modifies this
      ensures trace == old(trace) + [ok]
      ensures reconnect <==> !ok && SuffixErrs(trace, 60)
      ensures !reconnect ==> Valid()
    {
      hide SuffixErrs, TrailingOks;
      SuffixErrsGrow(trace, failStreak, ok);
      TrailingGrows(trace, ok);
      trace := trace + [ok];
      reconnect := false;
      if ok {
        okStreak := if okStreak < MAX_U32 then okStreak + 1 else okStreak;
        if okStreak >= OK_RESET {
          failStreak := 0;
        }
      } else {
        okStreak := 0;
        failStreak := failStreak + 1;
        if failStreak >= FAIL_RECONNECT {
          return true;
        }
        if SuffixErrs(trace, FAIL_RECONNECT) {
          SuffixErrsUnique(trace, failStreak, FAIL_RECONNECT);
        }
      }
    }
  }

  /** Eight successes in a row wipe out whatever was counted. */
  lemma EightSuccessesReset(t: seq<bool>)
    requires |t| >= 8 && forall j :: |t| - 8 <= j < |t| ==> t[j]
    ensures SuffixErrs(t, 0)
  {
    var k := |t| - 7;
    assert OkRun(t, k - 1);
    NoErrs(t[k..]);
    assert LongestUnbroken(t, k);
  }

  /** Up to seven after a failure do not. */
  lemma {:induction false} SevenSuccessesKeep(t: seq<bool>, n: nat, m: nat)
    requires m <= 7 && t != [] && !t[|t| - 1] && SuffixErrs(t, n)
    ensures SuffixErrs(t + seq(m, _ => true), n) && TrailingOks(t + seq(m, _ => true)) == m
    decreases m
  {
    hide SuffixErrs;
    if m == 0 {
      assert t + seq(m, _ => true) == t;
    } else {
      var u := t + seq(m - 1, _ => true);
      SevenSuccessesKeep(t, n, m - 1);
      assert u + [true] == t + seq(m, _ => true);
      TrailingGrows(u, true);
      SuffixErrsGrow(u, n, true);
    }
  }

  // ---- Whole traces ---------------------------------------------------------------------------

  ghost predicate ForcedAt(t: seq<bool>, n: nat) {
    n < |t| && !t[n] && SuffixErrs(t[..n + 1], 60)
  }

  /** Watching a whole trace stops at the first outcome where the condition holds, or never. */
  method Watch(t: seq<bool>) returns (stopped: bool, n: nat)
    ensures n <= |t|
    ensures stopped ==> ForcedAt(t, n)
    ensures !stopped ==> n == |t|
    ensures forall m: nat :: m < n ==> !ForcedAt(t, m)
  {
    hide SuffixErrs;
    var d := new Detector();
    n, stopped := 0, false;
    while n < |t|
      invariant n <= |t| && fresh(d) && d.Valid() && d.trace == t[..n]
      invariant forall m: nat :: m < n ==> !ForcedAt(t, m)
    {
      assert t[..n] + [t[n]] == t[..n + 1];
      stopped := d.Observe(t[n]);
      if stopped {
        return;
      }
      n := n + 1;
    }
  }

  /** Without eight successes in a row nothing is forgotten. */
  lemma UnbrokenCounts(t: seq<bool>, n: nat)
    requires forall i :: !OkRun(t, i)
    ensures SuffixErrs(t, n) <==> Errs(t) == n
  {
    assert t[0..] == t;
    assert LongestUnbroken(t, 0);
    if SuffixErrs(t, n) {
      SuffixErrsUnique(t, Errs(t), n);
    }
  }

  lemma PrefixUnbroken(t: seq<bool>, m: nat)
    requires m <= |t| && forall i :: !OkRun(t, i)
    ensures forall i :: !OkRun(t[..m], i)
  {
    forall i
      ensures !OkRun(t[..m], i)
    {
      if OkRun(t[..m], i) {
        assert forall j :: i <= j < i + OK_RESET ==> t[..m][j] == t[j];
        assert OkRun(t, i);
      }
    }
  }

  lemma {:induction false} ErrsOfPrefix(t: seq<bool>, m: nat)
    requires m <= |t|
    ensures Errs(t[..m]) <= Errs(t)
    decreases |t|
  {
    if m < |t| {
      var s := t[..|t| - 1];
      ErrsOfPrefix(s, m);
      assert s[..m] == t[..m];
    } else {
      assert t[..m] == t;
    }
  }

  /** The outcome that brings the count to `n`. */
  lemma {:induction false} NthErr(t: seq<bool>, n: nat) returns (m: nat)
    requires 0 < n <= Errs(t)
    ensures m < |t| && !t[m] && Errs(t[..m + 1]) == n
    decreases |t|
  {
    var s := t[..|t| - 1];
    if Errs(s) >= n {
      m := NthErr(s, n);
      assert s[..m + 1] == t[..m + 1];
    } else {
      m := |t| - 1;
      assert t[..m + 1] == t;
    }
  }

  /** However they are spread, as long as no eight successes come in a row: a reconnect is forced if and only if there
      are sixty failures. */
  lemma SixtyScatteredFailures(t: seq<bool>)
    requires forall i :: !OkRun(t, i)
    ensures (exists n: nat :: ForcedAt(t, n)) <==> Errs(t) >= 60
  {
    hide SuffixErrs, Errs;
    if n: nat :| ForcedAt(t, n) {
      PrefixUnbroken(t, n + 1);
      UnbrokenCounts(t[..n + 1], FAIL_RECONNECT);
      ErrsOfPrefix(t, n + 1);
    }
    if Errs(t) >= FAIL_RECONNECT {
      var m := NthErr(t, FAIL_RECONNECT);
      PrefixUnbroken(t, m + 1);
      UnbrokenCounts(t[..m + 1], FAIL_RECONNECT);
      assert ForcedAt(t, m);
    }
  }
}
