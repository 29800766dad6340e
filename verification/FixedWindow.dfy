/** What any fixed-window counter guarantees over time, independently of where
    the counter lives. A log lists the requests counted under one key, oldest
    first, each with the count it was given. */
module FixedWindow {

  datatype Hit = Hit(at: int, count: nat)

  /** Index of the request that opened the window in which request `j` counted. */
  function Opener(log: seq<Hit>, j: nat): int
    requires j < |log|
  {
    j - (log[j].count - 1)
  }

  /** Request `j` either continues the window of request `j - 1`, or opens a
      new one no earlier than `span` after the previous one opened. */
  predicate Follows(log: seq<Hit>, j: nat, span: nat)
    requires 1 <= j < |log|
  {
    && log[j - 1].at <= log[j].at
    && (|| log[j].count == log[j - 1].count + 1
        || (&& log[j].count == 1
            && 0 <= Opener(log, j - 1)
            && log[j].at >= log[Opener(log, j - 1)].at + span))
  }

  predicate WindowLog(log: seq<Hit>, span: nat) {
    && (log != [] ==> log[0].count == 1)
    && (forall j :: 1 <= j < |log| ==> Follows(log, j, span))
  }

  /** Requests in the half-open interval [from, till) whose count is within `limit`. */
  function Allowed(log: seq<Hit>, limit: nat, from: int, till: int): nat {
    if log == [] then 0
    else
      var last := log[|log| - 1];
      Allowed(log[..|log| - 1], limit, from, till)
      + if from <= last.at < till && last.count <= limit then 1 else 0
  }

  lemma PrefixIsWindowLog(log: seq<Hit>, n: nat, span: nat)
    requires WindowLog(log, span) && n <= |log|
    ensures WindowLog(log[..n], span)
  {
    forall j | 1 <= j < n ensures Follows(log[..n], j, span) {
      assert Follows(log, j, span);
    }
  }

  lemma {:induction false} TimesAscend(log: seq<Hit>, i: nat, j: nat, span: nat)
    requires WindowLog(log, span) && i <= j < |log|
    ensures log[i].at <= log[j].at
  {
    if i < j {
      TimesAscend(log, i, j - 1, span);
      assert Follows(log, j, span);
    }
  }

  /** Within a window the counts are 1, 2, 3, ... in order: no count is given
      twice and none is skipped. */
  lemma {:induction false} CountsAreGapFree(log: seq<Hit>, j: nat, span: nat)
    requires WindowLog(log, span) && j < |log|
    ensures 0 <= Opener(log, j) <= j
    ensures forall i :: Opener(log, j) <= i <= j ==> log[i].count == i - Opener(log, j) + 1
  {
    if j > 0 {
      assert Follows(log, j, span);
      CountsAreGapFree(log, j - 1, span);
    }
  }

  lemma {:induction false} NothingBefore(log: seq<Hit>, limit: nat, from: int, till: int)
    requires forall i :: 0 <= i < |log| ==> log[i].at < from
    ensures Allowed(log, limit, from, till) == 0
  {
    if log != [] {
      NothingBefore(log[..|log| - 1], limit, from, till);
    }
  }

  /** One window holds at most `limit` allowed requests, and one fewer from an
      instant after its opening on, because the request that opened it is then
      left out. */
  lemma {:induction false} OneWindowBound(log: seq<Hit>, limit: nat, from: int, till: int, span: nat)
    requires WindowLog(log, span) && log != [] && 1 <= limit
    ensures 0 <= Opener(log, |log| - 1) < |log|
    ensures var a, last := Opener(log, |log| - 1), log[|log| - 1].count;
            Allowed(log, limit, from, till)
            <= Allowed(log[..a], limit, from, till)
               + (if last < limit then last else limit)
               - (if log[a].at < from then 1 else 0)
  {
    var n := |log|;
    CountsAreGapFree(log, n - 1, span);
    if log[n - 1].count > 1 {
      assert Follows(log, n - 1, span);
      PrefixIsWindowLog(log, n - 1, span);
      OneWindowBound(log[..n - 1], limit, from, till, span);
      var a := Opener(log, n - 1);
      assert Opener(log[..n - 1], n - 2) == a;
      assert log[..n - 1][..a] == log[..a];
    }
  }

  /** If the last window opened before `from + k * span`, at most `k + 1`
      windows have requests at or after `from`; with all `k + 1` of them, the
      first one opened before `from`. */
  lemma {:induction false} BoundByLastOpening(log: seq<Hit>, limit: nat, from: int, till: int, k: nat, span: nat)
    requires WindowLog(log, span) && 1 <= limit
    requires log != [] ==> 0 <= Opener(log, |log| - 1) < |log| && log[Opener(log, |log| - 1)].at < from + k * span
    ensures Allowed(log, limit, from, till) < (k + 1) * limit
    decreases |log|
  {
    assert (k + 1) * limit == k * limit + limit;
    if log != [] {
      var a := Opener(log, |log| - 1);
      OneWindowBound(log, limit, from, till, span);
      PrefixIsWindowLog(log, a, span);
      CountsAreGapFree(log, |log| - 1, span);
      if k == 0 {
        forall i | 0 <= i < a ensures log[..a][i].at < from { TimesAscend(log, i, a, span); }
        NothingBefore(log[..a], limit, from, till);
      } else {
        if a > 0 {
          assert Follows(log, a, span);
          CountsAreGapFree(log, a - 1, span);
          assert Opener(log[..a], a - 1) == Opener(log, a - 1);
        }
        assert k * span == (k - 1) * span + span;
        BoundByLastOpening(log[..a], limit, from, till, k - 1, span);
      }
    } else {
      assert 0 <= k * limit;
    }
  }

  lemma {:induction false} NoneAllowedAtZero(log: seq<Hit>, from: int, till: int, span: nat)
    requires WindowLog(log, span)
    ensures Allowed(log, 0, from, till) == 0
  {
    if log != [] {
      CountsAreGapFree(log, |log| - 1, span);
      PrefixIsWindowLog(log, |log| - 1, span);
      NoneAllowedAtZero(log[..|log| - 1], from, till, span);
    }
  }

  /** The largest number of allowed requests an interval of `k` window lengths can hold. */
  function Ceiling(limit: nat, k: nat): nat {
    if limit == 0 || k == 0 then 0 else (k + 1) * limit - 1
  }

  /** The sliding-rate bound: an interval of `k` window lengths, placed
      anywhere, holds fewer than `(k + 1) * limit` allowed requests. */
  lemma {:induction false} SlidingBound(log: seq<Hit>, limit: nat, from: int, k: nat, span: nat)
    requires WindowLog(log, span)
    ensures Allowed(log, limit, from, from + k * span) <= Ceiling(limit, k)
    decreases |log|
  {
    var till := from + k * span;
    var n := |log|;
    if limit == 0 {
      NoneAllowedAtZero(log, from, till, span);
    } else if k == 0 {
      EmptyInterval(log, limit, from);
    } else if n > 0 && till <= log[n - 1].at {
      PrefixIsWindowLog(log, n - 1, span);
      SlidingBound(log[..n - 1], limit, from, k, span);
    } else {
      if n > 0 {
        CountsAreGapFree(log, n - 1, span);
        TimesAscend(log, Opener(log, n - 1), n - 1, span);
      }
      BoundByLastOpening(log, limit, from, till, k, span);
    }
  }

  lemma {:induction false} EmptyInterval(log: seq<Hit>, limit: nat, from: int)
    ensures Allowed(log, limit, from, from) == 0
  {
    if log != [] {
      EmptyInterval(log[..|log| - 1], limit, from);
    }
  }
}
