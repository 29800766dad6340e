/** The sliding-rate bound as it concerns the answers of the Redis-backed store. */
module RedisAnswers {
  import opened RedisStore
  import opened RedisRuns
  import FixedWindow
  import Limiter
  import MemoryStore
  import Policies
  import Wrappers

  /** The finished calls counted in [from, till) whose count was within the limit. */
  function AnsweredWithin(s: State, limit: nat, from: int, till: int): set<nat> {
    set i | 0 <= i < |s.replies| && s.replies[i].hit < |s.hits|
            && from <= s.hits[s.replies[i].hit].at < till && s.replies[i].count <= limit
  }

  function HitsWithin(hits: seq<Record>, limit: nat, from: int, till: int): set<nat> {
    set i | 0 <= i < |hits| && from <= hits[i].at < till && hits[i].count <= limit
  }

  lemma {:induction false} HitsWithinAreAllowed(hits: seq<Record>, limit: nat, from: int, till: int)
    ensures |HitsWithin(hits, limit, from, till)| == FixedWindow.Allowed(Log(hits), limit, from, till)
  {
    if hits != [] {
      var n := |hits| - 1;
      HitsWithinAreAllowed(hits[..n], limit, from, till);
      assert Log(hits)[..n] == Log(hits[..n]);
      assert HitsWithin(hits, limit, from, till) ==
             HitsWithin(hits[..n], limit, from, till)
             + if from <= hits[n].at < till && hits[n].count <= limit then {n} else {};
    }
  }

  lemma {:induction false} ImageOfReplies(replies: seq<Reply>, chosen: set<nat>, image: set<nat>)
    requires forall i :: i in chosen ==> i < |replies| && replies[i].hit in image
    requires forall i, j :: 0 <= i < j < |replies| ==> replies[i].hit != replies[j].hit
    ensures |chosen| <= |image|
  {
    if chosen != {} {
      var i :| i in chosen;
      ImageOfReplies(replies, chosen - {i}, image - {replies[i].hit});
    }
  }

  /** Every answer belongs to a hit of its own, so the bound is one on answers. */
  lemma AnswersAreBounded(steps: seq<Step>, s: State, limit: nat, from: int, k: nat, window: nat)
    requires 1 <= window && Runs(Init, steps, s, window)
    ensures |AnsweredWithin(s, limit, from, from + k * Span(window))| <= FixedWindow.Ceiling(limit, k)
  {
    var till := from + k * Span(window);
    Reachable(steps, s, window);
    SlidingRate(steps, s, limit, from, k, window);
    HitsWithinAreAllowed(s.hits, limit, from, till);
    ImageOfReplies(s.replies, AnsweredWithin(s, limit, from, till), HitsWithin(s.hits, limit, from, till));
  }

  /** The answers given over Redis to requests counted in [from, till) that allowed them. */
  function AllowedAnswers(s: State, policy: Policies.Policy, failOpen: bool, from: int, till: int): set<nat> {
    set i | 0 <= i < |s.replies| && s.replies[i].hit < |s.hits|
            && from <= s.hits[s.replies[i].hit].at < till
            && Limiter.Decide(policy, Wrappers.Ok(MemoryStore.Reply(s.replies[i].count, s.replies[i].ttlSeconds)), failOpen).allowed
  }

  /** The same promise over Redis: in every interleaving of any number of
      replicas, crashes included, the answers of all of them together stay
      within the ceiling. */
  lemma RedisRateIsBounded(steps: seq<Step>, s: State, policy: Policies.Policy, failOpen: bool, from: int, k: nat)
    requires 0 <= policy.limit && 1 <= policy.windowSeconds
    requires Runs(Init, steps, s, policy.windowSeconds)
    ensures |AllowedAnswers(s, policy, failOpen, from, from + k * (1000 * policy.windowSeconds))|
            <= FixedWindow.Ceiling(policy.limit, k)
  {
    var till := from + k * (1000 * policy.windowSeconds);
    assert AllowedAnswers(s, policy, failOpen, from, till) == AnsweredWithin(s, policy.limit, from, till);
    AnswersAreBounded(steps, s, policy.limit, from, k, policy.windowSeconds);
  }
}
