/** The quota limiter: which store key a request counts under, and what a count
    means for the caller. */
module Limiter {
  import opened Text
  import opened Identities
  import opened Wrappers
  import opened Policies
  import opened MemoryStore
  import FixedWindow

  // ---------- Which key a request counts under ----------

  /** `digest` is the truncated SHA-256 in hexadecimal. */
  function StoreKey(bucket: Bucket, identityKeys: seq<string>, digest: string -> string): string {
    Name(bucket) + [':'] + digest(FingerprintInput(identityKeys))
  }

  /** Only the multiset of trimmed non-blank identity keys matters. */
  lemma OrderIsIgnored(bucket: Bucket, a: seq<string>, b: seq<string>, digest: string -> string)
    requires multiset(Normalize(a)) == multiset(Normalize(b))
    ensures StoreKey(bucket, a, digest) == StoreKey(bucket, b, digest)
  {
    hide Normalize, FingerprintInput;
    SameKeysSameText(a, b);
  }

  lemma NamesHaveNoColon(b: Bucket)
    ensures ':' !in Name(b)
  {
  }

  lemma NamesDiffer(b: Bucket, c: Bucket)
    ensures Name(b) == Name(c) ==> b == c
  {
    if |Name(b)| == |Name(c)| {
      assert Name(b)[4] == Name(c)[4] && Name(b)[5] == Name(c)[5] ==> b == c;
    }
  }

  /** The bucket is written before the first colon of a key. */
  predicate KeyOf(bucket: Bucket, key: string) {
    Name(bucket) + [':'] <= key
  }

  lemma PrefixBeforeColon(name: string, key: string)
    requires ':' !in name && name + [':'] <= key
    ensures name == key[..IndexOf(key, ':')]
  {
    var rest := key[|name| + 1..];
    assert key == name + [':'] + rest;
    IndexOfFirst(name, ':', rest);
  }

  lemma SameKeySameBucket(b: Bucket, c: Bucket, key: string)
    requires KeyOf(b, key) && KeyOf(c, key)
    ensures b == c
  {
    NamesHaveNoColon(b);
    NamesHaveNoColon(c);
    hide Name;
    PrefixBeforeColon(Name(b), key);
    PrefixBeforeColon(Name(c), key);
    NamesDiffer(b, c);
  }

  /** Requests share a store key exactly when they are of the same bucket and
      their identities have the same digest. */
  lemma StoreKeysAgreeIff(b: Bucket, c: Bucket, x: seq<string>, y: seq<string>, digest: string -> string)
    ensures StoreKey(b, x, digest) == StoreKey(c, y, digest)
            <==> b == c && digest(FingerprintInput(x)) == digest(FingerprintInput(y))
  {
    hide Name, FingerprintInput;
    KeyNamesBucket(b, x, digest);
    KeyNamesBucket(c, y, digest);
    if StoreKey(b, x, digest) == StoreKey(c, y, digest) {
      SameKeySameBucket(b, c, StoreKey(b, x, digest));
      assert StoreKey(b, x, digest)[|Name(b)| + 1..] == digest(FingerprintInput(x));
      assert StoreKey(c, y, digest)[|Name(c)| + 1..] == digest(FingerprintInput(y));
    }
  }

  // ---------- consume ----------

  datatype ConsumeResult = ConsumeResult(
    allowed: bool, limit: int, remaining: int, retryAfterSeconds: int, degraded: bool)

  /** What the limiter makes of the store's answer, or of its failure. */
  function Decide(policy: Policy, answer: Result<Reply>, failOpen: bool): ConsumeResult {
    match answer
    case Ok(Reply(count, ttlSeconds)) =>
      var allowed := count <= policy.limit;
      ConsumeResult(allowed, policy.limit, Max(0, policy.limit - count), if allowed then 0 else Max(1, ttlSeconds), false)
    case Threw =>
      if failOpen then ConsumeResult(true, policy.limit, policy.limit, 0, true)
      else ConsumeResult(false, policy.limit, 0, Max(1, policy.windowSeconds), false)
  }

  /** The answers of a limiter tell the truth about the counter. A counted
      request is allowed exactly while the quota lasts, `remaining` is what is
      left of it, and only a denial names a time to wait: the store's, and at
      least a second. When the store fails, a limiter that fails open allows the
      request as if nothing had been used, and one that fails closed denies it
      for a whole window. */
  lemma AnswersAreConsistent(policy: Policy, answer: Result<Reply>, failOpen: bool)
    requires 0 <= policy.limit
    ensures var r := Decide(policy, answer, failOpen);
            && 0 <= r.remaining <= r.limit == policy.limit
            && (r.allowed <==> r.retryAfterSeconds == 0)
            && (!r.allowed ==> r.retryAfterSeconds >= 1 && r.remaining == 0)
            && (r.degraded <==> answer.Threw? && failOpen)
            && match answer
               case Ok(reply) =>
                 && (r.allowed <==> reply.count <= policy.limit)
                 && (r.allowed ==> r.remaining + reply.count == r.limit)
                 && (!r.allowed && reply.ttlSeconds >= 1 ==> r.retryAfterSeconds == reply.ttlSeconds)
               case Threw =>
                 && (r.allowed <==> failOpen)
                 && (r.allowed ==> r.remaining == r.limit)
                 && (!r.allowed && policy.windowSeconds >= 1 ==> r.retryAfterSeconds == policy.windowSeconds)
  {
  }

  datatype Answer = Answer(bucket: Bucket, result: ConsumeResult)

  /** The answer to the last request of a run is the one its count calls for. */
  predicate Fits(run: seq<Request>, answer: Answer, policies: map<Bucket, Policy>, failOpen: bool)
    requires run != []
  {
    && answer.bucket in policies
    && KeyOf(answer.bucket, run[|run| - 1].key)
    && run[|run| - 1].windowSeconds == policies[answer.bucket].windowSeconds
    && answer.result == Decide(policies[answer.bucket], Ok(LastReply(run)), failOpen)
  }

  /** Every answer given in a run was. */
  predicate Answered(run: seq<Request>, answers: seq<Answer>, policies: map<Bucket, Policy>, failOpen: bool) {
    if run == [] then answers == []
    else
      && |answers| == |run|
      && Fits(run, answers[|run| - 1], policies, failOpen)
      && Answered(run[..|run| - 1], answers[..|run| - 1], policies, failOpen)
  }

  lemma AnsweredGrows(run: seq<Request>, answers: seq<Answer>, next: Request, answer: Answer,
                      policies: map<Bucket, Policy>, failOpen: bool)
    requires Answered(run, answers, policies, failOpen) && Fits(run + [next], answer, policies, failOpen)
    ensures Answered(run + [next], answers + [answer], policies, failOpen)
  {
    hide Fits;
    assert (run + [next])[..|run|] == run && (answers + [answer])[..|answers|] == answers;
  }

  lemma KeyNamesBucket(bucket: Bucket, identityKeys: seq<string>, digest: string -> string)
    ensures KeyOf(bucket, StoreKey(bucket, identityKeys, digest))
  {
    hide Name, FingerprintInput;
  }

  // ---------- Runs in which the store may fail ----------

  datatype Call = Call(bucket: Bucket, identityKeys: seq<string>, at: int, storeThrows: bool)

  predicate Complete(policies: map<Bucket, Policy>) {
    forall b: Bucket :: b in policies
  }

  function RequestOf(policies: map<Bucket, Policy>, digest: string -> string, c: Call): Request
    requires Complete(policies)
  {
    Request(StoreKey(c.bucket, c.identityKeys, digest), policies[c.bucket].windowSeconds, c.at)
  }

  /** The answer to a call after the requests counted so far. */
  function Served(policies: map<Bucket, Policy>, failOpen: bool, digest: string -> string, counted: seq<Request>, c: Call)
    : ConsumeResult
    requires Complete(policies)
  {
    Decide(policies[c.bucket],
           if c.storeThrows then Threw else Ok(LastReply(counted + [RequestOf(policies, digest, c)])), failOpen)
  }

  /** The requests a run of calls counts. */
  function Counted(policies: map<Bucket, Policy>, digest: string -> string, calls: seq<Call>): seq<Request>
    requires Complete(policies)
  {
    if calls == [] then []
    else
      var last := calls[|calls| - 1];
      Counted(policies, digest, calls[..|calls| - 1])
      + if last.storeThrows then [] else [RequestOf(policies, digest, last)]
  }

  /** The calls that reach the store. */
  function Reaching(calls: seq<Call>): seq<Call> {
    if calls == [] then []
    else
      var last := calls[|calls| - 1];
      Reaching(calls[..|calls| - 1]) + if last.storeThrows then [] else [last]
  }

  lemma CountedGrows(policies: map<Bucket, Policy>, digest: string -> string, calls: seq<Call>, c: Call)
    requires Complete(policies)
    ensures Counted(policies, digest, calls + [c]) ==
            Counted(policies, digest, calls) + if c.storeThrows then [] else [RequestOf(policies, digest, c)]
  {
    hide Complete, RequestOf;
    assert (calls + [c])[..|calls|] == calls;
  }

  lemma {:induction false} CountedOfReaching(policies: map<Bucket, Policy>, digest: string -> string, calls: seq<Call>)
    requires Complete(policies)
    ensures Counted(policies, digest, Reaching(calls)) == Counted(policies, digest, calls)
  {
    hide Complete, RequestOf;
    if calls != [] {
      var before, last := calls[..|calls| - 1], calls[|calls| - 1];
      CountedOfReaching(policies, digest, before);
      if last.storeThrows {
        assert Reaching(calls) == Reaching(before);
      } else {
        CountedGrows(policies, digest, Reaching(before), last);
      }
    }
  }

  /** A call that reaches the store is answered as if no other call had ever
      failed; a call that does not is allowed or denied as configured, whatever
      has been counted. */
  lemma FailuresLeaveNoTrace(policies: map<Bucket, Policy>, failOpen: bool, digest: string -> string,
                             before: seq<Call>, c: Call, other: seq<Request>)
    requires Complete(policies)
    ensures !c.storeThrows ==>
              Served(policies, failOpen, digest, Counted(policies, digest, before), c)
              == Served(policies, failOpen, digest, Counted(policies, digest, Reaching(before)), c)
    ensures c.storeThrows ==>
              && Served(policies, failOpen, digest, Counted(policies, digest, before), c)
                 == Served(policies, failOpen, digest, other, c)
              && (Served(policies, failOpen, digest, other, c).allowed <==> failOpen)
  {
    hide LastReply, StoreKey, Complete, Counted;
    CountedOfReaching(policies, digest, before);
  }

  class QuotaLimiter {
    const policies: map<Bucket, Policy>
    const failOpen: bool
    const store: MemoryQuotaStore
    const digest: string -> string
    ghost var answers: seq<Answer>

    /** The limiter is the store's only user, and every answer it has given
        followed from the store's count at that moment. */
    ghost predicate Valid()
      reads this, store
    {
      && store.Valid()
      && Complete(policies)
      && Answered(store.history, answers, policies, failOpen)
    }

    constructor (policies: map<Bucket, Policy>, failOpen: bool, digest: string -> string)
      requires Complete(policies)
      ensures Valid() && fresh(store) && store.history == [] && answers == []
      ensures this.policies == policies && this.failOpen == failOpen && this.digest == digest
    {
      this.policies := policies;
      this.failOpen := failOpen;
      this.digest := digest;
      store := new MemoryQuotaStore();
      answers := [];
    }

    /** One request; `storeThrows` when the store fails, before counting it. */
    method Consume(bucket: Bucket, identityKeys: seq<string>, now: int, storeThrows: bool)
      returns (result: ConsumeResult)
      requires Valid()
      modifies this, store
      ensures Valid()
      ensures !storeThrows ==>
                && store.history == old(store.history)
                                    + [Request(StoreKey(bucket, identityKeys, digest), policies[bucket].windowSeconds, now)]
                && answers == old(answers) + [Answer(bucket, result)]
                && result == Decide(policies[bucket], Ok(LastReply(store.history)), failOpen)
      ensures storeThrows ==>
                && store.history == old(store.history) && answers == old(answers)
                && result.limit == policies[bucket].limit
                && (result.allowed <==> failOpen) && (result.degraded <==> failOpen)
                && (failOpen ==> result.remaining == result.limit && result.retryAfterSeconds == 0)
                && (!failOpen ==> result.remaining == 0 && result.retryAfterSeconds >= 1)
                && (!failOpen && policies[bucket].windowSeconds >= 1 ==>
                      result.retryAfterSeconds == policies[bucket].windowSeconds)
      ensures result == Served(policies, failOpen, digest, old(store.history), Call(bucket, identityKeys, now, storeThrows))
    {
      hide StoreKey, KeyOf, LastReply, Answered;
      var policy := policies[bucket];
      var key := StoreKey(bucket, identityKeys, digest);
      if storeThrows {
        if failOpen {
          return ConsumeResult(true, policy.limit, policy.limit, 0, true);
        }
        return ConsumeResult(false, policy.limit, 0, Max(1, policy.windowSeconds), false);
      }
      var reply := store.Increment(key, policy.windowSeconds, now);
      var allowed := reply.count <= policy.limit;
      result := ConsumeResult(allowed, policy.limit, Max(0, policy.limit - reply.count),
                              if allowed then 0 else Max(1, reply.ttlSeconds), false);
      KeyNamesBucket(bucket, identityKeys, digest);
      AnsweredGrows(old(store.history), answers, Request(key, policy.windowSeconds, now), Answer(bucket, result), policies, failOpen);
      answers := answers + [Answer(bucket, result)];
    }
  }

  /** A limiter from its start: with a store that fails at any of the calls,
      each call is answered from the requests counted before it, and a failing
      one is allowed exactly by a limiter that fails open. */
  method ConsumeAll(policies: map<Bucket, Policy>, failOpen: bool, digest: string -> string, calls: seq<Call>)
    returns (results: seq<ConsumeResult>)
    requires Complete(policies)
    ensures |results| == |calls|
    ensures forall i :: 0 <= i < |calls| ==>
              results[i] == Served(policies, failOpen, digest, Counted(policies, digest, calls[..i]), calls[i])
    ensures forall i :: 0 <= i < |calls| && calls[i].storeThrows ==> (results[i].allowed <==> failOpen)
  {
    hide StoreKey, LastReply, Counted, Served, Complete, Answered, QuotaLimiter.Valid, Decide;
    var limiter := new QuotaLimiter(policies, failOpen, digest);
    results := [];
    NothingCounted(policies, digest);
    for i := 0 to |calls|
      invariant fresh(limiter) && fresh(limiter.store) && limiter.Valid()
      invariant limiter.policies == policies && limiter.failOpen == failOpen && limiter.digest == digest
      invariant limiter.store.history == Counted(policies, digest, calls[..i])
      invariant |results| == i
      invariant forall k :: 0 <= k < i ==>
                  results[k] == Served(policies, failOpen, digest, Counted(policies, digest, calls[..k]), calls[k])
      invariant forall k :: 0 <= k < i && calls[k].storeThrows ==> (results[k].allowed <==> failOpen)
    {
      var c := calls[i];
      assert calls[..i + 1] == calls[..i] + [c];
      CountedGrows(policies, digest, calls[..i], c);
      var result := limiter.Consume(c.bucket, c.identityKeys, c.at, c.storeThrows);
      results := results + [result];
    }
  }

  lemma NothingCounted(policies: map<Bucket, Policy>, digest: string -> string)
    requires Complete(policies)
    ensures Counted(policies, digest, []) == []
  {
  }

  /** The requests answered with `allowed` for a key in [from, till). */
  function AllowedResults(run: seq<Request>, answers: seq<Answer>, key: string, from: int, till: int): nat
    requires |run| == |answers|
  {
    if run == [] then 0
    else
      var n := |run| - 1;
      AllowedResults(run[..n], answers[..n], key, from, till)
      + if run[n].key == key && from <= run[n].at < till && answers[n].result.allowed then 1 else 0
  }

  lemma FittingAnswer(run: seq<Request>, answer: Answer, policies: map<Bucket, Policy>, failOpen: bool,
                      bucket: Bucket, policy: Policy)
    requires run != [] && Fits(run, answer, policies, failOpen)
    requires bucket in policies && policies[bucket] == policy && KeyOf(bucket, run[|run| - 1].key)
    ensures answer.result.allowed <==> LastReply(run).count <= policy.limit
    ensures run[|run| - 1].windowSeconds == policy.windowSeconds
  {
    SameKeySameBucket(answer.bucket, bucket, run[|run| - 1].key);
  }

  /** Every request of one key was measured by the same policy. */
  predicate MeasuredBy(run: seq<Request>, answers: seq<Answer>, key: string, policy: Policy) {
    if run == [] then answers == []
    else
      && |answers| == |run|
      && (run[|run| - 1].key == key ==>
           && (answers[|run| - 1].result.allowed <==> LastReply(run).count <= policy.limit)
           && run[|run| - 1].windowSeconds == policy.windowSeconds)
      && MeasuredBy(run[..|run| - 1], answers[..|run| - 1], key, policy)
  }

  lemma {:induction false} AnsweredByOnePolicy(
    run: seq<Request>, answers: seq<Answer>, policies: map<Bucket, Policy>, failOpen: bool,
    bucket: Bucket, policy: Policy, key: string)
    requires Answered(run, answers, policies, failOpen)
    requires bucket in policies && policies[bucket] == policy && KeyOf(bucket, key)
    ensures MeasuredBy(run, answers, key, policy)
  {
    if run != [] {
      var n := |run| - 1;
      AnsweredByOnePolicy(run[..n], answers[..n], policies, failOpen, bucket, policy, key);
      if run[n].key == key {
        FittingAnswer(run, answers[n], policies, failOpen, bucket, policy);
      }
    }
  }

  /** Counting `allowed` answers is counting requests whose count was within the limit. */
  lemma {:induction false} AllowedResultsAreCounted(
    run: seq<Request>, answers: seq<Answer>, policy: Policy, key: string, from: int, till: int)
    requires MeasuredBy(run, answers, key, policy) && 0 <= policy.limit
    ensures |run| == |answers|
    ensures AllowedResults(run, answers, key, from, till)
            == FixedWindow.Allowed(Log(Project(run, key)), policy.limit, from, till)
  {
    if run != [] {
      var n := |run| - 1;
      AllowedResultsAreCounted(run[..n], answers[..n], policy, key, from, till);
      if run[n].key == key {
        LastOfKeyIsCounted(run, policy.limit, from, till);
      } else {
        assert Project(run, key) == Project(run[..n], key);
      }
    }
  }

  lemma {:induction false} MeasuredUsesWindow(run: seq<Request>, answers: seq<Answer>, policy: Policy, key: string)
    requires MeasuredBy(run, answers, key, policy)
    ensures UsesWindow(run, key, policy.windowSeconds)
  {
    if run != [] {
      MeasuredUsesWindow(run[..|run| - 1], answers[..|run| - 1], policy, key);
      assert forall i :: 0 <= i < |run| - 1 ==> run[i] == run[..|run| - 1][i];
    }
  }

  lemma LastOfKeyIsCounted(run: seq<Request>, limit: nat, from: int, till: int)
    requires run != []
    ensures var last := run[|run| - 1];
            FixedWindow.Allowed(Log(Project(run, last.key)), limit, from, till)
            == FixedWindow.Allowed(Log(Project(run[..|run| - 1], last.key)), limit, from, till)
               + if from <= last.at < till && LastReply(run).count <= limit then 1 else 0
  {
    var last := run[|run| - 1];
    var before := Project(run[..|run| - 1], last.key);
    ReplyMatchesHistory(run);
    LogGrows(before, last);
    assert Project(run, last.key) == before + [last];
    var log := Log(before + [last]);
    assert log[..|log| - 1] == Log(before);
  }

  /** The limiter's promise: with a clock that does not go back, the requests
      it allows for one key within any `k` windows stay within the ceiling. */
  lemma RateIsBounded(limiter: QuotaLimiter, bucket: Bucket, key: string, from: int, k: nat)
    requires limiter.Valid() && Usable(limiter.policies) && Monotone(limiter.store.history)
    requires KeyOf(bucket, key)
    ensures |limiter.store.history| == |limiter.answers|
    ensures var policy := limiter.policies[bucket];
            AllowedResults(limiter.store.history, limiter.answers, key, from, from + k * (1000 * policy.windowSeconds))
            <= FixedWindow.Ceiling(policy.limit, k)
  {
    RunIsBounded(limiter.store.history, limiter.answers, limiter.policies, limiter.failOpen,
                 bucket, limiter.policies[bucket], key, from, k);
  }

  lemma RunIsBounded(
    run: seq<Request>, answers: seq<Answer>, policies: map<Bucket, Policy>, failOpen: bool,
    bucket: Bucket, policy: Policy, key: string, from: int, k: nat)
    requires Answered(run, answers, policies, failOpen) && Monotone(run)
    requires bucket in policies && policies[bucket] == policy && 0 <= policy.limit && 1 <= policy.windowSeconds
    requires KeyOf(bucket, key)
    ensures |run| == |answers|
    ensures AllowedResults(run, answers, key, from, from + k * (1000 * policy.windowSeconds))
            <= FixedWindow.Ceiling(policy.limit, k)
  {
    hide Answered, Monotone, MeasuredBy, AllowedResults, FixedWindow.Allowed, KeyOf, Project, Log, UsesWindow;
    AnsweredByOnePolicy(run, answers, policies, failOpen, bucket, policy, key);
    MeasuredUsesWindow(run, answers, policy, key);
    AllowedResultsAreCounted(run, answers, policy, key, from, from + k * (1000 * policy.windowSeconds));
    SlidingRate(run, key, policy.windowSeconds, policy.limit, from, k);
  }

  /** A caller who is denied with `retryAfterSeconds == r` and comes back after
      `r` seconds, before the following window has closed, is admitted exactly
      when fewer than `limit` requests for its key came in between, once the
      denying window had closed. Requests for other keys do not matter. Until
      `r - 1` seconds have passed, every request for that key is denied. */
  lemma RetryAfterIsHonest(run: seq<Request>, more: seq<Request>, next: Request, policy: Policy, failOpen: bool)
    requires run != [] && Monotone(run + more + [next]) && 0 <= policy.limit && 1 <= policy.windowSeconds
    requires UsesWindow(run + more + [next], run[|run| - 1].key, policy.windowSeconds)
    requires next.key == run[|run| - 1].key
    requires var r := Decide(policy, Ok(LastReply(run)), failOpen);
             !r.allowed && next.at >= run[|run| - 1].at + 1000 * r.retryAfterSeconds
    ensures 1 <= Decide(policy, Ok(LastReply(run)), failOpen).retryAfterSeconds <= policy.windowSeconds
    ensures forall i :: 0 <= i < |more| && more[i].key == next.key
                        && more[i].at <= run[|run| - 1].at
                                         + 1000 * (Decide(policy, Ok(LastReply(run)), failOpen).retryAfterSeconds - 1) ==>
              !Decide(policy, Ok(LastReply(run + more[..i + 1])), failOpen).allowed
    ensures next.key in After(run)
    ensures var closes, t, r := After(run)[next.key].resetAtMs, run[|run| - 1].at,
                                Decide(policy, Ok(LastReply(run)), failOpen).retryAfterSeconds;
            t + 1000 * (r - 1) < closes <= t + 1000 * r
    ensures var late := Late(more, next.key, After(run)[next.key].resetAtMs);
            late == [] || next.at < late[0].at + 1000 * policy.windowSeconds ==>
              (Decide(policy, Ok(LastReply(run + more + [next])), failOpen).allowed <==> |late| < policy.limit)
  {
    hide Monotone, UsesWindow, After, LastReply, Late;
    assert LastReply(run).ttlSeconds <= Decide(policy, Ok(LastReply(run)), failOpen).retryAfterSeconds;
    RetryAfterIsExact(run, more, next, policy.windowSeconds, policy.limit);
  }

  /** Waiting as told is not always enough: with limit 1 and a window of 2
      seconds, a caller denied at 500 and told to wait 2 seconds is overtaken by
      another request for its key at 2000, and denied again at 2500. */
  lemma RetryCanBeOvertaken(key: string, failOpen: bool)
    ensures var policy, run := Policy(1, 2), [Request(key, 2, 0), Request(key, 2, 500)];
            var overtaking, next := Request(key, 2, 2000), Request(key, 2, 2500);
            && Decide(policy, Ok(LastReply(run)), failOpen) == ConsumeResult(false, 1, 0, 2, false)
            && Decide(policy, Ok(LastReply(run + [overtaking])), failOpen).allowed
            && !Decide(policy, Ok(LastReply(run + [overtaking] + [next])), failOpen).allowed
  {
    var a, b, c, d := Request(key, 2, 0), Request(key, 2, 500), Request(key, 2, 2000), Request(key, 2, 2500);
    assert [a][..0] == [] && After([]) == map[];
    assert After([a]) == map[key := WindowEntry(1, 2000)];
    assert [a, b][..1] == [a];
    assert After([a, b]) == map[key := WindowEntry(2, 2000)];
    assert ([a, b] + [c])[..2] == [a, b];
    assert After([a, b] + [c]) == map[key := WindowEntry(1, 4000)];
    assert ([a, b] + [c] + [d])[..3] == [a, b] + [c];
  }
}
