/** The Redis-backed quota counter: INCR, then EXPIRE when the reply was 1, then
    TTL, each an atomic command on a server that other clients use in between.

    One redis key is modelled, with the `window` (in seconds) that every client
    uses for it. An incarnation of the key is its life from the INCR that
    creates it to its expiry. */
module RedisStore {
  import opened Wrappers
  import FixedWindow

  datatype Key =
    | Absent
    | Live(value: nat, deadline: Option<int>, incarnation: nat)

  /** Where a client's `increment` call stands; `hit` is the place of its INCR
      in the server's order. */
  datatype Pc =
    | Idle
    | Created(hit: nat)               // INCR replied 1, EXPIRE not sent yet
    | Counted(count: nat, hit: nat)   // TTL not sent yet

  datatype Record = Record(at: int, count: nat, incarnation: nat)

  datatype Reply = Reply(hit: nat, count: nat, ttlSeconds: int)

  /** `hits` logs every INCR ever executed and `replies` every finished call. */
  datatype State = State(
    now: int, key: Key, nextIncarnation: nat, pcs: map<nat, Pc>, hits: seq<Record>, replies: seq<Reply>)

  datatype Step =
    | Incr(client: nat)
    | Expire(client: nat)
    | Ttl(client: nat, reply: int)
    | Crash(client: nat)      // the process dies, or the command it sent throws
    | Tick(elapsed: nat)
    | Evict                   // the server drops the key at its deadline

  const Init := State(0, Absent, 0, map[], [], [])

  function PcOf(s: State, client: nat): Pc {
    if client in s.pcs then s.pcs[client] else Idle
  }

  function Span(window: nat): nat {
    1000 * window
  }

  /** TTL reports -2 for no key, -1 for no expiry, else the seconds left; the
      server rounds them, and both directions are admitted here. */
  predicate TtlReply(s: State, reply: int) {
    match s.key
    case Absent => reply == -2
    case Live(_, None, _) => reply == -1
    case Live(_, Some(deadline), _) =>
      0 <= reply && deadline - s.now - 1000 < 1000 * reply < deadline - s.now + 1000
  }

  /** What a time to wait says about the key: the time it has left, to within a
      second; the whole window when there is less than a second left or none set. */
  predicate TellsTimeLeft(s: State, ttlSeconds: int, window: nat) {
    match s.key
    case Absent => ttlSeconds == window
    case Live(_, None, _) => ttlSeconds == window
    case Live(_, Some(deadline), _) =>
      || (1 <= ttlSeconds && deadline - s.now - 1000 < 1000 * ttlSeconds < deadline - s.now + 1000)
      || (deadline - s.now < 1000 && ttlSeconds == window)
  }

  /** Time does not run past the deadline of a live key: the key is gone after
      it. At the very millisecond of the deadline it may still be there. */
  predicate Enabled(s: State, step: Step) {
    match step
    case Incr(client) => PcOf(s, client).Idle?
    case Expire(client) => PcOf(s, client).Created?
    case Ttl(client, reply) => PcOf(s, client).Counted? && TtlReply(s, reply)
    case Crash(client) => !PcOf(s, client).Idle?
    case Tick(elapsed) => s.key.Live? && s.key.deadline.Some? ==> s.now + elapsed <= s.key.deadline.value
    case Evict => s.key.Live? && s.key.deadline.Some? && s.key.deadline.value <= s.now
  }

  function Incremented(s: State): Key {
    match s.key
    case Absent => Live(1, None, s.nextIncarnation)
    case Live(value, deadline, incarnation) => Live(value + 1, deadline, incarnation)
  }

  function Apply(s: State, step: Step, window: nat): State
    requires Enabled(s, step)
  {
    match step
    case Incr(client) =>
      var key := Incremented(s);
      s.(key := key,
         nextIncarnation := if s.key.Absent? then s.nextIncarnation + 1 else s.nextIncarnation,
         pcs := s.pcs[client := if key.value == 1 then Created(|s.hits|) else Counted(key.value, |s.hits|)],
         hits := s.hits + [Record(s.now, key.value, key.incarnation)])
    case Expire(client) =>
      s.(key := if s.key.Live? then s.key.(deadline := Some(s.now + Span(window))) else s.key,
         pcs := s.pcs[client := Counted(1, PcOf(s, client).hit)])
    case Ttl(client, reply) =>
      var pc := PcOf(s, client);
      s.(pcs := s.pcs[client := Idle],
         replies := s.replies + [Reply(pc.hit, pc.count, if reply > 0 then reply else window)])
    case Crash(client) => s.(pcs := s.pcs[client := Idle])
    case Tick(elapsed) => s.(now := s.now + elapsed)
    case Evict => s.(key := Absent)
  }

  /** `t` is the state after executing `steps`, in order, from `s`. */
  predicate Runs(s: State, steps: seq<Step>, t: State, window: nat)
    decreases |steps|
  {
    if steps == [] then s == t
    else Enabled(s, steps[0]) && Runs(Apply(s, steps[0], window), steps[1..], t, window)
  }

  predicate CrashFree(steps: seq<Step>) {
    forall i :: 0 <= i < |steps| ==> !steps[i].Crash?
  }

  lemma {:induction false} RunsAppend(s: State, steps: seq<Step>, t: State, step: Step, window: nat)
    requires Runs(s, steps, t, window) && Enabled(t, step)
    ensures Runs(s, steps + [step], Apply(t, step, window), window)
    decreases |steps|
  {
    if steps == [] {
      assert Runs(Apply(t, step, window), [], Apply(t, step, window), window);
      assert ([] + [step])[1..] == [];
    } else {
      RunsAppend(Apply(s, steps[0], window), steps[1..], t, step, window);
      assert (steps + [step])[1..] == steps[1..] + [step];
    }
  }

  lemma {:induction false} RunsThen(s: State, steps: seq<Step>, t: State, more: seq<Step>, u: State, window: nat)
    requires Runs(s, steps, t, window) && Runs(t, more, u, window)
    ensures Runs(s, steps + more, u, window)
    decreases |more|
  {
    if more == [] {
      assert steps + more == steps;
    } else {
      RunsAppend(s, steps, t, more[0], window);
      RunsThen(s, steps + [more[0]], Apply(t, more[0], window), more[1..], u, window);
      assert steps + [more[0]] + more[1..] == steps + more;
    }
  }

  // ---------- The invariant ----------

  /** The request log of the key, as a fixed-window log. */
  function Log(hits: seq<Record>): (log: seq<FixedWindow.Hit>)
    ensures |log| == |hits|
  {
    seq(|hits|, i requires 0 <= i < |hits| => FixedWindow.Hit(hits[i].at, hits[i].count))
  }

  /** Incarnations appear in the log one after the other. */
  predicate IncarnationsInOrder(s: State) {
    && (forall j :: 1 <= j < |s.hits| ==>
         s.hits[j].incarnation == s.hits[j - 1].incarnation + if s.hits[j].count == 1 then 1 else 0)
    && (if s.hits == [] then s.nextIncarnation == 0
        else s.hits[0].incarnation == 0 && s.nextIncarnation == s.hits[|s.hits| - 1].incarnation + 1)
  }

  /** The time at which the latest incarnation was created. */
  function LastOpening(s: State): int
    requires s.hits != [] && 1 <= s.hits[|s.hits| - 1].count <= |s.hits|
  {
    s.hits[|s.hits| - s.hits[|s.hits| - 1].count].at
  }

  predicate KeyMatchesLog(s: State, window: nat) {
    var n := |s.hits|;
    && (n > 0 ==> 1 <= s.hits[n - 1].count <= n && LastOpening(s) <= s.hits[n - 1].at <= s.now)
    && match s.key
       case Absent => n > 0 ==> LastOpening(s) + Span(window) <= s.now
       case Live(value, deadline, incarnation) =>
         && n > 0 && s.hits[n - 1].count == value && s.hits[n - 1].incarnation == incarnation
         && (deadline.Some? ==>
              && LastOpening(s) + Span(window) <= deadline.value
              && s.now <= deadline.value <= s.now + Span(window))
  }

  /** A client between its INCR and its EXPIRE created the key's current
      incarnation, which has no expiry yet, and is the only such client. */
  ghost predicate CreatorsHoldTheKey(s: State) {
    && (forall c :: PcOf(s, c).Created? ==>
         && PcOf(s, c).hit < |s.hits| && s.hits[PcOf(s, c).hit].count == 1
         && s.key.Live? && s.key.deadline.None?
         && s.key.incarnation == s.hits[PcOf(s, c).hit].incarnation)
    && (forall c, d :: PcOf(s, c).Created? && PcOf(s, d).Created? ==> c == d)
  }

  /** Each call works with the count of its own INCR, and no two calls, running
      or finished, share an INCR. */
  ghost predicate CallsOwnTheirHits(s: State) {
    && (forall c :: PcOf(s, c).Counted? ==>
         PcOf(s, c).hit < |s.hits| && s.hits[PcOf(s, c).hit].count == PcOf(s, c).count)
    && (forall i :: 0 <= i < |s.replies| ==>
         s.replies[i].hit < |s.hits| && s.hits[s.replies[i].hit].count == s.replies[i].count)
    && (forall c, d :: c != d && !PcOf(s, c).Idle? && !PcOf(s, d).Idle? ==> PcOf(s, c).hit != PcOf(s, d).hit)
    && (forall c, i :: 0 <= i < |s.replies| && !PcOf(s, c).Idle? ==> s.replies[i].hit != PcOf(s, c).hit)
    && (forall i, j :: 0 <= i < j < |s.replies| ==> s.replies[i].hit != s.replies[j].hit)
  }

  predicate RepliesInRange(s: State, window: nat) {
    forall i :: 0 <= i < |s.replies| ==> 1 <= s.replies[i].ttlSeconds <= window
  }

  ghost predicate Inv(s: State, window: nat) {
    && FixedWindow.WindowLog(Log(s.hits), Span(window))
    && IncarnationsInOrder(s)
    && KeyMatchesLog(s, window)
    && CreatorsHoldTheKey(s)
    && CallsOwnTheirHits(s)
    && RepliesInRange(s, window)
  }

  lemma IncrKeepsLog(s: State, client: nat, window: nat)
    requires Inv(s, window) && Enabled(s, Incr(client))
    ensures FixedWindow.WindowLog(Log(Apply(s, Incr(client), window).hits), Span(window))
  {
    var before, after := Log(s.hits), Log(Apply(s, Incr(client), window).hits);
    var n := |before|;
    assert forall i :: 0 <= i < n ==> after[i] == before[i];
    forall j | 1 <= j < |after| ensures FixedWindow.Follows(after, j, Span(window)) {
      if j < n {
        assert FixedWindow.Follows(before, j, Span(window));
      } else if s.key.Absent? {
        assert FixedWindow.Opener(after, n - 1) == n - s.hits[n - 1].count;
      }
    }
  }

  lemma IncrKeepsCalls(s: State, client: nat, window: nat)
    requires Enabled(s, Incr(client)) && KeyMatchesLog(s, window) && CreatorsHoldTheKey(s) && CallsOwnTheirHits(s)
    ensures CreatorsHoldTheKey(Apply(s, Incr(client), window))
    ensures CallsOwnTheirHits(Apply(s, Incr(client), window))
  {
    var t := Apply(s, Incr(client), window);
    assert forall c :: c != client ==> PcOf(t, c) == PcOf(s, c);
    assert forall i :: 0 <= i < |s.hits| ==> t.hits[i] == s.hits[i];
  }

  lemma IncrKeepsInv(s: State, client: nat, window: nat)
    requires Inv(s, window) && Enabled(s, Incr(client))
    ensures Inv(Apply(s, Incr(client), window), window)
  {
    IncrKeepsLog(s, client, window);
    IncrKeepsCalls(s, client, window);
    var t := Apply(s, Incr(client), window);
    assert forall i :: 0 <= i < |s.hits| ==> t.hits[i] == s.hits[i];
    assert KeyMatchesLog(t, window);
    assert IncarnationsInOrder(t);
  }

  lemma OtherStepsKeepCalls(s: State, step: Step, window: nat)
    requires Enabled(s, step) && !step.Incr? && CreatorsHoldTheKey(s) && CallsOwnTheirHits(s)
    ensures CreatorsHoldTheKey(Apply(s, step, window))
    ensures CallsOwnTheirHits(Apply(s, step, window))
  {
    var t := Apply(s, step, window);
    if step.Tick? || step.Evict? {
      assert forall c :: PcOf(t, c) == PcOf(s, c);
    } else {
      assert forall c :: c != step.client ==> PcOf(t, c) == PcOf(s, c);
    }
  }

  lemma OtherStepsKeepTheRest(s: State, step: Step, window: nat)
    requires 1 <= window && Inv(s, window) && Enabled(s, step) && !step.Incr?
    ensures KeyMatchesLog(Apply(s, step, window), window)
    ensures RepliesInRange(Apply(s, step, window), window)
  {
  }

  lemma StepKeepsInv(s: State, step: Step, window: nat)
    requires 1 <= window && Inv(s, window) && Enabled(s, step)
    ensures Inv(Apply(s, step, window), window)
  {
    if step.Incr? {
      IncrKeepsInv(s, step.client, window);
    } else {
      OtherStepsKeepCalls(s, step, window);
      OtherStepsKeepTheRest(s, step, window);
    }
  }

  lemma {:induction false} RunKeepsInv(s: State, steps: seq<Step>, t: State, window: nat)
    requires 1 <= window && Inv(s, window) && Runs(s, steps, t, window)
    ensures Inv(t, window)
    decreases |steps|
  {
    if steps != [] {
      StepKeepsInv(s, steps[0], window);
      RunKeepsInv(Apply(s, steps[0], window), steps[1..], t, window);
    }
  }

  lemma Reachable(steps: seq<Step>, s: State, window: nat)
    requires 1 <= window && Runs(Init, steps, s, window)
    ensures Inv(s, window)
  {
    RunKeepsInv(Init, steps, s, window);
  }
}
