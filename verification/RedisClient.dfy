/** The code every replica runs against the shared Redis server. */
module RedisClient {
  import opened Wrappers
  import opened RedisStore

  lemma IncrEffect(s: State, client: nat, window: nat)
    requires PcOf(s, client).Idle?
    ensures var t := Apply(s, Incr(client), window);
            && t.key.Live?
            && t.key.value == Incremented(s).value
            && |t.hits| == |s.hits| + 1
            && t.hits[|s.hits|].count == t.key.value
            && PcOf(t, client) == if t.key.value == 1 then Created(|s.hits|) else Counted(t.key.value, |s.hits|)
  {
  }

  lemma ExpireEffect(s: State, client: nat, window: nat)
    requires PcOf(s, client).Created?
    ensures var t := Apply(s, Expire(client), window);
            t.hits == s.hits && PcOf(t, client) == Counted(1, PcOf(s, client).hit)
  {
  }

  /** One of the answers TTL may give: the time left, rounded down. */
  function WholeSecondsLeft(s: State): int {
    match s.key
    case Absent => -2
    case Live(_, None, _) => -1
    case Live(_, Some(deadline), _) => (deadline - s.now) / 1000
  }

  lemma TtlIsAnswered(s: State, window: nat)
    requires Inv(s, window)
    ensures TtlReply(s, WholeSecondsLeft(s))
  {
  }

  lemma TtlEffect(s: State, client: nat, ttl: int, window: nat)
    requires Enabled(s, Ttl(client, ttl))
    ensures var t, pc := Apply(s, Ttl(client, ttl), window), PcOf(s, client);
            && t.hits == s.hits && t.key == s.key && t.now == s.now && PcOf(t, client).Idle?
            && TellsTimeLeft(s, if ttl > 0 then ttl else window, window)
            && t.replies == s.replies + [Reply(pc.hit, pc.count, if ttl > 0 then ttl else window)]
  {
  }

  lemma RunsOne(s: State, step: Step, window: nat)
    requires Enabled(s, step)
    ensures Runs(s, [step], Apply(s, step, window), window)
  {
    hide Enabled, Apply;
    assert [step][1..] == [];
    assert Runs(Apply(s, step, window), [], Apply(s, step, window), window);
  }

  /** One server shared by every replica, and the store each of them runs. */
  class RedisQuotaStore {
    const window: nat
    var server: State

    ghost predicate Valid()
      reads this
    {
      1 <= window && Inv(server, window)
    }

    constructor (window: nat)
      requires 1 <= window
      ensures Valid() && this.window == window && server == Init
    {
      this.window := window;
      server := Init;
    }

    method Command(step: Step)
      requires Enabled(server, step)
      modifies this
      ensures server == Apply(old(server), step, window)
    {
      server := Apply(server, step, window);
    }

    /** What happens on the server while `client` waits: whichever of the given
        steps are possible when their turn comes, none of them by `client`. */
    method Meanwhile(client: nat, schedule: seq<Step>) returns (ghost steps: seq<Step>)
      modifies this
      ensures Runs(old(server), steps, server, window)
      ensures PcOf(server, client) == PcOf(old(server), client)
      ensures old(server).hits <= server.hits
    {
      steps := [];
      for i := 0 to |schedule|
        invariant Runs(old(server), steps, server, window)
        invariant PcOf(server, client) == PcOf(old(server), client)
        invariant old(server).hits <= server.hits
      {
        var step := schedule[i];
        if Enabled(server, step) && (step.Tick? || step.Evict? || step.client != client) {
          RunsAppend(old(server), steps, server, step, window);
          steps := steps + [step];
          Command(step);
        }
      }
    }

    /** `increment`, with anything at all happening between its commands: the
        whole is a run of the protocol, the count is that of this call's own
        INCR, the call is logged as finished with exactly this reply, and the time to
        wait is what the key had left when the server was `asked`, last of all. */
    method Increment(client: nat, first: seq<Step>, second: seq<Step>)
      returns (count: nat, ttlSeconds: int, ghost steps: seq<Step>, ghost asked: State)
      requires Valid() && PcOf(server, client).Idle?
      modifies this
      ensures Valid() && Runs(old(server), steps, server, window)
      ensures PcOf(server, client).Idle?
      ensures var hit := |old(server).hits|;
              && hit < |server.hits|
              && count == server.hits[hit].count == Incremented(old(server)).value
              && |server.replies| > 0
              && server.replies[|server.replies| - 1] == Reply(hit, count, ttlSeconds)
      ensures steps != [] && Runs(old(server), steps[..|steps| - 1], asked, window)
      ensures server.hits == asked.hits && server.key == asked.key && server.now == asked.now
      ensures TellsTimeLeft(asked, ttlSeconds, window)
    {
      hide Inv, Runs, Apply, TtlReply, TellsTimeLeft;
      ghost var before := server;
      Command(Incr(client));
      RunsOne(before, Incr(client), window);
      IncrEffect(before, client, window);
      steps := [Incr(client)];
      count := server.key.value;
      ghost var more := Meanwhile(client, first);
      RunsThen(before, steps, Apply(before, Incr(client), window), more, server, window);
      steps := steps + more;
      if count == 1 {
        RunsAppend(before, steps, server, Expire(client), window);
        steps := steps + [Expire(client)];
        ExpireEffect(server, client, window);
        Command(Expire(client));
      }
      ghost var mid := server;
      more := Meanwhile(client, second);
      RunsThen(before, steps, mid, more, server, window);
      steps := steps + more;
      RunKeepsInv(before, steps, server, window);
      TtlIsAnswered(server, window);
      var ttl: int :| TtlReply(server, ttl);
      ttlSeconds := if ttl > 0 then ttl else window;
      TtlEffect(server, client, ttl, window);
      asked := server;
      ghost var asking := steps;
      RunsAppend(before, steps, server, Ttl(client, ttl), window);
      steps := steps + [Ttl(client, ttl)];
      assert steps[..|steps| - 1] == asking;
      Command(Ttl(client, ttl));
      RunKeepsInv(before, steps, server, window);
    }
  }
}
