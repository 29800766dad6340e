/** What holds in every run of the Redis protocol, whatever the interleaving. */
module RedisRuns {
  import opened Wrappers
  import opened RedisStore
  import FixedWindow

  /** An EXPIRE always lands on the incarnation its own client created, and is
      the only one in flight, whether or not other clients crash. */
  lemma ExpireLandsOnItsOwnIncarnation(steps: seq<Step>, s: State, client: nat, window: nat)
    requires 1 <= window && Runs(Init, steps, s, window) && Enabled(s, Expire(client))
    ensures s.key.Live? && s.key.deadline.None?
    ensures var hit := PcOf(s, client).hit;
            hit < |s.hits| && s.hits[hit].count == 1 && s.hits[hit].incarnation == s.key.incarnation
    ensures forall other :: PcOf(s, other).Created? ==> other == client
    ensures Apply(s, Expire(client), window).key == s.key.(deadline := Some(s.now + Span(window)))
  {
    Reachable(steps, s, window);
  }

  ghost predicate HasCreator(s: State) {
    exists c :: PcOf(s, c).Created?
  }

  lemma {:induction false} CrashFreeRunsHaveCreators(s: State, steps: seq<Step>, t: State, window: nat)
    requires 1 <= window && Inv(s, window) && Runs(s, steps, t, window) && CrashFree(steps)
    requires s.key.Live? && s.key.deadline.None? ==> HasCreator(s)
    ensures t.key.Live? && t.key.deadline.None? ==> HasCreator(t)
    decreases |steps|
  {
    if steps != [] {
      var u := Apply(s, steps[0], window);
      StepKeepsInv(s, steps[0], window);
      if u.key.Live? && u.key.deadline.None? {
        if s.key.Absent? {
          assert PcOf(u, steps[0].client).Created?;
        } else {
          var c :| PcOf(s, c).Created?;
          assert PcOf(u, c).Created?;
        }
      }
      CrashFreeRunsHaveCreators(u, steps[1..], t, window);
    }
  }

  /** Without crashes, a live key lacks an expiry exactly while one client, and
      only one, is between its INCR and its EXPIRE. */
  lemma NoExpiryMeansOneCreator(steps: seq<Step>, s: State, window: nat)
    requires 1 <= window && Runs(Init, steps, s, window) && CrashFree(steps)
    ensures s.key.Live? && s.key.deadline.None? <==> HasCreator(s)
    ensures forall c, d :: PcOf(s, c).Created? && PcOf(s, d).Created? ==> c == d
  {
    Reachable(steps, s, window);
    CrashFreeRunsHaveCreators(Init, steps, s, window);
  }

  lemma {:induction false} SameIncarnation(s: State, i: nat, j: nat, window: nat)
    requires Inv(s, window) && i <= j < |s.hits|
    ensures s.hits[i].incarnation <= s.hits[j].incarnation
    ensures s.hits[i].incarnation == s.hits[j].incarnation <==> s.hits[j].count > j - i
    ensures s.hits[i].incarnation == s.hits[j].incarnation ==> s.hits[j].count == s.hits[i].count + (j - i)
  {
    assert Log(s.hits)[j].count == s.hits[j].count;
    if i < j {
      assert FixedWindow.Follows(Log(s.hits), j, Span(window));
      SameIncarnation(s, i, j - 1, window);
    } else {
      FixedWindow.CountsAreGapFree(Log(s.hits), j, Span(window));
    }
  }

  /** Within an incarnation of the key the counts handed out are 1, 2, 3, ...
      in the server's order, and finished calls never return the same one twice. */
  lemma CountsWithinAnIncarnation(steps: seq<Step>, s: State, window: nat)
    requires 1 <= window && Runs(Init, steps, s, window)
    ensures forall i, j :: 0 <= i <= j < |s.hits| && s.hits[i].incarnation == s.hits[j].incarnation ==>
              s.hits[j].count == s.hits[i].count + (j - i)
    ensures forall j :: 0 <= j < |s.hits| ==> 1 <= s.hits[j].count <= j + 1
    ensures forall i, j :: 0 <= i <= j < |s.hits| && j - i < s.hits[j].count ==>
              s.hits[i].incarnation == s.hits[j].incarnation
    ensures forall i, j :: 0 <= i < j < |s.replies| ==>
              var p, q := s.replies[i], s.replies[j];
              p.hit < |s.hits| && q.hit < |s.hits|
              && (s.hits[p.hit].incarnation == s.hits[q.hit].incarnation ==> p.count != q.count)
  {
    Reachable(steps, s, window);
    forall i: nat, j: nat | i <= j < |s.hits| && s.hits[i].incarnation == s.hits[j].incarnation
      ensures s.hits[j].count == s.hits[i].count + (j - i)
    {
      SameIncarnation(s, i, j, window);
    }
    forall i: nat, j: nat | i <= j < |s.hits| && j - i < s.hits[j].count
      ensures s.hits[i].incarnation == s.hits[j].incarnation
    {
      SameIncarnation(s, i, j, window);
    }
    forall j: nat | j < |s.hits| ensures 1 <= s.hits[j].count <= j + 1 {
      FixedWindow.CountsAreGapFree(Log(s.hits), j, Span(window));
      assert Log(s.hits)[j].count == s.hits[j].count;
    }
  }

  /** Requests of one incarnation that were within the limit. */
  function AllowedIn(hits: seq<Record>, incarnation: nat, limit: nat): nat {
    if hits == [] then 0
    else
      var last := hits[|hits| - 1];
      AllowedIn(hits[..|hits| - 1], incarnation, limit)
      + if last.incarnation == incarnation && last.count <= limit then 1 else 0
  }

  lemma {:induction false} IncarnationPrefixBound(s: State, n: nat, incarnation: nat, limit: nat, window: nat)
    requires Inv(s, window) && n <= |s.hits|
    ensures AllowedIn(s.hits[..n], incarnation, limit) <= limit
    ensures n > 0 && s.hits[n - 1].incarnation == incarnation ==>
              AllowedIn(s.hits[..n], incarnation, limit) <= s.hits[n - 1].count
    ensures n > 0 && s.hits[n - 1].incarnation < incarnation ==> AllowedIn(s.hits[..n], incarnation, limit) == 0
  {
    if n > 0 {
      assert s.hits[..n][..n - 1] == s.hits[..n - 1];
      IncarnationPrefixBound(s, n - 1, incarnation, limit, window);
      if n > 1 { SameIncarnation(s, n - 2, n - 1, window); } else { SameIncarnation(s, 0, 0, window); }
    }
  }

  /** One incarnation admits at most `limit` requests, even when a client died
      between its INCR and its EXPIRE. */
  lemma IncarnationBound(steps: seq<Step>, s: State, incarnation: nat, limit: nat, window: nat)
    requires 1 <= window && Runs(Init, steps, s, window)
    ensures AllowedIn(s.hits, incarnation, limit) <= limit
  {
    Reachable(steps, s, window);
    IncarnationPrefixBound(s, |s.hits|, incarnation, limit, window);
    assert s.hits[..|s.hits|] == s.hits;
  }

  /** The sliding-rate bound, for every interleaving, crashes included. */
  lemma SlidingRate(steps: seq<Step>, s: State, limit: nat, from: int, k: nat, window: nat)
    requires 1 <= window && Runs(Init, steps, s, window)
    ensures FixedWindow.Allowed(Log(s.hits), limit, from, from + k * Span(window)) <= FixedWindow.Ceiling(limit, k)
  {
    Reachable(steps, s, window);
    FixedWindow.SlidingBound(Log(s.hits), limit, from, k, Span(window));
  }

  /** Every time to wait that is handed out lies between 1 and the window, also
      when TTL found no key or no expiry. */
  lemma WaitsAreWithinTheWindow(steps: seq<Step>, s: State, i: nat, window: nat)
    requires 1 <= window && Runs(Init, steps, s, window) && i < |s.replies|
    ensures 1 <= s.replies[i].ttlSeconds <= window
  {
    Reachable(steps, s, window);
  }

  /** A finished call is told how long its key has left, at the moment the
      server is asked. */
  lemma WaitsTellTimeLeft(s: State, client: nat, reply: int, window: nat)
    requires Enabled(s, Ttl(client, reply))
    ensures var t := Apply(s, Ttl(client, reply), window);
            && |t.replies| == |s.replies| + 1
            && t.replies[|s.replies|].hit == PcOf(s, client).hit
            && t.replies[|s.replies|].count == PcOf(s, client).count
            && TellsTimeLeft(s, t.replies[|s.replies|].ttlSeconds, window)
  {
  }

  // ---------- A creator that dies before its EXPIRE ----------

  ghost predicate Orphaned(s: State) {
    s.key.Live? && s.key.deadline.None? && !HasCreator(s)
  }

  lemma {:induction false} OrphanStays(s: State, steps: seq<Step>, t: State, window: nat)
    requires 1 <= window && Inv(s, window) && Orphaned(s) && Runs(s, steps, t, window)
    ensures Orphaned(t) && t.key.incarnation == s.key.incarnation
    ensures |s.hits| <= |t.hits| && t.key.value == s.key.value + (|t.hits| - |s.hits|)
    ensures forall i :: |s.hits| <= i < |t.hits| ==> t.hits[i].count > s.key.value
    decreases |steps|
  {
    if steps != [] {
      var u := Apply(s, steps[0], window);
      assert forall c :: PcOf(u, c).Created? ==> PcOf(s, c).Created?;
      StepKeepsInv(s, steps[0], window);
      OrphanStays(u, steps[1..], t, window);
      HitsOnlyGrow(u, steps[1..], t, window);
    }
  }

  lemma {:induction false} HitsOnlyGrow(s: State, steps: seq<Step>, t: State, window: nat)
    requires Runs(s, steps, t, window)
    ensures s.hits <= t.hits
    decreases |steps|
  {
    if steps != [] {
      HitsOnlyGrow(Apply(s, steps[0], window), steps[1..], t, window);
    }
  }

  /** A live key without an expiry goes away again in some continuation exactly
      when its creator is still there to send the EXPIRE. Otherwise it stays for
      good: no later call in any continuation is within a limit already reached. */
  lemma RecoversIffCreatorAlive(steps: seq<Step>, s: State, window: nat)
    requires 1 <= window && Runs(Init, steps, s, window)
    requires s.key.Live? && s.key.deadline.None?
    ensures HasCreator(s) <==> exists more, t :: Runs(s, more, t, window) && t.key.Absent?
    ensures !HasCreator(s) ==>
              forall more, t, i :: Runs(s, more, t, window) && |s.hits| <= i < |t.hits| ==> t.hits[i].count > s.key.value
  {
    Reachable(steps, s, window);
    if HasCreator(s) {
      var c :| PcOf(s, c).Created?;
      var s1 := Apply(s, Expire(c), window);
      var s2 := Apply(s1, Tick(Span(window)), window);
      var s3 := Apply(s2, Evict, window);
      RunsAppend(s, [], s, Expire(c), window);
      RunsAppend(s, [Expire(c)], s1, Tick(Span(window)), window);
      RunsAppend(s, [Expire(c), Tick(Span(window))], s2, Evict, window);
      var more := [Expire(c), Tick(Span(window))] + [Evict];
      assert Runs(s, more, s3, window);
      assert s3.key.Absent?;
      assert exists more, t :: Runs(s, more, t, window) && t.key.Absent?;
    } else {
      forall more, t | Runs(s, more, t, window)
        ensures t.key.Live?
        ensures forall i :: |s.hits| <= i < |t.hits| ==> t.hits[i].count > s.key.value
      {
        OrphanStays(s, more, t, window);
      }
      assert !exists more, t :: Runs(s, more, t, window) && t.key.Absent?;
    }
  }

  /** Such a key can come about: one request whose client dies after its INCR. */
  lemma CrashOrphansTheKey(window: nat)
    ensures exists steps, s :: Runs(Init, steps, s, window) && Orphaned(s)
  {
    var s1 := Apply(Init, Incr(0), window);
    var s2 := Apply(s1, Crash(0), window);
    assert Runs(s2, [], s2, window);
    assert Runs(s1, [Crash(0)], s2, window);
    assert [Incr(0), Crash(0)][1..] == [Crash(0)];
    assert Runs(Init, [Incr(0), Crash(0)], s2, window);
    assert forall c :: !PcOf(s2, c).Created?;
  }
}
