/** Fixed-window counters in process memory: a map from key to the window that
    is open for it, stepped once per request, at the time the clock shows. */
module MemoryStore {
  import FixedWindow

  datatype WindowEntry = WindowEntry(count: nat, resetAtMs: int)

  datatype Request = Request(key: string, windowSeconds: int, at: int)

  datatype Reply = Reply(count: nat, ttlSeconds: int)

  function Max(a: int, b: int): int {
    if a < b then b else a
  }

  /** `Math.ceil(ms / 1000)`. */
  function CeilSeconds(ms: int): int {
    (ms + 999) / 1000
  }

  function Step(windows: map<string, WindowEntry>, r: Request): (map<string, WindowEntry>, Reply) {
    if r.key !in windows || windows[r.key].resetAtMs <= r.at then
      (windows[r.key := WindowEntry(1, r.at + r.windowSeconds * 1000)], Reply(1, r.windowSeconds))
    else
      var entry := windows[r.key].(count := windows[r.key].count + 1);
      (windows[r.key := entry], Reply(entry.count, Max(1, CeilSeconds(entry.resetAtMs - r.at))))
  }

  /** The windows after a run of requests, oldest first. */
  function After(run: seq<Request>): map<string, WindowEntry> {
    if run == [] then map[] else Step(After(run[..|run| - 1]), run[|run| - 1]).0
  }

  /** The reply to the last request of a run. */
  function LastReply(run: seq<Request>): Reply
    requires run != []
  {
    Step(After(run[..|run| - 1]), run[|run| - 1]).1
  }

  class MemoryQuotaStore {
    var windows: map<string, WindowEntry>
    ghost var history: seq<Request>

    ghost predicate Valid()
      reads this
    {
      windows == After(history)
    }

    constructor ()
      ensures Valid() && history == []
    {
      windows := map[];
      history := [];
    }

    method Increment(key: string, windowSeconds: int, now: int) returns (reply: Reply)
      requires Valid()
      modifies this
      ensures Valid() && history == old(history) + [Request(key, windowSeconds, now)]
      ensures reply == LastReply(history)
    {
      ghost var request := Request(key, windowSeconds, now);
      if key !in windows || windows[key].resetAtMs <= now {
        var resetAtMs := now + windowSeconds * 1000;
        windows := windows[key := WindowEntry(1, resetAtMs)];
        reply := Reply(1, windowSeconds);
      } else {
        var existing := windows[key];
        windows := windows[key := existing.(count := existing.count + 1)];
        var ttlSeconds := Max(1, CeilSeconds(existing.resetAtMs - now));
        reply := Reply(existing.count + 1, ttlSeconds);
      }
      history := history + [request];
      assert history[..|history| - 1] == old(history);
    }
  }

  // ---------- The store against the history of requests ----------

  /** The requests of a run that are for `key`. */
  function Project(run: seq<Request>, key: string): (own: seq<Request>)
    ensures |own| <= |run|
    ensures forall i :: 0 <= i < |own| ==> own[i].key == key
  {
    if run == [] then []
    else Project(run[..|run| - 1], key) + if run[|run| - 1].key == key then [run[|run| - 1]] else []
  }

  lemma ProjectLast(run: seq<Request>, key: string)
    requires run != []
    ensures var before, last := Project(run[..|run| - 1], key), run[|run| - 1];
            var own := Project(run, key);
            if last.key == key then own != [] && own[..|own| - 1] == before && own[|own| - 1] == last
            else own == before
  {
  }

  /** Among the requests of one key: the one that opened the window in which
      the last of them falls. A request opens a window when the window of the
      request before it has run out. */
  function Opener(own: seq<Request>): (i: nat)
    requires own != []
    ensures i < |own|
  {
    var n := |own|;
    if n == 1 then 0
    else
      var before := Opener(own[..n - 1]);
      if own[n - 1].at < Closes(own[before]) then before else n - 1
  }

  function Closes(opener: Request): int {
    opener.at + opener.windowSeconds * 1000
  }

  /** What the history of a key says its open window must be. */
  function Window(own: seq<Request>): WindowEntry
    requires own != []
  {
    WindowEntry(|own| - Opener(own), Closes(own[Opener(own)]))
  }

  predicate Matches(windows: map<string, WindowEntry>, key: string, own: seq<Request>) {
    if own == [] then key !in windows else key in windows && windows[key] == Window(own)
  }

  lemma StepMatches(windows: map<string, WindowEntry>, r: Request, key: string, own: seq<Request>)
    requires Matches(windows, key, own)
    ensures Matches(Step(windows, r).0, key, if r.key == key then own + [r] else own)
  {
    assert (own + [r])[..|own|] == own;
  }

  /** The map holds, for each key, the window its own requests opened and the
      number of requests since then. */
  lemma {:induction false} WindowsMatchHistory(run: seq<Request>, key: string)
    ensures Matches(After(run), key, Project(run, key))
  {
    if run != [] {
      var before, last := run[..|run| - 1], run[|run| - 1];
      WindowsMatchHistory(before, key);
      StepMatches(After(before), last, key, Project(before, key));
      assert Project(run, key) == if last.key == key then Project(before, key) + [last] else Project(before, key);
    }
  }

  /** Each reply counts the requests for its key since their window opened, and
      tells when that window closes. */
  lemma ReplyMatchesHistory(run: seq<Request>)
    requires run != []
    ensures var last := run[|run| - 1];
            var own := Project(run, last.key);
            && own != []
            && LastReply(run).count == |own| - Opener(own)
            && LastReply(run).ttlSeconds ==
                 if LastReply(run).count == 1 then last.windowSeconds
                 else Max(1, CeilSeconds(Closes(own[Opener(own)]) - last.at))
  {
    var last := run[|run| - 1];
    WindowsMatchHistory(run[..|run| - 1], last.key);
    var own := Project(run, last.key);
    assert own[..|own| - 1] == Project(run[..|run| - 1], last.key);
  }

  lemma {:induction false} ProjectTwice(run: seq<Request>, key: string)
    ensures Project(Project(run, key), key) == Project(run, key)
  {
    if run != [] {
      ProjectTwice(run[..|run| - 1], key);
      ProjectLast(run, key);
    }
  }

  /** The replies a run gives to the requests for `key`. */
  function Replies(run: seq<Request>, key: string): seq<Reply> {
    if run == [] then []
    else Replies(run[..|run| - 1], key) + if run[|run| - 1].key == key then [LastReply(run)] else []
  }

  /** Two stores that hold the same for a key reply alike to a request for it. */
  lemma SameHistorySameReply(a: seq<Request>, b: seq<Request>)
    requires a != [] && b != [] && a[|a| - 1] == b[|b| - 1]
    requires Project(a[..|a| - 1], a[|a| - 1].key) == Project(b[..|b| - 1], a[|a| - 1].key)
    ensures LastReply(a) == LastReply(b)
  {
    hide After, Project, Opener;
    WindowsMatchHistory(a[..|a| - 1], a[|a| - 1].key);
    WindowsMatchHistory(b[..|b| - 1], a[|a| - 1].key);
  }

  /** Keys do not disturb each other: in any interleaved run a key is answered
      as if its own requests had been the only ones. */
  lemma {:induction false} KeysAreIndependent(run: seq<Request>, key: string)
    ensures Replies(run, key) == Replies(Project(run, key), key)
  {
    hide LastReply, Project;
    if run == [] {
      assert Project(run, key) == [];
    } else {
      var before, last := run[..|run| - 1], run[|run| - 1];
      KeysAreIndependent(before, key);
      ProjectLast(run, key);
      ProjectTwice(before, key);
      if last.key == key { SameHistorySameReply(run, Project(run, key)); }
    }
  }

  // ---------- What holds over time ----------

  /** The clock does not go back. */
  predicate Monotone(run: seq<Request>) {
    forall i, j :: 0 <= i <= j < |run| ==> run[i].at <= run[j].at
  }

  predicate UsesWindow(run: seq<Request>, key: string, windowSeconds: int) {
    forall i :: 0 <= i < |run| && run[i].key == key ==> run[i].windowSeconds == windowSeconds
  }

  /** The log entry of the last request of a key. */
  function LogHit(own: seq<Request>): FixedWindow.Hit
    requires own != []
  {
    FixedWindow.Hit(own[|own| - 1].at, |own| - Opener(own))
  }

  /** The request log of one key. */
  function Log(own: seq<Request>): (log: seq<FixedWindow.Hit>)
    ensures |log| == |own|
  {
    seq(|own|, i requires 0 <= i < |own| => LogHit(own[..i + 1]))
  }

  lemma LogAt(own: seq<Request>, i: nat)
    requires i < |own|
    ensures Log(own)[i] == FixedWindow.Hit(own[i].at, i + 1 - Opener(own[..i + 1]))
  {
  }

  lemma LogGrows(own: seq<Request>, r: Request)
    ensures Log(own + [r]) == Log(own) + [LogHit(own + [r])]
  {
    var all := own + [r];
    var log, grown := Log(all), Log(own) + [LogHit(all)];
    forall i | 0 <= i < |all| ensures log[i] == grown[i] {
      if i < |own| {
        assert all[..i + 1] == own[..i + 1];
      } else {
        assert all[..i + 1] == all;
      }
    }
  }

  lemma OpenerStep(own: seq<Request>, j: nat)
    requires 1 <= j < |own|
    ensures var before := Opener(own[..j]);
            Opener(own[..j + 1]) == if own[j].at < Closes(own[before]) then before else j
  {
    assert own[..j + 1][..j] == own[..j];
  }

  lemma {:induction false} LogIsWindowLog(own: seq<Request>, key: string, windowSeconds: nat)
    requires Monotone(own) && UsesWindow(own, key, windowSeconds)
    requires forall i :: 0 <= i < |own| ==> own[i].key == key
    ensures FixedWindow.WindowLog(Log(own), 1000 * windowSeconds)
  {
    forall j | 1 <= j < |own| ensures FixedWindow.Follows(Log(own), j, 1000 * windowSeconds) {
      LogFollows(own, key, windowSeconds, j);
    }
  }

  lemma HitsFollow(log: seq<FixedWindow.Hit>, j: nat, before: nat, closes: int, span: nat)
    requires 1 <= j < |log| && before < j
    requires log[j - 1].at <= log[j].at && log[j - 1].count == j - before && closes == log[before].at + span
    requires log[j].count == if log[j].at < closes then j + 1 - before else 1
    ensures FixedWindow.Follows(log, j, span)
  {
  }

  lemma LogFollows(own: seq<Request>, key: string, windowSeconds: nat, j: nat)
    requires Monotone(own) && UsesWindow(own, key, windowSeconds)
    requires forall i :: 0 <= i < |own| ==> own[i].key == key
    requires 1 <= j < |own|
    ensures FixedWindow.Follows(Log(own), j, 1000 * windowSeconds)
  {
    hide Opener, Log, Monotone, FixedWindow.Follows;
    assert own[j - 1].at <= own[j].at by { InOrder(own, j); }
    OpenerStep(own, j);
    var before := Opener(own[..j]);
    assert own[..j][before] == own[before];
    LogAt(own, j);
    LogAt(own, j - 1);
    LogAt(own, before);
    HitsFollow(Log(own), j, before, Closes(own[before]), 1000 * windowSeconds);
  }

  lemma InOrder(run: seq<Request>, j: nat)
    requires Monotone(run) && 1 <= j < |run|
    ensures run[j - 1].at <= run[j].at
  {
  }

  lemma {:induction false} ProjectKeeps(run: seq<Request>, key: string, windowSeconds: nat)
    requires Monotone(run) && UsesWindow(run, key, windowSeconds)
    ensures Monotone(Project(run, key)) && UsesWindow(Project(run, key), key, windowSeconds)
    ensures run != [] && Project(run, key) != [] ==>
              Project(run, key)[|Project(run, key)| - 1].at <= run[|run| - 1].at
  {
    if run != [] {
      ProjectKeeps(run[..|run| - 1], key, windowSeconds);
    }
  }

  /** The sliding-rate bound for every run and every key in it. */
  lemma SlidingRate(run: seq<Request>, key: string, windowSeconds: nat, limit: nat, from: int, k: nat)
    requires Monotone(run) && UsesWindow(run, key, windowSeconds)
    ensures FixedWindow.Allowed(Log(Project(run, key)), limit, from, from + k * (1000 * windowSeconds))
            <= FixedWindow.Ceiling(limit, k)
  {
    ProjectKeeps(run, key, windowSeconds);
    LogIsWindowLog(Project(run, key), key, windowSeconds);
    FixedWindow.SlidingBound(Log(Project(run, key)), limit, from, k, 1000 * windowSeconds);
  }

  // ---------- Retry-After ----------

  /** The window open for the last request's key closes within the second that
      ends `ttlSeconds` from now. */
  lemma TtlRoundsUp(run: seq<Request>, windowSeconds: nat)
    requires run != [] && Monotone(run) && 1 <= windowSeconds
    requires UsesWindow(run, run[|run| - 1].key, windowSeconds)
    ensures var last, reply := run[|run| - 1], LastReply(run);
            && last.key in After(run)
            && After(run)[last.key].count == reply.count
            && last.at + 1000 * (reply.ttlSeconds - 1) < After(run)[last.key].resetAtMs <= last.at + 1000 * reply.ttlSeconds
            && 1 <= reply.ttlSeconds <= windowSeconds
  {
    hide After, LastReply, Project, Opener, CeilSeconds, Monotone, UsesWindow;
    var last := run[|run| - 1];
    var own := Project(run, last.key);
    ProjectKeeps(run, last.key, windowSeconds);
    WindowsMatchHistory(run, last.key);
    ReplyMatchesHistory(run);
    ProjectLast(run, last.key);
    LastIsInItsWindow(own, last.key, windowSeconds);
    CeilSecondsRoundsUp(Closes(own[Opener(own)]) - last.at);
  }

  lemma CeilSecondsRoundsUp(ms: int)
    ensures 1000 * (CeilSeconds(ms) - 1) < ms <= 1000 * CeilSeconds(ms)
  {
  }

  lemma LastIsInItsWindow(own: seq<Request>, key: string, windowSeconds: nat)
    requires own != [] && Monotone(own) && UsesWindow(own, key, windowSeconds) && 1 <= windowSeconds
    requires forall i :: 0 <= i < |own| ==> own[i].key == key
    ensures own[Opener(own)].at <= own[|own| - 1].at < Closes(own[Opener(own)])
    ensures Closes(own[Opener(own)]) == own[Opener(own)].at + 1000 * windowSeconds
  {
  }

  /** Until its close a window stays, whatever requests come for other keys,
      and only its count grows. */
  lemma {:induction false} WindowStays(run: seq<Request>, more: seq<Request>, key: string)
    requires key in After(run)
    requires forall i :: 0 <= i < |more| && more[i].key == key ==> more[i].at < After(run)[key].resetAtMs
    ensures key in After(run + more)
    ensures After(run + more)[key].resetAtMs == After(run)[key].resetAtMs
    ensures After(run + more)[key].count >= After(run)[key].count
    ensures more != [] && more[|more| - 1].key == key ==> LastReply(run + more).count > After(run)[key].count
  {
    if more == [] {
      assert run + more == run;
    } else {
      var n := |more| - 1;
      WindowStays(run, more[..n], key);
      assert (run + more)[..|run| + n] == run + more[..n];
    }
  }

  /** The requests for a key that come once a window has closed. */
  function Late(more: seq<Request>, key: string, closes: int): (late: seq<Request>)
    ensures |late| <= |more|
  {
    if more == [] then []
    else
      var last := more[|more| - 1];
      Late(more[..|more| - 1], key, closes) + if last.key == key && last.at >= closes then [last] else []
  }

  lemma {:induction false} LateInTime(more: seq<Request>, key: string, closes: int)
    requires Monotone(more)
    ensures forall i :: 0 <= i < |Late(more, key, closes)| ==> closes <= Late(more, key, closes)[i].at <= more[|more| - 1].at
    ensures Late(more, key, closes) == [] ==> forall i :: 0 <= i < |more| && more[i].key == key ==> more[i].at < closes
  {
    if more != [] {
      LateInTime(more[..|more| - 1], key, closes);
    }
  }

  /** The first late request opens the next window, and that one's count is the
      number of late requests for as long as it is open. */
  lemma {:induction false} LateWindow(run: seq<Request>, more: seq<Request>, key: string, windowSeconds: nat, closes: int)
    requires key in After(run) && After(run)[key].resetAtMs == closes
    requires Monotone(more) && UsesWindow(more, key, windowSeconds)
    requires var late := Late(more, key, closes);
             late != [] ==> more[|more| - 1].at < late[0].at + 1000 * windowSeconds
    ensures key in After(run + more)
    ensures var late := Late(more, key, closes);
            if late == [] then After(run + more)[key].resetAtMs == closes
            else After(run + more)[key] == WindowEntry(|late|, late[0].at + 1000 * windowSeconds)
  {
    if more == [] {
      assert run + more == run;
    } else {
      var n := |more| - 1;
      var last := more[n];
      assert more == more[..n] + [last] && run + more == (run + more[..n]) + [last];
      assert last.key == key ==> last.windowSeconds == windowSeconds;
      hide After, Monotone, UsesWindow;
      MonotoneParts(more[..n], [last], key, windowSeconds);
      LateInTime(more[..n], key, closes);
      LateWindow(run, more[..n], key, windowSeconds, closes);
      EntryAfter(run + more[..n], last, key);
    }
  }

  lemma EntryAfter(run: seq<Request>, next: Request, key: string)
    requires key in After(run)
    ensures key in After(run + [next])
    ensures After(run + [next])[key] ==
            if next.key != key then After(run)[key]
            else if next.at < After(run)[key].resetAtMs then After(run)[key].(count := After(run)[key].count + 1)
            else WindowEntry(1, next.at + 1000 * next.windowSeconds)
  {
    assert (run + [next])[..|run|] == run;
  }

  lemma MonotoneParts(a: seq<Request>, b: seq<Request>, key: string, windowSeconds: int)
    requires Monotone(a + b) && UsesWindow(a + b, key, windowSeconds)
    ensures Monotone(a) && UsesWindow(a, key, windowSeconds)
    ensures Monotone(b) && UsesWindow(b, key, windowSeconds)
    ensures forall i, j :: 0 <= i < |a| && 0 <= j < |b| ==> a[i].at <= b[j].at
  {
    var all := a + b;
    assert forall i :: 0 <= i < |a| ==> all[i] == a[i];
    assert forall j :: 0 <= j < |b| ==> all[|a| + j] == b[j];
  }

  /** Retry-After exactly. The window that denied a request at time `t` with
      value `r` closes in the second that ends at `t + 1000 * r`. Every request
      for the key up to `t + 1000 * (r - 1)` is denied too. One at or after
      `t + 1000 * r` counts the requests for the key that came before it once
      the window had closed, as long as the window these opened is open, and
      itself; so the first of them opens a fresh window. */
  lemma RetryAfterIsExact(run: seq<Request>, more: seq<Request>, next: Request, windowSeconds: nat, limit: nat)
    requires run != [] && Monotone(run + more + [next]) && 1 <= windowSeconds
    requires UsesWindow(run + more + [next], run[|run| - 1].key, windowSeconds)
    requires LastReply(run).count > limit
    requires next.key == run[|run| - 1].key
    requires next.at >= run[|run| - 1].at + 1000 * LastReply(run).ttlSeconds
    ensures 1 <= LastReply(run).ttlSeconds <= windowSeconds
    ensures next.key in After(run)
    ensures var closes, t, r := After(run)[next.key].resetAtMs, run[|run| - 1].at, LastReply(run).ttlSeconds;
            t + 1000 * (r - 1) < closes <= t + 1000 * r
    ensures forall i :: 0 <= i < |more| && more[i].key == next.key
                        && more[i].at <= run[|run| - 1].at + 1000 * (LastReply(run).ttlSeconds - 1) ==>
              LastReply(run + more[..i + 1]).count > limit
    ensures var late := Late(more, next.key, After(run)[next.key].resetAtMs);
            late == [] || next.at < late[0].at + 1000 * windowSeconds ==>
              LastReply(run + more + [next]).count == |late| + 1
  {
    hide Monotone, UsesWindow, After, LastReply, Late;
    MonotoneParts(run + more, [next], next.key, windowSeconds);
    MonotoneParts(run, more, next.key, windowSeconds);
    TtlRoundsUp(run, windowSeconds);
    forall i | 0 <= i < |more| && more[i].key == next.key
               && more[i].at <= run[|run| - 1].at + 1000 * (LastReply(run).ttlSeconds - 1)
      ensures LastReply(run + more[..i + 1]).count > limit
    {
      EarlierComeFirst(more, i);
      WindowStays(run, more[..i + 1], next.key);
    }
    var late := Late(more, next.key, After(run)[next.key].resetAtMs);
    if late == [] || next.at < late[0].at + 1000 * windowSeconds {
      if more != [] { assert more[|more| - 1].at <= next.at by { MonotoneBefore(run + more, next); } }
      assert late != [] ==> more != [];
      LateWindow(run, more, next.key, windowSeconds, After(run)[next.key].resetAtMs);
      NextReply(run + more, next);
    }
  }

  lemma EarlierComeFirst(run: seq<Request>, i: nat)
    requires Monotone(run) && i < |run|
    ensures forall j :: 0 <= j <= i ==> run[j].at <= run[i].at
  {
  }

  lemma MonotoneBefore(run: seq<Request>, next: Request)
    requires run != [] && Monotone(run + [next])
    ensures run[|run| - 1].at <= next.at
  {
    var all := run + [next];
    assert all[|run| - 1] == run[|run| - 1] && all[|run|] == next;
  }

  lemma NextReply(run: seq<Request>, next: Request)
    requires next.key in After(run)
    ensures LastReply(run + [next]).count ==
            if next.at < After(run)[next.key].resetAtMs then After(run)[next.key].count + 1 else 1
  {
    assert (run + [next])[..|run|] == run;
  }

  // ---------- The sliding-rate bound is attained ----------

  /** What a further request for the key depends on, and the requests allowed so far. */
  datatype Summary = Summary(since: int, closes: int, allowed: int)

  function Summarise(own: seq<Request>, limit: nat, from: int, till: int): Summary
    requires own != []
  {
    Summary(|own| - Opener(own), Closes(own[Opener(own)]), FixedWindow.Allowed(Log(own), limit, from, till))
  }

  function OneMore(s: Summary, r: Request, limit: nat, from: int, till: int): Summary {
    var since := if r.at < s.closes then s.since + 1 else 1;
    Summary(since, if r.at < s.closes then s.closes else Closes(r),
            s.allowed + if from <= r.at < till && since <= limit then 1 else 0)
  }

  lemma SummariseOneMore(own: seq<Request>, r: Request, limit: nat, from: int, till: int)
    requires own != []
    ensures Summarise(own + [r], limit, from, till) == OneMore(Summarise(own, limit, from, till), r, limit, from, till)
  {
    LogGrows(own, r);
    var log := Log(own + [r]);
    assert (own + [r])[..|own|] == own;
    assert log[..|own|] == Log(own);
  }

  /** A burst of `n` requests `r` at the same instant. */
  function Burst(r: Request, n: nat): (burst: seq<Request>)
    ensures |burst| == n && forall i :: 0 <= i < n ==> burst[i] == r
  {
    seq(n, _ => r)
  }

  function Repeated(s: Summary, r: Request, n: nat, limit: nat, from: int, till: int): Summary {
    if n == 0 then s else OneMore(Repeated(s, r, n - 1, limit, from, till), r, limit, from, till)
  }

  lemma {:induction false} SummariseBurst(own: seq<Request>, r: Request, n: nat, limit: nat, from: int, till: int)
    requires own != []
    ensures Summarise(own + Burst(r, n), limit, from, till)
            == Repeated(Summarise(own, limit, from, till), r, n, limit, from, till)
  {
    if n == 0 {
      assert own + Burst(r, 0) == own;
    } else {
      var before := own + Burst(r, n - 1);
      SummariseBurst(own, r, n - 1, limit, from, till);
      SummariseOneMore(before, r, limit, from, till);
      assert own + Burst(r, n) == before + [r];
    }
  }

  /** A burst that stays within the limit of the window it falls in is allowed in full. */
  lemma {:induction false} BurstAllowed(s: Summary, r: Request, n: nat, limit: nat, from: int, till: int)
    requires 1 <= r.windowSeconds && from <= r.at < till
    requires if r.at < s.closes then s.since + n <= limit else n <= limit
    ensures Repeated(s, r, n, limit, from, till) ==
            if n == 0 then s
            else if r.at < s.closes then Summary(s.since + n, s.closes, s.allowed + n)
            else Summary(n, Closes(r), s.allowed + n)
  {
    if n > 0 {
      BurstAllowed(s, r, n - 1, limit, from, till);
    }
  }

  /** `n` times `x`, by addition. */
  function Sum(x: nat, n: nat): nat {
    if n == 0 then 0 else Sum(x, n - 1) + x
  }

  lemma {:induction false} SumIsProduct(x: nat, n: nat)
    ensures Sum(x, n) == n * x
  {
    if n > 0 {
      SumIsProduct(x, n - 1);
      assert n * x == (n - 1) * x + x;
    }
  }

  /** One early request, the rest of its window's quota just before it closes,
      and then a full quota the moment each of `k` further windows can open. */
  function WorstCase(key: string, windowSeconds: nat, limit: nat, k: nat): (run: seq<Request>)
    requires 1 <= limit
    ensures run != []
  {
    if k == 0 then
      [Request(key, windowSeconds, 0)] + Burst(Request(key, windowSeconds, 1000 * windowSeconds - 1), limit - 1)
    else
      WorstCase(key, windowSeconds, limit, k - 1)
      + Burst(Request(key, windowSeconds, Sum(1000 * windowSeconds, k)), limit)
  }

  lemma SummariseBurstAllowed(own: seq<Request>, r: Request, n: nat, limit: nat, from: int, till: int, s: Summary)
    requires own != [] && s == Summarise(own, limit, from, till)
    requires 1 <= r.windowSeconds && from <= r.at < till
    requires if r.at < s.closes then s.since + n <= limit else n <= limit
    ensures Summarise(own + Burst(r, n), limit, from, till) ==
            if n == 0 then s
            else if r.at < s.closes then Summary(s.since + n, s.closes, s.allowed + n)
            else Summary(n, Closes(r), s.allowed + n)
  {
    SummariseBurst(own, r, n, limit, from, till);
    BurstAllowed(s, r, n, limit, from, till);
  }

  lemma {:induction false} WorstCaseCounts(key: string, windowSeconds: nat, limit: nat, k: nat, till: int)
    returns (s: Summary)
    requires 1 <= limit && 1 <= windowSeconds
    requires till > Sum(1000 * windowSeconds, k) && till >= 1000 * windowSeconds
    ensures s == Summarise(WorstCase(key, windowSeconds, limit, k), limit, 1000 * windowSeconds - 1, till)
    ensures s.closes == Sum(1000 * windowSeconds, k) + 1000 * windowSeconds && s.allowed == Sum(limit, k) + limit - 1
  {
    var span := 1000 * windowSeconds;
    if k == 0 {
      var first, late := Request(key, windowSeconds, 0), Request(key, windowSeconds, span - 1);
      SummariseFirst(first, limit, span - 1, till);
      SummariseBurstAllowed([first], late, limit - 1, limit, span - 1, till, Summary(1, span, 0));
      s := if limit == 1 then Summary(1, span, 0) else Summary(limit, span, limit - 1);
    } else {
      var before := WorstCaseCounts(key, windowSeconds, limit, k - 1, till);
      var r := Request(key, windowSeconds, Sum(span, k));
      SumAtLeast(span, k);
      SummariseBurstAllowed(WorstCase(key, windowSeconds, limit, k - 1), r, limit, limit, span - 1, till, before);
      s := Summary(limit, Closes(r), before.allowed + limit);
    }
  }

  lemma {:induction false} SumAtLeast(x: nat, n: nat)
    requires 1 <= n
    ensures Sum(x, n) >= x
  {
  }

  lemma SummariseFirst(r: Request, limit: nat, from: int, till: int)
    requires r.at < from
    ensures Summarise([r], limit, from, till) == Summary(1, Closes(r), 0)
  {
    assert [r][..1] == [r] && Opener([r]) == 0;
    var log := [FixedWindow.Hit(r.at, 1)];
    assert Log([r])[0] == log[0];
    assert Log([r]) == log;
    assert FixedWindow.Allowed(log[..0], limit, from, till) == 0;
  }

  lemma {:induction false} WorstCaseIsARun(key: string, windowSeconds: nat, limit: nat, k: nat)
    requires 1 <= limit && 1 <= windowSeconds
    ensures var run := WorstCase(key, windowSeconds, limit, k);
            && Monotone(run) && UsesWindow(run, key, windowSeconds)
            && (forall i :: 0 <= i < |run| ==>
                  && run[i].key == key && run[i].windowSeconds == windowSeconds
                  && run[i].at < Sum(1000 * windowSeconds, k + 1))
  {
    if k > 0 {
      WorstCaseIsARun(key, windowSeconds, limit, k - 1);
    } else {
      assert Sum(1000 * windowSeconds, 1) == 1000 * windowSeconds;
    }
  }

  lemma {:induction false} ProjectAll(run: seq<Request>, key: string)
    requires forall i :: 0 <= i < |run| ==> run[i].key == key
    ensures Project(run, key) == run
  {
    if run != [] {
      ProjectAll(run[..|run| - 1], key);
      assert run == run[..|run| - 1] + [run[|run| - 1]];
    }
  }

  /** No smaller bound than the ceiling holds: for every limit, window and
      number of window lengths, this run of requests reaches it. */
  lemma CeilingIsAttained(key: string, windowSeconds: nat, limit: nat, k: nat)
    requires 1 <= limit && 1 <= windowSeconds && 1 <= k
    ensures Monotone(WorstCase(key, windowSeconds, limit, k))
    ensures UsesWindow(WorstCase(key, windowSeconds, limit, k), key, windowSeconds)
    ensures Project(WorstCase(key, windowSeconds, limit, k), key) == WorstCase(key, windowSeconds, limit, k)
    ensures var span := 1000 * windowSeconds;
            FixedWindow.Allowed(Log(WorstCase(key, windowSeconds, limit, k)), limit, span - 1, span - 1 + k * span)
            == FixedWindow.Ceiling(limit, k)
  {
    WorstCaseIsARun(key, windowSeconds, limit, k);
    ProjectAll(WorstCase(key, windowSeconds, limit, k), key);
    WorstCaseAllowed(key, windowSeconds, limit, k);
  }

  lemma WorstCaseAllowed(key: string, windowSeconds: nat, limit: nat, k: nat)
    requires 1 <= limit && 1 <= windowSeconds && 1 <= k
    ensures var span := 1000 * windowSeconds;
            FixedWindow.Allowed(Log(WorstCase(key, windowSeconds, limit, k)), limit, span - 1, span - 1 + k * span)
            == FixedWindow.Ceiling(limit, k)
  {
    var till := WorstCaseEnd(windowSeconds, k);
    var s := WorstCaseCounts(key, windowSeconds, limit, k, till);
    SumIsCeiling(limit, k);
  }

  lemma WorstCaseEnd(windowSeconds: nat, k: nat) returns (till: int)
    requires 1 <= windowSeconds && 1 <= k
    ensures var span := 1000 * windowSeconds;
            till == span - 1 + k * span && till > Sum(span, k) && till >= span
  {
    var span := 1000 * windowSeconds;
    SumAtLeast(span, k);
    SumIsProduct(span, k);
    till := span - 1 + k * span;
  }

  lemma SumIsCeiling(limit: nat, k: nat)
    requires 1 <= limit && 1 <= k
    ensures Sum(limit, k) + limit - 1 == FixedWindow.Ceiling(limit, k)
  {
    SumIsProduct(limit, k);
    assert (k + 1) * limit == k * limit + limit;
  }
}
