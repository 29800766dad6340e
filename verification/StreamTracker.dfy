/** Which streams are live: a name stays live for `staleMs` after its last
    streaming push. The tracker forgets stale names only when it is read. */
module StreamTracker {
  import opened Wrappers

  /** A push as the tracker sees it, with the time the clock showed. */
  datatype PushEvent = PushEvent(name: string, streaming: bool, viewportKey: string, at: int)

  /** Pushes for the model's own viewport are ignored. */
  predicate Effective(p: PushEvent) {
    p.viewportKey != "dc-model"
  }

  /** The last effective push for a name. */
  function LastPush(history: seq<PushEvent>, name: string): Option<PushEvent> {
    if history == [] then None
    else
      var last := history[|history| - 1];
      if last.name == name && Effective(last) then Some(last) else LastPush(history[..|history| - 1], name)
  }

  /** A name is live when its last effective push was streaming and is at most `staleMs` old. */
  predicate IsLive(history: seq<PushEvent>, staleMs: int, name: string, now: int) {
    match LastPush(history, name)
    case None => false
    case Some(p) => p.streaming && now - p.at <= staleMs
  }

  ghost predicate AnyLive(history: seq<PushEvent>, staleMs: int, now: int) {
    exists name :: IsLive(history, staleMs, name, now)
  }

  /** A push for a viewport decides about its name from then on; one for the
      model's own viewport, `dc-model`, and one for another name change nothing. */
  lemma PushDecides(history: seq<PushEvent>, p: PushEvent, staleMs: int, name: string, now: int)
    ensures IsLive(history + [p], staleMs, name, now) <==>
            if p.viewportKey == "dc-model" || p.name != name then IsLive(history, staleMs, name, now)
            else p.streaming && now - p.at <= staleMs
  {
    assert (history + [p])[..|history|] == history;
  }

  class StreamTracker {
    const staleMs: int
    var since: map<string, int>
    ghost var history: seq<PushEvent>
    ghost var clock: int   // the latest reading of the clock

    /** Every name in the map is there since its last effective push, which was
        streaming; a streaming name missing from the map is already stale. */
    ghost predicate Valid()
      reads this
    {
      forall name ::
        match LastPush(history, name)
        case None => name !in since
        case Some(p) =>
          if name in since then p.streaming && since[name] == p.at
          else !p.streaming || clock - p.at > staleMs
    }

    constructor (staleMs: int)
      ensures Valid() && this.staleMs == staleMs && history == [] && clock == 0
    {
      this.staleMs := staleMs;
      since := map[];
      history := [];
      clock := 0;
    }

    method Push(name: string, streaming: bool, viewportKey: string, now: int)
      requires Valid() && clock <= now
      modifies this
      ensures Valid() && clock == now
      ensures history == old(history) + [PushEvent(name, streaming, viewportKey, now)]
    {
      ghost var p := PushEvent(name, streaming, viewportKey, now);
      history := history + [p];
      clock := now;
      assert history[..|history| - 1] == old(history);
      assert forall n :: n != name || !Effective(p) ==> LastPush(history, n) == LastPush(old(history), n);
      if viewportKey == "dc-model" {
        return;
      }
      if streaming {
        since := since[name := now];
      } else {
        since := since - {name};
      }
    }

    /** `liveOne`: reads may drop an entry, and no reader can tell. */
    method LiveOne(name: string, now: int) returns (live: bool)
      requires Valid() && clock <= now
      modifies this
      ensures Valid() && clock == now && history == old(history)
      ensures live == IsLive(history, staleMs, name, now)
      ensures since.Keys <= old(since).Keys && (live ==> name in since)
      ensures old(since).Keys - {name} <= since.Keys
    {
      clock := now;
      if name !in since {
        return false;
      }
      if now - since[name] > staleMs {
        since := since - {name};
        return false;
      }
      return true;
    }

    /** `live()`: walks the names, in any order, reading the clock anew for
        each, at times from `first` to `last`. A name live at the last reading
        is not missed, and a stream that is reported was live at the first. */
    method LiveAny(first: int, last: int) returns (live: bool)
      requires Valid() && clock <= first <= last
      modifies this
      ensures Valid() && clock <= last && history == old(history)
      ensures AnyLive(history, staleMs, last) ==> live
      ensures live ==> AnyLive(history, staleMs, first)
    {
      var keys := since.Keys;
      var reading := first;
      clock := first;
      while keys != {}
        invariant Valid() && first <= reading == clock <= last && history == old(history)
        invariant forall name :: name in since && name !in keys ==> !IsLive(history, staleMs, name, last)
        decreases keys
      {
        var n :| n in keys;
        keys := keys - {n};
        var now: int :| reading <= now <= last;
        reading := now;
        var one := LiveOne(n, reading);
        if one {
          assert IsLive(history, staleMs, n, first);
          return true;
        }
      }
      assert forall name :: IsLive(history, staleMs, name, last) ==> name in since;
      return false;
    }
  }

  /** With a single reading of the clock the answer is exact, whichever reads
      happened before. */
  method LiveAnyAt(tracker: StreamTracker, now: int) returns (live: bool)
    requires tracker.Valid() && tracker.clock <= now
    modifies tracker
    ensures tracker.Valid() && tracker.history == old(tracker.history) && tracker.clock <= now
    ensures live == AnyLive(tracker.history, tracker.staleMs, now)
  {
    live := tracker.LiveAny(now, now);
  }

  // ---------- Runs of pushes and reads ----------

  datatype Call =
    | PushCall(push: PushEvent)
    | LiveCall(name: string, at: int)
    | LiveAnyCall(at: int)

  function At(call: Call): int {
    match call
    case PushCall(p) => p.at
    case LiveCall(_, at) => at
    case LiveAnyCall(at) => at
  }

  function PushesOf(calls: seq<Call>): seq<PushEvent> {
    if calls == [] then []
    else
      var last := calls[|calls| - 1];
      PushesOf(calls[..|calls| - 1]) + if last.PushCall? then [last.push] else []
  }

  /** What a call must answer after the pushes that came before it. */
  ghost predicate Answers(pushes: seq<PushEvent>, staleMs: int, call: Call, answer: bool) {
    match call
    case PushCall(_) => !answer
    case LiveCall(name, at) => answer == IsLive(pushes, staleMs, name, at)
    case LiveAnyCall(at) => answer == AnyLive(pushes, staleMs, at)
  }

  method Serve(tracker: StreamTracker, call: Call) returns (answer: bool)
    requires tracker.Valid() && tracker.clock <= At(call)
    modifies tracker
    ensures tracker.Valid() && tracker.clock <= At(call)
    ensures tracker.history == old(tracker.history) + if call.PushCall? then [call.push] else []
    ensures Answers(old(tracker.history), tracker.staleMs, call, answer)
  {
    answer := false;
    match call {
      case PushCall(p) => tracker.Push(p.name, p.streaming, p.viewportKey, p.at);
      case LiveCall(name, at) => answer := tracker.LiveOne(name, at);
      case LiveAnyCall(at) => answer := LiveAnyAt(tracker, at);
    }
  }

  /** Lazy eviction is unobservable: over any run of calls with a clock that
      does not go back, each read answers from the pushes alone. */
  method RunCalls(staleMs: int, calls: seq<Call>) returns (answers: seq<bool>)
    requires forall i, j :: 0 <= i <= j < |calls| ==> 0 <= At(calls[i]) <= At(calls[j])
    ensures |answers| == |calls|
    ensures forall i :: 0 <= i < |calls| ==> Answers(PushesOf(calls[..i]), staleMs, calls[i], answers[i])
  {
    var tracker := new StreamTracker(staleMs);
    answers := [];
    for i := 0 to |calls|
      invariant fresh(tracker) && tracker.Valid() && tracker.staleMs == staleMs
      invariant tracker.history == PushesOf(calls[..i])
      invariant i < |calls| ==> tracker.clock <= At(calls[i])
      invariant |answers| == i
      invariant forall k :: 0 <= k < i ==> Answers(PushesOf(calls[..k]), staleMs, calls[k], answers[k])
    {
      assert calls[..i + 1][..i] == calls[..i];
      var answer := Serve(tracker, calls[i]);
      answers := answers + [answer];
    }
  }
}
