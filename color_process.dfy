/** The GK-2A true-colour downloader process: the state one run of the
    script keeps and the loops that update it, each proved to compute the
    function of module Color it is named after. */
module ColorProcess {
  import opened Wrappers
  import opened Clock
  import opened Host
  import opened Executor
  import opened Ledger
  import opened Color
  import opened Seqs

  /** The `for` loop of `check_download_window`: the first publish minute
      whose window the clock is in. */
  method CheckWindow(now: Instant) returns (pt: Option<Instant>)
    ensures pt == CheckDownloadWindow(now)
    ensures pt.Some? ==> Published(pt.value) && pt.value + DELAY - WINDOW <= now <= pt.value + DELAY
  {
    CheckDownloadWindowSound(now);
    for i := 0 to |PUBLISH_MINS|
      invariant CheckDownloadWindow(now) == CheckWindowFrom(i, now)
    {
      var w := WindowAt(PUBLISH_MINS[i], now);
      if w.Some? {
        return w;
      }
    }
    pt := None;
  }

  /** The same loop with the corrected pass. */
  method FixedWindow(now: Instant) returns (pt: Option<Instant>)
    ensures pt == FixedDownloadWindow(now)
    ensures forall q :: pt == Some(q) <==> Published(q) && q + DELAY - WINDOW <= now <= q + DELAY + WINDOW
  {
    forall q {
      FixedDownloadWindowExact(q, now);
    }
    for i := 0 to |PUBLISH_MINS|
      invariant FixedDownloadWindow(now) == FixedWindowFrom(i, now)
    {
      var w := FixedWindowAt(PUBLISH_MINS[i], now);
      if w.Some? {
        return w;
      }
    }
    pt := None;
  }

  /** `get_next_download_window(current_time)`. */
  method NextWindow(now: Instant) returns (next: Option<Instant>, remaining: int, total: int)
    ensures (next, remaining, total) == NextDownloadWindow(now)
    ensures next.Some? && remaining >= 0 && remaining == (if total < 0 then 0 else total)
  {
    var best := NearestWindow(now);
    NextDownloadWindowFacts(now);
    match best
    case None =>
      next, remaining, total := None, 0, 0;
    case Some(w) =>
      next, remaining, total := Some(w.start), w.remaining, w.start - now;
  }

  /** The loop of `get_next_download_window`: it keeps the nearest candidate
      so far, `best == None` standing for the infinite minimum. */
  method NearestWindow(now: Instant) returns (best: Option<Window>)
    ensures best == NextFrom(Candidates(now), 0, None)
  {
    ghost var cs := Candidates(now);
    best := None;
    for i := 0 to |PUBLISH_MINS|
      invariant NextFrom(cs, 0, None) == NextFrom(cs, i, best)
    {
      var pm := PUBLISH_MINS[i];
      assert 0 <= pm < 60 by { PublishMinuteAt(i); }
      var c := Candidate(pm, now);
      CandidateAt(now, i);
      if best.None? || c.remaining < best.value.remaining {
        best := Some(c);
      }
    }
  }

  /** The state of one run of the script: the machine it talks to, the
      in-memory download history, the history file as this process last wrote
      it, and the failed-task map. */
  class Downloader {
    const host: Machine
    var history: History
    var saved: Option<History>
    var failed: map<string, Instant>

    /** The downloader's state as an engine value. */
    function State(): Engine
      reads this, host
    {
      Engine(host.files, host.replies, history, saved, failed)
    }

    /** Start-up: `load_download_history()` and an empty failed-task map. */
    constructor (machine: Machine, stored: Stored, now: Instant)
      ensures host == machine && history == Loaded(stored, now).0
      ensures saved == (if Loaded(stored, now).1 then Some(history) else None)
      ensures failed == map[]
    {
      host := machine;
      var h := Loaded(stored, now);
      history := h.0;
      saved := if h.1 then Some(h.0) else None;
      failed := map[];
    }

    /** `add_download_history(pt_str, history)`. */
    method AddDownloadHistory(key: string, n: Now)
      modifies this
      ensures State() == Record(old(State()), key, n)
    {
      var downloaded := history.downloaded;
      if key !in downloaded {
        downloaded := downloaded + [key];
        downloaded := Retained(downloaded, n.cutoff);
      }
      history := history.(downloaded := downloaded, lastDownload := n.iso);
      saved := Some(history);
    }

    /** `download_file(url, save_path, pt, pt_str, history)`: the verdict, and
        the pauses it slept between attempts. */
    method DownloadFile(t: Task, n: Now) returns (verdict: Verdict, pauses: seq<nat>)
      modifies this, host
      ensures var d := Fetching(old(State()), t, n);
        verdict == d.verdict && State() == d.engine && host.requested == old(host.requested) + Repeat(t.url, d.gets)
    {
      verdict, pauses := Fetch(host, t.url, t.path, RULE);
      if verdict == Fetched {
        AddDownloadHistory(t.key, n);
      }
    }

    /** The `for` loop over the publish minutes inside the hour of `cur`. */
    method HourPass(cur: Instant, start: Instant, now: Instant, times: seq<Instant>) returns (times': seq<Instant>)
      ensures times' == times + HourTimes(cur, PUBLISH_MINS, start, now)
    {
      PublishMinutes();
      times' := times;
      for i := 0 to |PUBLISH_MINS|
        invariant MinuteList(PUBLISH_MINS[i..])
        invariant times' + HourTimes(cur, PUBLISH_MINS[i..], start, now) == times + HourTimes(cur, PUBLISH_MINS, start, now)
      {
        var m := PUBLISH_MINS[i];
        assert PUBLISH_MINS[i..][1..] == PUBLISH_MINS[i + 1..];
        var later := HourTimes(cur, PUBLISH_MINS[i + 1..], start, now);
        var p := AtMinute(cur, m);
        if p >= start && p + DELAY <= now {
          Regrouped(times', [p], later);
          times' := times' + [p];
        } else {
          Unprefixed(later);
        }
      }
      Unsuffixed(times');
    }

    /** `generate_missing_publish_times(history)`. */
    method GenerateMissingPublishTimes(now: Instant) returns (times: seq<Instant>)
      ensures times == MissingTimes(history, now)
      ensures forall x :: x in times <==>
        Published(x) && RecoverStart(history.lastDownload, now) <= x && x + DELAY <= now
      ensures Ascending(times)
    {
      var parsed := ParseIso(history.lastDownload);
      var last := if parsed.Some? then parsed.value else now - DAY;
      var start := if last < now - RECOVER_SPAN then now - RECOVER_SPAN else last;
      assert start == RecoverStart(history.lastDownload, now);
      times := HourLoop(AtMinute(start, 0), start, now);
      forall x {
        MissingTimesFacts(history, now, x);
      }
    }

    /** The `while` loop of `generate_missing_publish_times` from the hour `cur`. */
    method HourLoop(first: Instant, start: Instant, now: Instant) returns (times: seq<Instant>)
      ensures times == PublishTimes(first, start, now)
    {
      PublishMinutes();
      var cur := first;
      times := [];
      Unprefixed(PublishTimes(first, start, now));
      while cur <= now
        invariant times + PublishTimes(cur, start, now) == PublishTimes(first, start, now)
        decreases now - cur
      {
        var pass := HourPass(cur, start, now, []);
        ghost var rest := PublishTimes(cur + HOUR, start, now);
        Unprefixed(HourTimes(cur, PUBLISH_MINS, start, now));
        PublishTimesStep(cur, start, now, pass, rest);
        Regrouped(times, pass, rest);
        times := times + pass;
        cur := cur + HOUR;
      }
      Unsuffixed(times);
    }

    /** One pass of the `for` loop of `execute_recover_download`: whether
        Ctrl-C ended it. */
    method RecoverTask(t: Task, n: Now) returns (cancelled: bool)
      modifies this, host
      ensures (cancelled, State()) == Step(old(State()), t, n)
    {
      if t.key in history.downloaded {
        return false;
      }
      if host.Exists(t.path) {
        AddDownloadHistory(t.key, n);
        return false;
      }
      var verdict, _ := DownloadFile(t, n);
      if verdict == Cancelled {
        return true;
      }
      if verdict == Failed {
        failed := failed[t.key := n.at];
      }
      cancelled := false;
    }

    /** `execute_recover_download(history)`: whether Ctrl-C ended it. */
    method ExecuteRecoverDownload(n: Now) returns (cancelled: bool)
      modifies this, host
      ensures (cancelled, State()) == Recover(old(State()), n)
    {
      var times := GenerateMissingPublishTimes(n.at);
      cancelled := RecoverAll(times, n);
    }

    /** The `for` loop of `execute_recover_download` over the publish times,
        building each time's job as it goes. */
    method RecoverAll(times: seq<Instant>, n: Now) returns (cancelled: bool)
      modifies this, host
      ensures (cancelled, State()) == RecoverTasks(old(State()), Tasks(times), n)
    {
      ghost var tasks := Tasks(times);
      ghost var r := RecoverTasks(State(), tasks, n);
      for i := 0 to |times|
        invariant r == RecoverTasks(State(), tasks[i..], n)
      {
        assert tasks[i..][1..] == tasks[i + 1..];
        assert tasks[i] == Job(times[i]);
        var pt := times[i];
        var t := Task(Url(pt), SavePath(pt), Iso(pt));
        cancelled := RecoverTask(t, n);
        if cancelled {
          return;
        }
      }
      cancelled := false;
    }

    /** One pass of the sweep loop, for failed key `key`: how the pass goes
        on, and the lists of keys to remove and (as a ghost) downloaded. */
    method RetryKey(key: string, n: Now, removed: seq<string>, ghost retried: seq<string>)
      returns (flow: Flow, removed': seq<string>, ghost retried': seq<string>)
      modifies this, host
      ensures Sweep(flow, State(), removed', retried') == SweepStep(old(State()), key, n, removed, retried)
    {
      flow, removed', retried' := Onward, removed, retried;
      if !(key in failed && n.at - failed[key] >= FAILED_RETRY_DELAY) {
        return;
      }
      var parsed := ParseIso(key);
      if parsed.None? {
        flow := Crashed;
        return;
      }
      var t := Retry(key, parsed.value);
      if host.Exists(t.path) {
        AddDownloadHistory(key, n);
        removed' := removed + [key];
        return;
      }
      var verdict, _ := DownloadFile(t, n);
      retried' := retried + [key];
      if verdict == Cancelled {
        flow := Stopped;
        return;
      }
      removed' := removed + [key];
    }

    /** The `for` loop over `tasks_to_remove`. */
    method Forget(removed: seq<string>)
      modifies this
      ensures failed == old(failed) - (set k | k in removed)
      ensures history == old(history) && saved == old(saved)
    {
      for j := 0 to |removed|
        invariant forall k :: k in failed <==> k in old(failed) && k !in removed[..j]
        invariant forall k :: k in failed ==> failed[k] == old(failed)[k]
        invariant history == old(history) && saved == old(saved)
      {
        assert removed[..j + 1] == removed[..j] + [removed[j]];
        failed := failed - {removed[j]};
      }
      assert removed[..|removed|] == removed;
    }

    /** The sweep of the main loop over the failed keys in iteration order
        `order`: how the pass goes on. */
    method RetryFailed(order: seq<string>, n: Now) returns (flow: Flow)
      modifies this, host
      ensures var r := RetrySweep(old(State()), order, n); flow == r.flow && State() == r.engine
    {
      ghost var s := SweepKeys(State(), order, n, [], []);
      var removed: seq<string> := [];
      ghost var retried: seq<string> := [];
      for i := 0 to |order|
        invariant s == SweepKeys(State(), order[i..], n, removed, retried)
      {
        assert order[i..][1..] == order[i + 1..];
        flow, removed, retried := RetryKey(order[i], n, removed, retried);
        if flow != Onward {
          return;
        }
      }
      assert s == Sweep(Onward, State(), removed, retried);
      Forget(removed);
      flow := Onward;
    }

    /** The real-time step for the publish instant `target`: whether Ctrl-C
        ended it. */
    method RealTimeStep(target: Option<Instant>, n: Now) returns (cancelled: bool)
      modifies this, host
      ensures (cancelled, State()) == RealTime(old(State()), target, n)
    {
      if target.None? {
        return false;
      }
      var pt := target.value;
      var t := Task(Url(pt), SavePath(pt), Iso(pt));
      if t.key in history.downloaded || t.key in failed {
        return false;
      }
      if host.Exists(t.path) {
        AddDownloadHistory(t.key, n);
        return false;
      }
      var verdict, _ := DownloadFile(t, n);
      if verdict == Cancelled {
        return true;
      }
      if verdict == Failed {
        failed := failed[t.key := n.at];
      }
      cancelled := false;
    }

    /** One pass of the main loop for the clock reading `n`; `order` is the
        iteration order of the failed-task map. */
    method Cycle(order: seq<string>, n: Now) returns (flow: Flow)
      modifies this, host
      ensures (flow, State()) == Pass(old(State()), order, n, CheckDownloadWindow(n.at))
    {
      flow := Onward;
      if failed != map[] {
        flow := RetryFailed(order, n);
        if flow != Onward {
          return;
        }
      }
      var pt := CheckWindow(n.at);
      var cancelled := RealTimeStep(pt, n);
      flow := if cancelled then Stopped else Onward;
    }

    /** The same pass with the corrected window check. */
    method FixedCycle(order: seq<string>, n: Now) returns (flow: Flow)
      modifies this, host
      ensures (flow, State()) == Pass(old(State()), order, n, FixedDownloadWindow(n.at))
    {
      flow := Onward;
      if failed != map[] {
        flow := RetryFailed(order, n);
        if flow != Onward {
          return;
        }
      }
      var pt := FixedWindow(n.at);
      var cancelled := RealTimeStep(pt, n);
      flow := if cancelled then Stopped else Onward;
    }
  }
}
