/** The FY-4B downloader process: the state one run of the script keeps and
    the loops that update it, each proved to compute the function of the same
    name in module Fy4b. */
module Fy4bProcess {
  import opened Wrappers
  import opened Clock
  import opened Host
  import opened Executor
  import opened Ledger
  import opened Fy4b
  import opened Seqs

  // The downloader process.

  /** The state of one run of the script: the machine it talks to, the
      in-memory download history, the history file as this process last wrote
      it, the failed-task map and the time of the next real-time check. */
  class Downloader {
    const host: Machine
    var history: History
    var saved: Option<History>
    var failed: map<string, Instant>
    var nextCheck: Instant

    /** The downloader's state as an engine value. */
    function State(): Engine
      reads this, host
    {
      Engine(host.files, host.replies, history, saved, failed)
    }

    /** Start-up: `load_download_history()`, an empty failed-task map, and the
        first real-time check due at once. */
    constructor (machine: Machine, stored: Stored, now: Instant)
      ensures host == machine && history == Loaded(stored, now).0
      ensures saved == (if Loaded(stored, now).1 then Some(history) else None)
      ensures failed == map[] && nextCheck == now
    {
      host := machine;
      var h := Loaded(stored, now);
      history := h.0;
      saved := if h.1 then Some(h.0) else None;
      failed := map[];
      nextCheck := now;
    }

    /** `add_download_history(time_stamp, history)`. */
    method AddDownloadHistory(key: string, n: Now)
      modifies this
      ensures State() == Record(old(State()), key, n) && nextCheck == old(nextCheck)
    {
      var downloaded := history.downloaded;
      if key !in downloaded {
        downloaded := downloaded + [key];
        downloaded := Retained(downloaded, n.cutoff);
      }
      history := History(downloaded, n.iso, n.iso);
      saved := Some(history);
    }

    /** `is_downloaded(time_stamp, history)`. */
    method IsDownloaded(key: string, n: Now) returns (seen: bool)
      modifies this, host
      ensures (seen, State()) == Seen(old(State()), key, n) && nextCheck == old(nextCheck)
      ensures host.requested == old(host.requested)
    {
      var path := SavePath(key);
      if host.Exists(path) {
        var valid := IsFileValid(host, path, RULE);
        if valid {
          AddDownloadHistory(key, n);
          return true;
        }
      }
      seen := key in history.downloaded;
    }

    /** `download_file(url, time_stamp, history)`: the verdict, and the pauses
        it slept between attempts. */
    method DownloadFile(url: string, key: string, n: Now) returns (verdict: Verdict, pauses: seq<nat>)
      modifies this, host
      ensures var d := Fetching(old(State()), key, n);
        verdict == d.verdict && State() == d.engine && host.requested == old(host.requested) + Repeat(url, d.gets)
      ensures nextCheck == old(nextCheck)
    {
      var path := SavePath(key);
      if host.Exists(path) {
        var valid := IsFileValid(host, path, RULE);
        if valid {
          AddDownloadHistory(key, n);
          return Fetched, [];
        }
      }
      verdict, pauses := Fetch(host, url, path, RULE);
      if verdict == Fetched {
        AddDownloadHistory(key, n);
      }
    }

    /** One pass of the scan loop of `generate_missing_images` at grid point
        `pt`: the task list grows by the task of `pt` when it is missing.  The
        ghost `found` lists the missing points so far, and `m` is the whole
        scan, which `found` and the scan from the next point make up. */
    method ScanSlot(pt: Instant, threshold: Instant, n: Now, tasks: seq<Task>, ghost found: seq<Instant>, ghost m: (seq<Instant>, Engine))
      returns (tasks': seq<Task>, ghost found': seq<Instant>)
      requires pt <= threshold
      requires ScanSoFar(m, found, State(), pt, threshold, n, tasks)
      modifies this, host
      ensures ScanSoFar(m, found', State(), pt + STEP, threshold, n, tasks')
      ensures nextCheck == old(nextCheck)
    {
      var task := UrlByTime(pt);
      var seen := IsDownloaded(task.key, n);
      ghost var next := ScanFrom(State(), pt + STEP, threshold, n, Stamp12);
      if seen {
        tasks', found' := tasks, found;
      } else {
        Collected(m.0, found, pt, next.0, tasks, task);
        tasks', found' := tasks + [task], found + [pt];
      }
    }

    /** `generate_missing_images(history)`. */
    method GenerateMissingImages(n: Now) returns (tasks: seq<Task>)
      modifies this, host
      ensures var m := Missing(old(State()), n); tasks == Tasks(m.0) && State() == m.1
      ensures nextCheck == old(nextCheck)
    {
      var threshold := n.at - DOWNLOAD_OFFSET;
      var start := ScanStart(history.lastCheck, n.at);
      var first := FirstSlot(start);
      MissingFrom(State(), n, first, threshold);
      tasks := ScanSlots(first, threshold, n);
    }

    /** The `while` loop of `generate_missing_images`, from grid point `first`. */
    method ScanSlots(first: Instant, threshold: Instant, n: Now) returns (tasks: seq<Task>)
      modifies this, host
      ensures var m := ScanFrom(old(State()), first, threshold, n, Stamp12); tasks == Tasks(m.0) && State() == m.1
      ensures nextCheck == old(nextCheck)
    {
      ghost var m := ScanFrom(State(), first, threshold, n, Stamp12);
      var pt := first;
      ghost var found: seq<Instant> := [];
      tasks := [];
      Unprefixed(m.0);
      while pt <= threshold
        invariant ScanSoFar(m, found, State(), pt, threshold, n, tasks)
        invariant nextCheck == old(nextCheck)
      {
        tasks, found := ScanSlot(pt, threshold, n, tasks, found, m);
        pt := pt + STEP;
      }
      ScanEnded(m, found, State(), pt, threshold, n, tasks);
    }

    /** One pass of the `for` loop of `execute_recover_download`: whether
        Ctrl-C ended it. */
    method RecoverTask(t: Task, n: Now) returns (cancelled: bool)
      modifies this, host
      ensures (cancelled, State()) == Step(old(State()), t, n) && nextCheck == old(nextCheck)
    {
      if t.key in failed {
        return false;
      }
      var verdict, _ := DownloadFile(t.url, t.key, n);
      if verdict == Cancelled {
        return true;
      }
      if verdict == Failed {
        failed := failed[t.key := n.at];
      }
      cancelled := false;
    }

    /** `execute_recover_download(history)`: whether Ctrl-C ended it. */
    method ExecuteRecoverDownload(n: Now) returns (cancelled: bool)
      modifies this, host
      ensures (cancelled, State()) == Recover(old(State()), n) && nextCheck == old(nextCheck)
    {
      var tasks := GenerateMissingImages(n);
      cancelled := RecoverAll(tasks, n);
    }

    /** The `for` loop of `execute_recover_download` over `tasks`. */
    method RecoverAll(tasks: seq<Task>, n: Now) returns (cancelled: bool)
      modifies this, host
      ensures (cancelled, State()) == RecoverTasks(old(State()), tasks, n) && nextCheck == old(nextCheck)
    {
      ghost var r := RecoverTasks(State(), tasks, n);
      for i := 0 to |tasks|
        invariant r == RecoverTasks(State(), tasks[i..], n)
        invariant nextCheck == old(nextCheck)
      {
        assert tasks[i..][1..] == tasks[i + 1..];
        cancelled := RecoverTask(tasks[i], n);
        if cancelled {
          return;
        }
      }
      cancelled := false;
    }

    /** One pass of the sweep loop, for failed key `key`: whether Ctrl-C ended
        it, and the lists of keys to remove and (as a ghost) retried. */
    method RetryKey(key: string, n: Now, removed: seq<string>, ghost retried: seq<string>)
      returns (cancelled: bool, removed': seq<string>, ghost retried': seq<string>)
      modifies this, host
      ensures Sweep(cancelled, State(), removed', retried') == SweepStep(old(State()), key, n, removed, retried)
      ensures nextCheck == old(nextCheck)
    {
      cancelled, removed', retried' := false, removed, retried;
      if !(key in failed && n.at - failed[key] >= FAILED_RETRY_DELAY) {
        return;
      }
      var target := RetryTarget(key, n.at);
      if target.None? {
        removed' := removed + [key];
        return;
      }
      var url := UrlAt(target.value);
      var verdict, _ := DownloadFile(url, key, n);
      retried' := retried + [key];
      if verdict == Cancelled {
        cancelled := true;
        return;
      }
      removed' := removed + [key];
    }

    /** The `for` loop over `tasks_to_remove`. */
    method Forget(removed: seq<string>)
      modifies this
      ensures failed == old(failed) - (set k | k in removed)
      ensures history == old(history) && saved == old(saved) && nextCheck == old(nextCheck)
    {
      for j := 0 to |removed|
        invariant forall k :: k in failed <==> k in old(failed) && k !in removed[..j]
        invariant forall k :: k in failed ==> failed[k] == old(failed)[k]
        invariant history == old(history) && saved == old(saved) && nextCheck == old(nextCheck)
      {
        assert removed[..j + 1] == removed[..j] + [removed[j]];
        failed := failed - {removed[j]};
      }
      assert removed[..|removed|] == removed;
    }

    /** The sweep of the main loop over the failed keys in iteration order
        `order`: whether Ctrl-C ended it. */
    method RetryFailed(order: seq<string>, n: Now) returns (cancelled: bool)
      modifies this, host
      ensures var r := RetrySweep(old(State()), order, n); cancelled == r.cancelled && State() == r.engine
      ensures nextCheck == old(nextCheck)
    {
      ghost var s := SweepKeys(State(), order, n, [], []);
      var removed: seq<string> := [];
      ghost var retried: seq<string> := [];
      for i := 0 to |order|
        invariant s == SweepKeys(State(), order[i..], n, removed, retried)
        invariant nextCheck == old(nextCheck)
      {
        assert order[i..][1..] == order[i + 1..];
        SweepKeysStep(State(), order[i..], n, removed, retried);
        cancelled, removed, retried := RetryKey(order[i], n, removed, retried);
        if cancelled {
          return;
        }
      }
      assert s == Sweep(false, State(), removed, retried);
      Forget(removed);
      cancelled := false;
    }

    /** The real-time check of the main loop: whether Ctrl-C ended it. */
    method RealTimeCheck(n: Now) returns (cancelled: bool)
      modifies this, host
      ensures var r := RealTime(old(State()), n); cancelled == r.0 && State() == r.1
      ensures nextCheck == if cancelled then old(nextCheck) else n.at + CHECK_INTERVAL
    {
      var pt := RealTimeTarget(n.at);
      if Earliest(n.at) <= pt <= n.at - DOWNLOAD_OFFSET {
        var key, url := Stamp12(pt), UrlAt(pt);
        var seen := IsDownloaded(key, n);
        if !seen {
          var verdict, _ := DownloadFile(url, key, n);
          if verdict == Cancelled {
            return true;
          }
          if verdict == Failed {
            failed := failed[key := n.at];
          }
        }
      }
      nextCheck := n.at + CHECK_INTERVAL;
      cancelled := false;
    }

    /** One pass of the main loop for the clock reading `n`; `order` is the
        iteration order of the failed-task map. */
    method Cycle(order: seq<string>, n: Now) returns (cancelled: bool)
      modifies this, host
      ensures var r := Pass(old(State()), old(nextCheck), order, n);
        cancelled == r.0 && State() == r.1 && nextCheck == r.2
    {
      if failed != map[] {
        cancelled := RetryFailed(order, n);
        if cancelled {
          return;
        }
      }
      if n.at >= nextCheck {
        cancelled := RealTimeCheck(n);
      } else {
        cancelled := false;
      }
    }
  }

  /** `generate_missing_images` scans from the first grid point of the scan start. */
  lemma MissingFrom(e: Engine, n: Now, first: Instant, threshold: Instant)
    requires first == FirstSlot(ScanStart(e.history.lastCheck, n.at)) && threshold == n.at - DOWNLOAD_OFFSET
    ensures Missing(e, n) == ScanFrom(e, first, threshold, n, Stamp12)
  {
    ScanGridAt(e.history.lastCheck, n.at, first, threshold);
    MissingAt(e, n, first, threshold);
    ScanFromGrid(e, first, threshold, n);
  }

  /** The invariant of the scan loop at grid point `pt`: `found` and the scan
      from `pt` make up the whole scan `m`, and `tasks` are the tasks of `found`. */
  ghost predicate ScanSoFar(m: (seq<Instant>, Engine), found: seq<Instant>, e: Engine, pt: Instant, threshold: Instant, n: Now, tasks: seq<Task>) {
    var r := ScanFrom(e, pt, threshold, n, Stamp12); m.0 == found + r.0 && m.1 == r.1 && tasks == Tasks(found)
  }

  /** Past the threshold the scan adds nothing and changes nothing. */
  lemma ScanEnded(m: (seq<Instant>, Engine), found: seq<Instant>, e: Engine, pt: Instant, threshold: Instant, n: Now, tasks: seq<Task>)
    requires pt > threshold
    requires ScanSoFar(m, found, e, pt, threshold, n, tasks)
    ensures m.0 == found && m.1 == e
  {
    Unsuffixed(found);
  }

  /** Appending the task of a missing grid point keeps the scan's bookkeeping. */
  lemma Collected(all: seq<Instant>, found: seq<Instant>, pt: Instant, later: seq<Instant>, tasks: seq<Task>, task: Task)
    requires all == found + ([pt] + later) && tasks == Tasks(found) && task == UrlByTime(pt)
    ensures all == (found + [pt]) + later && tasks + [task] == Tasks(found + [pt])
  {
    TasksSnoc(found, pt);
    Regrouped(found, [pt], later);
  }

  lemma TasksSnoc(slots: seq<Instant>, pt: Instant)
    ensures Tasks(slots + [pt]) == Tasks(slots) + [UrlByTime(pt)]
  {
    MappedSnoc(UrlByTime, slots, pt);
  }
}
