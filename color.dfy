/** The GK-2A true-colour downloader (`GK2A_Color_downloader.py`).

    Images are published at minutes 10, 30 and 50 of every hour and are due
    twenty minutes later.  A publish instant is keyed by its
    `%Y-%m-%d %H:%M:%S` text.  At start-up a backfill visits every publish
    instant from the last download (at most thirty days back) whose download
    time has passed; afterwards a main loop retries failed keys once after ten
    minutes and downloads the publish instant whose download window the clock
    is in.

    As for the FY-4B downloader, the state of one process is an `Engine`
    value, the functions below define each step on it, and the `Downloader`
    class of `ColorProcess` performs the same steps on the machine.
 */
module Color {
  import opened Wrappers
  import opened Decimal
  import opened Clock
  import opened Host
  import opened Executor
  import opened Ledger
  import opened Heartbeat
  import opened Seqs
  import opened Gk2a

  // Configuration.

  const PUBLISH_MINS: seq<int> := [10, 30, 50]
  const DOWNLOAD_DELAY_MINS: int := 20
  /** The delay between publication and download, in seconds. */
  const DELAY: int := DOWNLOAD_DELAY_MINS * MINUTE
  const RULE: FileRule := FileRule(1024 * 100, [0x89, 0x50, 0x4E, 0x47])
  const MAX_RECOVER_DAYS: int := 30
  const RECOVER_SPAN: int := MAX_RECOVER_DAYS * DAY
  const FAILED_RETRY_DELAY: int := 600
  /** Half the width of a download window, in seconds. */
  const WINDOW: int := 60
  const SAVE_BASE_DIR: string := "/DATA/Gallery/GK-2A/Color"
  const PRODUCT: string := "gk2a_ami_le1b_rgb-true_fd010ge_"

  /** The instants at which every text this module prints is well formed:
      thirty days back from `now` is still inside the era. */
  predicate Era(now: Instant) {
    RECOVER_SPAN <= now < ERA_END
  }

  /** Minutes of an hour, each in `[0, 60)`. */
  predicate MinuteList(mins: seq<int>) {
    forall i :: 0 <= i < |mins| ==> 0 <= mins[i] < 60
  }

  /** A publish instant: second zero at one of the publish minutes. */
  predicate Published(t: Instant) {
    SecondOf(t) == 0 && MinuteOf(t) in PUBLISH_MINS
  }

  // Names.

  /** A download job: the image URL, its save path and its history key. */
  datatype Task = Task(url: string, path: Path, key: string)

  function Url(pt: Instant): string {
    ImageUrl(PRODUCT, pt)
  }

  /** `generate_url_and_save_path`: the file is named after the last segment
      of its URL. */
  function SavePath(pt: Instant): Path {
    SAVE_BASE_DIR + "/" + Basename(Url(pt))
  }

  /** The job of publish instant `pt`, keyed `pt.strftime("%Y-%m-%d %H:%M:%S")`. */
  function Job(pt: Instant): Task {
    Task(Url(pt), SavePath(pt), Iso(pt))
  }

  /** The save path is the image name in the save directory, and the URL's
      directories repeat the leading digits of the stamp in that name. */
  lemma UrlAndPath(pt: Instant)
    ensures SavePath(pt) == SAVE_BASE_DIR + "/" + ImageName(PRODUCT, pt)
    ensures Url(pt) == KMA_HEAD + Folder(pt) + ImageName(PRODUCT, pt)
    ensures var s := Stamp12(pt); Folder(pt) == s[..6] + "/" + s[6..8] + "/" + s[8..10] + "/"
  {
    assert '/' !in PRODUCT;
    UrlBasename(PRODUCT, pt);
    FolderOfStamp(pt);
  }

  /** Publish instants of different minutes are saved under different paths. */
  lemma SavePathInjective(a: Instant, b: Instant)
    requires InEra(a) && InEra(b) && SavePath(a) == SavePath(b)
    ensures a / MINUTE == b / MINUTE
  {
    UrlAndPath(a);
    UrlAndPath(b);
    var d := SAVE_BASE_DIR + "/";
    AppendInjective(d, d, ImageName(PRODUCT, a), ImageName(PRODUCT, b));
    ImageNameInjective(PRODUCT, a, b);
    Stamp12Order(a, b);
  }

  // The ledger state.

  /** The fields of the history document.  `lastCheck` is a `last_check_time`
      an older document may carry: it is read back and written out unchanged. */
  datatype History = History(downloaded: seq<string>, lastDownload: string, lastCheck: Option<string>)

  /** Everything the engine reads and writes. */
  datatype Engine = Engine(
    files: Files,
    replies: seq<Reply>,
    history: History,
    saved: Option<History>,     // the history file as last written, when known
    failed: map<string, Instant>)

  /** A clock reading: the instant, its text, and the text thirty days back. */
  function ReadClock(now: Instant): Now {
    Now(now, Iso(now), Iso(now - RECOVER_SPAN))
  }

  /** The default history of `load_download_history`: nothing downloaded, the
      last download a day back. */
  function DefaultHistory(now: Instant): History {
    History([], Iso(now - DAY), None)
  }

  /** `load_download_history`: the history, and whether the default was saved. */
  function Loaded(stored: Stored, now: Instant): (History, bool) {
    match stored
    case Doc(d, l, c) => (History(d.GetOr([]), l.GetOr(Iso(now - DAY)), c), false)
    case _ => (DefaultHistory(now), true)
  }

  /** The document `save_download_history` writes for `h`. */
  function Saved(h: History): Stored {
    Doc(Some(h.downloaded), Some(h.lastDownload), h.lastCheck)
  }

  /** Loading what was saved gives the same history back and saves nothing; a
      missing or unreadable file gives the default, which is saved; a document
      missing a key gets that key's default. */
  lemma LoadSaved(h: History, now: Instant)
    ensures Loaded(Saved(h), now) == (h, false)
    ensures Loaded(Absent, now) == Loaded(Unreadable, now) == (DefaultHistory(now), true)
    ensures Loaded(Doc(None, None, None), now) == (DefaultHistory(now), false)
    ensures DefaultHistory(now).downloaded == [] && DefaultHistory(now).lastCheck == None
    ensures InEra(now - DAY) ==> LastDownload(DefaultHistory(now).lastDownload, now) == now - DAY
  {
    if InEra(now - DAY) {
      ParseIsoIso(now - DAY);
    }
  }

  /** `add_download_history`: records `key`, stamps the last download with the
      clock reading and saves the history file. */
  function Record(e: Engine, key: string, n: Now): (r: Engine)
    ensures r.files == e.files && r.replies == e.replies && r.failed == e.failed
    ensures r.saved == Some(r.history)
    ensures r.history.lastDownload == n.iso && r.history.lastCheck == e.history.lastCheck
    ensures key in e.history.downloaded ==> r.history.downloaded == e.history.downloaded
    ensures key !in e.history.downloaded ==>
      forall x :: x in r.history.downloaded <==> (x in e.history.downloaded || x == key) && LexLe(n.cutoff, x)
    ensures NoDup(e.history.downloaded) ==> NoDup(r.history.downloaded)
  {
    RecordedNoDup(e.history.downloaded, key, n.cutoff);
    var h := e.history.(downloaded := Recorded(e.history.downloaded, key, n.cutoff), lastDownload := n.iso);
    e.(history := h, saved := Some(h))
  }

  /** The outcome of one `download_file` call, with the number of GETs it made. */
  datatype Download = Download(verdict: Verdict, engine: Engine, gets: nat)

  /** `download_file(url, save_path, pt, pt_str, history)`: the retry loop,
      recording the key on success.  There is no check of the file before the
      first GET. */
  function Fetching(e: Engine, t: Task, n: Now): Download {
    var r := Attempts(e.files, e.replies, t.path, RULE, 0);
    var e1 := e.(files := r.files, replies := r.replies);
    Download(r.verdict, if r.verdict == Fetched then Record(e1, t.key, n) else e1, r.attempts)
  }

  /** What one `download_file` call promises: one to three GETs, three when it
      fails.  A success leaves a passing file at the save path and a saved
      history stamped with the clock reading.  On failure or Ctrl-C the history
      is unchanged, and a Ctrl-C at the GET or in the stream leaves no file
      below the minimum size.  Only the
      save path changes on disk, and the failed-task map is never touched. */
  lemma FetchingFacts(e: Engine, t: Task, n: Now)
    ensures var d := Fetching(e, t, n); var path := t.path; var r := d.engine;
      1 <= d.gets <= MAX_RETRIES &&
      r.failed == e.failed && r.files - {path} == e.files - {path} &&
      (d.verdict == Fetched ==>
         path in r.files && Passes(r.files[path], RULE) &&
         r.saved == Some(r.history) && r.history.lastDownload == n.iso &&
         (LexLe(n.cutoff, t.key) ==> t.key in r.history.downloaded)) &&
      (d.verdict == Failed ==> d.gets == MAX_RETRIES && r.history == e.history && r.saved == e.saved) &&
      (d.verdict == Cancelled ==>
         r.history == e.history && (path !in r.files || |r.files[path]| >= RULE.minSize)) &&
      (forall k :: k != t.key && LexLe(n.cutoff, k) ==>
         (k in r.history.downloaded <==> k in e.history.downloaded)) &&
      (forall k :: k in e.history.downloaded && LexLe(n.cutoff, k) ==> k in r.history.downloaded)
  {
    var path := t.path;
    AttemptsCount(e.files, e.replies, path, RULE, 0);
    AttemptsFailed(e.files, e.replies, path, RULE, 0);
    AttemptsFrame(e.files, e.replies, path, RULE, 0);
    AttemptsFetched(e.files, e.replies, path, RULE, 0);
    AttemptsCancelled(e.files, e.replies, path, RULE, 0);
  }

  // The backfill list: `generate_missing_publish_times`.

  /** `last_dt`: the last download when it parses, otherwise a day back. */
  function LastDownload(lastDownload: string, now: Instant): Instant {
    match ParseIso(lastDownload)
    case Some(t) => t
    case None => now - DAY
  }

  /** `start_dt`: the last download, but no earlier than thirty days back. */
  function RecoverStart(lastDownload: string, now: Instant): (start: Instant)
    ensures start >= now - RECOVER_SPAN
    ensures ParseIso(lastDownload).None? ==> start == now - DAY
    ensures ParseIso(lastDownload).Some? && ParseIso(lastDownload).value >= now - RECOVER_SPAN ==>
      start == ParseIso(lastDownload).value
    ensures ParseIso(lastDownload).Some? && ParseIso(lastDownload).value < now - RECOVER_SPAN ==>
      start == now - RECOVER_SPAN
  {
    var last := LastDownload(lastDownload, now);
    if last < now - RECOVER_SPAN then now - RECOVER_SPAN else last
  }

  /** The `for` loop over `mins` inside the hour of `cur`: each publish instant
      of that hour from `start` on whose download time has passed. */
  function HourTimes(cur: Instant, mins: seq<int>, start: Instant, now: Instant): seq<Instant>
    requires MinuteList(mins)
    decreases |mins|
  {
    if mins == [] then []
    else
      var p := AtMinute(cur, mins[0]);
      (if p >= start && p + DELAY <= now then [p] else []) + HourTimes(cur, mins[1..], start, now)
  }

  /** The `while` loop from the hour `cur` while not past `now`. */
  function PublishTimes(cur: Instant, start: Instant, now: Instant): seq<Instant>
    decreases now - cur
  {
    if cur > now then []
    else HourTimes(cur, PUBLISH_MINS, start, now) + PublishTimes(cur + HOUR, start, now)
  }

  /** One turn of the `while` loop: the hour's times, then the later hours'. */
  lemma PublishTimesStep(cur: Instant, start: Instant, now: Instant, pass: seq<Instant>, rest: seq<Instant>)
    requires cur <= now && pass == HourTimes(cur, PUBLISH_MINS, start, now)
    requires rest == PublishTimes(cur + HOUR, start, now)
    ensures PublishTimes(cur, start, now) == pass + rest
  {
  }

  /** `generate_missing_publish_times(history)`: the loops start at the hour of
      `start_dt`.  The final `sorted(set(...))` is the identity on the
      ascending list the loops build (see `MissingTimesFacts`). */
  function MissingTimes(h: History, now: Instant): seq<Instant> {
    var start := RecoverStart(h.lastDownload, now);
    PublishTimes(AtMinute(start, 0), start, now)
  }

  /** The instants of one hour's pass are exactly the listed minutes of that
      hour from `start` on that are due by `now`. */
  lemma {:induction false} HourTimesMembers(cur: Instant, mins: seq<int>, start: Instant, now: Instant, x: Instant)
    requires MinuteList(mins)
    ensures x in HourTimes(cur, mins, start, now) <==>
      x / HOUR == cur / HOUR && SecondOf(x) == 0 && MinuteOf(x) in mins && start <= x && x + DELAY <= now
    decreases |mins|
  {
    if mins != [] {
      var m := mins[0];
      AtMinuteSlot(cur, m);
      SlotFields(cur / HOUR, m);
      HourOffset(x);
      HourTimesMembers(cur, mins[1..], start, now, x);
      assert forall k :: k in mins <==> k == m || k in mins[1..];
    }
  }

  /** Over ascending minutes one hour's pass is ascending. */
  lemma {:induction false} HourTimesAscending(cur: Instant, mins: seq<int>, start: Instant, now: Instant)
    requires MinuteList(mins) && Ascending(mins)
    ensures Ascending(HourTimes(cur, mins, start, now))
    decreases |mins|
  {
    if mins != [] {
      var m := mins[0];
      var rest := HourTimes(cur, mins[1..], start, now);
      assert Ascending(mins[1..]);
      HourTimesAscending(cur, mins[1..], start, now);
      var p := AtMinute(cur, m);
      if p >= start && p + DELAY <= now {
        AtMinuteSlot(cur, m);
        forall y | y in rest ensures p < y {
          HourTimesMembers(cur, mins[1..], start, now, y);
          HourOffset(y);
          var j :| 0 <= j < |mins[1..]| && mins[1..][j] == MinuteOf(y);
          assert mins[0] < mins[j + 1];
        }
        AscendingCons(p, rest);
      } else {
        Unprefixed(rest);
      }
    }
  }

  lemma PublishMinutes()
    ensures MinuteList(PUBLISH_MINS) && Ascending(PUBLISH_MINS)
  {
  }

  /** The next hour of an hour boundary is an hour boundary. */
  lemma NextHour(cur: Instant)
    requires cur % HOUR == 0
    ensures (cur + HOUR) % HOUR == 0 && (cur + HOUR) / HOUR == cur / HOUR + 1
  {
    DivModUnique(cur + HOUR, HOUR, cur / HOUR + 1, 0);
  }

  /** Inside the hour starting at the boundary `cur` are the instants with
      the hour number of `cur`. */
  lemma WithinHour(cur: Instant, x: Instant)
    requires cur % HOUR == 0
    ensures x / HOUR == cur / HOUR <==> cur <= x < cur + HOUR
  {
    DivModUnique(cur, HOUR, cur / HOUR, 0);
  }

  /** The instants the `while` loop collects from the boundary `cur` on. */
  lemma {:induction false} PublishTimesMembers(cur: Instant, start: Instant, now: Instant, x: Instant)
    requires cur % HOUR == 0
    ensures x in PublishTimes(cur, start, now) <==> cur <= x && Published(x) && start <= x && x + DELAY <= now
    decreases now - cur
  {
    if cur <= now {
      PublishMinutes();
      HourTimesMembers(cur, PUBLISH_MINS, start, now, x);
      NextHour(cur);
      PublishTimesMembers(cur + HOUR, start, now, x);
      WithinHour(cur, x);
    }
  }

  lemma {:induction false} PublishTimesAscending(cur: Instant, start: Instant, now: Instant)
    requires cur % HOUR == 0
    ensures Ascending(PublishTimes(cur, start, now))
    decreases now - cur
  {
    if cur <= now {
      PublishMinutes();
      var a := HourTimes(cur, PUBLISH_MINS, start, now);
      var b := PublishTimes(cur + HOUR, start, now);
      HourTimesAscending(cur, PUBLISH_MINS, start, now);
      NextHour(cur);
      PublishTimesAscending(cur + HOUR, start, now);
      forall x, y | x in a && y in b ensures x < y {
        HourTimesMembers(cur, PUBLISH_MINS, start, now, x);
        WithinHour(cur, x);
        PublishTimesMembers(cur + HOUR, start, now, y);
      }
      AscendingConcat(a, b);
    }
  }

  /** The hour boundary the loops start from. */
  lemma HourStart(t: Instant)
    ensures var c := AtMinute(t, 0); c % HOUR == 0 && c <= t
  {
    var c := AtMinute(t, 0);
    DivModUnique(c, HOUR, t / HOUR, 0);
  }

  /** `generate_missing_publish_times` lists, in ascending order and so once
      each, exactly the publish instants from `start_dt` on whose download
      time has passed.  Being ascending it is its own `sorted(set(...))`:
      any ascending list with the same elements is this list. */
  lemma MissingTimesFacts(h: History, now: Instant, x: Instant)
    ensures var m := MissingTimes(h, now); var start := RecoverStart(h.lastDownload, now);
      Ascending(m) &&
      (x in m <==> Published(x) && start <= x && x + DELAY <= now) &&
      (forall s :: Ascending(s) && (forall y :: y in s <==> y in m) ==> s == m)
  {
    var start := RecoverStart(h.lastDownload, now);
    var m := MissingTimes(h, now);
    HourStart(start);
    PublishTimesAscending(AtMinute(start, 0), start, now);
    PublishTimesMembers(AtMinute(start, 0), start, now, x);
    forall s | Ascending(s) && (forall y :: y in s <==> y in m) ensures s == m {
      AscendingUnique(s, m);
    }
  }

  // The backfill: `execute_recover_download`.

  /** The jobs of the missing publish instants. */
  function Tasks(times: seq<Instant>): (ts: seq<Task>)
    ensures |ts| == |times|
  {
    Mapped(Job, times)
  }

  /** One pass of the `for` loop: a recorded key is skipped; a file already at
      the save path counts as downloaded, whatever it holds, and is recorded;
      otherwise the job is downloaded and, on failure, entered in the
      failed-task map at the clock reading.  The flag says whether Ctrl-C
      ended it. */
  function Step(e: Engine, t: Task, n: Now): (bool, Engine) {
    if t.key in e.history.downloaded then (false, e)
    else if t.path in e.files then (false, Record(e, t.key, n))
    else
      var d := Fetching(e, t, n);
      if d.verdict == Cancelled then (true, d.engine)
      else if d.verdict == Fetched then (false, d.engine)
      else (false, d.engine.(failed := d.engine.failed[t.key := n.at]))
  }

  /** What one pass promises: unless interrupted, its key ends up recorded
      (when recent) or failed; no failed key is dropped, only this task's key
      may get a new failure time, the clock reading; a recent recorded key
      stays recorded. */
  lemma StepFacts(e: Engine, t: Task, n: Now)
    ensures var s := Step(e, t, n);
      (!s.0 ==> t.key in s.1.failed || t.key in e.history.downloaded ||
                (LexLe(n.cutoff, t.key) ==> t.key in s.1.history.downloaded)) &&
      (forall k :: k in e.failed ==> k in s.1.failed) &&
      (forall k :: k in s.1.failed ==>
         (k in e.failed && s.1.failed[k] == e.failed[k]) || (k == t.key && s.1.failed[k] == n.at)) &&
      (forall k :: LexLe(n.cutoff, k) && k in e.history.downloaded ==> k in s.1.history.downloaded) &&
      (t.key in e.history.downloaded ==> s == (false, e))
  {
    if t.key !in e.history.downloaded && t.path !in e.files {
      FetchingFacts(e, t, n);
    }
  }

  /** The `for` loop over the jobs: whether Ctrl-C ended it, and the state. */
  function RecoverTasks(e: Engine, tasks: seq<Task>, n: Now): (bool, Engine)
    decreases |tasks|
  {
    if tasks == [] then (false, e)
    else
      var s := Step(e, tasks[0], n);
      if s.0 then s else RecoverTasks(s.1, tasks[1..], n)
  }

  /** `execute_recover_download(history)`. */
  function Recover(e: Engine, n: Now): (bool, Engine) {
    RecoverTasks(e, Tasks(MissingTimes(e.history, n.at)), n)
  }

  /** The backfill never drops a failed key, and every failure time it sets is
      the clock reading, on the key of one of its jobs. */
  lemma {:induction false} RecoverFailed(e: Engine, tasks: seq<Task>, n: Now, k: string)
    ensures var r := RecoverTasks(e, tasks, n).1;
      (k in e.failed ==> k in r.failed) &&
      (k in r.failed ==>
         (k in e.failed && r.failed[k] == e.failed[k]) ||
         (r.failed[k] == n.at && exists i :: 0 <= i < |tasks| && tasks[i].key == k))
    decreases |tasks|
  {
    if tasks != [] {
      var s := Step(e, tasks[0], n);
      StepFacts(e, tasks[0], n);
      if !s.0 {
        RecoverFailed(s.1, tasks[1..], n, k);
        var r := RecoverTasks(s.1, tasks[1..], n).1;
        if k in r.failed && !(k in s.1.failed && r.failed[k] == s.1.failed[k]) {
          var i :| 0 <= i < |tasks[1..]| && tasks[1..][i].key == k;
          assert tasks[i + 1].key == k;
        }
      }
      if k in s.1.failed && !(k in e.failed && s.1.failed[k] == e.failed[k]) {
        assert tasks[0].key == k;
      }
    }
  }

  /** Whatever the backfill does, a recent recorded key stays recorded. */
  lemma {:induction false} RecoverKeeps(e: Engine, tasks: seq<Task>, n: Now, k: string)
    requires LexLe(n.cutoff, k) && k in e.history.downloaded
    ensures k in RecoverTasks(e, tasks, n).1.history.downloaded
    decreases |tasks|
  {
    if tasks != [] {
      var s := Step(e, tasks[0], n);
      StepFacts(e, tasks[0], n);
      if !s.0 {
        RecoverKeeps(s.1, tasks[1..], n, k);
      }
    }
  }

  /** After a loop that was not interrupted every recent job key is recorded
      or in the failed-task map. */
  lemma {:induction false} RecoverCovers(e: Engine, tasks: seq<Task>, n: Now, i: nat)
    requires i < |tasks| && LexLe(n.cutoff, tasks[i].key)
    ensures var r := RecoverTasks(e, tasks, n);
      !r.0 ==> tasks[i].key in r.1.failed || tasks[i].key in r.1.history.downloaded
    decreases |tasks|
  {
    var s := Step(e, tasks[0], n);
    StepFacts(e, tasks[0], n);
    if !s.0 {
      if i == 0 {
        var k := tasks[0].key;
        if k in s.1.failed {
          RecoverFailed(s.1, tasks[1..], n, k);
        } else {
          RecoverKeeps(s.1, tasks[1..], n, k);
        }
      } else {
        assert tasks[1..][i - 1] == tasks[i];
        RecoverCovers(s.1, tasks[1..], n, i - 1);
      }
    }
  }

  /** The key of an instant of the last thirty days is never pruned. */
  lemma InCutoff(q: Instant, n: Now)
    requires Era(n.at) && n.cutoff == Iso(n.at - RECOVER_SPAN) && n.at - RECOVER_SPAN <= q <= n.at
    ensures LexLe(n.cutoff, Iso(q))
  {
    IsoMonotone(n.at - RECOVER_SPAN, q);
  }

  /** After a start-up backfill that was not interrupted, every publish
      instant from `start_dt` on whose download time has passed is recorded
      or waiting in the failed-task map. */
  lemma BackfillCovers(e: Engine, n: Now, q: Instant)
    requires Era(n.at) && n.cutoff == Iso(n.at - RECOVER_SPAN)
    requires Published(q) && RecoverStart(e.history.lastDownload, n.at) <= q && q + DELAY <= n.at
    ensures var r := Recover(e, n);
      !r.0 ==> Iso(q) in r.1.failed || Iso(q) in r.1.history.downloaded
  {
    var m := MissingTimes(e.history, n.at);
    MissingTimesFacts(e.history, n.at, q);
    InCutoff(q, n);
    var i :| 0 <= i < |m| && m[i] == q;
    CoverAt(e, n, m, i);
  }

  /** The backfill covers the `i`-th missing instant when its key is recent. */
  lemma CoverAt(e: Engine, n: Now, m: seq<Instant>, i: nat)
    requires m == MissingTimes(e.history, n.at) && i < |m| && LexLe(n.cutoff, Iso(m[i]))
    ensures var r := Recover(e, n);
      !r.0 ==> Iso(m[i]) in r.1.failed || Iso(m[i]) in r.1.history.downloaded
  {
    TaskAt(m, i);
    RecoverCovers(e, Tasks(m), n, i);
  }

  /** Every key of the failed-task map is a `%Y-%m-%d %H:%M:%S` text. */
  predicate Parsable(failed: map<string, Instant>) {
    forall k :: k in failed ==> ParseIso(k).Some?
  }

  /** The backfill only enters keys that parse. */
  lemma BackfillParsable(e: Engine, n: Now)
    requires Era(n.at) && Parsable(e.failed)
    ensures Parsable(Recover(e, n).1.failed)
  {
    var m := MissingTimes(e.history, n.at);
    var ts := Tasks(m);
    var r := RecoverTasks(e, ts, n).1;
    forall k | k in r.failed ensures ParseIso(k).Some? {
      RecoverFailed(e, ts, n, k);
      if k !in e.failed {
        var i :| 0 <= i < |ts| && ts[i].key == k;
        MissingKeyParses(e.history, n.at, m, i);
      }
    }
  }

  /** The key of every missing instant parses back. */
  lemma MissingKeyParses(h: History, now: Instant, m: seq<Instant>, i: nat)
    requires Era(now) && m == MissingTimes(h, now) && i < |m|
    ensures ParseIso(Tasks(m)[i].key) == Some(m[i])
  {
    var x := m[i];
    MissingTimesFacts(h, now, x);
    TaskAt(m, i);
    ParseIsoIso(x);
  }

  lemma TaskAt(m: seq<Instant>, i: nat)
    requires i < |m|
    ensures Tasks(m)[i] == Job(m[i]) && Tasks(m)[i].key == Iso(m[i])
  {
  }

  // The retry sweep of the main loop.

  /** A failed key is due for a retry ten minutes after its failure. */
  predicate Due(failed: map<string, Instant>, k: string, at: Instant) {
    k in failed && at - failed[k] >= FAILED_RETRY_DELAY
  }

  /** The job of a failed key parsed as `pt`: keyed by the key itself. */
  function Retry(k: string, pt: Instant): Task {
    Task(Url(pt), SavePath(pt), k)
  }

  /** A key that parses is the key of the job of its instant. */
  lemma RetryJob(k: string, pt: Instant)
    requires ParseIso(k) == Some(pt)
    ensures Retry(k, pt) == Job(pt)
  {
    IsoParseIso(k, pt);
  }

  /** How a pass of the main loop goes on: to the next step, stopped by
      Ctrl-C, or abandoned through the loop's catch-all handler. */
  datatype Flow = Onward | Stopped | Crashed

  /** The state of the sweep: how it goes on, the engine, the keys put on
      `tasks_to_remove`, and the keys downloaded so far. */
  datatype Sweep = Sweep(flow: Flow, engine: Engine, removed: seq<string>, retried: seq<string>)

  /** One pass of the sweep loop.  A due key is parsed back (a text that does
      not parse raises, which ends the whole pass); a file at its save path
      is recorded; otherwise it is downloaded once more and dropped whatever
      the outcome, unless Ctrl-C stops it. */
  function SweepStep(e: Engine, k: string, n: Now, removed: seq<string>, retried: seq<string>): Sweep {
    if !Due(e.failed, k, n.at) then Sweep(Onward, e, removed, retried)
    else match ParseIso(k)
      case None => Sweep(Crashed, e, removed, retried)
      case Some(pt) =>
        var t := Retry(k, pt);
        if t.path in e.files then Sweep(Onward, Record(e, k, n), removed + [k], retried)
        else
          var d := Fetching(e, t, n);
          if d.verdict == Cancelled then Sweep(Stopped, d.engine, removed, retried + [k])
          else Sweep(Onward, d.engine, removed + [k], retried + [k])
  }

  /** The `for` loop over `failed_tasks.items()` in iteration order `order`. */
  function SweepKeys(e: Engine, order: seq<string>, n: Now, removed: seq<string>, retried: seq<string>): Sweep
    decreases |order|
  {
    if order == [] then Sweep(Onward, e, removed, retried)
    else
      var s := SweepStep(e, order[0], n, removed, retried);
      if s.flow != Onward then s else SweepKeys(s.engine, order[1..], n, s.removed, s.retried)
  }

  /** The sweep: the loop, then the removal of `tasks_to_remove` when the loop
      ran to its end. */
  function RetrySweep(e: Engine, order: seq<string>, n: Now): Sweep {
    var s := SweepKeys(e, order, n, [], []);
    if s.flow != Onward then s
    else s.(engine := s.engine.(failed := s.engine.failed - (set k | k in s.removed)))
  }

  /** What one pass of the sweep promises; a due key whose file is already on
      disk is recorded with no request and is not counted as retried. */
  lemma SweepStepFacts(e: Engine, k: string, n: Now, removed: seq<string>, retried: seq<string>)
    ensures var s := SweepStep(e, k, n, removed, retried);
      s.engine.failed == e.failed &&
      (s.removed == removed || s.removed == removed + [k]) &&
      (s.retried == retried || s.retried == retried + [k]) &&
      (s.retried != retried ==> Due(e.failed, k, n.at) && ParseIso(k).Some?) &&
      (s.flow == Crashed <==> Due(e.failed, k, n.at) && ParseIso(k).None?) &&
      (s.flow == Onward ==> (s.removed == removed + [k] <==> Due(e.failed, k, n.at))) &&
      (s.flow == Crashed ==> s.engine == e) &&
      (s.removed == removed && s.retried == retried ==> s.engine.history == e.history) &&
      (Due(e.failed, k, n.at) && ParseIso(k).Some? && Retry(k, ParseIso(k).value).path in e.files ==>
         s.flow == Onward && s.engine == Record(e, k, n) && s.removed == removed + [k] && s.retried == retried) &&
      (forall x :: x != k && LexLe(n.cutoff, x) ==>
         (x in s.engine.history.downloaded <==> x in e.history.downloaded))
  {
    if Due(e.failed, k, n.at) && ParseIso(k).Some? {
      var t := Retry(k, ParseIso(k).value);
      if t.path !in e.files {
        FetchingFacts(e, t, n);
      }
    }
  }

  /** The loop leaves the failed-task map alone, keeps what it has put on its
      lists, and downloads only due keys that parse. */
  lemma {:induction false} SweepFrame(e: Engine, order: seq<string>, n: Now, removed: seq<string>, retried: seq<string>)
    ensures var r := SweepKeys(e, order, n, removed, retried);
      r.engine.failed == e.failed &&
      (forall k :: k in removed ==> k in r.removed) &&
      (forall k :: k in retried ==> k in r.retried) &&
      (forall k :: k in r.retried ==> k in retried || (k in order && Due(e.failed, k, n.at) && ParseIso(k).Some?))
    decreases |order|
  {
    if order != [] {
      var s := SweepStep(e, order[0], n, removed, retried);
      SweepStepFacts(e, order[0], n, removed, retried);
      if s.flow == Onward {
        SweepFrame(s.engine, order[1..], n, s.removed, s.retried);
        assert forall k :: k in order[1..] ==> k in order;
      }
    }
  }

  /** A loop that runs to its end has put on `tasks_to_remove` exactly the
      due keys. */
  lemma {:induction false} SweepComplete(e: Engine, order: seq<string>, n: Now, removed: seq<string>, retried: seq<string>)
    ensures var r := SweepKeys(e, order, n, removed, retried);
      r.flow == Onward ==> forall k :: k in r.removed <==> k in removed || (k in order && Due(e.failed, k, n.at))
    decreases |order|
  {
    if order != [] {
      var s := SweepStep(e, order[0], n, removed, retried);
      SweepStepFacts(e, order[0], n, removed, retried);
      if s.flow == Onward {
        SweepComplete(s.engine, order[1..], n, s.removed, s.retried);
      }
    }
  }

  /** When every failed key parses the loop never raises. */
  lemma {:induction false} SweepNoCrash(e: Engine, order: seq<string>, n: Now, removed: seq<string>, retried: seq<string>)
    requires Parsable(e.failed)
    ensures SweepKeys(e, order, n, removed, retried).flow != Crashed
    decreases |order|
  {
    if order != [] {
      var s := SweepStep(e, order[0], n, removed, retried);
      SweepStepFacts(e, order[0], n, removed, retried);
      if s.flow == Onward {
        SweepNoCrash(s.engine, order[1..], n, s.removed, s.retried);
      }
    }
  }

  /** Over distinct keys each key is downloaded at most once. */
  lemma {:induction false} SweepOnce(e: Engine, order: seq<string>, n: Now, removed: seq<string>, retried: seq<string>)
    requires NoDup(order) && NoDup(retried) && forall k :: k in retried ==> k !in order
    ensures NoDup(SweepKeys(e, order, n, removed, retried).retried)
    decreases |order|
  {
    if order != [] {
      var k := order[0];
      var rest := order[1..];
      assert NoDup(rest) && k !in rest && forall x :: x in rest ==> x in order;
      var s := SweepStep(e, k, n, removed, retried);
      SweepStepFacts(e, k, n, removed, retried);
      if s.retried != retried {
        NoDupSnoc(retried, k);
      }
      if s.flow == Onward {
        SweepOnce(s.engine, rest, n, s.removed, s.retried);
      }
    }
  }

  /** A recent key the loop neither removes nor downloads keeps its place in
      the history. */
  lemma {:induction false} SweepKeeps(e: Engine, order: seq<string>, n: Now, removed: seq<string>, retried: seq<string>, k: string)
    requires LexLe(n.cutoff, k)
    requires var r := SweepKeys(e, order, n, removed, retried); k !in r.removed && k !in r.retried
    ensures k in SweepKeys(e, order, n, removed, retried).engine.history.downloaded <==> k in e.history.downloaded
    decreases |order|
  {
    if order != [] {
      var x := order[0];
      var s := SweepStep(e, x, n, removed, retried);
      SweepStepFacts(e, x, n, removed, retried);
      if s.flow == Onward {
        SweepFrame(s.engine, order[1..], n, s.removed, s.retried);
        SweepKeeps(s.engine, order[1..], n, s.removed, s.retried, k);
      }
    }
  }

  /** The sweep over all failed keys: a stopped or abandoned sweep changes no
      entry; a complete one drops exactly the due entries and keeps the others
      with their failure times; only due keys that parse are downloaded, each
      once; and when every key parses the sweep is never abandoned. */
  lemma RetrySweepFacts(e: Engine, order: seq<string>, n: Now)
    requires forall k :: k in order <==> k in e.failed
    ensures var r := RetrySweep(e, order, n);
      (forall k :: k in r.retried ==> Due(e.failed, k, n.at) && ParseIso(k).Some?) &&
      (r.flow != Onward ==> r.engine.failed == e.failed) &&
      (r.flow == Onward ==> forall k :: k in r.engine.failed <==> k in e.failed && !Due(e.failed, k, n.at)) &&
      (forall k :: k in r.engine.failed ==> r.engine.failed[k] == e.failed[k]) &&
      (NoDup(order) ==> NoDup(r.retried)) &&
      (Parsable(e.failed) ==> r.flow != Crashed && Parsable(r.engine.failed))
  {
    SweepFrame(e, order, n, [], []);
    SweepComplete(e, order, n, [], []);
    if NoDup(order) {
      SweepOnce(e, order, n, [], []);
    }
    if Parsable(e.failed) {
      SweepNoCrash(e, order, n, [], []);
    }
  }

  // The real-time check of the main loop.

  /** The real-time step for the publish instant the window check found: a
      key already recorded or failed is skipped; a file at the save path is
      recorded; otherwise it is downloaded and, on failure, entered in the
      failed-task map at the clock reading. */
  function RealTime(e: Engine, target: Option<Instant>, n: Now): (bool, Engine) {
    match target
    case None => (false, e)
    case Some(pt) =>
      var t := Job(pt);
      if t.key in e.history.downloaded || t.key in e.failed then (false, e)
      else if t.path in e.files then (false, Record(e, t.key, n))
      else
        var d := Fetching(e, t, n);
        if d.verdict == Cancelled then (true, d.engine)
        else if d.verdict == Failed then (false, d.engine.(failed := d.engine.failed[t.key := n.at]))
        else (false, d.engine)
  }

  /** Unless interrupted, the real-time step leaves a recent target's key
      recorded or failed; an entry it adds is that key at the clock reading,
      and no other entry changes.  A key already recorded or failed is skipped
      with no effect, and a file already on disk is recorded without a request. */
  lemma RealTimeCovers(e: Engine, pt: Instant, n: Now)
    requires Era(n.at) && n.cutoff == Iso(n.at - RECOVER_SPAN) && n.at - RECOVER_SPAN <= pt <= n.at
    ensures var r := RealTime(e, Some(pt), n); var key := Iso(pt);
      (!r.0 ==> key in r.1.history.downloaded || key in r.1.failed) &&
      (key in r.1.failed && key !in e.failed ==> r.1.failed[key] == n.at) &&
      (forall k :: k != key ==> (k in r.1.failed <==> k in e.failed)) &&
      (forall k :: k in e.failed ==> k in r.1.failed && r.1.failed[k] == e.failed[k]) &&
      (Parsable(e.failed) ==> Parsable(r.1.failed)) &&
      (key in e.history.downloaded || key in e.failed ==> !r.0 && r.1 == e) &&
      (Job(pt).path in e.files ==> !r.0 && r.1.replies == e.replies && r.1.files == e.files) &&
      (key !in e.history.downloaded && key !in e.failed && Job(pt).path in e.files ==>
         r.1 == Record(e, key, n))
  {
    InCutoff(pt, n);
    ParseIsoIso(pt);
    RealTimeJob(e, pt, n);
  }

  /** `RealTimeCovers` for the key of the job of `pt`. */
  lemma RealTimeJob(e: Engine, pt: Instant, n: Now)
    requires LexLe(n.cutoff, Job(pt).key)
    ensures var r := RealTime(e, Some(pt), n); var key := Job(pt).key;
      (!r.0 ==> key in r.1.history.downloaded || key in r.1.failed) &&
      (key in r.1.failed && key !in e.failed ==> r.1.failed[key] == n.at) &&
      (forall k :: k != key ==> (k in r.1.failed <==> k in e.failed)) &&
      (forall k :: k in e.failed ==> k in r.1.failed && r.1.failed[k] == e.failed[k])
  {
    var t := Job(pt);
    if t.key !in e.history.downloaded && t.key !in e.failed && t.path !in e.files {
      FetchingFacts(e, t, n);
    }
  }

  // Download windows.

  /** `calculate_download_time`: the minute of the hour at which an image
      published at minute `pm` is due. */
  function DownloadMinute(pm: int, d: int): (r: int)
    ensures 0 <= r < 60
  {
    (pm + d) % 60
  }

  /** `d` minutes after minute `pm` of any hour is minute `DownloadMinute(pm, d)`. */
  lemma DownloadMinuteOf(hour: int, pm: int, d: int)
    requires 0 <= pm < 60
    ensures var u := Slot(hour, pm) + d * MINUTE; MinuteOf(u) == DownloadMinute(pm, d) && SecondOf(u) == 0
  {
    var u := Slot(hour, pm) + d * MINUTE;
    var k := hour * 60 + pm + d;
    assert u == MINUTE * k;
    DivModUnique(u, MINUTE, k, 0);
    var q, r := (pm + d) / 60, (pm + d) % 60;
    assert k == 60 * (hour + q) + r;
    DivModUnique(k, 60, hour + q, r);
  }

  /** One pass of the loop of `check_download_window` for publish minute `pm`:
      the download instant is put on today's clock (the next hour's when the
      delay crosses the hour), moved a day on when already past, and matched
      within a minute either side; the publish instant is then put on
      today's clock (the previous hour's when the delay crosses the hour) and
      moved a day back when in the future. */
  function WindowAt(pm: int, now: Instant): Option<Instant>
    requires 0 <= pm < 60
  {
    Fields(now);
    var h := HourOf(now);
    var early := pm + DOWNLOAD_DELAY_MINS < 60;
    var dt0 := AtClock(now, if early then h else (h + 1) % 24, DownloadMinute(pm, DOWNLOAD_DELAY_MINS));
    var dt := if dt0 < now then dt0 + DAY else dt0;
    if dt - WINDOW <= now <= dt + WINDOW then
      var pt0 := AtClock(now, if early then h else (h - 1) % 24, pm);
      Some(if pt0 > now then pt0 - DAY else pt0)
    else None
  }

  /** The loop over the publish minutes from the `i`-th on: the first match. */
  function CheckWindowFrom(i: nat, now: Instant): Option<Instant>
    requires i <= |PUBLISH_MINS|
    decreases |PUBLISH_MINS| - i
  {
    if i == |PUBLISH_MINS| then None
    else match WindowAt(PUBLISH_MINS[i], now)
      case Some(pt) => Some(pt)
      case None => CheckWindowFrom(i + 1, now)
  }

  /** `check_download_window(current_time)`. */
  function CheckDownloadWindow(now: Instant): Option<Instant> {
    CheckWindowFrom(0, now)
  }

  /** For a publish minute whose download falls in the same hour the window
      is the minute up to the download instant, never the minute after it:
      once past, the download instant is pushed to the next day. */
  lemma WindowEarly(pm: int, now: Instant)
    requires 0 <= pm && pm + DOWNLOAD_DELAY_MINS < 60
    ensures var o := now % HOUR;
      WindowAt(pm, now) == if (pm + DOWNLOAD_DELAY_MINS) * MINUTE - WINDOW <= o <= (pm + DOWNLOAD_DELAY_MINS) * MINUTE
        then Some(AtMinute(now, pm)) else None
  {
    Fields(now);
    assert AtClock(now, HourOf(now), pm + DOWNLOAD_DELAY_MINS) == AtMinute(now, pm + DOWNLOAD_DELAY_MINS);
    assert AtClock(now, HourOf(now), pm) == AtMinute(now, pm);
  }

  /** Minute 50 is never matched: its download instant is put an hour ahead,
      so the window always lies more than an hour away. */
  lemma Window50Never(now: Instant)
    ensures WindowAt(50, now) == None
  {
    Fields(now);
    var h := HourOf(now);
    var dt0 := AtClock(now, (h + 1) % 24, 10);
    if h < 23 {
      assert dt0 == now - (MinuteOf(now) * MINUTE + SecondOf(now)) + HOUR + 10 * MINUTE;
    } else {
      assert dt0 + DAY == now - (MinuteOf(now) * MINUTE + SecondOf(now)) + HOUR + 10 * MINUTE;
    }
  }

  /** What `check_download_window` returns, exactly: the publish instant at
      minute 10 during the minute up to hh:30:00, the one at minute 30 during
      the minute up to hh:50:00, and nothing otherwise. */
  lemma CheckDownloadWindowExact(now: Instant)
    ensures var o := now % HOUR;
      CheckDownloadWindow(now) ==
        if 29 * MINUTE <= o <= 30 * MINUTE then Some(AtMinute(now, 10))
        else if 49 * MINUTE <= o <= 50 * MINUTE then Some(AtMinute(now, 30))
        else None
  {
    WindowEarly(10, now);
    WindowEarly(30, now);
    Window50Never(now);
  }

  /** A match is a publish instant between 19 and 20 minutes back. */
  lemma CheckDownloadWindowSound(now: Instant)
    ensures var r := CheckDownloadWindow(now);
      r.Some? ==> Published(r.value) && r.value + DELAY - WINDOW <= now <= r.value + DELAY
  {
    CheckDownloadWindowExact(now);
    if CheckDownloadWindow(now).Some? {
      var pt := CheckDownloadWindow(now).value;
      assert pt == now - now % HOUR + MinuteOf(pt) * MINUTE;
    }
  }

  /** As written, the images published at minute 50 are never downloaded in
      real time, and neither is any image during the minute after its
      download instant. */
  lemma CheckDownloadWindowMisses(pt: Instant, now: Instant)
    requires Published(pt)
    ensures MinuteOf(pt) == 50 ==> CheckDownloadWindow(now) != Some(pt)
    ensures pt + DELAY < now <= pt + DELAY + WINDOW ==> CheckDownloadWindow(now) != Some(pt)
  {
    CheckDownloadWindowSound(now);
    CheckDownloadWindowExact(now);
  }

  /** The corrected pass for publish minute `pm`: the publish instant is the
      one of this hour, or of the previous hour when the delay crosses the
      hour, and the window is the minute either side of its download
      instant. */
  function FixedWindowAt(pm: int, now: Instant): Option<Instant>
    requires 0 <= pm < 60
  {
    var pt := if pm + DOWNLOAD_DELAY_MINS < 60 then AtMinute(now, pm) else AtMinute(now - HOUR, pm);
    if pt + DELAY - WINDOW <= now <= pt + DELAY + WINDOW then Some(pt) else None
  }

  function FixedWindowFrom(i: nat, now: Instant): Option<Instant>
    requires i <= |PUBLISH_MINS|
    decreases |PUBLISH_MINS| - i
  {
    if i == |PUBLISH_MINS| then None
    else match FixedWindowAt(PUBLISH_MINS[i], now)
      case Some(pt) => Some(pt)
      case None => FixedWindowFrom(i + 1, now)
  }

  /** The download window check as evidently intended. */
  function FixedDownloadWindow(now: Instant): Option<Instant> {
    FixedWindowFrom(0, now)
  }

  /** `replace(minute=m)` on an instant of the hour numbered `hour`, and on
      the instant an hour before. */
  lemma AtMinuteIn(now: Instant, hour: int, m: int)
    requires 0 <= m < 60 && hour * HOUR <= now < hour * HOUR + HOUR
    ensures AtMinute(now, m) == Slot(hour, m) && AtMinute(now - HOUR, m) == Slot(hour - 1, m)
  {
    DivModUnique(now, HOUR, hour, now - hour * HOUR);
    DivModUnique(now - HOUR, HOUR, hour - 1, now - hour * HOUR);
    AtMinuteSlot(now, m);
    AtMinuteSlot(now - HOUR, m);
  }

  /** A corrected match is a publish instant whose download instant is within
      a minute of the clock. */
  lemma {:induction false} FixedWindowFromSound(i: nat, now: Instant)
    requires i <= |PUBLISH_MINS|
    ensures var r := FixedWindowFrom(i, now);
      r.Some? ==> Published(r.value) && r.value + DELAY - WINDOW <= now <= r.value + DELAY + WINDOW
    decreases |PUBLISH_MINS| - i
  {
    if i < |PUBLISH_MINS| {
      FixedWindowFromSound(i + 1, now);
    }
  }

  /** The corrected check matches every publish instant during the two
      minutes around its download instant. */
  lemma FixedWindowComplete(pt: Instant, now: Instant)
    requires Published(pt) && pt + DELAY - WINDOW <= now <= pt + DELAY + WINDOW
    ensures FixedDownloadWindow(now) == Some(pt)
  {
    HourOffset(pt);
    var p, m := pt / HOUR, MinuteOf(pt);
    assert pt == Slot(p, m);
    if m == 10 || m == 30 {
      AtMinuteIn(now, p, 10);
      AtMinuteIn(now, p, 30);
    } else {
      AtMinuteIn(now, p + 1, 10);
      AtMinuteIn(now, p + 1, 30);
      AtMinuteIn(now, p + 1, 50);
    }
  }

  /** The corrected check finds exactly the publish instant whose download
      instant is within a minute of the clock. */
  lemma FixedDownloadWindowExact(pt: Instant, now: Instant)
    ensures FixedDownloadWindow(now) == Some(pt) <==>
      Published(pt) && pt + DELAY - WINDOW <= now <= pt + DELAY + WINDOW
  {
    FixedWindowFromSound(0, now);
    if Published(pt) && pt + DELAY - WINDOW <= now <= pt + DELAY + WINDOW {
      FixedWindowComplete(pt, now);
    }
  }

  // The countdown to the next window: `get_next_download_window`.

  /** A window start and the whole seconds left until it, never negative. */
  datatype Window = Window(start: Instant, remaining: int)

  /** One pass of the loop for publish minute `pm`: the next publish instant
      at that minute, its download instant (the next hour's, on the same
      date, when the delay crosses the hour), the window a minute before that,
      moved an hour on once when already past. */
  function Candidate(pm: int, now: Instant): (w: Window)
    requires 0 <= pm < 60
    ensures SecondOf(w.start) == 0 && MinuteOf(w.start) == (pm + DOWNLOAD_DELAY_MINS - 1) % 60
    ensures w.start >= now ==> var p := w.start + WINDOW - DELAY;
      NextPublishAt(p, pm, now) && (pm + DOWNLOAD_DELAY_MINS < 60 || HourOf(p) < 23)
    ensures w.start < now ==> var p := w.start + WINDOW - DELAY + DAY - HOUR;
      NextPublishAt(p, pm, now) && pm + DOWNLOAD_DELAY_MINS >= 60 && HourOf(p) == 23
    ensures w.remaining >= 0 && w.remaining == if w.start < now then 0 else w.start - now
  {
    var pc0 := AtMinute(now, pm);
    var pc := if pc0 < now then pc0 + HOUR else pc0;
    NextPublish(now, pm);
    HourRange(pc);
    var hour := if MinuteOf(pc) + DOWNLOAD_DELAY_MINS >= 60 then (HourOf(pc) + 1) % 24 else HourOf(pc);
    var dc := AtClock(pc, hour, DownloadMinute(pm, DOWNLOAD_DELAY_MINS));
    DownloadInstant(pc, pm);
    var ws0 := dc - WINDOW;
    var ws := if ws0 < now then ws0 + HOUR else ws0;
    WindowMinute(pc, pm, ws);
    Window(ws, if ws - now < 0 then 0 else ws - now)
  }

  /** `p` is the next publish instant at minute `pm` once the clock reads
      `now`: second zero of that minute, within the hour from `now` on. */
  predicate NextPublishAt(p: Instant, pm: int, now: Instant) {
    now <= p < now + HOUR && MinuteOf(p) == pm && SecondOf(p) == 0
  }

  /** There is only one next publish instant at a given minute. */
  lemma NextPublishUnique(p: Instant, q: Instant, pm: int, now: Instant)
    requires NextPublishAt(p, pm, now) && NextPublishAt(q, pm, now)
    ensures p == q
  {
    HourOffset(p);
    HourOffset(q);
    assert p - q == (p / HOUR - q / HOUR) * HOUR;
  }

  /** The first step of the loop body: minute `pm` of the clock's hour, moved
      an hour on when already past. */
  lemma NextPublish(now: Instant, pm: int)
    requires 0 <= pm < 60
    ensures var pc0 := AtMinute(now, pm); NextPublishAt(if pc0 < now then pc0 + HOUR else pc0, pm, now)
  {
    var pc0 := AtMinute(now, pm);
    if pc0 < now {
      HourLater(pc0);
    }
  }

  lemma HourRange(t: Instant)
    ensures 0 <= HourOf(t) < 24
  {
  }

  /** An hour on, the minute and second read the same. */
  lemma HourLater(t: Instant)
    ensures MinuteOf(t + HOUR) == MinuteOf(t) && SecondOf(t + HOUR) == SecondOf(t)
  {
    assert (t + HOUR) / MINUTE == t / MINUTE + 60;
  }

  /** The download instant the loop body builds from the publish instant `pc`:
      twenty minutes on, except that in hour 23 the hour wraps to 0 of the
      same date. */
  lemma DownloadInstant(pc: Instant, pm: int)
    requires 0 <= pm < 60 && MinuteOf(pc) == pm && SecondOf(pc) == 0
    ensures var hour := if MinuteOf(pc) + DOWNLOAD_DELAY_MINS >= 60 then (HourOf(pc) + 1) % 24 else HourOf(pc);
      AtClock(pc, hour, DownloadMinute(pm, DOWNLOAD_DELAY_MINS)) ==
        if pm + DOWNLOAD_DELAY_MINS >= 60 && HourOf(pc) == 23 then pc + DELAY - DAY else pc + DELAY
  {
    Fields(pc);
  }

  /** The window start reads minute `pm + 19` and second zero, whether or not it was moved. */
  lemma WindowMinute(pc: Instant, pm: int, ws: Instant)
    requires 0 <= pm < 60 && MinuteOf(pc) == pm && SecondOf(pc) == 0
    requires ws == pc + DELAY - WINDOW || ws == pc + DELAY - WINDOW - DAY + HOUR
    ensures SecondOf(ws) == 0 && MinuteOf(ws) == (pm + DOWNLOAD_DELAY_MINS - 1) % 60
  {
    var k := if ws == pc + DELAY - WINDOW then DOWNLOAD_DELAY_MINS - 1 else DOWNLOAD_DELAY_MINS - 1 - 1380;
    assert ws == pc + k * MINUTE;
    MinutesLater(pc, k);
    assert (pm + k) % 60 == (pm + DOWNLOAD_DELAY_MINS - 1) % 60;
  }

  /** `k` whole minutes on from second zero. */
  lemma MinutesLater(t: Instant, k: int)
    requires SecondOf(t) == 0
    ensures SecondOf(t + k * MINUTE) == 0 && MinuteOf(t + k * MINUTE) == (MinuteOf(t) + k) % 60
  {
    var q := t / MINUTE;
    assert t == MINUTE * q;
    assert t + k * MINUTE == MINUTE * (q + k);
    DivModUnique(t + k * MINUTE, MINUTE, q + k, 0);
    assert (q + k) % 60 == (q % 60 + k) % 60 by {
      DivModUnique(q + k, 60, q / 60 + (q % 60 + k) / 60, (q % 60 + k) % 60);
    }
  }

  /** The candidate of each publish minute, in the loop's order. */
  function Candidates(now: Instant): (cs: seq<Window>)
    ensures |cs| == |PUBLISH_MINS|
  {
    seq(|PUBLISH_MINS|, j requires 0 <= j < |PUBLISH_MINS| => Candidate(PUBLISH_MINS[j], now))
  }

  /** The loop from the `i`-th candidate on, with the best window so far
      (`None` standing for the infinite starting minimum); a later candidate
      wins only when strictly nearer. */
  function NextFrom(cs: seq<Window>, i: nat, best: Option<Window>): Option<Window>
    requires i <= |cs|
    decreases |cs| - i
  {
    if i == |cs| then best
    else
      var c := cs[i];
      NextFrom(cs, i + 1, if best.None? || c.remaining < best.value.remaining then Some(c) else best)
  }

  /** `get_next_download_window(current_time)`: the window start, the seconds
      left, and the signed seconds to the start. */
  function NextDownloadWindow(now: Instant): (Option<Instant>, int, int) {
    match NextFrom(Candidates(now), 0, None)
    case None => (None, 0, 0)
    case Some(w) => (Some(w.start), w.remaining, w.start - now)
  }

  lemma {:induction false} NextFromFacts(cs: seq<Window>, i: nat, best: Option<Window>)
    requires i <= |cs|
    ensures var r := NextFrom(cs, i, best);
      (best.Some? || i < |cs| ==> r.Some?) &&
      (r.Some? ==> r == best || exists j :: i <= j < |cs| && r.value == cs[j]) &&
      (r.Some? ==> forall j :: i <= j < |cs| ==> r.value.remaining <= cs[j].remaining) &&
      (r.Some? && best.Some? ==> r.value.remaining <= best.value.remaining)
    decreases |cs| - i
  {
    if i < |cs| {
      var c := cs[i];
      var b := if best.None? || c.remaining < best.value.remaining then Some(c) else best;
      NextFromFacts(cs, i + 1, b);
    }
  }

  /** There is always a next window; it is one of the three candidates and
      no candidate is nearer; the seconds left are the signed seconds to it,
      clamped at zero. */
  lemma NextDownloadWindowFacts(now: Instant)
    ensures var r := NextDownloadWindow(now);
      r.0.Some? && r.1 >= 0 && r.1 == (if r.2 < 0 then 0 else r.2) &&
      var cs := Candidates(now);
      (exists j :: 0 <= j < |cs| && cs[j] == Window(r.0.value, r.1)) &&
      (forall j :: 0 <= j < |cs| ==> r.1 <= cs[j].remaining)
  {
    NextFromFacts(Candidates(now), 0, None);
  }

  /** At 23:00:00 the minute-50 candidate's download instant is put on 00:10
      of the same date, so its window lies in the past even after the one
      hour shift: it wins with zero seconds left and a negative total, and the
      countdown logged is a full bar. */
  lemma NextWindowPast(d: int)
    ensures var now := d * DAY + 23 * HOUR; var r := NextDownloadWindow(now);
      r == (Some(d * DAY + HOUR + 9 * MINUTE), 0, HOUR + 9 * MINUTE - 23 * HOUR) &&
      ProgressBar(r.1, r.2) == "[" + Cells(BAR_LENGTH) + "] 00:00"
  {
    var now := d * DAY + 23 * HOUR;
    var w10, w50 := Window(now + 29 * MINUTE, 29 * MINUTE), Window(d * DAY + HOUR + 9 * MINUTE, 0);
    CandidateAt23(d, 10);
    CandidateAt23(d, 30);
    LateCandidateAt23(d);
    CandidatesListed(now);
    NearestOfThree(w10, Window(now + 49 * MINUTE, 49 * MINUTE), w50);
  }

  /** The loop over three candidates of which the last is the nearest. */
  lemma NearestOfThree(a: Window, b: Window, c: Window)
    requires c.remaining < a.remaining <= b.remaining
    ensures NextFrom([a, b, c], 0, None) == Some(c)
  {
    var cs := [a, b, c];
    assert NextFrom(cs, 3, Some(c)) == Some(c);
    assert NextFrom(cs, 2, Some(a)) == Some(c);
  }

  /** The `j`-th candidate is the one of the `j`-th publish minute. */
  lemma CandidateAt(now: Instant, j: nat)
    requires j < |PUBLISH_MINS|
    ensures Candidates(now)[j] == Candidate(PUBLISH_MINS[j], now)
  {
  }

  lemma PublishMinuteAt(j: nat)
    requires j < |PUBLISH_MINS|
    ensures 0 <= PUBLISH_MINS[j] < 60
  {
  }

  /** The three candidates, by publish minute. */
  lemma CandidatesListed(now: Instant)
    ensures Candidates(now) == [Candidate(10, now), Candidate(30, now), Candidate(50, now)]
  {
  }

  /** At 23:00:00 the candidates of minutes 10 and 30 open nineteen minutes
      after their publish instants, later the same hour. */
  lemma CandidateAt23(d: int, pm: int)
    requires pm == 10 || pm == 30
    ensures var now := d * DAY + 23 * HOUR;
      Candidate(pm, now) == Window(now + (pm + 19) * MINUTE, (pm + 19) * MINUTE)
  {
    var now := d * DAY + 23 * HOUR;
    FieldsOf(d, 23, 0, 0);
    DivModUnique(now, HOUR, d * 24 + 23, 0);
    FieldsOf(d, 23, pm, 0);
  }

  /** At 23:00:00 the candidate of minute 50 is put on 00:09 of the same date. */
  lemma LateCandidateAt23(d: int)
    ensures Candidate(50, d * DAY + 23 * HOUR) == Window(d * DAY + HOUR + 9 * MINUTE, 0)
  {
    var now := d * DAY + 23 * HOUR;
    FieldsOf(d, 23, 0, 0);
    DivModUnique(now, HOUR, d * 24 + 23, 0);
    FieldsOf(d, 23, 50, 0);
  }

  // One pass of the main loop.

  /** What one pass of the main loop does after the progress refresh: the
      sweep when the failed-task map is not empty, then the real-time step
      for `target`, the publish instant the window check found
      (`CheckDownloadWindow` in the script, `FixedDownloadWindow` corrected). */
  function Pass(e: Engine, order: seq<string>, n: Now, target: Option<Instant>): (Flow, Engine) {
    var s := if e.failed == map[] then Sweep(Onward, e, [], []) else RetrySweep(e, order, n);
    if s.flow != Onward then (s.flow, s.engine)
    else
      var t := RealTime(s.engine, target, n);
      (if t.0 then Stopped else Onward, t.1)
  }

  /** Both window checks find a publish instant of the last half hour. */
  lemma TargetsRecent(now: Instant)
    ensures var a, b := CheckDownloadWindow(now), FixedDownloadWindow(now);
      (a.Some? ==> now - 30 * MINUTE <= a.value <= now) && (b.Some? ==> now - 30 * MINUTE <= b.value <= now)
  {
    CheckDownloadWindowSound(now);
    FixedWindowFromSound(0, now);
  }

  /** Every key of the failed-task map parses as long as the process runs:
      the backfill and every pass keep it so, and then no pass is abandoned. */
  lemma PassParsable(e: Engine, order: seq<string>, n: Now, target: Option<Instant>)
    requires Era(n.at) && n.cutoff == Iso(n.at - RECOVER_SPAN) && Parsable(e.failed)
    requires forall k :: k in order <==> k in e.failed
    requires target.Some? ==> n.at - RECOVER_SPAN <= target.value <= n.at
    ensures Pass(e, order, n, target).0 != Crashed && Parsable(Pass(e, order, n, target).1.failed)
  {
    var s := if e.failed == map[] then Sweep(Onward, e, [], []) else RetrySweep(e, order, n);
    if e.failed != map[] {
      RetrySweepFacts(e, order, n);
    }
    if s.flow == Onward && target.Some? {
      RealTimeCovers(s.engine, target.value, n);
    }
  }
}
