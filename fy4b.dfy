/** The FY-4B full-disk downloader (`FY4B_FullDisk_downloader.py`).

    Observations start every fifteen minutes on the quarter hour.  An image is
    fetched once it is an hour old and no more than twelve hours old, keyed by
    its twelve-digit start stamp `%Y%m%d%H%M`.  At start-up a backfill scans
    the quarter hours from the last check (or twelve hours back) up to an hour
    ago; afterwards a main loop retries failed keys once after ten minutes and
    checks the quarter hour of `now - 1h` every five minutes.

    The state of one process is an `Engine` value: the filesystem, the replies
    the network will give, the in-memory history, the history file as last
    saved, and the failed-task map.  The functions below define each step on
    that value; the `Downloader` class performs the same steps on the machine
    and its own fields, and each of its methods is proved to end in the state
    the corresponding function gives.
 */
module Fy4b {
  import opened Wrappers
  import opened Decimal
  import opened Clock
  import opened Host
  import opened Executor
  import opened Ledger
  import opened Heartbeat
  import opened Seqs

  // Configuration.

  /** `CONFIG["time_interval"]`, in minutes. */
  const TIME_INTERVAL: int := 15
  /** The step of the backfill scan. */
  const STEP: int := TIME_INTERVAL * MINUTE
  /** `download_offset_hours`. */
  const DOWNLOAD_OFFSET: int := 1 * HOUR
  /** `max_recover_days` = 0.5. */
  const RECOVER_SPAN: int := DAY / 2
  const CHECK_INTERVAL: int := 300
  const FAILED_RETRY_DELAY: int := 600
  const RULE: FileRule := FileRule(1024 * 500, [0xFF, 0xD8])
  const SAVE_BASE_DIR: string := "/DATA/Gallery/FY4B/FullDisk"
  const URL_HEAD: string := "https://img.nsmc.org.cn/CLOUDIMAGE/FY4B/AGRI/GCLR/DISK/FY4B-_AGRI--_N_DISK_1050E_L2-_GCLR_MULT_NOM_"
  const URL_TAIL: string := "_1000M_V0001.JPG"

  /** The instants at which every text this module prints is well formed:
      twelve hours back from `now` is still inside the era. */
  predicate Era(now: Instant) {
    RECOVER_SPAN <= now < ERA_END
  }

  // Names.

  /** A backfill entry: the image URL and its history key. */
  datatype Task = Task(url: string, key: string)

  /** `generate_url_by_time`. */
  function UrlByTime(pt: Instant): Task {
    Task(UrlAt(pt), Stamp12(pt))
  }

  /** The URL `generate_url_by_time` builds for `pt`. */
  function UrlAt(pt: Instant): string {
    UrlOf(Stamp12(pt), Stamp14(WindowEnd(pt)))
  }

  /** The last second of the fifteen-minute observation starting at `pt`. */
  function WindowEnd(pt: Instant): Instant {
    pt + 14 * MINUTE + 59
  }

  /** The URL of the observation keyed `key` whose window ends at `end`. */
  function UrlOf(key: string, end: string): string {
    URL_HEAD + key + "00" + "_" + end + URL_TAIL
  }

  /** Where the key and the end time sit in a URL. */
  lemma UrlFields(key: string, end: string)
    requires |key| == 12 && |end| == 14
    ensures var u := UrlOf(key, end); var n := |URL_HEAD|;
      |u| == n + 29 + |URL_TAIL| && u[..n] == URL_HEAD && u[n..n + 12] == key &&
      u[n..n + 14] == key + "00" && u[n + 12..n + 14] == "00" && u[n + 14] == '_' &&
      u[n + 15..n + 29] == end && u[n + 29..] == URL_TAIL
  {
    Spliced(URL_HEAD, key, end, URL_TAIL);
  }

  lemma Spliced(head: string, key: string, end: string, tail: string)
    requires |key| == 12 && |end| == 14
    ensures var u := head + key + "00" + "_" + end + tail; var n := |head|;
      |u| == n + 29 + |tail| && u[..n] == head && u[n..n + 12] == key &&
      u[n..n + 14] == key + "00" && u[n + 12..n + 14] == "00" && u[n + 14] == '_' &&
      u[n + 15..n + 29] == end && u[n + 29..] == tail
  {
    var n := |head|;
    var a1 := head + key;
    var a2 := a1 + "00";
    var a3 := a2 + "_";
    var a4 := a3 + end;
    var u := a4 + tail;
    // each slice of `u` below `a2`'s end is a slice of `a2`
    forall i: nat, j: nat | i <= j <= n + 14
      ensures u[i..j] == a2[i..j]
    {
      SliceLeft(a4, tail, i, j);
      SliceLeft(a3, end, i, j);
      SliceLeft(a2, "_", i, j);
    }
    SliceLeft(a1, "00", 0, n);
    SliceLeft(a1, "00", n, n + 12);
    DropLeft(a1, "00", n);
    assert a2[n..n + 14] == a2[n..];
    SliceLeft(a4, tail, n + 15, n + 29);
  }

  /** The URL carries the key followed by `00` as its start time and, as its
      end time, the instant 14 min 59 s later; both read back as instants. */
  lemma UrlWindow(pt: Instant)
    requires InEra(pt) && InEra(pt + 14 * MINUTE + 59)
    ensures var u := UrlByTime(pt); var n := |URL_HEAD|;
      |u.url| == n + 29 + |URL_TAIL| &&
      u.url[..n] == URL_HEAD && u.url[n..n + 12] == u.key && u.url[n + 12..n + 14] == "00" &&
      u.url[n + 14] == '_' && u.url[n + 29..] == URL_TAIL &&
      ParseStamp14(u.url[n..n + 14]) == Some(pt - SecondOf(pt)) &&
      ParseStamp14(u.url[n + 15..n + 29]) == Some(pt + 14 * MINUTE + 59)
  {
    var k, e := Stamp12(pt), Stamp14(WindowEnd(pt));
    UrlFields(k, e);
    ParseStamp12Stamp12(pt);
    ParseStamp14Stamp14(WindowEnd(pt));
  }

  /** `generate_save_path`. */
  function SavePath(key: string): Path {
    SAVE_BASE_DIR + "/" + "FY4B_FullDisk_" + key + ".jpg"
  }

  /** Distinct keys are saved under distinct paths. */
  lemma SavePathInjective(a: string, b: string)
    ensures SavePath(a) == SavePath(b) <==> a == b
  {
    if SavePath(a) == SavePath(b) {
      var n := |SAVE_BASE_DIR + "/" + "FY4B_FullDisk_"|;
      assert |a| == |b|;
      assert a == SavePath(a)[n..n + |a|];
      assert b == SavePath(b)[n..n + |b|];
    }
  }

  // Eligibility.

  /** `is_download_ready`: whether `pt` is between twelve hours and one hour
      old, and the threshold `now - 1h` as `%Y-%m-%d %H:%M UTC`, which spells
      the threshold's minute stamp with its separators. */
  function DownloadReady(pt: Instant, now: Instant): (r: (bool, string))
    ensures r.0 <==> DOWNLOAD_OFFSET <= now - pt <= RECOVER_SPAN
    ensures |r.1| == 20 && r.1[16..] == " UTC"
    ensures r.1[4] == '-' && r.1[7] == '-' && r.1[10] == ' ' && r.1[13] == ':'
    ensures r.1[..4] + r.1[5..7] + r.1[8..10] + r.1[11..13] + r.1[14..16] == Stamp12(now - DOWNLOAD_OFFSET)
  {
    (now - RECOVER_SPAN <= pt <= now - DOWNLOAD_OFFSET, MinuteUtc(now - DOWNLOAD_OFFSET))
  }

  /** `%Y-%m-%d %H:%M UTC` of `t`. */
  function MinuteUtc(t: Instant): (s: string)
    ensures |s| == 20 && s[16..] == " UTC"
    ensures s[4] == '-' && s[7] == '-' && s[10] == ' ' && s[13] == ':'
    ensures s[..4] + s[5..7] + s[8..10] + s[11..13] + s[14..16] == Stamp12(t)
  {
    MinuteText(t);
    UtcSuffixed(Iso(t)[..16], Stamp12(t));
    Iso(t)[..16] + " UTC"
  }

  /** Appending ` UTC` keeps the separators and digits of the minute text. */
  lemma UtcSuffixed(m: string, key: string)
    requires |m| == 16 && m[4] == '-' && m[7] == '-' && m[10] == ' ' && m[13] == ':'
    requires m[..4] + m[5..7] + m[8..10] + m[11..13] + m[14..16] == key
    ensures var s := m + " UTC";
      |s| == 20 && s[16..] == " UTC" && s[4] == '-' && s[7] == '-' && s[10] == ' ' && s[13] == ':' &&
      s[..4] + s[5..7] + s[8..10] + s[11..13] + s[14..16] == key
  {
    var s := m + " UTC";
    assert s[..4] == m[..4] && s[5..7] == m[5..7] && s[8..10] == m[8..10] && s[11..13] == m[11..13] && s[14..16] == m[14..16];
  }

  /** The real-time target: `now - 1h` with its minute floored to a multiple of
      fifteen and the seconds cleared. */
  function RealTimeTarget(now: Instant): (pt: Instant)
    ensures pt % STEP == 0 && pt <= now - DOWNLOAD_OFFSET < pt + STEP
  {
    var target := now - DOWNLOAD_OFFSET;
    Floored(target);
    AtMinute(target, MinuteOf(target) / 15 * 15)
  }

  /** Flooring the minute to a multiple of fifteen and clearing the seconds
      rounds down to the quarter hour. */
  lemma Floored(t: Instant)
    ensures 0 <= MinuteOf(t) / 15 * 15 <= MinuteOf(t) < 60
    ensures AtMinute(t, MinuteOf(t) / 15 * 15) == t - t % STEP
    ensures (t - t % STEP) % STEP == 0 && t - t % STEP <= t < t - t % STEP + STEP
    ensures (t - t % STEP + STEP) % STEP == 0
  {
    var k, c := t / MINUTE, t % MINUTE;
    var h, m := k / 60, k % 60;
    var a, b := m / 15, m % 15;
    assert t == HOUR * h + (MINUTE * m + c);
    DivModUnique(t, HOUR, h, MINUTE * m + c);
    assert t == STEP * (4 * h + a) + (MINUTE * b + c);
    DivModUnique(t, STEP, 4 * h + a, MINUTE * b + c);
    DivModUnique(t - t % STEP, STEP, 4 * h + a, 0);
  }

  /** The range test guarding the real-time download never fails, and the
      target is always ready in the sense of `is_download_ready`. */
  lemma TargetReady(now: Instant)
    ensures var pt := RealTimeTarget(now);
      now - RECOVER_SPAN <= pt <= now - DOWNLOAD_OFFSET && DownloadReady(pt, now).0
  {
  }

  /** `get_next_check_window`: the next check is always five minutes away. */
  function NextCheckWindow(now: Instant): (Option<Instant>, int, int) {
    var next := now + CHECK_INTERVAL;
    (Some(next), next - now, CHECK_INTERVAL)
  }

  /** Because the window is measured from the instant it is computed at, the
      heartbeat bar is always empty and always shows five minutes. */
  lemma HeartbeatConstant(now: Instant)
    ensures var w := NextCheckWindow(now);
      ProgressBar(w.1, w.2) == "[" + seq(BAR_LENGTH, _ => ' ') + "] 05:00"
  {
    var r := ProgressBar(300, 300);
    var want := "[" + seq(BAR_LENGTH, _ => ' ') + "] 05:00";
    assert Fmt02(5) == "05" && Fmt02(0) == "00";
    assert Countdown(300) == "05:00";
    assert |r| == |want|;
    forall i | 0 <= i < |r| ensures r[i] == want[i] {
      if i >= BAR_LENGTH + 3 {
        assert r[i] == r[BAR_LENGTH + 3..][i - BAR_LENGTH - 3];
      }
    }
  }

  // The scan start of the backfill.

  /** `start_dt` of `generate_missing_images`: the last check when it parses and is
      recent enough, otherwise twelve hours back. */
  function ScanStart(lastCheck: string, now: Instant): (start: Instant)
    ensures start >= now - RECOVER_SPAN
    ensures lastCheck == "" || ParseIso(lastCheck).None? ==> start == now - RECOVER_SPAN
    ensures ParseIso(lastCheck).Some? && ParseIso(lastCheck).value >= now - RECOVER_SPAN ==>
      start == ParseIso(lastCheck).value
    ensures ParseIso(lastCheck).Some? && ParseIso(lastCheck).value < now - RECOVER_SPAN ==>
      start == now - RECOVER_SPAN
  {
    var earliest := now - RECOVER_SPAN;
    if lastCheck == "" then earliest
    else match ParseIso(lastCheck)
      case None => earliest
      case Some(t) => if t < earliest then earliest else t
  }

  /** The first scanned instant: `start` with its minute floored to a multiple
      of fifteen and the seconds cleared, moved one `time_interval` on when
      that falls before `start`. */
  function FirstSlot(start: Instant): (pt: Instant)
    ensures pt % STEP == 0 && start <= pt < start + STEP
  {
    Floored(start);
    var floor := AtMinute(start, MinuteOf(start) / 15 * 15);
    if floor < start then floor + STEP else floor
  }

  // The ledger state.

  /** The fields of the history document. */
  datatype History = History(downloaded: seq<string>, lastDownload: string, lastCheck: string)

  /** Everything the engine reads and writes. */
  datatype Engine = Engine(
    files: Files,
    replies: seq<Reply>,
    history: History,
    saved: Option<History>,     // the history file as last written, when known
    failed: map<string, Instant>)

  /** `twelve_hours_ago` of `add_download_history`: `%Y%m%d%H%M` twelve hours back. */
  function Cutoff(now: Instant): string {
    Stamp12(Earliest(now))
  }

  /** `earliest_dt`: twelve hours back. */
  function Earliest(now: Instant): Instant {
    now - RECOVER_SPAN
  }

  function ReadClock(now: Instant): Now {
    Now(now, Iso(now), Cutoff(now))
  }

  /** The default history of `load_download_history`. */
  function DefaultHistory(now: Instant): History {
    History([], Iso(now - RECOVER_SPAN), "")
  }

  /** `load_download_history`: the history, and whether the default was saved. */
  function Loaded(stored: Stored, now: Instant): (History, bool) {
    match stored
    case Doc(d, l, c) =>
      var default := DefaultHistory(now);
      (History(d.GetOr(default.downloaded), l.GetOr(default.lastDownload), c.GetOr(default.lastCheck)), false)
    case _ => (DefaultHistory(now), true)
  }

  /** The document `save_download_history` writes for `h`. */
  function Saved(h: History): Stored {
    Doc(Some(h.downloaded), Some(h.lastDownload), Some(h.lastCheck))
  }

  /** Loading what was saved gives the same history back and saves nothing; a
      missing or unreadable file gives the default, which is saved. */
  lemma LoadSaved(h: History, now: Instant)
    ensures Loaded(Saved(h), now) == (h, false)
    ensures Loaded(Absent, now) == Loaded(Unreadable, now) == (DefaultHistory(now), true)
    ensures DefaultHistory(now).downloaded == [] && DefaultHistory(now).lastCheck == ""
  {
  }

  /** `add_download_history`: records `key`, stamps both checkpoints with the
      clock reading and saves the history file. */
  function Record(e: Engine, key: string, n: Now): (r: Engine)
    ensures r.files == e.files && r.replies == e.replies && r.failed == e.failed
    ensures r.saved == Some(r.history)
    ensures r.history.lastDownload == n.iso && r.history.lastCheck == n.iso
    ensures key in e.history.downloaded ==> r.history.downloaded == e.history.downloaded
    ensures key !in e.history.downloaded ==>
      forall x :: x in r.history.downloaded <==> (x in e.history.downloaded || x == key) && LexLe(n.cutoff, x)
    ensures NoDup(e.history.downloaded) ==> NoDup(r.history.downloaded)
  {
    RecordedNoDup(e.history.downloaded, key, n.cutoff);
    var h := History(Recorded(e.history.downloaded, key, n.cutoff), n.iso, n.iso);
    e.(history := h, saved := Some(h))
  }

  /** `is_downloaded`: a valid file on disk counts, and is recorded on the way
      (both checkpoints stamped and the history saved); otherwise the history
      decides.  The validator's effect on the files is kept: a short file or one
      with the wrong signature is deleted. */
  function Seen(e: Engine, key: string, n: Now): (r: (bool, Engine))
    ensures r.0 <==> Validation(e.files, SavePath(key), RULE).valid || key in e.history.downloaded
    ensures r.1.replies == e.replies && r.1.failed == e.failed
    ensures r.1.files == Validation(e.files, SavePath(key), RULE).files
    ensures !Validation(e.files, SavePath(key), RULE).valid ==> r.1.history == e.history && r.1.saved == e.saved
    ensures Validation(e.files, SavePath(key), RULE).valid ==>
      r.1.history == Record(e, key, n).history && r.1.saved == Some(r.1.history) &&
      r.1.history.lastDownload == n.iso && r.1.history.lastCheck == n.iso
    ensures LexLe(n.cutoff, key) ==> (r.0 <==> key in r.1.history.downloaded)
    ensures forall k :: k != key && LexLe(n.cutoff, k) ==>
      (k in r.1.history.downloaded <==> k in e.history.downloaded)
  {
    var c := Validation(e.files, SavePath(key), RULE);
    if c.valid then (true, Record(e, key, n))
    else (key in e.history.downloaded, e.(files := c.files))
  }

  /** The outcome of one `download_file` call, with the number of GETs it made. */
  datatype Download = Download(verdict: Verdict, engine: Engine, gets: nat)

  /** `download_file(url, key, history)`; which URL is requested does not
      affect the state. */
  function Fetching(e: Engine, key: string, n: Now): Download {
    var path := SavePath(key);
    var c := Validation(e.files, path, RULE);
    if c.valid then Download(Fetched, Record(e, key, n), 0)
    else
      var r := Attempts(c.files, e.replies, path, RULE, 0);
      var e1 := e.(files := r.files, replies := r.replies);
      Download(r.verdict, if r.verdict == Fetched then Record(e1, key, n) else e1, r.attempts)
  }

  /** What one `download_file` call promises.  A valid file already on disk is
      a success without any request.  Otherwise it makes one to three GETs, and
      three when it fails.  A success leaves a passing file at the save path and
      a saved history stamped with the clock reading.  On failure or Ctrl-C the
      history is unchanged, and a Ctrl-C at the GET or in the stream leaves no
      file below the minimum size.
      Only the save path changes on disk, and the failed-task map is never
      touched. */
  lemma FetchingFacts(e: Engine, key: string, n: Now)
    ensures var d := Fetching(e, key, n); var path := SavePath(key); var r := d.engine;
      d.gets <= MAX_RETRIES &&
      r.failed == e.failed && r.files - {path} == e.files - {path} &&
      (Validation(e.files, path, RULE).valid ==> d.verdict == Fetched && d.gets == 0 && r.files == e.files) &&
      (!Validation(e.files, path, RULE).valid ==> d.gets >= 1) &&
      (d.verdict == Fetched ==>
         path in r.files && Passes(r.files[path], RULE) &&
         r.saved == Some(r.history) && r.history.lastDownload == n.iso &&
         (LexLe(n.cutoff, key) ==> key in r.history.downloaded)) &&
      (d.verdict == Failed ==> d.gets == MAX_RETRIES && r.history == e.history && r.saved == e.saved) &&
      (d.verdict == Cancelled ==>
         r.history == e.history && (path !in r.files || |r.files[path]| >= RULE.minSize)) &&
      (forall k :: k != key && LexLe(n.cutoff, k) ==>
         (k in r.history.downloaded <==> k in e.history.downloaded))
  {
    var path := SavePath(key);
    var c := Validation(e.files, path, RULE);
    ValidationOutcomes(e.files, path, RULE);
    ValidationFrame(e.files, path, RULE);
    if !c.valid {
      AttemptsCount(c.files, e.replies, path, RULE, 0);
      AttemptsFailed(c.files, e.replies, path, RULE, 0);
      AttemptsFrame(c.files, e.replies, path, RULE, 0);
      AttemptsFetched(c.files, e.replies, path, RULE, 0);
      AttemptsCancelled(c.files, e.replies, path, RULE, 0);
    }
  }

  // The backfill scan: `generate_missing_images`.

  /** The instants the `while` loop visits: from `pt` every `time_interval`
      minutes while not past `threshold`. */
  function Grid(pt: Instant, threshold: Instant): (g: seq<Instant>)
    ensures forall i :: 0 <= i < |g| ==> pt <= g[i] <= threshold && g[i] % STEP == pt % STEP
    ensures forall i, j :: 0 <= i < j < |g| ==> g[i] + STEP <= g[j]
    decreases threshold - pt
  {
    if pt > threshold then [] else [pt] + Grid(pt + STEP, threshold)
  }

  /** Where a grid instant sits in the grid. */
  lemma {:induction false} GridIndex(pt: Instant, threshold: Instant, q: Instant) returns (i: nat)
    requires pt <= q <= threshold && q % STEP == pt % STEP
    ensures i < |Grid(pt, threshold)| && Grid(pt, threshold)[i] == q
    decreases threshold - pt
  {
    if q == pt {
      i := 0;
    } else {
      assert pt + STEP <= q && q % STEP == (pt + STEP) % STEP;
      var j := GridIndex(pt + STEP, threshold, q);
      i := j + 1;
    }
  }

  lemma GridMember(pt: Instant, threshold: Instant, x: Instant)
    requires x in Grid(pt, threshold)
    ensures pt <= x <= threshold && x % STEP == pt % STEP
  {
    var g := Grid(pt, threshold);
    var i :| 0 <= i < |g| && g[i] == x;
  }

  /** The history keys of the visited instants. */
  function Keys(g: seq<Instant>): (ks: seq<string>)
    ensures |ks| == |g|
  {
    if g == [] then [] else [Stamp12(g[0])] + Keys(g[1..])
  }

  lemma {:induction false} KeysAt(g: seq<Instant>, i: nat)
    requires i < |g|
    ensures Keys(g)[i] == Stamp12(g[i])
  {
    if i > 0 {
      KeysAt(g[1..], i - 1);
    }
  }

  /** The loop over instants `slots` with keys `keys`: the instants found
      missing, and the state after the `is_downloaded` calls it makes. */
  function ScanKeys(e: Engine, slots: seq<Instant>, keys: seq<string>, n: Now): (r: (seq<Instant>, Engine))
    requires |slots| == |keys|
    ensures forall x :: x in r.0 ==> x in slots
    ensures Ascending(slots) ==> Ascending(r.0)
    ensures r.1.replies == e.replies && r.1.failed == e.failed
    decreases |slots|
  {
    if slots == [] then ([], e)
    else
      var s := Seen(e, keys[0], n);
      var rest := ScanKeys(s.1, slots[1..], keys[1..], n);
      assert Ascending(slots) ==> Ascending([slots[0]] + rest.0) by {
        if Ascending(slots) {
          AscendingPrepend(slots[0], slots[1..], rest.0);
        }
      }
      (if s.0 then rest.0 else [slots[0]] + rest.0, rest.1)
  }

  /** `generate_missing_images(history)`: the missing instants, and the state after. */
  function Missing(e: Engine, n: Now): (seq<Instant>, Engine) {
    var g := ScanGrid(e.history.lastCheck, n.at);
    ScanKeys(e, g, Keys(g), n)
  }

  /** The instants `generate_missing_images` visits. */
  function ScanGrid(lastCheck: string, now: Instant): seq<Instant> {
    Grid(FirstSlot(ScanStart(lastCheck, now)), now - DOWNLOAD_OFFSET)
  }

  /** The scan never adds or drops a recent key it does not visit. */
  lemma {:induction false} ScanKeysKeep(e: Engine, slots: seq<Instant>, keys: seq<string>, n: Now, k: string)
    requires |slots| == |keys| && k !in keys && LexLe(n.cutoff, k)
    ensures k in ScanKeys(e, slots, keys, n).1.history.downloaded <==> k in e.history.downloaded
    decreases |slots|
  {
    if slots != [] {
      var s := Seen(e, keys[0], n);
      ScanKeysKeep(s.1, slots[1..], keys[1..], n, k);
    }
  }

  /** Over distinct recent keys, the scan reports exactly the instants whose
      key is not in the history it leaves behind. */
  lemma {:induction false} ScanKeysComplete(e: Engine, slots: seq<Instant>, keys: seq<string>, n: Now, i: nat)
    requires |slots| == |keys| && Ascending(slots) && NoDup(keys)
    requires forall k :: k in keys ==> LexLe(n.cutoff, k)
    requires i < |slots|
    ensures var r := ScanKeys(e, slots, keys, n); slots[i] in r.0 <==> keys[i] !in r.1.history.downloaded
    decreases |slots|
  {
    var s := Seen(e, keys[0], n);
    var rest := ScanKeys(s.1, slots[1..], keys[1..], n);
    assert NoDup(keys[1..]);
    if i == 0 {
      assert keys[0] in keys;
      assert keys[0] !in keys[1..];
      assert slots[0] !in rest.0;
      ScanKeysKeep(s.1, slots[1..], keys[1..], n, keys[0]);
    } else {
      assert slots[i] != slots[0];
      assert forall k :: k in keys[1..] ==> k in keys;
      ScanKeysComplete(s.1, slots[1..], keys[1..], n, i - 1);
    }
  }

  /** Keys of instants at least a minute apart differ. */
  lemma KeysDiffer(a: Instant, b: Instant)
    requires InEra(a) && InEra(b) && a + MINUTE <= b
    ensures Stamp12(a) != Stamp12(b)
  {
    MinuteApart(a, b);
    Stamp12Order(a, b);
  }

  lemma MinuteApart(a: Instant, b: Instant)
    requires a + MINUTE <= b
    ensures a / MINUTE < b / MINUTE
  {
  }

  /** An instant's key is not below the key of an earlier instant. */
  lemma KeyNotBelow(a: Instant, b: Instant)
    requires InEra(a) && InEra(b) && a <= b
    ensures LexLe(Stamp12(a), Stamp12(b))
  {
    MinuteMonotone(a, b);
    Stamp12Order(a, b);
  }

  lemma MinuteMonotone(a: Instant, b: Instant)
    requires a <= b
    ensures a / MINUTE <= b / MINUTE
  {
  }

  /** The key of an instant of the last twelve hours is never pruned. */
  lemma InCutoff(q: Instant, now: Instant)
    requires Era(now) && now - RECOVER_SPAN <= q <= now
    ensures LexLe(Cutoff(now), Stamp12(q))
  {
    KeyNotBelow(Earliest(now), q);
  }

  /** The keys of a scan inside the last twelve hours are distinct and recent. */
  lemma GridKeys(pt: Instant, threshold: Instant, now: Instant)
    requires Era(now) && Earliest(now) <= pt && threshold <= now
    ensures var g := Grid(pt, threshold); var ks := Keys(g);
      Ascending(g) && NoDup(ks) && forall k :: k in ks ==> LexLe(Cutoff(now), k)
  {
    var g := Grid(pt, threshold);
    var ks := Keys(g);
    forall i, j | 0 <= i < j < |ks| ensures ks[i] != ks[j] {
      KeysAt(g, i);
      KeysAt(g, j);
      KeysDiffer(g[i], g[j]);
    }
    forall k | k in ks ensures LexLe(Cutoff(now), k) {
      var i :| 0 <= i < |ks| && ks[i] == k;
      KeysAt(g, i);
      InCutoff(g[i], now);
    }
  }

  /** A scan of the grid from `pt` to `threshold` inside the last twelve hours
      reports exactly the grid instants whose key it leaves unrecorded. */
  lemma GridComplete(e: Engine, pt: Instant, threshold: Instant, n: Now, q: Instant)
    requires Era(n.at) && n.cutoff == Cutoff(n.at) && Earliest(n.at) <= pt && threshold <= n.at
    requires pt <= q <= threshold && q % STEP == pt % STEP
    ensures var g := Grid(pt, threshold); var r := ScanKeys(e, g, Keys(g), n);
      q in r.0 <==> Stamp12(q) !in r.1.history.downloaded
  {
    var g := Grid(pt, threshold);
    GridKeys(pt, threshold, n.at);
    var i := GridIndex(pt, threshold, q);
    KeysAt(g, i);
    ScanKeysComplete(e, g, Keys(g), n, i);
  }

  /** `generate_missing_images` lists, in ascending order, exactly the quarter
      hours from the scan start to `now - 1h` that are not recorded afterwards. */
  lemma MissingComplete(e: Engine, n: Now, q: Instant)
    requires Era(n.at) && n.cutoff == Cutoff(n.at)
    ensures var m := Missing(e, n); var first := FirstSlot(ScanStart(e.history.lastCheck, n.at));
      (forall x :: x in m.0 ==> first <= x <= n.at - DOWNLOAD_OFFSET && x % STEP == 0) &&
      Ascending(m.0) &&
      (q % STEP == 0 && first <= q <= n.at - DOWNLOAD_OFFSET ==> (q in m.0 <==> Stamp12(q) !in m.1.history.downloaded))
  {
    var first := FirstSlot(ScanStart(e.history.lastCheck, n.at));
    var threshold := n.at - DOWNLOAD_OFFSET;
    ScanGridAt(e.history.lastCheck, n.at, first, threshold);
    MissingAt(e, n, first, threshold);
    ScanOnGrid(e, n, first, threshold, q);
  }

  /** The visited instants are the grid from the first slot to `now - 1h`. */
  lemma ScanGridAt(lastCheck: string, now: Instant, first: Instant, threshold: Instant)
    requires first == FirstSlot(ScanStart(lastCheck, now)) && threshold == now - DOWNLOAD_OFFSET
    ensures ScanGrid(lastCheck, now) == Grid(first, threshold)
  {
  }

  /** `generate_missing_images` is the scan over that grid. */
  lemma MissingAt(e: Engine, n: Now, first: Instant, threshold: Instant)
    requires ScanGrid(e.history.lastCheck, n.at) == Grid(first, threshold)
    ensures var g := Grid(first, threshold); Missing(e, n) == ScanKeys(e, g, Keys(g), n)
  {
  }

  /** `MissingComplete` for a grid from `first`, a quarter hour of the last
      twelve hours, up to `threshold`. */
  lemma ScanOnGrid(e: Engine, n: Now, first: Instant, threshold: Instant, q: Instant)
    requires Era(n.at) && n.cutoff == Cutoff(n.at) && Earliest(n.at) <= first && threshold <= n.at
    requires first % STEP == 0
    ensures var g := Grid(first, threshold); var m := ScanKeys(e, g, Keys(g), n);
      (forall x :: x in m.0 ==> first <= x <= threshold && x % STEP == 0) &&
      Ascending(m.0) &&
      (q % STEP == 0 && first <= q <= threshold ==> (q in m.0 <==> Stamp12(q) !in m.1.history.downloaded))
  {
    var g := Grid(first, threshold);
    GridKeys(first, threshold, n.at);
    var m := ScanKeys(e, g, Keys(g), n);
    forall x | x in m.0 ensures first <= x <= threshold && x % STEP == 0 {
      GridMember(first, threshold, x);
    }
    if q % STEP == 0 && first <= q <= threshold {
      GridComplete(e, first, threshold, n, q);
    }
  }

  // The backfill: `execute_recover_download`.

  /** The tasks of the missing instants, as `generate_url_by_time` builds them. */
  function Tasks(slots: seq<Instant>): (ts: seq<Task>)
    ensures |ts| == |slots|
  {
    Mapped(UrlByTime, slots)
  }

  lemma TaskKey(slots: seq<Instant>, i: nat)
    requires i < |slots|
    ensures Tasks(slots)[i] == UrlByTime(slots[i]) && Tasks(slots)[i].key == Stamp12(slots[i])
  {
  }

  /** One pass of the `for` loop: a key already in the failed-task map is
      skipped; otherwise the task is downloaded and, on failure, entered in
      the map at the clock reading.  The flag says whether Ctrl-C ended it. */
  function Step(e: Engine, t: Task, n: Now): (bool, Engine) {
    if t.key in e.failed then (false, e)
    else
      var d := Fetching(e, t.key, n);
      if d.verdict == Cancelled then (true, d.engine)
      else if d.verdict == Fetched then (false, d.engine)
      else (false, d.engine.(failed := d.engine.failed[t.key := n.at]))
  }

  /** What one pass promises: unless interrupted, its key ends up recorded (when
      recent) or failed.  A failed key keeps its failure time, a new failed key
      is this task's key stamped with the clock reading, and a recent recorded
      key stays recorded. */
  lemma StepFacts(e: Engine, t: Task, n: Now)
    ensures var s := Step(e, t, n);
      (!s.0 ==> t.key in s.1.failed || (LexLe(n.cutoff, t.key) ==> t.key in s.1.history.downloaded)) &&
      (forall k :: k in e.failed ==> k in s.1.failed && s.1.failed[k] == e.failed[k]) &&
      (forall k :: k in s.1.failed && k !in e.failed ==> k == t.key && s.1.failed[k] == n.at) &&
      (forall k :: LexLe(n.cutoff, k) && k in e.history.downloaded ==> k in s.1.history.downloaded)
  {
    if t.key !in e.failed {
      FetchingFacts(e, t.key, n);
    }
  }

  /** The `for` loop over the missing tasks: whether Ctrl-C ended it, and the state. */
  function RecoverTasks(e: Engine, tasks: seq<Task>, n: Now): (bool, Engine)
    decreases |tasks|
  {
    if tasks == [] then (false, e)
    else
      var s := Step(e, tasks[0], n);
      if s.0 then s else RecoverTasks(s.1, tasks[1..], n)
  }

  /** `execute_recover_download(history)`. */
  function Recover(e: Engine, n: Now): (bool, Engine) {
    var m := Missing(e, n);
    RecoverTasks(m.1, Tasks(m.0), n)
  }

  /** The backfill never drops a failed key nor changes its failure time, and
      every key it adds failed at the clock reading and belongs to a task. */
  lemma {:induction false} RecoverFailed(e: Engine, tasks: seq<Task>, n: Now, k: string)
    ensures var r := RecoverTasks(e, tasks, n).1;
      (k in e.failed ==> k in r.failed && r.failed[k] == e.failed[k]) &&
      (k in r.failed && k !in e.failed ==> r.failed[k] == n.at && exists i :: 0 <= i < |tasks| && tasks[i].key == k)
    decreases |tasks|
  {
    if tasks != [] {
      var s := Step(e, tasks[0], n);
      StepFacts(e, tasks[0], n);
      if !s.0 {
        RecoverFailed(s.1, tasks[1..], n, k);
        var r := RecoverTasks(s.1, tasks[1..], n).1;
        if k in r.failed && k !in s.1.failed {
          var i :| 0 <= i < |tasks[1..]| && tasks[1..][i].key == k;
          assert tasks[i + 1].key == k;
        }
      }
      if k !in e.failed && k in s.1.failed {
        assert tasks[0].key == k;
      }
    }
  }

  /** Whatever the backfill does, a recent recorded key stays recorded. */
  lemma {:induction false} RecoverKeeps(e: Engine, tasks: seq<Task>, n: Now, k: string)
    requires LexLe(n.cutoff, k) && k in e.history.downloaded
    ensures k in RecoverTasks(e, tasks, n).1.history.downloaded
    decreases |tasks|
  {
    if tasks != [] {
      var s := Step(e, tasks[0], n);
      StepFacts(e, tasks[0], n);
      if !s.0 {
        RecoverKeeps(s.1, tasks[1..], n, k);
      }
    }
  }

  /** After a backfill that was not interrupted every recent task key is
      recorded or waiting in the failed-task map. */
  lemma {:induction false} RecoverCovers(e: Engine, tasks: seq<Task>, n: Now, i: nat)
    requires i < |tasks| && LexLe(n.cutoff, tasks[i].key)
    ensures var r := RecoverTasks(e, tasks, n);
      !r.0 ==> tasks[i].key in r.1.failed || tasks[i].key in r.1.history.downloaded
    decreases |tasks|
  {
    var s := Step(e, tasks[0], n);
    StepFacts(e, tasks[0], n);
    if !s.0 {
      if i == 0 {
        var k := tasks[0].key;
        if k in s.1.failed {
          RecoverFailed(s.1, tasks[1..], n, k);
        } else {
          RecoverKeeps(s.1, tasks[1..], n, k);
        }
      } else {
        assert tasks[1..][i - 1] == tasks[i];
        RecoverCovers(s.1, tasks[1..], n, i - 1);
      }
    }
  }

  /** After a start-up backfill that was not interrupted, every quarter hour
      from the scan start to an hour ago is recorded or waiting in the
      failed-task map. */
  lemma BackfillCovers(e: Engine, n: Now, q: Instant)
    requires Era(n.at) && n.cutoff == Cutoff(n.at)
    requires q % STEP == 0 && FirstSlot(ScanStart(e.history.lastCheck, n.at)) <= q <= n.at - DOWNLOAD_OFFSET
    ensures var r := Recover(e, n);
      !r.0 ==> Stamp12(q) in r.1.failed || Stamp12(q) in r.1.history.downloaded
  {
    var m := Missing(e, n);
    var tasks := Tasks(m.0);
    MissingComplete(e, n, q);
    InCutoff(q, n.at);
    if q in m.0 {
      var i :| 0 <= i < |m.0| && m.0[i] == q;
      TaskKey(m.0, i);
      RecoverCovers(m.1, tasks, n, i);
    } else {
      RecoverKeeps(m.1, tasks, n, Stamp12(q));
    }
  }

  // The retry sweep of the main loop.

  /** A failed key is due for a retry ten minutes after its failure. */
  predicate Due(failed: map<string, Instant>, k: string, at: Instant) {
    k in failed && at - failed[k] >= FAILED_RETRY_DELAY
  }

  /** The instant a due key is retried at: its key must parse as `%Y%m%d%H%M`
      and be no older than twelve hours. */
  function RetryTarget(k: string, at: Instant): Option<Instant> {
    match ParseStamp12(k)
    case None => None
    case Some(pt) => if pt >= Earliest(at) then Some(pt) else None
  }

  /** The state of the sweep: whether Ctrl-C ended it, the engine, and the
      keys put on `tasks_to_remove` and retried so far. */
  datatype Sweep = Sweep(cancelled: bool, engine: Engine, removed: seq<string>, retried: seq<string>)

  /** The `for` loop over `failed_tasks.items()` in iteration order `order`. */
  function SweepKeys(e: Engine, order: seq<string>, n: Now, removed: seq<string>, retried: seq<string>): Sweep
    decreases |order|
  {
    if order == [] then Sweep(false, e, removed, retried)
    else
      var k := order[0];
      if !Due(e.failed, k, n.at) then SweepKeys(e, order[1..], n, removed, retried)
      else if RetryTarget(k, n.at).None? then SweepKeys(e, order[1..], n, removed + [k], retried)
      else
        var d := Fetching(e, k, n);
        if d.verdict == Cancelled then Sweep(true, d.engine, removed, retried + [k])
        else SweepKeys(d.engine, order[1..], n, removed + [k], retried + [k])
  }

  /** One pass of the sweep loop. */
  function SweepStep(e: Engine, k: string, n: Now, removed: seq<string>, retried: seq<string>): Sweep {
    if !Due(e.failed, k, n.at) then Sweep(false, e, removed, retried)
    else if RetryTarget(k, n.at).None? then Sweep(false, e, removed + [k], retried)
    else
      var d := Fetching(e, k, n);
      if d.verdict == Cancelled then Sweep(true, d.engine, removed, retried + [k])
      else Sweep(false, d.engine, removed + [k], retried + [k])
  }

  /** The sweep loop is its passes in order, stopping at Ctrl-C. */
  lemma SweepKeysStep(e: Engine, order: seq<string>, n: Now, removed: seq<string>, retried: seq<string>)
    requires order != []
    ensures var s := SweepStep(e, order[0], n, removed, retried);
      SweepKeys(e, order, n, removed, retried) ==
        if s.cancelled then s else SweepKeys(s.engine, order[1..], n, s.removed, s.retried)
  {
  }

  /** The sweep: the loop, then the removal of `tasks_to_remove` unless Ctrl-C
      ended the loop. */
  function RetrySweep(e: Engine, order: seq<string>, n: Now): Sweep {
    var s := SweepKeys(e, order, n, [], []);
    if s.cancelled then s
    else s.(engine := s.engine.(failed := s.engine.failed - (set k | k in s.removed)))
  }

  /** The loop leaves the failed-task map alone, keeps the keys already
      retried, and retries only due keys that parse and are recent. */
  lemma {:induction false} SweepFrame(e: Engine, order: seq<string>, n: Now, removed: seq<string>, retried: seq<string>)
    ensures var r := SweepKeys(e, order, n, removed, retried);
      r.engine.failed == e.failed &&
      (forall k :: k in retried ==> k in r.retried) &&
      (forall k :: k in r.retried ==> k in retried || (k in order && Due(e.failed, k, n.at) && RetryTarget(k, n.at).Some?))
    decreases |order|
  {
    if order != [] {
      var k := order[0];
      if !Due(e.failed, k, n.at) {
        SweepFrame(e, order[1..], n, removed, retried);
      } else if RetryTarget(k, n.at).None? {
        SweepFrame(e, order[1..], n, removed + [k], retried);
      } else {
        var d := Fetching(e, k, n);
        FetchingFacts(e, k, n);
        if d.verdict != Cancelled {
          SweepFrame(d.engine, order[1..], n, removed + [k], retried + [k]);
        }
      }
    }
  }

  /** A loop that runs to the end has put on `tasks_to_remove` exactly the
      due keys and retried exactly the due keys that parse and are recent. */
  lemma {:induction false} SweepComplete(e: Engine, order: seq<string>, n: Now, removed: seq<string>, retried: seq<string>)
    ensures var r := SweepKeys(e, order, n, removed, retried);
      !r.cancelled ==>
        (forall k :: k in r.removed <==> k in removed || (k in order && Due(e.failed, k, n.at))) &&
        (forall k :: k in r.retried <==> k in retried || (k in order && Due(e.failed, k, n.at) && RetryTarget(k, n.at).Some?))
    decreases |order|
  {
    if order != [] {
      var k := order[0];
      if !Due(e.failed, k, n.at) {
        SweepComplete(e, order[1..], n, removed, retried);
      } else if RetryTarget(k, n.at).None? {
        SweepComplete(e, order[1..], n, removed + [k], retried);
      } else {
        var d := Fetching(e, k, n);
        FetchingFacts(e, k, n);
        if d.verdict != Cancelled {
          SweepComplete(d.engine, order[1..], n, removed + [k], retried + [k]);
        }
      }
    }
  }

  /** Over distinct keys each key is retried at most once. */
  lemma {:induction false} SweepOnce(e: Engine, order: seq<string>, n: Now, removed: seq<string>, retried: seq<string>)
    requires NoDup(order) && NoDup(retried) && forall k :: k in retried ==> k !in order
    ensures NoDup(SweepKeys(e, order, n, removed, retried).retried)
    decreases |order|
  {
    if order != [] {
      var k := order[0];
      var rest := order[1..];
      assert NoDup(rest) && k !in rest && forall x :: x in rest ==> x in order;
      if !Due(e.failed, k, n.at) {
        SweepOnce(e, rest, n, removed, retried);
      } else if RetryTarget(k, n.at).None? {
        SweepOnce(e, rest, n, removed + [k], retried);
      } else {
        var d := Fetching(e, k, n);
        NoDupSnoc(retried, k);
        if d.verdict != Cancelled {
          SweepOnce(d.engine, rest, n, removed + [k], retried + [k]);
        }
      }
    }
  }

  /** A recent key the loop does not retry keeps its place in the history. */
  lemma {:induction false} SweepKeeps(e: Engine, order: seq<string>, n: Now, removed: seq<string>, retried: seq<string>, k: string)
    requires LexLe(n.cutoff, k) && k !in SweepKeys(e, order, n, removed, retried).retried
    ensures k in SweepKeys(e, order, n, removed, retried).engine.history.downloaded <==> k in e.history.downloaded
    decreases |order|
  {
    if order != [] {
      var x := order[0];
      if !Due(e.failed, x, n.at) {
        SweepKeeps(e, order[1..], n, removed, retried, k);
      } else if RetryTarget(x, n.at).None? {
        SweepKeeps(e, order[1..], n, removed + [x], retried, k);
      } else {
        var d := Fetching(e, x, n);
        FetchingFacts(e, x, n);
        if d.verdict != Cancelled {
          SweepFrame(d.engine, order[1..], n, removed + [x], retried + [x]);
          SweepKeeps(d.engine, order[1..], n, removed + [x], retried + [x], k);
        } else {
          assert SweepKeys(e, order, n, removed, retried) == Sweep(true, d.engine, removed, retried + [x]);
          assert k != x;
        }
      }
    }
  }

  /** The sweep over all failed keys: an interrupted sweep changes no entry; a
      complete one drops exactly the due entries and keeps the others with
      their failure times; keys that are not due are never downloaded. */
  lemma RetrySweepFacts(e: Engine, order: seq<string>, n: Now)
    requires forall k :: k in order <==> k in e.failed
    ensures var r := RetrySweep(e, order, n);
      (forall k :: k in r.retried ==> Due(e.failed, k, n.at) && RetryTarget(k, n.at).Some?) &&
      (!r.cancelled ==> forall k :: k in r.retried <==> Due(e.failed, k, n.at) && RetryTarget(k, n.at).Some?) &&
      (r.cancelled ==> r.engine.failed == e.failed) &&
      (!r.cancelled ==> forall k :: k in r.engine.failed <==> k in e.failed && !Due(e.failed, k, n.at)) &&
      (forall k :: k in r.engine.failed ==> r.engine.failed[k] == e.failed[k]) &&
      (NoDup(order) ==> NoDup(r.retried))
  {
    SweepFrame(e, order, n, [], []);
    SweepComplete(e, order, n, [], []);
    if NoDup(order) {
      SweepOnce(e, order, n, [], []);
    }
  }

  // The real-time check of the main loop.

  /** The real-time step: the target quarter hour is downloaded unless it is
      already there; a failure enters it in the failed-task map at the clock
      reading, whether or not it was there before. */
  function RealTime(e: Engine, n: Now): (bool, Engine) {
    var pt := RealTimeTarget(n.at);
    if !(Earliest(n.at) <= pt <= n.at - DOWNLOAD_OFFSET) then (false, e)
    else
      var key := Stamp12(pt);
      var s := Seen(e, key, n);
      if s.0 then (false, s.1)
      else
        var d := Fetching(s.1, key, n);
        if d.verdict == Cancelled then (true, d.engine)
        else if d.verdict == Failed then (false, d.engine.(failed := d.engine.failed[key := n.at]))
        else (false, d.engine)
  }

  /** Unless interrupted, the real-time step leaves the target key recorded or
      failed at the clock reading; no other failed entry changes.  A recorded
      key or a valid file on disk means no request at all. */
  lemma RealTimeCovers(e: Engine, n: Now)
    requires Era(n.at) && n.cutoff == Cutoff(n.at)
    ensures var r := RealTime(e, n); var key := Stamp12(RealTimeTarget(n.at));
      (!r.0 ==> key in r.1.history.downloaded || (key in r.1.failed && r.1.failed[key] == n.at)) &&
      (forall k :: k != key ==> (k in r.1.failed <==> k in e.failed)) &&
      (forall k :: k != key && k in e.failed ==> r.1.failed[k] == e.failed[k]) &&
      (key in e.history.downloaded || Validation(e.files, SavePath(key), RULE).valid ==>
         !r.0 && r.1.replies == e.replies && r.1.failed == e.failed)
  {
    var pt := RealTimeTarget(n.at);
    var key := Stamp12(pt);
    InCutoff(pt, n.at);
    var s := Seen(e, key, n);
    if !s.0 {
      FetchingFacts(s.1, key, n);
    }
  }

  // One step of the main loop's control.

  /** What one pass of the main loop does after the progress refresh: the
      sweep when the failed-task map is not empty, then the real-time check
      when it is due.  The flag says whether Ctrl-C ended the pass, and the
      last component is the time of the next real-time check. */
  function Pass(e: Engine, nextCheck: Instant, order: seq<string>, n: Now): (r: (bool, Engine, Instant))
  {
    var s := if e.failed == map[] then Sweep(false, e, [], []) else RetrySweep(e, order, n);
    if s.cancelled then (true, s.engine, nextCheck)
    else if n.at < nextCheck then (false, s.engine, nextCheck)
    else
      var t := RealTime(s.engine, n);
      (t.0, t.1, if t.0 then nextCheck else n.at + CHECK_INTERVAL)
  }

  /** The scan loop from grid point `pt` up to `threshold`, one point at a time;
      `key` names the history entry of a grid point, and is `Stamp12` in the
      script. */
  function ScanFrom(e: Engine, pt: Instant, threshold: Instant, n: Now, key: Instant -> string): (seq<Instant>, Engine)
    decreases threshold - pt
  {
    if pt > threshold then ([], e)
    else
      var s := Seen(e, key(pt), n);
      var rest := ScanFrom(s.1, pt + STEP, threshold, n, key);
      (if s.0 then rest.0 else [pt] + rest.0, rest.1)
  }

  /** The loop computes the scan of the grid. */
  lemma {:induction false} ScanFromGrid(e: Engine, pt: Instant, threshold: Instant, n: Now)
    ensures var g := Grid(pt, threshold); ScanFrom(e, pt, threshold, n, Stamp12) == ScanKeys(e, g, Keys(g), n)
    decreases threshold - pt
  {
    if pt <= threshold {
      var g := Grid(pt + STEP, threshold);
      assert Grid(pt, threshold) == [pt] + g;
      assert Keys([pt] + g) == [Stamp12(pt)] + Keys(g) by {
        assert ([pt] + g)[1..] == g;
      }
      var s := Seen(e, Stamp12(pt), n);
      var rest := ScanFrom(s.1, pt + STEP, threshold, n, Stamp12);
      assert ScanFrom(e, pt, threshold, n, Stamp12) == (if s.0 then rest.0 else [pt] + rest.0, rest.1);
      ScanKeysCons(e, pt, g, Stamp12(pt), Keys(g), n);
      ScanFromGrid(s.1, pt + STEP, threshold, n);
    }
  }

  /** The scan of `x` then `slots`: `x` is checked first. */
  lemma ScanKeysCons(e: Engine, x: Instant, slots: seq<Instant>, key: string, keys: seq<string>, n: Now)
    requires |slots| == |keys|
    ensures var s := Seen(e, key, n); var rest := ScanKeys(s.1, slots, keys, n);
      ScanKeys(e, [x] + slots, [key] + keys, n) == (if s.0 then rest.0 else [x] + rest.0, rest.1)
  {
    assert ([x] + slots)[1..] == slots && ([key] + keys)[1..] == keys;
  }
}
