/** The GK-2A enhanced infrared downloader (`GK2ADownloader` in GK-2A_Infrared.py).

    Once per wake-up it picks the latest update instant (a listed minute of
    some hour, second zero) that is not after the clock, waits until twenty
    minutes past it, and then fetches that one image unless the file is
    already there; a download shorter than 1024 bytes is taken for an error
    page and deleted.  It then sleeps until twenty minutes past the next
    update instant.

    The script reads the clock afresh inside each helper.  Here the reading
    taken by `get_previous_update_time` (or `get_next_update_time`) is
    `earlier`, and the one taken afterwards in the caller is `now`.
 */
module Infrared {
  import opened Clock
  import opened Host
  import opened Gk2a

  const UPDATE_MINUTES: seq<int> := [0, 20, 40]
  const DOWNLOAD_DELAY_MINUTES: int := 20
  const DELAY: int := DOWNLOAD_DELAY_MINUTES * MINUTE
  const SAVE_DIR: string := "/volume1/Cloud/图片/GK-2A/红外增强图片"
  const PRODUCT: string := "gk2a_ami_le1b_enhc-color-ir105_fd020ge_"
  /** A download below this many bytes is taken for an error page. */
  const MIN_SIZE: int := 1024
  /** `calculate_sleep_time` never sleeps less than a minute. */
  const MIN_SLEEP: int := 60

  // Update instants.

  /** A usable list of update minutes: `max` and `min` need it non-empty,
      `replace(minute=…)` needs each entry to be a minute. */
  predicate Minutes(mins: seq<int>) {
    |mins| > 0 && forall m :: m in mins ==> 0 <= m < 60
  }

  /** An update instant of the list: a listed minute of some hour, second zero. */
  predicate Listed(mins: seq<int>, u: Instant) {
    SecondOf(u) == 0 && MinuteOf(u) in mins
  }

  function Largest(s: seq<int>): (r: int)
    requires |s| > 0
    ensures r in s && forall x :: x in s ==> x <= r
  {
    if |s| == 1 then s[0]
    else
      var t := Largest(s[1..]);
      assert forall x :: x in s ==> x == s[0] || x in s[1..];
      if s[0] >= t then s[0] else t
  }

  function Smallest(s: seq<int>): (r: int)
    requires |s| > 0
    ensures r in s && forall x :: x in s ==> r <= x
  {
    if |s| == 1 then s[0]
    else
      var t := Smallest(s[1..]);
      assert forall x :: x in s ==> x == s[0] || x in s[1..];
      if s[0] <= t then s[0] else t
  }

  /** `[m for m in s if m <= c]`. */
  function AtMost(s: seq<int>, c: int): (r: seq<int>)
    ensures forall x :: x in r <==> x in s && x <= c
  {
    if s == [] then []
    else (if s[0] <= c then [s[0]] else []) + AtMost(s[1..], c)
  }

  /** `[m for m in s if m > c]`. */
  function Above(s: seq<int>, c: int): (r: seq<int>)
    ensures forall x :: x in r <==> x in s && x > c
  {
    if s == [] then []
    else (if s[0] > c then [s[0]] else []) + Above(s[1..], c)
  }

  /** `get_previous_update_time`: the largest listed minute not above the
      current one, in this hour; failing that the largest listed minute of
      the previous hour. */
  function PreviousUpdate(mins: seq<int>, t: Instant): Instant
    requires Minutes(mins)
  {
    var prev := AtMost(mins, MinuteOf(t));
    if prev != [] then AtMinute(t, Largest(prev))
    else AtMinute(t - HOUR, Largest(mins))
  }

  /** `get_next_update_time`: the smallest listed minute above the current
      one, in this hour; failing that the smallest listed minute of the next
      hour. */
  function NextUpdate(mins: seq<int>, t: Instant): Instant
    requires Minutes(mins)
  {
    var next := Above(mins, MinuteOf(t));
    if next != [] then AtMinute(t, Smallest(next))
    else AtMinute(t + HOUR, Smallest(mins))
  }

  /** `get_next_download_time`: twenty minutes after the next update. */
  function NextDownload(t: Instant): Instant {
    NextUpdate(UPDATE_MINUTES, t) + DELAY
  }

  /** `calculate_sleep_time`: until the next download time, at least a minute. */
  function SleepTime(earlier: Instant, now: Instant): (r: int)
    ensures r >= MIN_SLEEP
    ensures r >= NextDownload(earlier) - now
    ensures r > MIN_SLEEP ==> now + r == NextDownload(earlier)
  {
    var s := NextDownload(earlier) - now;
    if s > MIN_SLEEP then s else MIN_SLEEP
  }

  /** The two cases of `PreviousUpdate` as slots of this and the previous hour. */
  lemma PreviousSlot(mins: seq<int>, t: Instant)
    requires Minutes(mins)
    ensures var prev := AtMost(mins, MinuteOf(t));
      PreviousUpdate(mins, t) ==
        if prev != [] then Slot(t / HOUR, Largest(prev)) else Slot(t / HOUR - 1, Largest(mins))
  {
    var prev := AtMost(mins, MinuteOf(t));
    if prev != [] {
      AtMinuteSlot(t, Largest(prev));
    } else {
      AtMinuteSlot(t - HOUR, Largest(mins));
      HourShift(t, -1);
    }
  }

  lemma NextSlot(mins: seq<int>, t: Instant)
    requires Minutes(mins)
    ensures var next := Above(mins, MinuteOf(t));
      NextUpdate(mins, t) ==
        if next != [] then Slot(t / HOUR, Smallest(next)) else Slot(t / HOUR + 1, Smallest(mins))
  {
    var next := Above(mins, MinuteOf(t));
    if next != [] {
      AtMinuteSlot(t, Smallest(next));
    } else {
      AtMinuteSlot(t + HOUR, Smallest(mins));
      HourShift(t, 1);
    }
  }

  /** A listed instant is a slot whose minute is listed. */
  lemma ListedSlot(mins: seq<int>, u: Instant)
    requires Listed(mins, u)
    ensures u == Slot(u / HOUR, MinuteOf(u))
  {
    HourOffset(u);
  }

  /** The previous update is the latest listed instant not after `t`. */
  lemma PreviousUpdateLatest(mins: seq<int>, t: Instant)
    requires Minutes(mins)
    ensures var r := PreviousUpdate(mins, t);
      Listed(mins, r) && r <= t && t < r + HOUR &&
      forall u :: Listed(mins, u) && u <= t ==> u <= r
  {
    var r := PreviousUpdate(mins, t);
    var prev := AtMost(mins, MinuteOf(t));
    var h := t / HOUR;
    PreviousSlot(mins, t);
    HourOffset(t);
    if prev != [] {
      SlotFields(h, Largest(prev));
    } else {
      SlotFields(h - 1, Largest(mins));
    }
    forall u | Listed(mins, u) && u <= t
      ensures u <= r
    {
      ListedSlot(mins, u);
      SlotFields(u / HOUR, MinuteOf(u));
      if u / HOUR == h {
        assert MinuteOf(u) in prev;
      }
    }
  }

  /** The next update is the earliest listed instant after `t`. */
  lemma NextUpdateEarliest(mins: seq<int>, t: Instant)
    requires Minutes(mins)
    ensures var r := NextUpdate(mins, t);
      Listed(mins, r) && t < r && r <= t + HOUR &&
      forall u :: Listed(mins, u) && t < u ==> r <= u
  {
    var r := NextUpdate(mins, t);
    var next := Above(mins, MinuteOf(t));
    var h := t / HOUR;
    NextSlot(mins, t);
    HourOffset(t);
    if next != [] {
      SlotFields(h, Smallest(next));
    } else {
      SlotFields(h + 1, Smallest(mins));
    }
    forall u | Listed(mins, u) && t < u
      ensures r <= u
    {
      ListedSlot(mins, u);
      SlotFields(u / HOUR, MinuteOf(u));
      if u / HOUR == h {
        assert MinuteOf(u) in next;
      }
    }
  }

  /** The next download time is twenty minutes after the earliest update
      instant after `t`, and at most one hour and twenty minutes away. */
  lemma NextDownloadFacts(t: Instant)
    ensures var r := NextDownload(t);
      Listed(UPDATE_MINUTES, r - DELAY) && t + DELAY < r <= t + HOUR + DELAY &&
      forall u :: Listed(UPDATE_MINUTES, u) && t < u ==> r <= u + DELAY
  {
    NextUpdateEarliest(UPDATE_MINUTES, t);
  }

  /** With the script's list the update instants are twenty minutes apart:
      the next one is twenty minutes after the previous one. */
  lemma UpdatesTwentyApart(t: Instant)
    ensures NextUpdate(UPDATE_MINUTES, t) == PreviousUpdate(UPDATE_MINUTES, t) + DELAY
  {
    var m := MinuteOf(t);
    PreviousSlot(UPDATE_MINUTES, t);
    NextSlot(UPDATE_MINUTES, t);
    HourOffset(t);
    ListedAround(m);
  }

  /** The listed minutes around minute `m`: the largest not above it and the
      smallest above it, when there is one. */
  lemma ListedAround(m: int)
    requires 0 <= m < 60
    ensures var prev, next := AtMost(UPDATE_MINUTES, m), Above(UPDATE_MINUTES, m);
      prev != [] && (next != [] ==> Smallest(next) == Largest(prev) + 20) &&
      (next == [] ==> Largest(prev) == 40 && Smallest(UPDATE_MINUTES) == 0)
  {
    if m < 20 {
      assert 0 in AtMost(UPDATE_MINUTES, m) && 20 in Above(UPDATE_MINUTES, m);
    } else if m < 40 {
      assert 20 in AtMost(UPDATE_MINUTES, m) && 40 in Above(UPDATE_MINUTES, m);
    } else {
      assert 40 in AtMost(UPDATE_MINUTES, m) && 0 in UPDATE_MINUTES;
      AboveNone(UPDATE_MINUTES, m);
    }
  }

  lemma {:induction false} AboveNone(s: seq<int>, c: int)
    requires forall x :: x in s ==> x <= c
    ensures Above(s, c) == []
  {
    if s != [] {
      assert s[0] in s;
      assert forall x :: x in s[1..] ==> x in s;
      AboveNone(s[1..], c);
    }
  }

  /** When both readings agree, the sleep ends exactly at the next download
      time, between twenty and forty minutes ahead. */
  lemma SleepUntilDownload(t: Instant)
    ensures var s := SleepTime(t, t); DELAY < s <= 2 * DELAY && t + s == NextDownload(t)
  {
    UpdatesTwentyApart(t);
    PreviousUpdateLatest(UPDATE_MINUTES, t);
    NextUpdateEarliest(UPDATE_MINUTES, t);
  }

  // Names.

  /** `generate_url`. */
  function Url(t: Instant): string {
    ImageUrl(PRODUCT, t)
  }

  /** `get_filename`. */
  function FileName(t: Instant): string {
    ImageName(PRODUCT, t)
  }

  /** The saved file is named after the last segment of the URL it came from. */
  lemma FileNameOfUrl(t: Instant)
    ensures Basename(Url(t)) == FileName(t)
  {
    UrlBasename(PRODUCT, t);
  }

  /** `self.save_dir / filename`. */
  function PathOf(t: Instant): Path {
    SAVE_DIR + "/" + FileName(t)
  }

  /** Different update minutes are kept in different files. */
  lemma PathOfInjective(a: Instant, b: Instant)
    requires InEra(a) && InEra(b) && PathOf(a) == PathOf(b)
    ensures a / MINUTE == b / MINUTE
  {
    var d := SAVE_DIR + "/";
    AppendInjective(d, d, FileName(a), FileName(b));
    ImageNameInjective(PRODUCT, a, b);
    Stamp12Order(a, b);
  }

  // One check.

  /** What `download_image` leaves behind: whether it returned True, whether
      a Ctrl-C escaped from it, and the files. */
  datatype Saved = Saved(ok: bool, interrupted: bool, files: Files)

  /** `download_image(url, filepath)` given the reply to its one GET.  The body
      is read in full before anything is written; `raise_for_status` rejects
      the statuses from 400 to 599. */
  function Image(files: Files, reply: Reply, path: Path): (r: Saved)
    ensures r.ok ==> reply.Response? && reply.end == Complete && r.files == files[path := reply.body]
    ensures !r.ok ==> r.files == files
    ensures r.interrupted <==> reply.Interrupt? || (reply.Response? && reply.end == Interrupted)
    ensures reply.Response? && reply.end == Complete ==> (r.ok <==> !(400 <= reply.status < 600))
    ensures r.ok ==> !r.interrupted
  {
    match reply
    case TransportError => Saved(false, false, files)
    case Interrupt => Saved(false, true, files)
    case Response(status, body, end) =>
      if end.Broken? then Saved(false, false, files)
      else if end.Interrupted? then Saved(false, true, files)
      else if 400 <= status < 600 then Saved(false, false, files)
      else Saved(true, false, files[path := body])
  }

  /** The result of one `check_and_download` past its clock test: its return
      value, whether a Ctrl-C escaped, the files and replies afterwards, and
      how many GETs it made. */
  datatype Check = Check(ok: bool, interrupted: bool, files: Files, replies: seq<Reply>, gets: nat)

  /** `check_and_download` from the existence test on: an existing file is
      success; otherwise one download, and a short file is removed. */
  function Attempted(files: Files, replies: seq<Reply>, update: Instant): Check {
    var path := PathOf(update);
    if path in files then Check(true, false, files, replies, 0)
    else
      var s := Image(files, Head(replies), path);
      if s.ok && |s.files[path]| < MIN_SIZE then Check(false, false, s.files - {path}, Tail(replies), 1)
      else Check(s.ok, s.interrupted, s.files, Tail(replies), 1)
  }

  /** `check_and_download` for the update instant `update`, read against the
      clock at `now`: before twenty minutes past the update it does nothing. */
  function Checked(files: Files, replies: seq<Reply>, update: Instant, now: Instant): Check {
    if now < update + DELAY then Check(false, false, files, replies, 0)
    else Attempted(files, replies, update)
  }

  /** What one check promises: nothing happens before the download time; an
      existing file counts as success without a request; otherwise exactly
      one GET, success only for a complete reply of at least 1024 bytes that
      is then on disk, and no file left behind on failure; no other file is
      touched. */
  lemma CheckFacts(files: Files, replies: seq<Reply>, update: Instant, now: Instant)
    ensures var c := Checked(files, replies, update, now); var path := PathOf(update);
      (now < update + DELAY ==> c == Check(false, false, files, replies, 0)) &&
      (now >= update + DELAY && path in files ==> c == Check(true, false, files, replies, 0)) &&
      (now >= update + DELAY && path !in files ==>
        c.gets == 1 && c.replies == Tail(replies) &&
        (c.ok <==> var r := Head(replies);
           r.Response? && r.end == Complete && !(400 <= r.status < 600) && |r.body| >= MIN_SIZE) &&
        (c.ok ==> c.files == files[path := Head(replies).body]) &&
        (!c.ok ==> c.files == files)) &&
      c.files - {path} == files - {path} &&
      (c.ok ==> path in c.files) &&
      (c.interrupted ==> !c.ok)
  {
    var path := PathOf(update);
    if now >= update + DELAY && path !in files {
      var s := Image(files, Head(replies), path);
      if s.ok && |s.files[path]| < MIN_SIZE {
        assert s.files - {path} == files;
      }
    }
  }

  // The finding: the check as written never downloads.

  /** As written the update instant is the previous one of the first reading
      and the test compares the second reading against twenty minutes past it.
      Twenty minutes past the previous update is the next update, so unless
      the clock passes an update instant between the two readings the check
      always waits, makes no request and changes nothing. */
  lemma NeverDownloads(files: Files, replies: seq<Reply>, earlier: Instant, now: Instant)
    requires now < NextUpdate(UPDATE_MINUTES, earlier)
    ensures Checked(files, replies, PreviousUpdate(UPDATE_MINUTES, earlier), now) ==
      Check(false, false, files, replies, 0)
  {
    UpdatesTwentyApart(earlier);
  }

  /** With a single reading the check never downloads.  At 12:25 the
      previous update is 12:20 and its download time 12:40, for example. */
  lemma NeverDownloadsAt(files: Files, replies: seq<Reply>, t: Instant)
    ensures Checked(files, replies, PreviousUpdate(UPDATE_MINUTES, t), t) == Check(false, false, files, replies, 0)
  {
    NextUpdateEarliest(UPDATE_MINUTES, t);
    NeverDownloads(files, replies, t, t);
  }

  /** The instant the script evidently means: the latest update whose
      twenty-minute delay has passed. */
  function ReadyUpdate(mins: seq<int>, t: Instant): Instant
    requires Minutes(mins)
  {
    PreviousUpdate(mins, t - DELAY)
  }

  /** The ready update is listed, its delay has passed, and it is the latest
      such instant. */
  lemma ReadyUpdateLatest(mins: seq<int>, t: Instant)
    requires Minutes(mins)
    ensures var r := ReadyUpdate(mins, t);
      Listed(mins, r) && r + DELAY <= t && t < r + DELAY + HOUR &&
      forall u :: Listed(mins, u) && u + DELAY <= t ==> u <= r
  {
    PreviousUpdateLatest(mins, t - DELAY);
  }

  /** Checking the ready update never waits: it goes straight to the
      existence test and the download. */
  lemma ReadyNeverWaits(files: Files, replies: seq<Reply>, t: Instant)
    ensures Checked(files, replies, ReadyUpdate(UPDATE_MINUTES, t), t) ==
      Attempted(files, replies, ReadyUpdate(UPDATE_MINUTES, t))
  {
    ReadyUpdateLatest(UPDATE_MINUTES, t);
  }

  /** The downloader, with its fixed configuration. */
  class Downloader {
    const host: Machine
    const saveDir: string := SAVE_DIR
    const updateMinutes: seq<int> := UPDATE_MINUTES
    const downloadDelayMinutes: int := DOWNLOAD_DELAY_MINUTES

    /** `__init__`; the directory it creates is not modelled. */
    constructor (machine: Machine)
      ensures host == machine
    {
      host := machine;
    }

    /** `download_image(url, filepath)`: one GET, the body written only when
        the reply is complete and not an error status. */
    method DownloadImage(url: string, path: Path) returns (ok: bool, interrupted: bool)
      modifies host
      ensures Saved(ok, interrupted, host.files) == Image(old(host.files), Head(old(host.replies)), path)
      ensures host.replies == Tail(old(host.replies)) && host.requested == old(host.requested) + [url]
    {
      var reply := host.Get(url);
      match reply
      case TransportError => ok, interrupted := false, false;
      case Interrupt => ok, interrupted := false, true;
      case Response(status, body, end) =>
        if end.Broken? {
          ok, interrupted := false, false;
        } else if end.Interrupted? {
          ok, interrupted := false, true;
        } else if 400 <= status < 600 {
          ok, interrupted := false, false;
        } else {
          host.Write(path, body);
          ok, interrupted := true, false;
        }
    }

    /** The body of `check_and_download` once the update instant is chosen. */
    method CheckUpdate(update: Instant, now: Instant) returns (ok: bool, interrupted: bool)
      modifies host
      ensures var c := Checked(old(host.files), old(host.replies), update, now);
        ok == c.ok && interrupted == c.interrupted && host.files == c.files && host.replies == c.replies
      ensures host.requested == old(host.requested) + Repeat(Url(update), Checked(old(host.files), old(host.replies), update, now).gets)
    {
      if now < update + DELAY {
        return false, false;
      }
      var path := saveDir + "/" + FileName(update);
      if host.Exists(path) {
        return true, false;
      }
      ok, interrupted := DownloadImage(Url(update), path);
      if ok {
        if |host.files[path]| < MIN_SIZE {
          host.Remove(path);
          ok := false;
        }
      }
    }

    /** `check_and_download` as written: the previous update of the first
        reading, tested against the second. */
    method CheckAndDownload(earlier: Instant, now: Instant) returns (ok: bool, interrupted: bool)
      modifies host
      ensures var c := Checked(old(host.files), old(host.replies), PreviousUpdate(UPDATE_MINUTES, earlier), now);
        ok == c.ok && interrupted == c.interrupted && host.files == c.files && host.replies == c.replies
    {
      ok, interrupted := CheckUpdate(PreviousUpdate(updateMinutes, earlier), now);
    }

    /** `check_and_download` with the update whose delay has passed. */
    method CheckAndDownloadReady(now: Instant) returns (ok: bool, interrupted: bool)
      modifies host
      ensures var c := Attempted(old(host.files), old(host.replies), ReadyUpdate(UPDATE_MINUTES, now));
        ok == c.ok && interrupted == c.interrupted && host.files == c.files && host.replies == c.replies
    {
      ReadyNeverWaits(host.files, host.replies, now);
      ok, interrupted := CheckUpdate(ReadyUpdate(updateMinutes, now), now);
    }
  }
}
