# Satellite image acquisition: a Dafny model

Three long-running scripts fetch full-disk weather-satellite images and keep
them on local storage.

- **FY-4B full disk** (`FY4B_FullDisk_downloader.py`). An observation starts
  every fifteen minutes, on the quarter hour. The image is fetched once it is
  an hour old, and only while it is at most twelve hours old. Images are keyed
  by the `%Y%m%d%H%M` text of their start instant.
- **GK-2A true colour** (`GK2A_Color_downloader.py`). Images are published at
  minutes 10, 30 and 50 of every hour, and are due twenty minutes later. They
  are keyed by the `%Y-%m-%d %H:%M:%S` text of the publish instant.
- **GK-2A enhanced infrared** (`GK-2A_Infrared.py`). It wakes up, picks the
  latest update instant (minutes 0, 20, 40) and fetches that one image. Then
  it sleeps until twenty minutes past the next update.

The two ledgered downloaders (FY-4B and colour) share the same structure. They
keep a JSON download history: the `downloaded` keys, pruned to the recovery
span, plus checkpoint times. They also keep an in-memory map of failed keys,
each with its failure time.

At start-up, a backfill fetches every slot missing since the last checkpoint.
After that, a main loop does two things:

- it retries failed keys once, ten minutes after they failed;
- it fetches the current slot.

Every download goes through the same executor, which works as follows:

- it makes at most three GETs;
- it validates the file by its minimum size and leading signature bytes;
- it deletes a file that fails validation;
- on a Ctrl-C at the GET or during the stream, it deletes a partial file only when it is below the minimum size.

## How the model is built

- **Time** is an integer count of UTC seconds, and every clock reading is a
  parameter.
- **The calendar** is abstracted: the day number, written as eight zero-padded
  digits, stands for `%Y%m%d`. Every printed format is built from it:
  - `%Y%m%d%H%M` is `Clock.Stamp12`;
  - `%Y%m%d%H%M%S` is `Clock.Stamp14`;
  - `%Y-%m-%d %H:%M:%S` is `Clock.Iso`.

  For each format, the model proves that the text reads back and that string
  order agrees with time order.
- **The machine** is `Host.Machine`, a class holding:
  - the filesystem: a map from path to bytes;
  - the replies the network will give: a queue, with one reply per GET;
  - a ghost log of the requested URLs.
- **Each ledgered downloader** has two parts:
  - a pure part (modules `Fy4b`, `Color`). It defines every step as a
    function on an `Engine` value: files, pending replies, in-memory history,
    saved history file, and failed-task map.
  - an imperative part (modules `Fy4bProcess`, `ColorProcess`). It is a
    `Downloader` class whose fields the script's globals become, and whose
    loops are proved to compute those functions.
- **The infrared downloader** is the class `Infrared.Downloader` over the
  same machine.

## Model

| member | source | states |
|---|---|---|
| Clock.Stamp12 | FY4B_FullDisk_downloader.py:118 | the history key is twelve decimal digits |
| Clock.Stamp12Order | FY4B_FullDisk_downloader.py:165-166 | string order of two keys is the order of their minutes, and equal keys mean the same minute |
| Clock.Stamp14Order | FY4B_FullDisk_downloader.py:114-116 | string order of `%Y%m%d%H%M%S` texts is time order; equal texts mean equal instants |
| Clock.ParseStamp14Stamp14 | FY4B_FullDisk_downloader.py:114-116 | an instant's `%Y%m%d%H%M%S` text parses back to the instant |
| Clock.Stamp12ParseStamp12 | FY4B_FullDisk_downloader.py:485 | a key the model's `%Y%m%d%H%M` parser accepts (twelve zero-padded digits, fields in range) is exactly the stamp of the instant it yields, at second zero |
| Clock.ParseStamp12Stamp12 | FY4B_FullDisk_downloader.py:485 | the stamp of an instant parses back to that instant with its seconds cleared |
| Clock.Iso | GK2A_Color_downloader.py:389 | the `%Y-%m-%d %H:%M:%S` text is nineteen characters |
| Clock.MinuteText | FY4B_FullDisk_downloader.py:129 | the `%Y-%m-%d %H:%M` prefix of the Iso text is the minute stamp with its separators |
| Clock.IsoOrder | GK2A_Color_downloader.py:119-120 | pruning with `p >= thirty_days_ago` on these texts compares the instants exactly |
| Clock.ParseIsoIso | GK2A_Color_downloader.py:484 | the text of an instant parses back to it |
| Clock.IsoParseIso | GK2A_Color_downloader.py:484 | a text the model's `%Y-%m-%d %H:%M:%S` parser accepts (zero-padded fields in range) is the text of the instant it parses to |
| Gk2a.Basename | GK2A_Color_downloader.py:274 | `os.path.basename` is the suffix after the last `/`, holding no `/` |
| Gk2a.BasenameJoin | GK2A_Color_downloader.py:274-275 | the last segment of `dir/name` is `name` |
| Gk2a.FolderOfStamp | GK2A_Color_downloader.py:268-271 | the `%Y%m/%d/%H/` directory repeats the leading ten digits of the `%Y%m%d%H%M` stamp |
| Gk2a.ImageNameInjective | GK2A_Color_downloader.py:271-273 | an image name determines its minute stamp |
| Gk2a.UrlBasename | GK2A_Color_downloader.py:266-276 | the last segment of an image URL is the image name |
| Ledger.Retained | FY4B_FullDisk_downloader.py:166 | the pruned list holds exactly the entries not below the cutoff |
| Ledger.Recorded | FY4B_FullDisk_downloader.py:161-166 | a present key changes nothing, stale entries included; a new key is appended and then everything below the cutoff goes |
| Ledger.RetainedAppend | FY4B_FullDisk_downloader.py:166 | filtering splits over concatenation, so surviving entries keep their order |
| Ledger.RetainedNoDup | FY4B_FullDisk_downloader.py:166 | pruning keeps a list free of duplicates |
| Ledger.RecordedNoDup | FY4B_FullDisk_downloader.py:161-166 | recording never introduces a duplicate key |
| Heartbeat.Fmt02 | FY4B_FullDisk_downloader.py:200 | `{n:02d}` is at least two digits reading back as `n`, exactly two below 100 |
| Heartbeat.CountdownShort | FY4B_FullDisk_downloader.py:201-204 | below an hour the countdown is `MM:SS` and reads back as the seconds left |
| Heartbeat.CountdownLong | FY4B_FullDisk_downloader.py:196-200 | from an hour up the countdown is `HH:MM:SS` and reads back as the seconds left |
| Heartbeat.Filled | FY4B_FullDisk_downloader.py:188-193 | 0 to 50 cells; none with the whole wait ahead, all once it is over |
| Heartbeat.Cells | FY4B_FullDisk_downloader.py:194-206 | fifty cells, `=` exactly before the filled length, blanks after it |
| Heartbeat.ProgressBar | FY4B_FullDisk_downloader.py:184-206 | the bar shape, its filled prefix, the full bar with `00:00` for a non-positive total, the countdown of the clamped remainder |
| Heartbeat.Framed | FY4B_FullDisk_downloader.py:206 | `[bar] text`: the cells at positions 1 to 50, then the text |
| Heartbeat.FilledGrows | FY4B_FullDisk_downloader.py:188-193 | as the wait runs down the bar never shrinks |
| Host.Machine.Get | FY4B_FullDisk_downloader.py:270-272 | one GET takes the next reply, logs the URL and changes no file |
| Host.Machine.Write | FY4B_FullDisk_downloader.py:282-288 | writing replaces the content of one path only |
| Host.Machine.Remove | FY4B_FullDisk_downloader.py:307-308 | removing deletes one path only |
| Executor.PassesMeans | FY4B_FullDisk_downloader.py:229-251 | a file passes when it is at least the minimum size and starts with the signature |
| Executor.ValidationOutcomes | FY4B_FullDisk_downloader.py:229-251 | a missing file is invalid and nothing changes; a short file or a bad signature is invalid and deleted; a passing file is kept as it is |
| Executor.ValidationFrame | FY4B_FullDisk_downloader.py:229-251 | only the validated path can change, and a file that remains is untouched |
| Executor.IsFileValid | FY4B_FullDisk_downloader.py:229-251 | the method returns the validator's verdict and leaves its filesystem, with no GET |
| Executor.RemoveIfShort | FY4B_FullDisk_downloader.py:305-310 | the Ctrl-C handler deletes the save path only when the file there is below the minimum size |
| Executor.AttemptFacts | FY4B_FullDisk_downloader.py:268-322 | one attempt touches only the save path; success means a passing file; a transient reply (`requests.get` raised, or a 200 body broke off) goes on after sleeping `5 + 2·retry`, nothing after the last attempt, and every other reply that goes on sleeps nothing; a non-200 status goes on with the files unchanged; a Ctrl-C at the GET runs the short-file cleanup on the files as they were, one during the stream on the files with the body written, so no short file remains |
| Executor.TryOnce | FY4B_FullDisk_downloader.py:268-322 | one pass of the loop body on the machine is the specified attempt, with exactly one GET |
| Executor.Fetch | FY4B_FullDisk_downloader.py:267-325 | the retry loop ends in the specified run, one GET of the URL per attempt |
| Executor.AttemptsCount | FY4B_FullDisk_downloader.py:267 | one to three GETs, each using up one reply |
| Executor.AttemptsFailed | FY4B_FullDisk_downloader.py:324-325 | `False` only after all three attempts |
| Executor.AttemptsFrame | FY4B_FullDisk_downloader.py:282-310 | no path but the save path is ever written or deleted |
| Executor.AttemptsFetched | FY4B_FullDisk_downloader.py:292-298 | `True` is reported only for a file that passes validation |
| Executor.AttemptsCancelled | FY4B_FullDisk_downloader.py:305-310 | after a Ctrl-C at the GET or during the stream the save path is empty or holds at least the minimum size |
| Executor.AttemptsPauses | FY4B_FullDisk_downloader.py:312-319 | the sleeps are of the form `5 + 2·k` for attempts `k` from the first on, strictly increasing, never after the last attempt |
| Executor.AttemptsSleeps | FY4B_FullDisk_downloader.py:269-319 | the loop sleeps `5 + 2·k` after exactly those consumed replies `k` that are transient, except the last attempt's, and after no other reply |
| Executor.AttemptsQuiet | FY4B_FullDisk_downloader.py:269-319 | with no transient reply among those the loop consumed (only non-200 statuses, invalid files or a Ctrl-C), it never sleeps |
| Executor.StatusErrorsOnly | FY4B_FullDisk_downloader.py:273-275 | three non-200 replies: three GETs, no sleep, no write, failure |
| Executor.FirstReplyValid | FY4B_FullDisk_downloader.py:290-298 | a complete, valid 200 body on the first GET is written and succeeds at once |
| Fy4b.UrlWindow | FY4B_FullDisk_downloader.py:112-119 | the URL carries the key plus `00` as its start and, as its end, the instant 14 min 59 s later; both read back |
| Fy4b.SavePathInjective | FY4B_FullDisk_downloader.py:172-176 | two keys share a save path exactly when they are equal |
| Fy4b.DownloadReady | FY4B_FullDisk_downloader.py:121-148 | ready exactly when the instant is between one and twelve hours old; the threshold text has the `YYYY-MM-DD HH:MM UTC` layout and spells the minute stamp of `now - 1h` |
| Fy4b.MinuteUtc | FY4B_FullDisk_downloader.py:129 | `%Y-%m-%d %H:%M UTC` is twenty characters, with the separators in place, and its digits are the twelve-digit minute stamp |
| Fy4b.RealTimeTarget | FY4B_FullDisk_downloader.py:500-503 | the target is the quarter hour containing `now - 1h` |
| Fy4b.Floored | FY4B_FullDisk_downloader.py:353-354 | flooring the minute to a multiple of 15 and clearing the seconds rounds down to the quarter hour |
| Fy4b.TargetReady | FY4B_FullDisk_downloader.py:505-506 | the range guard of the real-time check always holds, and `is_download_ready` accepts the target |
| Fy4b.HeartbeatConstant | FY4B_FullDisk_downloader.py:178-182 | the heartbeat bar is always empty and always shows `05:00` |
| Fy4b.ScanStart | FY4B_FullDisk_downloader.py:335-347 | the scan start is the last check when it parses and is recent; twelve hours back when it is empty, does not parse, or parses but is older than that |
| Fy4b.FirstSlot | FY4B_FullDisk_downloader.py:352-356 | the first scanned instant is the first quarter hour not before the start |
| Fy4b.LoadSaved | FY4B_FullDisk_downloader.py:75-102 | loading what was saved gives it back; a missing or unreadable file gives the default, which is saved |
| Fy4b.Record | FY4B_FullDisk_downloader.py:159-170 | records the key with pruning as `Ledger.Recorded`, stamps both checkpoints and saves; nothing else changes |
| Fy4b.Seen | FY4B_FullDisk_downloader.py:150-157 | true exactly for a valid file on disk or a recorded key; the files are those the validator leaves, so a short or wrongly signed file is deleted; a valid file is recorded as `Fy4b.Record` does, with both checkpoints at the clock and the history saved; otherwise the history and saved copy are unchanged; other recent keys keep their place |
| Fy4b.FetchingFacts | FY4B_FullDisk_downloader.py:253-325 | a valid file on disk means no GET; otherwise one to three GETs (three on failure); success leaves a passing file and a saved, stamped history; failure and a Ctrl-C at the GET or during the stream leave the history, and that Ctrl-C leaves no short file; only the save path changes |
| Fy4b.Grid | FY4B_FullDisk_downloader.py:359-364 | the visited instants lie between the first instant and the threshold, on its grid, fifteen minutes apart |
| Fy4b.ScanKeys | FY4B_FullDisk_downloader.py:359-364 | the missing instants are visited instants, ascending when the visits are; failed map and replies unchanged |
| Fy4b.ScanKeysKeep | FY4B_FullDisk_downloader.py:359-364 | the scan never records or drops a recent key it does not visit |
| Fy4b.ScanKeysComplete | FY4B_FullDisk_downloader.py:359-364 | over distinct recent keys an instant is reported exactly when its key is not recorded afterwards |
| Fy4b.KeysDiffer | FY4B_FullDisk_downloader.py:118 | instants a minute or more apart have different keys |
| Fy4b.KeyNotBelow | FY4B_FullDisk_downloader.py:165-166 | a later instant's key is not below an earlier one's |
| Fy4b.InCutoff | FY4B_FullDisk_downloader.py:165-166 | the key of an instant of the last twelve hours is never pruned |
| Fy4b.GridKeys | FY4B_FullDisk_downloader.py:359-364 | the keys of a scan inside the last twelve hours are distinct and never pruned |
| Fy4b.GridComplete | FY4B_FullDisk_downloader.py:359-364 | a scan reports exactly the grid instants whose key it leaves unrecorded |
| Fy4b.MissingComplete | FY4B_FullDisk_downloader.py:328-367 | the missing list is ascending quarter hours from the first slot to `now - 1h`, holding exactly those unrecorded afterwards |
| Fy4b.TaskKey | FY4B_FullDisk_downloader.py:360-362 | each task is `generate_url_by_time` of its instant, keyed by its stamp |
| Fy4b.StepFacts | FY4B_FullDisk_downloader.py:384-395 | unless interrupted the task key ends up recorded or failed; failure times are never changed; a new failed entry is this key at the clock reading; recorded recent keys stay |
| Fy4b.RecoverFailed | FY4B_FullDisk_downloader.py:369-407 | the backfill keeps every failed entry and its time; every new entry is a task key at the clock reading |
| Fy4b.RecoverKeeps | FY4B_FullDisk_downloader.py:369-407 | a recent recorded key stays recorded |
| Fy4b.RecoverCovers | FY4B_FullDisk_downloader.py:382-395 | after a loop that was not interrupted every recent task key is recorded or failed |
| Fy4b.BackfillCovers | FY4B_FullDisk_downloader.py:369-407 | after an uninterrupted backfill every quarter hour from the scan start to an hour ago is recorded or failed |
| Fy4b.SweepKeysStep | FY4B_FullDisk_downloader.py:470-492 | the sweep loop is its passes in order, stopping at Ctrl-C |
| Fy4b.SweepFrame | FY4B_FullDisk_downloader.py:470-492 | the loop leaves the failed map alone and retries only due keys that parse and are recent |
| Fy4b.SweepComplete | FY4B_FullDisk_downloader.py:470-492 | a loop that ends normally puts exactly the due keys on `tasks_to_remove` and retries exactly the due, parsable, recent ones |
| Fy4b.SweepOnce | FY4B_FullDisk_downloader.py:470-492 | over distinct keys each is retried at most once |
| Fy4b.SweepKeeps | FY4B_FullDisk_downloader.py:470-492 | a recent key that is not retried keeps its place in the history |
| Fy4b.RetrySweepFacts | FY4B_FullDisk_downloader.py:468-495 | an interrupted sweep changes no failed entry; a complete one drops exactly the due entries; surviving entries keep their times; only due keys are retried |
| Fy4b.RealTimeCovers | FY4B_FullDisk_downloader.py:497-521 | unless interrupted the target key is recorded or failed at the clock reading; no other failed entry changes; a recorded key or a valid file means no GET and no new failure |
| Fy4b.ScanFromGrid | FY4B_FullDisk_downloader.py:359-364 | the `while` loop computes the scan of the grid |
| Fy4bProcess.Downloader.constructor | FY4B_FullDisk_downloader.py:428-444 | the loaded history, an empty failed map, the first real-time check at once |
| Fy4bProcess.Downloader.AddDownloadHistory | FY4B_FullDisk_downloader.py:159-170 | the new state is `Fy4b.Record` of the old |
| Fy4bProcess.Downloader.IsDownloaded | FY4B_FullDisk_downloader.py:150-157 | the answer and new state are `Fy4b.Seen`, with no GET |
| Fy4bProcess.Downloader.DownloadFile | FY4B_FullDisk_downloader.py:253-325 | the verdict and new state are `Fy4b.Fetching`, one GET of the URL per attempt |
| Fy4bProcess.Downloader.ScanSlot | FY4B_FullDisk_downloader.py:360-364 | one loop pass keeps the scan's bookkeeping: found instants plus the rest of the scan make the whole scan |
| Fy4bProcess.Downloader.ScanSlots | FY4B_FullDisk_downloader.py:359-364 | the `while` loop returns the tasks of the scan from its first point and leaves its state |
| Fy4bProcess.Downloader.GenerateMissingImages | FY4B_FullDisk_downloader.py:328-367 | returns the tasks of `Fy4b.Missing` and ends in its state |
| Fy4bProcess.Downloader.RecoverTask | FY4B_FullDisk_downloader.py:384-395 | one pass is `Fy4b.Step` |
| Fy4bProcess.Downloader.RecoverAll | FY4B_FullDisk_downloader.py:383-395 | the `for` loop is `Fy4b.RecoverTasks` |
| Fy4bProcess.Downloader.ExecuteRecoverDownload | FY4B_FullDisk_downloader.py:369-407 | the backfill is `Fy4b.Recover` |
| Fy4bProcess.Downloader.RetryKey | FY4B_FullDisk_downloader.py:471-491 | one sweep pass is `Fy4b.SweepStep` |
| Fy4bProcess.Downloader.Forget | FY4B_FullDisk_downloader.py:493-494 | removes exactly the listed keys from the failed map |
| Fy4bProcess.Downloader.RetryFailed | FY4B_FullDisk_downloader.py:468-495 | the sweep is `Fy4b.RetrySweep` |
| Fy4bProcess.Downloader.RealTimeCheck | FY4B_FullDisk_downloader.py:497-521 | the check is `Fy4b.RealTime`; the next check is five minutes on unless interrupted |
| Fy4bProcess.Downloader.Cycle | FY4B_FullDisk_downloader.py:449-521 | one main-loop pass is `Fy4b.Pass` |
| Color.UrlAndPath | GK2A_Color_downloader.py:266-276 | the save path is the image name in the save directory; the URL's directories repeat the stamp's digits |
| Color.SavePathInjective | GK2A_Color_downloader.py:266-276 | publish instants of different minutes get different paths |
| Color.LoadSaved | GK2A_Color_downloader.py:73-100 | loading what was saved gives it back; missing or unreadable gives the saved default; missing keys get defaults; the default last download is a day back |
| Color.Record | GK2A_Color_downloader.py:114-124 | records with pruning, stamps the last download only, keeps `last_check_time`, saves |
| Color.FetchingFacts | GK2A_Color_downloader.py:278-345 | one to three GETs (three on failure); success leaves a passing file and a saved, stamped history; failure and a Ctrl-C at the GET or during the stream leave the history, and that Ctrl-C leaves no short file; only the save path changes |
| Color.RecoverStart | GK2A_Color_downloader.py:131-139 | the start is the last download when it parses and is recent, a day back when it does not parse, exactly thirty days back when it parses but is older, never before thirty days back |
| Color.HourTimesMembers | GK2A_Color_downloader.py:145-149 | one hour's pass collects exactly the listed minutes of that hour from the start on that are due |
| Color.HourTimesAscending | GK2A_Color_downloader.py:145-149 | over ascending minutes one hour's pass is ascending |
| Color.PublishTimesMembers | GK2A_Color_downloader.py:143-150 | the `while` loop collects exactly the due publish instants from the start on |
| Color.PublishTimesAscending | GK2A_Color_downloader.py:143-150 | the loop's list is ascending |
| Color.HourStart | GK2A_Color_downloader.py:143 | the loop starts at an hour boundary not after the start |
| Color.MissingTimesFacts | GK2A_Color_downloader.py:126-154 | the list is ascending and holds exactly the publish instants from `start_dt` whose download time has passed; `sorted(set(...))` leaves it unchanged |
| Color.StepFacts | GK2A_Color_downloader.py:388-410 | a recorded key is skipped; unless interrupted the key ends up recorded or failed; no failed entry is dropped; a new failure time is the clock reading |
| Color.RecoverFailed | GK2A_Color_downloader.py:386-411 | the backfill never drops a failed key; every time it sets is the clock reading on one of its task keys |
| Color.RecoverKeeps | GK2A_Color_downloader.py:386-411 | a recent recorded key stays recorded |
| Color.RecoverCovers | GK2A_Color_downloader.py:388-410 | after an uninterrupted loop every recent task key is recorded or failed |
| Color.InCutoff | GK2A_Color_downloader.py:119-120 | the key of an instant of the last thirty days is never pruned |
| Color.BackfillCovers | GK2A_Color_downloader.py:375-421 | after an uninterrupted backfill every due publish instant from `start_dt` is recorded or failed |
| Color.BackfillParsable | GK2A_Color_downloader.py:389-407 | the backfill enters only keys that `strptime` accepts |
| Color.MissingKeyParses | GK2A_Color_downloader.py:389 | the key of every missing instant parses back to it |
| Color.RetryJob | GK2A_Color_downloader.py:484-485 | a key that parses leads to the same URL, path and key as its instant's job |
| Color.SweepStepFacts | GK2A_Color_downloader.py:482-498 | one pass: only due parsable keys are downloaded; a due key that does not parse ends the pass; a due key whose file exists is recorded as `Color.Record` does, goes on `tasks_to_remove` and is not downloaded; normally the key goes on `tasks_to_remove` exactly when due |
| Color.SweepFrame | GK2A_Color_downloader.py:482-498 | the loop leaves the failed map alone and downloads only due keys that parse |
| Color.SweepComplete | GK2A_Color_downloader.py:482-498 | a loop that ends normally lists exactly the due keys for removal |
| Color.SweepNoCrash | GK2A_Color_downloader.py:484 | when every failed key parses the loop never raises |
| Color.SweepOnce | GK2A_Color_downloader.py:482-498 | over distinct keys each is downloaded at most once |
| Color.SweepKeeps | GK2A_Color_downloader.py:482-498 | a recent key the loop neither removes nor downloads keeps its place |
| Color.RetrySweepFacts | GK2A_Color_downloader.py:480-501 | a stopped or abandoned sweep changes no entry; a complete one drops exactly the due entries; survivors keep their times; parsable keys keep the sweep from being abandoned |
| Color.RealTimeCovers | GK2A_Color_downloader.py:503-521 | unless interrupted a recent target's key is recorded or failed; an added entry is at the clock reading; no other entry changes; a recorded or already failed key changes nothing; an existing file is recorded as `Color.Record` does, with no GET and the files unchanged |
| Color.DownloadMinute | GK2A_Color_downloader.py:157-158 | the download minute is a minute of the hour |
| Color.DownloadMinuteOf | GK2A_Color_downloader.py:157-158 | `d` minutes after minute `pm` of any hour falls on minute `(pm + d) % 60` |
| Color.WindowEarly | GK2A_Color_downloader.py:354-370 | for minutes 10 and 30, the window is the minute up to the download instant and never the minute after it |
| Color.Window50Never | GK2A_Color_downloader.py:354-370 | minute 50 is never matched |
| Color.CheckDownloadWindowExact | GK2A_Color_downloader.py:347-372 | the check returns minute 10 during hh:29–hh:30, minute 30 during hh:49–hh:50, nothing otherwise |
| Color.CheckDownloadWindowSound | GK2A_Color_downloader.py:365-370 | a match is a publish instant between 19 and 20 minutes back |
| Color.CheckDownloadWindowMisses | GK2A_Color_downloader.py:347-372 | minute-50 images and the minute after any download instant are never matched |
| Color.FixedWindowFromSound | GK2A_Color_downloader.py:354-370 | a corrected match is a publish instant whose download instant is within a minute |
| Color.FixedWindowComplete | GK2A_Color_downloader.py:347-372 | the corrected check matches every publish instant within a minute of its download instant |
| Color.FixedDownloadWindowExact | GK2A_Color_downloader.py:347-372 | the corrected check returns `pt` exactly when `pt` is a publish instant whose download instant is within a minute |
| Color.Candidate | GK2A_Color_downloader.py:166-186 | the window start is second zero of minute `pm + 19` (mod 60). When it lies ahead of the clock it is one minute before the download instant, twenty minutes after the next publish instant at minute `pm`. It lies in the past only for minute 50 with that publish instant in hour 23, where the wrap to hour 0 of the same date puts it a day back (then an hour on). The seconds left are the seconds to it, zero when past |
| Color.NextPublishUnique | GK2A_Color_downloader.py:168-171 | the next publish instant at a minute, second zero and within the hour from the clock on, is unique |
| Color.NextFromFacts | GK2A_Color_downloader.py:166-189 | the loop keeps a candidate no farther than any it has seen |
| Color.NextDownloadWindowFacts | GK2A_Color_downloader.py:160-195 | there is always a next window; it is a nearest candidate; the seconds left are the signed total clamped at zero |
| Color.NextWindowPast | GK2A_Color_downloader.py:173-181 | at 23:00 the minute-50 window lands in the past: zero seconds left, a negative total, a full bar |
| Color.TargetsRecent | GK2A_Color_downloader.py:504-506 | each window check returns a publish instant of the last half hour |
| Color.PassParsable | GK2A_Color_downloader.py:480-521 | every failed key stays parsable from pass to pass, so no pass is abandoned |
| ColorProcess.CheckWindow | GK2A_Color_downloader.py:347-372 | the loop returns `Color.CheckDownloadWindow`, a publish instant 19 to 20 minutes back |
| ColorProcess.FixedWindow | GK2A_Color_downloader.py:347-372 | the corrected loop returns exactly the publish instant within a minute of its download instant |
| ColorProcess.NextWindow | GK2A_Color_downloader.py:160-195 | returns `Color.NextDownloadWindow`: always a window, seconds left the clamped total |
| ColorProcess.NearestWindow | GK2A_Color_downloader.py:166-191 | the loop with a running minimum ends on what `Color.NextFrom` computes over the candidates in publish-minute order |
| ColorProcess.Downloader.constructor | GK2A_Color_downloader.py:441-443 | the loaded history and an empty failed map |
| ColorProcess.Downloader.AddDownloadHistory | GK2A_Color_downloader.py:114-124 | the new state is `Color.Record` of the old |
| ColorProcess.Downloader.DownloadFile | GK2A_Color_downloader.py:278-345 | the verdict and new state are `Color.Fetching`, one GET of the URL per attempt |
| ColorProcess.Downloader.HourPass | GK2A_Color_downloader.py:145-149 | the `for` loop appends one hour's due publish instants |
| ColorProcess.Downloader.GenerateMissingPublishTimes | GK2A_Color_downloader.py:126-154 | returns exactly the due publish instants from `start_dt` on, ascending |
| ColorProcess.Downloader.HourLoop | GK2A_Color_downloader.py:143-150 | the `while` loop returns `Color.PublishTimes` |
| ColorProcess.Downloader.RecoverTask | GK2A_Color_downloader.py:388-410 | one pass is `Color.Step` |
| ColorProcess.Downloader.ExecuteRecoverDownload | GK2A_Color_downloader.py:375-421 | the backfill is `Color.Recover` |
| ColorProcess.Downloader.RecoverAll | GK2A_Color_downloader.py:387-412 | the `for` loop, building each publish time's job as it goes, is `Color.RecoverTasks` over those jobs |
| ColorProcess.Downloader.RetryKey | GK2A_Color_downloader.py:482-498 | one sweep pass is `Color.SweepStep` |
| ColorProcess.Downloader.Forget | GK2A_Color_downloader.py:500-501 | removes exactly the listed keys from the failed map |
| ColorProcess.Downloader.RetryFailed | GK2A_Color_downloader.py:480-501 | the sweep is `Color.RetrySweep` |
| ColorProcess.Downloader.RealTimeStep | GK2A_Color_downloader.py:505-521 | the real-time step is `Color.RealTime` |
| ColorProcess.Downloader.Cycle | GK2A_Color_downloader.py:461-523 | one main-loop pass is `Color.Pass` with the window check as written |
| ColorProcess.Downloader.FixedCycle | GK2A_Color_downloader.py:503-521 | the same pass with the corrected window check |
| Infrared.Largest | GK-2A_Infrared.py:27 | `max` is a member not below any member |
| Infrared.Smallest | GK-2A_Infrared.py:60 | `min` is a member not above any member |
| Infrared.AtMost | GK-2A_Infrared.py:25 | the comprehension keeps exactly the minutes not above the current one |
| Infrared.Above | GK-2A_Infrared.py:58 | the comprehension keeps exactly the minutes above the current one |
| Infrared.PreviousSlot | GK-2A_Infrared.py:17-35 | the two branches: this hour's largest earlier minute, or the previous hour's largest minute |
| Infrared.NextSlot | GK-2A_Infrared.py:50-68 | the two branches: this hour's smallest later minute, or the next hour's smallest minute |
| Infrared.PreviousUpdateLatest | GK-2A_Infrared.py:17-35 | the previous update is the latest listed instant not after the clock |
| Infrared.NextUpdateEarliest | GK-2A_Infrared.py:50-68 | the next update is the earliest listed instant after the clock |
| Infrared.NextDownloadFacts | GK-2A_Infrared.py:37-48 | the next download is twenty minutes after the earliest later update, at most 1 h 20 min away |
| Infrared.UpdatesTwentyApart | GK-2A_Infrared.py:14-15 | with minutes 0, 20, 40 the next update is twenty minutes after the previous one |
| Infrared.SleepTime | GK-2A_Infrared.py:146-155 | the larger of a minute and the time left to the next download: never below either, and beyond a minute it ends exactly at the next download time |
| Infrared.SleepUntilDownload | GK-2A_Infrared.py:146-155 | with one clock reading the sleep ends at the next download time, 20 to 40 minutes ahead |
| Infrared.FileNameOfUrl | GK-2A_Infrared.py:70-84 | the saved name is the last segment of the URL |
| Infrared.PathOfInjective | GK-2A_Infrared.py:81-84 | different update minutes are saved in different files |
| Infrared.Image | GK-2A_Infrared.py:86-105 | success means a complete reply without a 4xx/5xx status, written at the path; otherwise no change; a Ctrl-C escapes |
| Infrared.CheckFacts | GK-2A_Infrared.py:107-144 | nothing before the download time; an existing file is success with no GET; otherwise one GET, success exactly for a good reply of at least 1024 bytes, no file left on failure |
| Infrared.NeverDownloads | GK-2A_Infrared.py:107-120 | unless an update instant falls between the two clock readings the check always waits |
| Infrared.NeverDownloadsAt | GK-2A_Infrared.py:107-120 | with one clock reading the check never downloads |
| Infrared.ReadyUpdateLatest | GK-2A_Infrared.py:107-116 | the corrected update instant is the latest whose delay has passed |
| Infrared.ReadyNeverWaits | GK-2A_Infrared.py:107-144 | the corrected check goes straight to the existence test and the download |
| Infrared.Downloader.constructor | GK-2A_Infrared.py:8-15 | the fixed save directory, update minutes and delay |
| Infrared.Downloader.DownloadImage | GK-2A_Infrared.py:86-105 | one GET, with the outcome of `Infrared.Image` |
| Infrared.Downloader.CheckUpdate | GK-2A_Infrared.py:114-144 | the checks from the clock test on are `Infrared.Checked` |
| Infrared.Downloader.CheckAndDownload | GK-2A_Infrared.py:107-144 | as written: the previous update of the first reading, tested against the second |
| Infrared.Downloader.CheckAndDownloadReady | GK-2A_Infrared.py:107-144 | corrected: the update whose delay has passed is fetched |

## Left out

- The main loops themselves, `time.sleep` and the infrared `run` method (including its restart by recursion after an error) are left out. The model stops at one pass of each loop (`Fy4bProcess.Downloader.Cycle`, `ColorProcess.Downloader.Cycle`, `Infrared.Downloader.CheckAndDownload`) and at the sleep length (`Infrared.SleepTime`).
- Logging and `print` output are left out, except the progress bar texts, which are modelled. The start-up messages of the infrared `run` (GK-2A_Infrared.py:159-162) name minutes 10, 30, 50 and download minutes 25, 45, 05. This disagrees with the minutes 0, 20, 40 the code uses. The model follows the code.
- `generate_download_progress_bar` is left out. It is floating-point logging of a stream's progress, and chunked streaming is modelled as one body per reply.
- Heartbeat.Filled: the source takes `int(50 * elapsed / total)` in floating point. The model uses the integer floor of the same ratio. The contracts claim only what holds under either reading: the bounds, the empty and full extremes, and monotonicity.
- Clock readings are parameters. Each step takes one reading (`Ledger.Now`), where the scripts call `now()` or `time.time()` several times. The infrared check is the exception: it keeps the two readings the script takes, because the finding below depends on them.
- Microseconds are left out. Instants are whole seconds.
- The calendar is left out: a day is an eight-digit day number standing for `%Y%m%d`. Month lengths and leap years are therefore not modelled. The same applies to the `(hour + 1) % 24` hour wrap in the colour scripts: it is modelled on the hour of the day without carrying into the date, as the code does.
- JSON persistence is modelled as the `saved` copy of the history and the `Ledger.Stored` cases of what a load can find. The JSON text, encodings and file I/O errors on save are left out.
- `create_required_dirs`, the directory creation in the infrared constructor, and `setup_logger` are left out. Directories are not modelled on the filesystem map.
- `logscleaner.py` is not part of this model.
- The iteration order of `failed_tasks.items()` is a parameter `order` (any listing of the keys). Python's insertion-order guarantee is not used.
- Executor.AttemptsCancelled: a Ctrl-C is modelled only at the GET and during the stream. A Ctrl-C during the retry `time.sleep` (FY4B_FullDisk_downloader.py:312-316, GK2A_Color_downloader.py:332-335) is raised inside the `except RequestException` handler, so the sibling `except KeyboardInterrupt` cleanup does not run. The short partial file of a broken transfer then stays on disk. The model has no interrupt point in the pause, so it does not show that case.
- Network failures are two kinds of reply. `TransportError` stands for an exception raised by `requests.get` itself (connection refused, timeout, DNS), before any file is opened. `Broken` stands for a 200 response whose body then raises part-way, a `RequestException` or any other exception; the bytes already written stay on disk. The `except RequestException` and `except Exception` arms handle both alike: they log and sleep before the next attempt (FY4B_FullDisk_downloader.py:312-319, GK2A_Color_downloader.py:332-339). An error raised by `open` or `write` on the save path itself is handled by the same `except Exception` arm; the model has no reply for it.
- Clock.ParseStamp12, Clock.ParseIso: accept only the zero-padded texts the scripts write themselves. `strptime` also accepts unpadded fields such as `2024-1-5 3:4:5` or `20241015930`, which these parsers reject. The scripts only parse keys and history texts that they wrote, which are always zero-padded.
- The catch-all `except Exception` handlers are left out, except in one place: the colour sweep, a key that does not parse ends the pass, modelled as `Color.Flow.Crashed`. `Color.PassParsable` shows this cannot happen.
- The colour `is_downloaded` is a plain membership test written inline in `Color.Step` and `Color.RealTime`, with no member of its own.
- The busy loop of the colour real-time `continue`, which skips the sleep, is left out together with the sleep.
- `sorted(set(...))` in `generate_missing_publish_times` is not computed. `Color.MissingTimesFacts` proves that the list the loops build is already ascending and duplicate-free, so that the call returns it unchanged.
- The HTTP headers, user agent and timeouts are left out. They do not affect any modelled outcome.

## Findings

| source | as written | input that shows it | evidently intended | confidence | as-written member | corrected member |
|---|---|---|---|---|---|---|
| GK-2A_Infrared.py:107-120 | `check_and_download` picks the previous update instant `P` and returns without downloading while `now < P + 20 min`. With minutes 0, 20, 40, `P + 20 min` is the next update after the first clock reading. The check reads the clock a second time, and that reading is still before `P + 20 min` unless an update instant falls between the two readings. | clock at 12:25:00: the previous update is 12:20, its download time 12:40, so the check waits and nothing is ever fetched | fetch the latest update whose twenty-minute delay has passed (12:00 at 12:25) | not executed | Infrared.NeverDownloadsAt | Infrared.ReadyNeverWaits |
| GK2A_Color_downloader.py:354-370 | minute 50 places its download instant `dt` at minute 10 of the next hour (`current_hour + 1`), 10 min 1 s to 70 min after the clock. The window starts at `dt − 60 s`, minute 09 of the next hour, which the clock cannot reach while it is still in hour h. A download instant already past is moved a day ahead, so the minute after it never matches. | clock at 11:10:00: the minute-50 image of 10:50 is due, but the check returns nothing; clock at 10:30:30: the 10:10 image is not matched | match the publish instant whose download instant is within a minute of the clock, for every publish minute | not executed | Color.CheckDownloadWindowMisses | Color.FixedDownloadWindowExact |
