/** The file validator and the acquisition executor shared by both ledgered downloaders.

    `is_file_valid` and the retry loop of `download_file` are written out twice
    in the sources, once per satellite, and differ only in their constants:
    the minimum size and the leading signature bytes (`FileRule`).  The
    executor makes at most three GETs, writes a 200 body to the save path,
    validates it, sleeps after a failed transfer except after the last attempt,
    and on a Ctrl-C at the GET or during the stream deletes the file only when
    it is smaller than the minimum.  A Ctrl-C during the retry pause is not modelled.
 */
module Executor {
  import opened Host
  import opened Seqs

  const MAX_RETRIES: nat := 3
  const RETRY_DELAY: nat := 5

  /** What makes a downloaded file acceptable. */
  datatype FileRule = FileRule(minSize: nat, magic: seq<Byte>)

  /** What `download_file` reports: `True`, `False`, or the re-raised `KeyboardInterrupt`. */
  datatype Verdict = Fetched | Failed | Cancelled

  /** `f.read(n)`: at most the first `n` bytes. */
  function Leading(content: seq<Byte>, n: nat): (r: seq<Byte>)
    ensures |r| <= n
  {
    if |content| <= n then content else content[..n]
  }

  /** The file passes both checks of `is_file_valid`. */
  predicate Passes(content: seq<Byte>, rule: FileRule) {
    |content| >= rule.minSize && Leading(content, |rule.magic|) == rule.magic
  }

  lemma PassesMeans(content: seq<Byte>, rule: FileRule)
    ensures Passes(content, rule) <==>
      |content| >= rule.minSize && |content| >= |rule.magic| && content[..|rule.magic|] == rule.magic
  {
  }

  // The validator.

  datatype Checked = Checked(valid: bool, files: Files)

  /** `is_file_valid` on a filesystem: the verdict and the filesystem afterwards. */
  function Validation(files: Files, path: Path, rule: FileRule): Checked {
    if path !in files then Checked(false, files)
    else if |files[path]| < rule.minSize then Checked(false, files - {path})
    else if Leading(files[path], |rule.magic|) != rule.magic then Checked(false, files - {path})
    else Checked(true, files)
  }

  /** The four outcomes of the validator: a missing file changes nothing, a short
      file or one with the wrong signature is deleted, and a passing file is
      left byte for byte as it was. */
  lemma ValidationOutcomes(files: Files, path: Path, rule: FileRule)
    ensures var c := Validation(files, path, rule);
      (path !in files ==> !c.valid && c.files == files) &&
      (path in files && |files[path]| < rule.minSize ==> !c.valid && c.files == files - {path}) &&
      (path in files && |files[path]| >= rule.minSize && Leading(files[path], |rule.magic|) != rule.magic ==>
         !c.valid && c.files == files - {path}) &&
      (c.valid <==> path in files && Passes(files[path], rule)) &&
      (c.valid ==> c.files == files)
  {
  }

  /** Only the validated path can change, and a file that remains is untouched. */
  lemma ValidationFrame(files: Files, path: Path, rule: FileRule)
    ensures var c := Validation(files, path, rule);
      c.files - {path} == files - {path} &&
      (path in c.files ==> path in files && c.files[path] == files[path] && c.valid)
  {
  }

  method IsFileValid(host: Machine, path: Path, rule: FileRule) returns (valid: bool)
    modifies host
    ensures var c := Validation(old(host.files), path, rule); valid == c.valid && host.files == c.files
    ensures host.replies == old(host.replies) && host.requested == old(host.requested)
  {
    if !host.Exists(path) {
      return false;
    }
    var content := host.files[path];
    if |content| < rule.minSize {
      host.Remove(path);
      return false;
    }
    var magic := Leading(content, |rule.magic|);
    if magic != rule.magic {
      host.Remove(path);
      return false;
    }
    return true;
  }

  // The retry loop.

  /** One run of the retry loop: the verdict, the filesystem and reply queue
      afterwards, how many GETs were made and how long it slept between them. */
  datatype Run = Run(verdict: Verdict, files: Files, replies: seq<Reply>, attempts: nat, pauses: seq<nat>)

  /** The sleep after a failed transfer on attempt `retry`; none after the last. */
  function Pause(retry: nat): seq<nat> {
    if retry < MAX_RETRIES - 1 then [RETRY_DELAY + retry * 2] else []
  }

  /** The Ctrl-C handler: removes the file only when it is below the minimum size. */
  function Cleanup(files: Files, path: Path, rule: FileRule): Files {
    if path in files && |files[path]| < rule.minSize then files - {path} else files
  }

  /** A run continued after `n` earlier attempts that slept `before`. */
  function Resumed(before: seq<nat>, n: nat, r: Run): Run {
    r.(attempts := n + r.attempts, pauses := before + r.pauses)
  }

  lemma ResumedTwice(a: seq<nat>, n: nat, b: seq<nat>, m: nat, r: Run)
    ensures Resumed(a, n, Resumed(b, m, r)) == Resumed(a + b, n + m, r)
  {
    assert a + (b + r.pauses) == (a + b) + r.pauses;
  }

  /** How one pass through the loop body ends: with a verdict, or by going on
      to the next attempt after sleeping `pause`. */
  datatype Outcome = Done(verdict: Verdict, files: Files) | Again(files: Files, pause: seq<nat>)

  /** One pass through the loop body, attempt number `retry`, given the reply to its GET. */
  function Attempt(files: Files, reply: Reply, path: Path, rule: FileRule, retry: nat): Outcome {
    match reply
    case TransportError => Again(files, Pause(retry))
    case Interrupt => Done(Cancelled, Cleanup(files, path, rule))
    case Response(status, body, end) =>
      if status != 200 then Again(files, [])
      else
        var written := files[path := body];
        match end
        case Interrupted => Done(Cancelled, Cleanup(written, path, rule))
        case Broken => Again(written, Pause(retry))
        case Complete =>
          var c := Validation(written, path, rule);
          if c.valid then Done(Fetched, c.files) else Again(c.files, [])
  }

  /** The attempts `retry`, `retry + 1`, ... of the retry loop, against `replies`. */
  function Attempts(files: Files, replies: seq<Reply>, path: Path, rule: FileRule, retry: nat): Run
    requires retry <= MAX_RETRIES
    decreases MAX_RETRIES - retry
  {
    if retry == MAX_RETRIES then Run(Failed, files, replies, 0, [])
    else
      match Attempt(files, Head(replies), path, rule, retry)
      case Done(v, f) => Run(v, f, Tail(replies), 1, [])
      case Again(f, p) => Resumed(p, 1, Attempts(f, Tail(replies), path, rule, retry + 1))
  }

  /** The loop from attempt `retry`, given how that attempt ends. */
  lemma AttemptsStep(files: Files, replies: seq<Reply>, path: Path, rule: FileRule, retry: nat, o: Outcome)
    requires retry < MAX_RETRIES && o == Attempt(files, Head(replies), path, rule, retry)
    ensures Attempts(files, replies, path, rule, retry) == match o
      case Done(v, f) => Run(v, f, Tail(replies), 1, [])
      case Again(f, p) => Resumed(p, 1, Attempts(f, Tail(replies), path, rule, retry + 1))
  {
  }

  /** The replies after which the loop sleeps: `requests.get` raised, or a 200
      body broke off part-way. */
  predicate Transient(reply: Reply) {
    reply.TransportError? || (reply.Response? && reply.status == 200 && reply.end.Broken?)
  }

  /** What a single pass promises: it touches only the save path, a success is a
      passing file, a Ctrl-C at the GET or in the stream runs the short-file
      cleanup on the filesystem as it then is (with the body written when the
      stream had begun), and it sleeps `RETRY_DELAY + 2 * retry` (except after
      the last attempt) exactly when the reply is transient. */
  lemma AttemptFacts(files: Files, reply: Reply, path: Path, rule: FileRule, retry: nat)
    ensures var o := Attempt(files, reply, path, rule, retry);
      o.files - {path} == files - {path} &&
      (o.Done? && o.verdict == Fetched ==> path in o.files && Passes(o.files[path], rule)) &&
      (o.Done? && o.verdict == Cancelled ==> path !in o.files || |o.files[path]| >= rule.minSize) &&
      (o.Done? ==> o.verdict != Failed) &&
      (o.Again? ==> o.pause == [] || (retry < MAX_RETRIES - 1 && o.pause == [RETRY_DELAY + 2 * retry])) &&
      (Transient(reply) ==> o.Again? && o.pause == Pause(retry)) &&
      (!Transient(reply) && o.Again? ==> o.pause == []) &&
      (reply.Response? && reply.status != 200 ==> o == Again(files, [])) &&
      (reply.Interrupt? ==> o == Done(Cancelled, Cleanup(files, path, rule))) &&
      (reply.Response? && reply.status == 200 && reply.end.Interrupted? ==>
         o == Done(Cancelled, Cleanup(files[path := reply.body], path, rule)))
  {
    match reply
    case TransportError =>
    case Interrupt =>
    case Response(status, body, end) =>
      if status == 200 {
        var written := files[path := body];
        assert written - {path} == files - {path};
        ValidationOutcomes(written, path, rule);
        ValidationFrame(written, path, rule);
      }
  }

  /** The Ctrl-C handler on the machine. */
  method RemoveIfShort(host: Machine, path: Path, rule: FileRule)
    modifies host
    ensures host.files == Cleanup(old(host.files), path, rule)
    ensures host.replies == old(host.replies) && host.requested == old(host.requested)
  {
    if host.Exists(path) && |host.files[path]| < rule.minSize {
      host.Remove(path);
    }
  }

  /** The body of the retry loop: one GET and what follows it. */
  method TryOnce(host: Machine, url: string, path: Path, rule: FileRule, retry: nat) returns (o: Outcome)
    modifies host
    ensures o == Attempt(old(host.files), Head(old(host.replies)), path, rule, retry)
    ensures host.files == o.files && host.replies == Tail(old(host.replies))
    ensures host.requested == old(host.requested) + [url]
  {
    var reply := host.Get(url);
    match reply
    case TransportError =>
      o := Again(host.files, Pause(retry));
    case Interrupt =>
      RemoveIfShort(host, path, rule);
      o := Done(Cancelled, host.files);
    case Response(status, body, end) =>
      if status != 200 {
        o := Again(host.files, []);
      } else {
        host.Write(path, body);
        match end
        case Interrupted =>
          RemoveIfShort(host, path, rule);
          o := Done(Cancelled, host.files);
        case Broken =>
          o := Again(host.files, Pause(retry));
        case Complete =>
          var valid := IsFileValid(host, path, rule);
          o := if valid then Done(Fetched, host.files) else Again(host.files, []);
      }
  }

  /** The retry `for` loop of `download_file`, from the first GET to the verdict. */
  method Fetch(host: Machine, url: string, path: Path, rule: FileRule) returns (verdict: Verdict, pauses: seq<nat>)
    modifies host
    ensures var r := Attempts(old(host.files), old(host.replies), path, rule, 0);
      verdict == r.verdict && pauses == r.pauses && host.files == r.files && host.replies == r.replies &&
      host.requested == old(host.requested) + Repeat(url, r.attempts)
  {
    pauses := [];
    ghost var total, asked := Attempts(host.files, host.replies, path, rule, 0), host.requested;
    for retry := 0 to MAX_RETRIES
      invariant total == Resumed(pauses, retry, Attempts(host.files, host.replies, path, rule, retry))
      invariant host.requested == asked + Repeat(url, retry)
    {
      ghost var files, replies := host.files, host.replies;
      var o := TryOnce(host, url, path, rule, retry);
      RepeatSnoc(url, retry);
      Regrouped(asked, Repeat(url, retry), [url]);
      AttemptsStep(files, replies, path, rule, retry, o);
      if o.Done? {
        return o.verdict, pauses;
      }
      ghost var rest := Attempts(host.files, host.replies, path, rule, retry + 1);
      ResumedTwice(pauses, retry, o.pause, 1, rest);
      pauses := pauses + o.pause;
    }
    verdict := Failed;
  }

  // What the retry loop promises.

  /** It makes between one and three GETs and consumes exactly that many replies. */
  lemma {:induction false} AttemptsCount(files: Files, replies: seq<Reply>, path: Path, rule: FileRule, retry: nat)
    requires retry < MAX_RETRIES
    ensures var r := Attempts(files, replies, path, rule, retry);
      1 <= r.attempts <= MAX_RETRIES - retry && r.replies == Drop(replies, r.attempts)
    decreases MAX_RETRIES - retry
  {
    DropTail(replies, 0);
    match Attempt(files, Head(replies), path, rule, retry)
    case Done(_, _) =>
    case Again(f, _) =>
      if retry + 1 < MAX_RETRIES {
        AttemptsCount(f, Tail(replies), path, rule, retry + 1);
        DropTail(replies, Attempts(f, Tail(replies), path, rule, retry + 1).attempts);
      }
  }

  /** A failure means every attempt was used. */
  lemma {:induction false} AttemptsFailed(files: Files, replies: seq<Reply>, path: Path, rule: FileRule, retry: nat)
    requires retry <= MAX_RETRIES
    ensures var r := Attempts(files, replies, path, rule, retry);
      r.verdict == Failed ==> r.attempts == MAX_RETRIES - retry
    decreases MAX_RETRIES - retry
  {
    if retry < MAX_RETRIES {
      AttemptFacts(files, Head(replies), path, rule, retry);
      match Attempt(files, Head(replies), path, rule, retry)
      case Done(_, _) =>
      case Again(f, _) => AttemptsFailed(f, Tail(replies), path, rule, retry + 1);
    }
  }

  /** No path other than the save path is ever touched. */
  lemma {:induction false} AttemptsFrame(files: Files, replies: seq<Reply>, path: Path, rule: FileRule, retry: nat)
    requires retry <= MAX_RETRIES
    ensures Attempts(files, replies, path, rule, retry).files - {path} == files - {path}
    decreases MAX_RETRIES - retry
  {
    if retry < MAX_RETRIES {
      AttemptFacts(files, Head(replies), path, rule, retry);
      match Attempt(files, Head(replies), path, rule, retry)
      case Done(_, _) =>
      case Again(f, _) => AttemptsFrame(f, Tail(replies), path, rule, retry + 1);
    }
  }

  /** Success is reported only for a file that passes validation. */
  lemma {:induction false} AttemptsFetched(files: Files, replies: seq<Reply>, path: Path, rule: FileRule, retry: nat)
    requires retry <= MAX_RETRIES
    ensures var r := Attempts(files, replies, path, rule, retry);
      r.verdict == Fetched ==> path in r.files && Passes(r.files[path], rule)
    decreases MAX_RETRIES - retry
  {
    if retry < MAX_RETRIES {
      AttemptFacts(files, Head(replies), path, rule, retry);
      match Attempt(files, Head(replies), path, rule, retry)
      case Done(_, _) =>
      case Again(f, _) => AttemptsFetched(f, Tail(replies), path, rule, retry + 1);
    }
  }

  /** After a Ctrl-C at the GET or in the stream the save path holds nothing, or a
      file of at least the minimum size. */
  lemma {:induction false} AttemptsCancelled(files: Files, replies: seq<Reply>, path: Path, rule: FileRule, retry: nat)
    requires retry <= MAX_RETRIES
    ensures var r := Attempts(files, replies, path, rule, retry);
      r.verdict == Cancelled ==> path !in r.files || |r.files[path]| >= rule.minSize
    decreases MAX_RETRIES - retry
  {
    if retry < MAX_RETRIES {
      AttemptFacts(files, Head(replies), path, rule, retry);
      match Attempt(files, Head(replies), path, rule, retry)
      case Done(_, _) =>
      case Again(f, _) => AttemptsCancelled(f, Tail(replies), path, rule, retry + 1);
    }
  }

  /** Sleeps of the shape `RETRY_DELAY + 2 * k` for attempts `k` from `retry` on,
      strictly increasing, and none for the last attempt. */
  predicate PausesFrom(p: seq<nat>, retry: nat) {
    (forall i :: 0 <= i < |p| ==>
       RETRY_DELAY + 2 * retry <= p[i] <= RETRY_DELAY + 2 * (MAX_RETRIES - 2) && (p[i] - RETRY_DELAY) % 2 == 0) &&
    Ascending(p)
  }

  lemma PausesPrepend(pause: seq<nat>, rest: seq<nat>, retry: nat)
    requires pause == [] || (retry < MAX_RETRIES - 1 && pause == [RETRY_DELAY + 2 * retry])
    requires PausesFrom(rest, retry + 1)
    ensures PausesFrom(pause + rest, retry)
  {
    if pause != [] {
      var x := RETRY_DELAY + 2 * retry;
      var p := [x] + rest;
      assert pause + rest == p;
      forall i | 0 <= i < |p|
        ensures RETRY_DELAY + 2 * retry <= p[i] <= RETRY_DELAY + 2 * (MAX_RETRIES - 2)
        ensures (p[i] - RETRY_DELAY) % 2 == 0
      {
        if i > 0 {
          assert p[i] == rest[i - 1];
        }
      }
      AscendingCons(x, rest);
    } else {
      assert pause + rest == rest;
      PausesLater(rest, retry);
    }
  }

  /** Sleeps of attempts from `retry + 1` on are sleeps of attempts from `retry` on. */
  lemma PausesLater(p: seq<nat>, retry: nat)
    requires PausesFrom(p, retry + 1)
    ensures PausesFrom(p, retry)
  {
    forall i | 0 <= i < |p|
      ensures RETRY_DELAY + 2 * retry <= p[i]
    {
      assert RETRY_DELAY + 2 * (retry + 1) <= p[i];
    }
  }

  /** The sleeps a run of `n` attempts from attempt `retry` takes against
      `replies`: the attempt's pause after each transient reply, nothing
      after any other. */
  function Sleeps(replies: seq<Reply>, retry: nat, n: nat): seq<nat>
    decreases n
  {
    if n == 0 then []
    else (if Transient(Head(replies)) then Pause(retry) else []) + Sleeps(Tail(replies), retry + 1, n - 1)
  }

  /** How one pass ends, as far as sleeping goes. */
  lemma AttemptSleep(files: Files, reply: Reply, path: Path, rule: FileRule, retry: nat)
    ensures var o := Attempt(files, reply, path, rule, retry);
      (o.Done? ==> !Transient(reply)) && (o.Again? ==> o.pause == if Transient(reply) then Pause(retry) else [])
  {
  }

  /** The loop sleeps exactly after the transient replies among those it consumed. */
  lemma {:induction false} AttemptsSleeps(files: Files, replies: seq<Reply>, path: Path, rule: FileRule, retry: nat)
    requires retry <= MAX_RETRIES
    ensures var r := Attempts(files, replies, path, rule, retry); r.pauses == Sleeps(replies, retry, r.attempts)
    decreases MAX_RETRIES - retry
  {
    var r := Attempts(files, replies, path, rule, retry);
    if retry < MAX_RETRIES {
      var o := Attempt(files, Head(replies), path, rule, retry);
      AttemptSleep(files, Head(replies), path, rule, retry);
      AttemptsStep(files, replies, path, rule, retry, o);
      match o
      case Done(_, _) =>
        SleepsOne(replies, retry);
      case Again(f, p) =>
        var rest := Attempts(f, Tail(replies), path, rule, retry + 1);
        AttemptsSleeps(f, Tail(replies), path, rule, retry + 1);
        SleepsCons(replies, retry, p, rest.attempts, rest.pauses);
    }
  }

  /** One attempt against a reply that is not transient: no sleep. */
  lemma SleepsOne(replies: seq<Reply>, retry: nat)
    requires !Transient(Head(replies))
    ensures Sleeps(replies, retry, 1) == []
  {
    assert Sleeps(replies, retry, 1) == [] + Sleeps(Tail(replies), retry + 1, 0);
  }

  /** The sleeps of `1 + m` attempts: the first attempt's, then the rest's. */
  lemma SleepsCons(replies: seq<Reply>, retry: nat, p: seq<nat>, m: nat, q: seq<nat>)
    requires p == (if Transient(Head(replies)) then Pause(retry) else [])
    requires q == Sleeps(Tail(replies), retry + 1, m)
    ensures Sleeps(replies, retry, 1 + m) == p + q
  {
  }

  /** With no transient reply among those consumed, the loop never sleeps. */
  lemma AttemptsQuiet(files: Files, replies: seq<Reply>, path: Path, rule: FileRule, retry: nat)
    requires retry <= MAX_RETRIES
    ensures var r := Attempts(files, replies, path, rule, retry);
      (forall i :: 0 <= i < r.attempts ==> !Transient(Head(Drop(replies, i)))) ==> r.pauses == []
  {
    var r := Attempts(files, replies, path, rule, retry);
    AttemptsSleeps(files, replies, path, rule, retry);
    SleepsQuiet(replies, retry, r.attempts);
  }

  /** No transient reply among the first `n`: no sleep. */
  lemma {:induction false} SleepsQuiet(replies: seq<Reply>, retry: nat, n: nat)
    ensures (forall i :: 0 <= i < n ==> !Transient(Head(Drop(replies, i)))) ==> Sleeps(replies, retry, n) == []
    decreases n
  {
    if n > 0 && forall i :: 0 <= i < n ==> !Transient(Head(Drop(replies, i))) {
      assert Head(Drop(replies, 0)) == Head(replies);
      forall i | 0 <= i < n - 1
        ensures !Transient(Head(Drop(Tail(replies), i)))
      {
        assert Drop(replies, i + 1) == Drop(Tail(replies), i);
      }
      SleepsQuiet(Tail(replies), retry + 1, n - 1);
    }
  }

  /** Any such run of sleeps has the shape `PausesFrom` describes. */
  lemma {:induction false} SleepsPaced(replies: seq<Reply>, retry: nat, n: nat)
    ensures PausesFrom(Sleeps(replies, retry, n), retry)
    decreases n
  {
    if n > 0 {
      SleepsPaced(Tail(replies), retry + 1, n - 1);
      PausesPrepend(if Transient(Head(replies)) then Pause(retry) else [], Sleeps(Tail(replies), retry + 1, n - 1), retry);
    }
  }

  /** The sleeps of the whole loop. */
  lemma AttemptsPauses(files: Files, replies: seq<Reply>, path: Path, rule: FileRule, retry: nat)
    requires retry <= MAX_RETRIES
    ensures PausesFrom(Attempts(files, replies, path, rule, retry).pauses, retry)
  {
    var r := Attempts(files, replies, path, rule, retry);
    AttemptsSleeps(files, replies, path, rule, retry);
    SleepsPaced(replies, retry, r.attempts);
  }

  /** Replies that are all non-200 statuses: three GETs, no sleep, no write, failure. */
  lemma StatusErrorsOnly(files: Files, replies: seq<Reply>, path: Path, rule: FileRule)
    requires |replies| >= 3 && forall i :: 0 <= i < 3 ==> replies[i].Response? && replies[i].status != 200
    ensures Attempts(files, replies, path, rule, 0) == Run(Failed, files, replies[3..], 3, [])
  {
    assert Tail(replies) == replies[1..] && Tail(replies[1..]) == replies[2..] && Tail(replies[2..]) == replies[3..];
  }

  /** A first reply that is a complete, valid 200 body is the whole story. */
  lemma FirstReplyValid(files: Files, replies: seq<Reply>, path: Path, rule: FileRule, body: seq<Byte>)
    requires Head(replies) == Response(200, body, Complete) && Passes(body, rule)
    ensures Attempts(files, replies, path, rule, 0) == Run(Fetched, files[path := body], Tail(replies), 1, [])
  {
  }
}
