/** The `downloaded` list of a download history and how `add_download_history` updates it.

    Both ledgered downloaders keep the keys they have fetched in a list of
    fixed-width timestamp strings.  A key is appended only when it is absent,
    and only then is the list pruned, keeping the entries that are not below a
    cutoff string under Python's string comparison.  An entry older than the
    cutoff therefore survives as long as only keys already present are recorded.
 */
module Ledger {
  import opened Decimal
  import opened Wrappers
  import opened Clock

  /** What `load_download_history` finds on disk: no file, a file that does not
      parse, or a document with each of its keys present or missing. */
  datatype Stored =
    | Absent
    | Unreadable
    | Doc(downloaded: Option<seq<string>>, lastDownload: Option<string>, lastCheck: Option<string>)

  /** One reading of the clock: the instant, its `%Y-%m-%d %H:%M:%S` text, and
      the pruning cutoff of `add_download_history`. */
  datatype Now = Now(at: Instant, iso: string, cutoff: string)

  predicate NoDup(s: seq<string>) {
    forall i, j :: 0 <= i < j < |s| ==> s[i] != s[j]
  }

  /** `[t for t in entries if t >= cutoff]`. */
  function Retained(entries: seq<string>, cutoff: string): (r: seq<string>)
    ensures forall x :: x in r <==> x in entries && LexLe(cutoff, x)
    ensures |r| <= |entries|
  {
    if entries == [] then []
    else (if LexLe(cutoff, entries[0]) then [entries[0]] else []) + Retained(entries[1..], cutoff)
  }

  /** Filtering splits over concatenation, so the entries that survive keep
      their relative order. */
  lemma {:induction false} RetainedAppend(a: seq<string>, b: seq<string>, cutoff: string)
    ensures Retained(a + b, cutoff) == Retained(a, cutoff) + Retained(b, cutoff)
    decreases |a|
  {
    if a != [] {
      assert (a + b)[1..] == a[1..] + b;
      RetainedAppend(a[1..], b, cutoff);
    } else {
      assert a + b == b;
    }
  }

  /** The new `downloaded` list after recording `key`: when the key was
      present nothing changes, stale entries included; when it was new, the
      old entries and the key each survive only if they are not below the
      cutoff. */
  function Recorded(entries: seq<string>, key: string, cutoff: string): (r: seq<string>)
    ensures forall x :: x in r <==>
      (key in entries && x in entries) ||
      (key !in entries && (x in entries || x == key) && LexLe(cutoff, x))
  {
    if key in entries then entries else Retained(entries + [key], cutoff)
  }

  lemma {:induction false} RetainedNoDup(entries: seq<string>, cutoff: string)
    requires NoDup(entries)
    ensures NoDup(Retained(entries, cutoff))
  {
    if entries != [] {
      var tail := entries[1..];
      assert NoDup(tail);
      RetainedNoDup(tail, cutoff);
      assert entries[0] !in tail;
    }
  }

  lemma NoDupSnoc(s: seq<string>, k: string)
    requires NoDup(s) && k !in s
    ensures NoDup(s + [k])
  {
  }

  /** Recording never introduces a duplicate. */
  lemma RecordedNoDup(entries: seq<string>, key: string, cutoff: string)
    ensures NoDup(entries) ==> NoDup(Recorded(entries, key, cutoff))
  {
    if NoDup(entries) && key !in entries {
      NoDupSnoc(entries, key);
      RetainedNoDup(entries + [key], cutoff);
    }
  }
}
