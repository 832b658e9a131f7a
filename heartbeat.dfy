/** The countdown bar both ledgered downloaders log once a minute
    (`generate_progress_bar`, identical in the two scripts).

    The bar is fifty cells wide: `=` for the part of the wait already
    elapsed, blanks for the rest, followed by the time still to wait.  The
    source computes the filled length through a float division; here it is
    the integer floor of the same ratio, and the contracts claim only what
    holds under either reading: the shape of the bar, the empty and full
    extremes, and that the bar never shrinks while the wait runs down.
 */
module Heartbeat {
  import opened Decimal

  const BAR_LENGTH: int := 50

  /** `f"{n:02d}"`: at least two digits, a leading minus for a negative number. */
  function Fmt02(n: int): (s: string)
    ensures n >= 0 ==> |s| >= 2 && AllDigits(s) && Value(s) == n
    ensures 0 <= n < 100 ==> |s| == 2
    ensures n < 0 ==> |s| >= 2 && s[0] == '-'
  {
    if n < 0 then "-" + Digits(-n)
    else if n < 10 then
      var z := ['0'];
      assert Value(z) == 0 by { assert z[..0] == ""; }
      assert ("0" + Digits(n))[..1] == z;
      "0" + Digits(n)
    else
      ValueDigits(n);
      assert |Digits(n / 10)| >= 1;
      assert n < 100 ==> |Digits(n / 10)| == 1;
      Digits(n)
  }

  /** The time still to wait: `HH:MM:SS` from one hour up, `MM:SS` below. */
  function Countdown(rem: int): string {
    if rem >= 3600 then Fmt02(rem / 3600) + ":" + Fmt02(rem % 3600 / 60) + ":" + Fmt02(rem % 60)
    else Fmt02(rem / 60) + ":" + Fmt02(rem % 60)
  }

  /** Below an hour the countdown is five characters and reads back as the
      seconds it shows. */
  lemma CountdownShort(rem: int)
    requires 0 <= rem < 3600
    ensures var s := Countdown(rem);
      |s| == 5 && s[2] == ':' && AllDigits(s[..2]) && AllDigits(s[3..]) &&
      Value(s[..2]) * 60 + Value(s[3..]) == rem && Value(s[3..]) < 60
  {
    var a, b := Fmt02(rem / 60), Fmt02(rem % 60);
    Joined2(a, b);
  }

  /** From an hour up the countdown reads back as the seconds it shows,
      however many digits the hours take. */
  lemma CountdownLong(rem: int)
    requires rem >= 3600
    ensures var s := Countdown(rem); var k := |s| - 6;
      k >= 2 && s[k] == ':' && s[k + 3] == ':' &&
      AllDigits(s[..k]) && AllDigits(s[k + 1..k + 3]) && AllDigits(s[k + 4..]) &&
      Value(s[..k]) * 3600 + Value(s[k + 1..k + 3]) * 60 + Value(s[k + 4..]) == rem &&
      Value(s[k + 1..k + 3]) < 60 && Value(s[k + 4..]) < 60
  {
    var h, m, c := Fmt02(rem / 3600), Fmt02(rem % 3600 / 60), Fmt02(rem % 60);
    Joined3(h, m, c);
    HourSplit(rem);
  }

  lemma Joined2(a: string, b: string)
    requires |a| == 2
    ensures var s := a + ":" + b; |s| == 3 + |b| && s[2] == ':' && s[..2] == a && s[3..] == b
  {
  }

  lemma Joined3(h: string, m: string, c: string)
    requires |m| == 2 && |c| == 2
    ensures var s := h + ":" + m + ":" + c; var k := |s| - 6;
      k == |h| && s[k] == ':' && s[k + 3] == ':' && s[..k] == h && s[k + 1..k + 3] == m && s[k + 4..] == c
  {
  }

  lemma HourSplit(rem: int)
    ensures rem / 3600 * 3600 + rem % 3600 / 60 * 60 + rem % 60 == rem
  {
    var q, r := rem / 3600, rem % 3600;
    var m, c := r / 60, r % 60;
    assert rem == q * 3600 + m * 60 + c;
    DivModUnique(rem, 60, q * 60 + m, c);
  }

  /** How many of the fifty cells are filled: none while the whole wait is
      still ahead, all once it is over. */
  function Filled(remaining: int, total: int): (f: int)
    requires total > 0
    ensures 0 <= f <= BAR_LENGTH
    ensures remaining >= total ==> f == 0
    ensures remaining <= 0 ==> f == BAR_LENGTH
  {
    var rem := if remaining < total then remaining else total;
    var f := BAR_LENGTH * (total - rem) / total;
    assert remaining <= 0 ==> f >= BAR_LENGTH by {
      if remaining <= 0 {
        DivMonotone(BAR_LENGTH * total, BAR_LENGTH * (total - rem), total);
        DivModUnique(BAR_LENGTH * total, total, BAR_LENGTH, 0);
      }
    }
    if f < 0 then 0 else if f > BAR_LENGTH then BAR_LENGTH else f
  }

  /** `f` filled cells followed by blanks, fifty in all. */
  function Cells(f: int): (bar: string)
    requires 0 <= f <= BAR_LENGTH
    ensures |bar| == BAR_LENGTH
    ensures forall i :: 0 <= i < BAR_LENGTH ==> (bar[i] == '=' <==> i < f) && (bar[i] == '=' || bar[i] == ' ')
  {
    seq(f, _ => '=') + seq(BAR_LENGTH - f, _ => ' ')
  }

  /** `generate_progress_bar(seconds_remaining, total_seconds)`. */
  function ProgressBar(remaining: int, total: int): (r: string)
    ensures |r| >= BAR_LENGTH + 3 && r[0] == '[' && r[BAR_LENGTH + 1] == ']' && r[BAR_LENGTH + 2] == ' '
    ensures forall i :: 1 <= i <= BAR_LENGTH ==> r[i] == '=' || r[i] == ' '
    ensures forall i, j :: 1 <= i < j <= BAR_LENGTH && r[j] == '=' ==> r[i] == '='
    ensures total <= 0 ==> r == "[" + Cells(BAR_LENGTH) + "] 00:00"
    ensures total > 0 ==> r[BAR_LENGTH + 3..] == Countdown(if remaining < total then remaining else total)
    ensures total > 0 && remaining >= total ==> forall i :: 1 <= i <= BAR_LENGTH ==> r[i] == ' '
    ensures total > 0 && remaining <= 0 ==> forall i :: 1 <= i <= BAR_LENGTH ==> r[i] == '='
  {
    var f := if total <= 0 then BAR_LENGTH else Filled(remaining, total);
    var c := if total <= 0 then "00:00" else Countdown(if remaining < total then remaining else total);
    Framed(Cells(f), c)
  }

  /** `[bar] text`. */
  function Framed(bar: string, text: string): (r: string)
    requires |bar| == BAR_LENGTH
    ensures |r| == BAR_LENGTH + 3 + |text| && r[0] == '[' && r[BAR_LENGTH + 1] == ']' && r[BAR_LENGTH + 2] == ' '
    ensures forall i :: 1 <= i <= BAR_LENGTH ==> r[i] == bar[i - 1]
    ensures r[BAR_LENGTH + 3..] == text
  {
    "[" + bar + "] " + text
  }

  /** As the wait runs down the bar only grows. */
  lemma FilledGrows(a: int, b: int, total: int)
    requires total > 0 && a <= b
    ensures Filled(b, total) <= Filled(a, total)
  {
    var ra := if a < total then a else total;
    var rb := if b < total then b else total;
    assert BAR_LENGTH * (total - rb) <= BAR_LENGTH * (total - ra);
    DivMonotone(BAR_LENGTH * (total - rb), BAR_LENGTH * (total - ra), total);
  }

  lemma DivMonotone(x: int, y: int, d: int)
    requires d > 0 && x <= y
    ensures x / d <= y / d
  {
    var qx, qy := x / d, y / d;
    if qx > qy {
      MulAtLeast(d, qx - qy);
    }
  }
}
