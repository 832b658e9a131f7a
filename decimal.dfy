/** Fixed-width decimal text and Python's string ordering.

    Every timestamp key the downloaders store is a zero-padded decimal rendering
    of clock fields, and the ledger prunes those keys with Python's `>=` on
    strings.  This module gives the rendering (`Pad`), its inverse (`Value`) and
    the lexicographic order (`LexLe`), and proves that on strings of equal width
    the lexicographic order is the numeric order.
 */
module Decimal {

  function Pow10(n: nat): (p: nat)
    ensures p >= 1
  {
    if n == 0 then 1 else 10 * Pow10(n - 1)
  }

  predicate IsDigit(c: char) {
    '0' <= c <= '9'
  }

  predicate AllDigits(s: string) {
    forall i :: 0 <= i < |s| ==> IsDigit(s[i])
  }

  function DigitChar(d: int): (c: char)
    requires 0 <= d < 10
    ensures IsDigit(c)
  {
    ('0' as int + d) as char
  }

  function DigitValue(c: char): (d: int)
    requires IsDigit(c)
    ensures 0 <= d < 10
  {
    c as int - '0' as int
  }

  /** The `w` lowest decimal digits of `n`, most significant first: what
      Python's `%0wd` prints for `0 <= n < 10^w`. */
  function Pad(n: int, w: nat): (s: string)
    ensures |s| == w && AllDigits(s)
    decreases w
  {
    if w == 0 then "" else Pad(n / 10, w - 1) + [DigitChar(n % 10)]
  }

  /** The number a string of decimal digits denotes. */
  function Value(s: string): (v: nat)
    requires AllDigits(s)
  {
    if s == "" then 0 else 10 * Value(s[..|s| - 1]) + DigitValue(s[|s| - 1])
  }

  lemma {:induction false} MulAtLeast(d: int, k: int)
    requires d > 0 && k >= 1
    ensures d * k >= d
    decreases k
  {
    if k > 1 {
      MulAtLeast(d, k - 1);
      assert d * k == d * (k - 1) + d;
    }
  }

  /** Euclidean division has a unique quotient and remainder. */
  lemma DivModUnique(n: int, d: int, a: int, b: int)
    requires d > 0 && n == d * a + b && 0 <= b < d
    ensures n / d == a && n % d == b
  {
    var q, r := n / d, n % d;
    assert n == d * q + r;
    assert d * q - d * a == b - r;
    if q > a {
      MulAtLeast(d, q - a);
    } else if q < a {
      MulAtLeast(d, a - q);
    }
  }

  lemma ModOfMul10(n: int, p: nat)
    requires p >= 1
    ensures n % (10 * p) == 10 * ((n / 10) % p) + n % 10
  {
    var q, r := n / 10, n % 10;
    var a, b := q / p, q % p;
    assert n == 10 * q + r;
    assert q == p * a + b;
    assert n == (10 * p) * a + (10 * b + r);
    DivModUnique(n, 10 * p, a, 10 * b + r);
  }

  /** Reading back a rendering gives the number modulo the width. */
  lemma {:induction false} ValuePad(n: int, w: nat)
    ensures Value(Pad(n, w)) == n % Pow10(w)
    decreases w
  {
    if w > 0 {
      var s := Pad(n, w);
      assert s[..|s| - 1] == Pad(n / 10, w - 1);
      ValuePad(n / 10, w - 1);
      ModOfMul10(n, Pow10(w - 1));
    }
  }

  lemma ValuePadExact(n: int, w: nat)
    requires 0 <= n < Pow10(w)
    ensures Value(Pad(n, w)) == n
  {
    ValuePad(n, w);
  }

  /** A digit string is the rendering of its own value. */
  lemma {:induction false} PadValue(s: string)
    requires AllDigits(s)
    ensures Pad(Value(s), |s|) == s
  {
    if s != "" {
      var init := s[..|s| - 1];
      var v := Value(s);
      assert AllDigits(init);
      PadValue(init);
      assert v / 10 == Value(init) && v % 10 == DigitValue(s[|s| - 1]);
      assert s == init + [s[|s| - 1]];
    }
  }

  /** Within the width, rendering is injective. */
  lemma PadInjective(m: int, n: int, w: nat)
    requires 0 <= m < Pow10(w) && 0 <= n < Pow10(w)
    ensures Pad(m, w) == Pad(n, w) <==> m == n
  {
    ValuePad(m, w);
    ValuePad(n, w);
  }

  /** Python's `a <= b` on `str`: lexicographic on code points, a proper prefix sorting first. */
  predicate LexLe(a: string, b: string) {
    if a == [] then true
    else if b == [] then false
    else if a[0] != b[0] then a[0] < b[0]
    else LexLe(a[1..], b[1..])
  }

  lemma {:induction false} LexLeReflexive(a: string)
    ensures LexLe(a, a)
  {
    if a != [] {
      LexLeReflexive(a[1..]);
    }
  }

  lemma {:induction false} LexLeAntisymmetric(a: string, b: string)
    requires LexLe(a, b) && LexLe(b, a)
    ensures a == b
  {
    if a != [] && b != [] {
      LexLeAntisymmetric(a[1..], b[1..]);
      assert a == [a[0]] + a[1..] && b == [b[0]] + b[1..];
    }
  }

  lemma {:induction false} LexLeTotal(a: string, b: string)
    ensures LexLe(a, b) || LexLe(b, a)
  {
    if a != [] && b != [] && a[0] == b[0] {
      LexLeTotal(a[1..], b[1..]);
    }
  }

  lemma {:induction false} LexLeTransitive(a: string, b: string, c: string)
    requires LexLe(a, b) && LexLe(b, c)
    ensures LexLe(a, c)
  {
    if a != [] && b != [] && c != [] && a[0] == b[0] && b[0] == c[0] {
      LexLeTransitive(a[1..], b[1..], c[1..]);
    }
  }

  /** Comparing two concatenations whose first parts have equal width: the first
      parts decide, and only when they are equal do the second parts matter. */
  lemma {:induction false} LexAppend(a: string, b: string, x: string, y: string)
    requires |a| == |b|
    ensures LexLe(a + x, b + y) <==> (a != b && LexLe(a, b)) || (a == b && LexLe(x, y))
    decreases |a|
  {
    if a == [] {
      assert a + x == x && b + y == y;
    } else {
      assert (a + x)[0] == a[0] && (b + y)[0] == b[0];
      assert (a + x)[1..] == a[1..] + x && (b + y)[1..] == b[1..] + y;
      if a[0] != b[0] {
        assert a != b;
      } else {
        LexAppend(a[1..], b[1..], x, y);
        assert a != b <==> a[1..] != b[1..] by {
          assert a == [a[0]] + a[1..] && b == [b[0]] + b[1..];
        }
      }
    }
  }

  /** On renderings of one width, lexicographic order is numeric order. */
  lemma {:induction false} PadOrder(m: int, n: int, w: nat)
    requires 0 <= m < Pow10(w) && 0 <= n < Pow10(w)
    ensures LexLe(Pad(m, w), Pad(n, w)) <==> m <= n
    decreases w
  {
    if w > 0 {
      var hm, hn := Pad(m / 10, w - 1), Pad(n / 10, w - 1);
      PadOrder(m / 10, n / 10, w - 1);
      PadInjective(m / 10, n / 10, w - 1);
      LexAppend(hm, hn, [DigitChar(m % 10)], [DigitChar(n % 10)]);
      assert LexLe([DigitChar(m % 10)], [DigitChar(n % 10)]) <==> m % 10 <= n % 10 by {
        assert [DigitChar(m % 10)][1..] == [];
      }
    }
  }

  /** `Insert(s, k, c)` puts the character `c` before position `k`. */
  function Insert(s: string, k: nat, c: char): (r: string)
    requires k <= |s|
    ensures |r| == |s| + 1 && r[k] == c && r[..k] == s[..k] && r[k + 1..] == s[k..]
  {
    s[..k] + [c] + s[k..]
  }

  /** A separator inserted at the same place in two strings of one width does not
      change how they compare. */
  lemma {:induction false} InsertOrder(s: string, t: string, k: nat, c: char)
    requires |s| == |t| && k <= |s|
    ensures LexLe(Insert(s, k, c), Insert(t, k, c)) <==> LexLe(s, t)
    decreases k
  {
    var si, ti := Insert(s, k, c), Insert(t, k, c);
    if k == 0 {
      assert si == [c] + s && ti == [c] + t;
      assert si[1..] == s && ti[1..] == t;
    } else {
      assert si[0] == s[0] && ti[0] == t[0];
      assert si[1..] == Insert(s[1..], k - 1, c) && ti[1..] == Insert(t[1..], k - 1, c);
      InsertOrder(s[1..], t[1..], k - 1, c);
    }
  }

  /** Shortest decimal rendering of a natural number (Python's `str(n)`). */
  function Digits(n: nat): (s: string)
    ensures |s| >= 1 && AllDigits(s)
    decreases n
  {
    if n < 10 then [DigitChar(n)] else Digits(n / 10) + [DigitChar(n % 10)]
  }

  lemma {:induction false} ValueDigits(n: nat)
    ensures Value(Digits(n)) == n
    decreases n
  {
    if n >= 10 {
      var s := Digits(n);
      assert s[..|s| - 1] == Digits(n / 10);
      ValueDigits(n / 10);
    }
  }
}
