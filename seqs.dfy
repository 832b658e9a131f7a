/** Facts about sequences that the scans and loops of all three downloaders use. */
module Seqs {

  /** Strictly increasing, hence also free of duplicates. */
  predicate Ascending(s: seq<int>) {
    forall i, j :: 0 <= i < j < |s| ==> s[i] < s[j]
  }

  /** `[x] + s` is ascending when `s` is and every element of `s` comes
      after `x` in an ascending `[x] + t`. */
  lemma AscendingPrepend(x: int, t: seq<int>, s: seq<int>)
    requires Ascending([x] + t) && Ascending(s) && forall y :: y in s ==> y in t
    ensures Ascending([x] + s)
  {
    var xt, xs := [x] + t, [x] + s;
    forall i, j | 0 <= i < j < |xs| ensures xs[i] < xs[j] {
      var y := s[j - 1];
      assert xs[j] == y && y in s;
      if i == 0 {
        var k :| 0 <= k < |t| && t[k] == y;
        assert xt[0] == x && xt[k + 1] == y;
      } else {
        assert xs[i] == s[i - 1];
      }
    }
  }

  /** `[x] + s` is ascending when `s` is and `x` comes before all of it. */
  lemma AscendingCons(x: int, s: seq<int>)
    requires Ascending(s) && forall y :: y in s ==> x < y
    ensures Ascending([x] + s)
  {
    var xs := [x] + s;
    forall i, j | 0 <= i < j < |xs| ensures xs[i] < xs[j] {
      assert xs[j] == s[j - 1] && s[j - 1] in s;
      if i > 0 {
        assert xs[i] == s[i - 1];
      }
    }
  }

  /** Two ascending runs, the first entirely before the second, make one. */
  lemma AscendingConcat(a: seq<int>, b: seq<int>)
    requires Ascending(a) && Ascending(b) && forall x, y :: x in a && y in b ==> x < y
    ensures Ascending(a + b)
  {
    var ab := a + b;
    forall i, j | 0 <= i < j < |ab| ensures ab[i] < ab[j] {
      if j < |a| {
        assert ab[i] == a[i] && ab[j] == a[j];
      } else if i >= |a| {
        assert ab[i] == b[i - |a|] && ab[j] == b[j - |a|];
      } else {
        assert ab[i] == a[i] && a[i] in a && ab[j] == b[j - |a|] && b[j - |a|] in b;
      }
    }
  }

  /** An ascending sequence is determined by its elements: `sorted(set(s))`
      of an ascending `s` is `s` itself. */
  lemma {:induction false} AscendingUnique(a: seq<int>, b: seq<int>)
    requires Ascending(a) && Ascending(b) && forall x :: x in a <==> x in b
    ensures a == b
    decreases |a|
  {
    if a == [] || b == [] {
      HeadIn(a);
      HeadIn(b);
    } else {
      assert a[0] in b && b[0] in a;
      assert a[0] == b[0] by {
        var i :| 0 <= i < |b| && b[i] == a[0];
        var j :| 0 <= j < |a| && a[j] == b[0];
        assert b[0] <= b[i] && a[0] <= a[j];
      }
      forall x ensures x in a[1..] <==> x in b[1..] {
        if x in a[1..] {
          var i :| 1 <= i < |a| && a[i] == x;
          assert x in b && x != b[0];
        }
        if x in b[1..] {
          var i :| 1 <= i < |b| && b[i] == x;
          assert x in a && x != a[0];
        }
      }
      AscendingUnique(a[1..], b[1..]);
    }
  }

  lemma HeadIn(s: seq<int>)
    ensures |s| > 0 ==> s[0] in s
  {
  }

  /** `[f(x) for x in s]`. */
  function Mapped<A, B>(f: A -> B, s: seq<A>): (r: seq<B>)
    ensures |r| == |s|
  {
    seq(|s|, i requires 0 <= i < |s| => f(s[i]))
  }

  lemma MappedSnoc<A, B>(f: A -> B, s: seq<A>, x: A)
    ensures Mapped(f, s + [x]) == Mapped(f, s) + [f(x)]
  {
    var a, b := Mapped(f, s + [x]), Mapped(f, s) + [f(x)];
    forall i | 0 <= i < |a|
      ensures a[i] == b[i]
    {
      if i < |s| {
        assert (s + [x])[i] == s[i];
      }
    }
  }

  lemma Regrouped<T>(a: seq<T>, b: seq<T>, c: seq<T>)
    ensures a + (b + c) == (a + b) + c
  {
  }

  lemma Unprefixed<T>(s: seq<T>)
    ensures [] + s == s
  {
  }

  lemma Unsuffixed<T>(s: seq<T>)
    ensures s + [] == s
  {
  }

  /** A slice inside the left operand of a concatenation. */
  lemma SliceLeft<T>(x: seq<T>, y: seq<T>, i: nat, j: nat)
    requires i <= j <= |x|
    ensures (x + y)[i..j] == x[i..j]
  {
  }

  /** A suffix starting inside the left operand of a concatenation. */
  lemma DropLeft<T>(x: seq<T>, y: seq<T>, i: nat)
    requires i <= |x|
    ensures (x + y)[i..] == x[i..] + y
  {
  }
}
