/** The order a comparator-less JavaScript `sort` puts integers in: by their decimal
    strings, code unit by code unit (section 23.1.3.30 of ECMA-262, 2023 edition). */
module DecimalOrder {
  import opened MachineInts

  function DigitChar(d: nat): char
    requires d < 10
  {
    ('0' as int + d) as char
  }

  function Decimal(n: nat): (s: string)
    ensures 1 <= |s| && (|s| == 1 <==> n < 10)
  {
    if n < 10 then [DigitChar(n)] else Decimal(n / 10) + [DigitChar(n % 10)]
  }

  predicate LexBefore(s: string, t: string) {
    if t == "" then false
    else if s == "" then true
    else s[0] < t[0] || (s[0] == t[0] && LexBefore(s[1..], t[1..]))
  }

  predicate Before(a: nat, b: nat) {
    LexBefore(Decimal(a), Decimal(b))
  }

  ghost function Digits(n: nat): nat {
    |Decimal(n)|
  }

  ghost function Pow10(k: nat): nat
    ensures Pow10(k) > 0
  {
    if k == 0 then 1 else 10 * Pow10(k - 1)
  }

  /** A number without its last few digits. */
  ghost function Leading(n: nat, dropped: nat): nat {
    DivBounds(n, Pow10(dropped));
    n / Pow10(dropped)
  }

  // ------------------------------------------------------------------- lexicographic order

  lemma LexAppend(s: string, t: string, x: char, y: char)
    requires |s| == |t|
    ensures LexBefore(s + [x], t + [y]) <==> LexBefore(s, t) || (s == t && x < y)
  {
    if s != "" {
      assert (s + [x])[1..] == s[1..] + [x] && (t + [y])[1..] == t[1..] + [y];
      LexAppend(s[1..], t[1..], x, y);
      assert s == [s[0]] + s[1..] && t == [t[0]] + t[1..];
    }
  }

  /** Against a longer string only its prefix matters, and a tie puts the shorter first. */
  lemma LexLonger(s: string, t: string)
    requires |s| < |t|
    ensures LexBefore(s, t) <==> s == t[..|s|] || LexBefore(s, t[..|s|])
  {
    if s != "" {
      LexLonger(s[1..], t[1..]);
      assert t[..|s|][1..] == t[1..][..|s| - 1];
      assert s == [s[0]] + s[1..] && t[..|s|] == [t[0]] + t[..|s|][1..];
    }
  }

  lemma LexTotal(s: string, t: string)
    ensures LexBefore(s, t) || LexBefore(t, s) || s == t
    ensures !(LexBefore(s, t) && LexBefore(t, s)) && !LexBefore(s, s)
  {
    if s != "" && t != "" {
      LexTotal(s[1..], t[1..]);
      assert s == [s[0]] + s[1..] && t == [t[0]] + t[1..];
    }
    if s != "" {
      LexTotal(s[1..], s[1..]);
    }
  }

  lemma LexTransitive(s: string, t: string, u: string)
    requires LexBefore(s, t) && LexBefore(t, u)
    ensures LexBefore(s, u)
  {
    if s != "" && s[0] == t[0] == u[0] {
      LexTransitive(s[1..], t[1..], u[1..]);
    }
  }

  // ---------------------------------------------------------------------- decimal strings

  /** With equally many digits the strings are ordered as the numbers are. */
  lemma {:induction false} SameDigitsNumeric(a: nat, b: nat)
    requires Digits(a) == Digits(b)
    ensures Before(a, b) <==> a < b
    ensures Decimal(a) == Decimal(b) <==> a == b
  {
    if a < 10 {
      LexAppend("", "", DigitChar(a), DigitChar(b));
      assert Decimal(a) == "" + [DigitChar(a)] && Decimal(b) == "" + [DigitChar(b)];
    } else {
      SameDigitsNumeric(a / 10, b / 10);
      LexAppend(Decimal(a / 10), Decimal(b / 10), DigitChar(a % 10), DigitChar(b % 10));
      var s, t := Decimal(a), Decimal(b);
      assert s[..|s| - 1] == Decimal(a / 10) && t[..|t| - 1] == Decimal(b / 10);
      assert s[|s| - 1] == DigitChar(a % 10) && t[|t| - 1] == DigitChar(b % 10);
    }
  }

  lemma {:induction false} FewerDigitsSmaller(a: nat, b: nat)
    requires a <= b
    ensures 1 <= Digits(a) <= Digits(b)
  {
    if a >= 10 {
      FewerDigitsSmaller(a / 10, b / 10);
    }
  }

  /** Cutting a decimal string divides by a power of ten. */
  lemma {:induction false} DecimalPrefix(n: nat, k: nat)
    requires 0 < k <= Digits(n)
    ensures Decimal(n)[..k] == Decimal(Leading(n, Digits(n) - k))
    decreases n
  {
    if Digits(n) == k {
      assert Leading(n, 0) == n;
    } else {
      var m := n / 10;
      assert Decimal(n) == Decimal(m) + [DigitChar(n % 10)];
      DecimalPrefix(m, k);
      DivTwice(n, Pow10(Digits(m) - k));
      assert Decimal(n)[..k] == Decimal(m)[..k];
    }
  }

  lemma DivTwice(n: nat, p: nat)
    requires 0 < p
    ensures n / 10 / p == n / (10 * p)
  {
    var q := n / 10 / p;
    DivWindow(n / 10, p);
    assert (10 * p) * q <= n < (10 * p) * q + 10 * p by {
      assert 10 * (p * q) == (10 * p) * q;
    }
    DivUnique(n, 10 * p, q);
  }

  /** When the strings of two numbers are in numeric order, exactly: the smaller number must
      not exceed the leading digits of the larger, cut to the same length. */
  lemma BeforeIff(a: nat, b: nat)
    requires a < b
    ensures Digits(a) <= Digits(b)
    ensures Before(a, b) <==> a <= Leading(b, Digits(b) - Digits(a))
  {
    FewerDigitsSmaller(a, b);
    if Digits(a) == Digits(b) {
      SameDigitsNumeric(a, b);
      assert Leading(b, 0) == b;
    } else {
      var cut := Leading(b, Digits(b) - Digits(a));
      DecimalPrefix(b, Digits(a));
      BeforeLonger(a, b, cut);
    }
  }

  lemma BeforeLonger(a: nat, b: nat, cut: nat)
    requires Digits(a) < Digits(b) && Decimal(b)[..Digits(a)] == Decimal(cut)
    ensures Before(a, b) <==> a <= cut
  {
    LexLonger(Decimal(a), Decimal(b));
    SameDigitsNumeric(a, cut);
  }

  lemma BeforeIsTotal(a: nat, b: nat)
    ensures a != b ==> (Before(a, b) <==> !Before(b, a))
    ensures !Before(a, a)
  {
    LexTotal(Decimal(a), Decimal(b));
    LexTotal(Decimal(a), Decimal(a));
    if Decimal(a) == Decimal(b) {
      SameDigitsNumeric(a, b);
    }
  }

  // ---------------------------------------------------------------------------------- sort

  predicate AtMost(a: nat, b: nat) {
    a == b || Before(a, b)
  }

  ghost predicate Sorted(s: seq<nat>) {
    forall i, j :: 0 <= i < j < |s| ==> AtMost(s[i], s[j])
  }

  function Insert(s: seq<nat>, x: nat): (r: seq<nat>) {
    if s == [] || Before(x, s[0]) then [x] + s else [s[0]] + Insert(s[1..], x)
  }

  /** The stable sort of the runtime. */
  function Sort(s: seq<nat>): (r: seq<nat>) {
    if s == [] then [] else Insert(Sort(s[..|s| - 1]), s[|s| - 1])
  }

  lemma {:induction false} InsertKeepsElements(s: seq<nat>, x: nat)
    ensures multiset(Insert(s, x)) == multiset(s) + multiset{x}
  {
    if s != [] && !Before(x, s[0]) {
      InsertKeepsElements(s[1..], x);
      assert s == [s[0]] + s[1..];
    }
  }

  lemma PrependSorted(x: nat, s: seq<nat>)
    requires Sorted(s) && forall y :: y in s ==> AtMost(x, y)
    ensures Sorted([x] + s)
  {
  }

  lemma AtMostTransitive(a: nat, b: nat, c: nat)
    requires AtMost(a, b) && AtMost(b, c)
    ensures AtMost(a, c)
  {
    if a != b && b != c {
      LexTransitive(Decimal(a), Decimal(b), Decimal(c));
    }
  }

  lemma {:induction false} InsertIsSorted(s: seq<nat>, x: nat)
    requires Sorted(s)
    ensures Sorted(Insert(s, x))
  {
    if s == [] {
    } else if Before(x, s[0]) {
      forall y | y in s ensures AtMost(x, y) {
        AtMostTransitive(x, s[0], y);
      }
      PrependSorted(x, s);
    } else {
      var rest := Insert(s[1..], x);
      InsertIsSorted(s[1..], x);
      InsertKeepsElements(s[1..], x);
      BeforeIsTotal(x, s[0]);
      forall y | y in rest ensures AtMost(s[0], y) {
        assert y in multiset(rest);
        assert y in s[1..] || y == x;
      }
      PrependSorted(s[0], rest);
    }
  }

  lemma {:induction false} SortIsSorted(s: seq<nat>)
    ensures Sorted(Sort(s)) && multiset(Sort(s)) == multiset(s)
  {
    if s != [] {
      SortIsSorted(s[..|s| - 1]);
      InsertIsSorted(Sort(s[..|s| - 1]), s[|s| - 1]);
      InsertKeepsElements(Sort(s[..|s| - 1]), s[|s| - 1]);
      assert s == s[..|s| - 1] + [s[|s| - 1]];
    }
  }
}
