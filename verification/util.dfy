/** Shared vocabulary: optional values, decimal text as the C++ streams print and
    std::stoi reads it, strictly ascending id lists, and literal substring search
    (std::string::find / rfind). */
module Util {

  datatype Option<+T> = None | Some(value: T)

  // ---------------------------------------------------------------------------
  // Decimal text
  // ---------------------------------------------------------------------------

  predicate IsDigit(c: char) { '0' <= c <= '9' }

  predicate AllDigits(s: string) { forall i :: 0 <= i < |s| ==> IsDigit(s[i]) }

  function DigitValue(c: char): nat
    requires IsDigit(c)
  {
    c as int - '0' as int
  }

  function DigitChar(d: nat): (c: char)
    requires d < 10
    ensures IsDigit(c) && DigitValue(c) == d
  {
    ('0' as int + d) as char
  }

  /** The number a run of decimal digits denotes (leading zeros allowed). */
  function DecValue(s: string): nat
    requires AllDigits(s)
  {
    if |s| == 0 then 0 else DecValue(s[..|s| - 1]) * 10 + DigitValue(s[|s| - 1])
  }

  /** Decimal text of n with no leading zero: what `std::to_string(n)` and
      `stream << n` produce for a non-negative integer. */
  function NatToString(n: nat): (r: string)
    ensures |r| > 0 && AllDigits(r)
    ensures DecValue(r) == n
    ensures r[0] == '0' <==> n == 0
  {
    if n < 10 then [DigitChar(n)]
    else
      var front := NatToString(n / 10);
      assert (front + [DigitChar(n % 10)])[..|front|] == front;
      front + [DigitChar(n % 10)]
  }

  /** Decimal text of a signed integer as `stream << i` prints it. */
  function IntToString(i: int): (r: string)
    ensures |r| > 0
    ensures i >= 0 ==> r == NatToString(i)
    ensures i < 0 ==> r == "-" + NatToString(-i)
  {
    if i < 0 then "-" + NatToString(-i) else NatToString(i)
  }

  function Pow10(k: nat): (r: nat)
    ensures r >= 1
  {
    if k == 0 then 1 else 10 * Pow10(k - 1)
  }

  /** A number below 10^k prints in at most k digits. */
  lemma {:induction false} NatToStringWidth(n: nat, k: nat)
    requires 1 <= k && n < Pow10(k)
    ensures |NatToString(n)| <= k
  {
    if n >= 10 {
      assert k >= 2;
      NatToStringWidth(n / 10, k - 1);
    }
  }

  lemma TenDigitsWhenSmall(n: nat)
    ensures n < Pow10(10) ==> |NatToString(n)| <= 10
  {
    if n < Pow10(10) { NatToStringWidth(n, 10); }
  }

  function Zeros(k: nat): (r: string)
    ensures |r| == k && AllDigits(r)
    ensures forall i :: 0 <= i < k ==> r[i] == '0'
  {
    seq(k, _ => '0')
  }

  /** Leading zeros do not change the value std::stoi reads. */
  lemma {:induction false} LeadingZerosValue(k: nat, d: string)
    requires AllDigits(d)
    ensures AllDigits(Zeros(k) + d)
    ensures DecValue(Zeros(k) + d) == DecValue(d)
  {
    if |d| == 0 {
      assert Zeros(k) + d == Zeros(k);
      ZerosValue(k);
    } else {
      var z := Zeros(k) + d;
      assert z[..|z| - 1] == Zeros(k) + d[..|d| - 1];
      LeadingZerosValue(k, d[..|d| - 1]);
    }
  }

  lemma {:induction false} ZerosValue(k: nat)
    ensures DecValue(Zeros(k)) == 0
  {
    if k > 0 {
      assert Zeros(k)[..k - 1] == Zeros(k - 1);
      ZerosValue(k - 1);
    }
  }

  /** `std::setw(10) << std::setfill('0') << n`: n left-padded with zeros to ten
      characters; a wider number is printed in full. */
  function Pad10(n: nat): (r: string)
    ensures AllDigits(r) && DecValue(r) == n
    ensures |r| >= 10
    ensures n < Pow10(10) ==> |r| == 10
  {
    var d := NatToString(n);
    TenDigitsWhenSmall(n);
    LeadingZerosValue(if |d| < 10 then 10 - |d| else 0, d);
    if |d| < 10 then Zeros(10 - |d|) + d else d
  }

  // ---------------------------------------------------------------------------
  // Joining strings
  // ---------------------------------------------------------------------------

  /** Concatenation of a list of sequences (usually strings), in order. */
  function Concat<T>(ss: seq<seq<T>>): seq<T>
  {
    if |ss| == 0 then [] else ss[0] + Concat(ss[1..])
  }

  lemma {:induction false} ConcatAppend<T>(a: seq<seq<T>>, b: seq<seq<T>>)
    ensures Concat(a + b) == Concat(a) + Concat(b)
  {
    if |a| > 0 {
      assert (a + b)[1..] == a[1..] + b;
      ConcatAppend(a[1..], b);
    } else {
      assert a + b == b;
    }
  }

  /** Cutting a suffix of s at b and c. */
  lemma SliceSplit(s: string, a: nat, b: nat, c: nat)
    requires a <= b <= c <= |s|
    ensures s[a..] == s[a..b] + (s[b..c] + s[c..])
  {
    assert s[a..] == s[a..b] + s[b..];
    assert s[b..] == s[b..c] + s[c..];
  }

  // ---------------------------------------------------------------------------
  // Ascending id lists
  // ---------------------------------------------------------------------------

  predicate StrictlyAscending(s: seq<nat>)
  {
    forall i, j :: 0 <= i < j < |s| ==> s[i] < s[j]
  }

  /** No element occurs twice. */
  predicate Distinct(s: seq<nat>)
  {
    forall i, j :: 0 <= i < j < |s| ==> s[i] != s[j]
  }

  /** In a list without repeats, equal entries are at the same position. */
  lemma DistinctAt(s: seq<nat>, i: nat, j: nat)
    requires Distinct(s) && i < |s| && j < |s| && s[i] == s[j]
    ensures i == j
  {
  }

  predicate IsLeast(m: nat, s: set<nat>)
  {
    m in s && forall x :: x in s ==> m <= x
  }

  lemma {:induction false} LeastExists(s: set<nat>)
    requires s != {}
    ensures exists m :: IsLeast(m, s)
  {
    var x :| x in s;
    if s != {x} {
      LeastExists(s - {x});
      var m :| IsLeast(m, s - {x});
      forall y | y in s
        ensures y == x || y in s - {x}
      {
      }
      if x < m { assert IsLeast(x, s); } else { assert IsLeast(m, s); }
    } else {
      assert IsLeast(x, s);
    }
  }

  function SetMin(s: set<nat>): (m: nat)
    requires s != {}
    ensures IsLeast(m, s)
  {
    LeastExists(s);
    var m :| IsLeast(m, s);
    m
  }

  /** The elements of a finite set of ids in ascending order: what
      `sort` followed by `unique` leaves in a vector holding exactly those ids. */
  function SortedSeqOf(s: set<nat>): (r: seq<nat>)
    ensures StrictlyAscending(r)
    ensures forall x :: x in r <==> x in s
    ensures |r| == |s|
    decreases |s|
  {
    if s == {} then []
    else
      var m := SetMin(s);
      [m] + SortedSeqOf(s - {m})
  }

  /** The head of a strictly ascending list is its least element, and the
      tail holds every other element. */
  lemma AscendingHead(a: seq<nat>)
    requires StrictlyAscending(a) && |a| > 0
    ensures forall x :: x in a ==> a[0] <= x
    ensures forall x :: x in a[1..] <==> x in a && x != a[0]
  {
    forall x | x in a ensures a[0] <= x {
      var i :| 0 <= i < |a| && a[i] == x;
    }
    forall x | x in a && x != a[0] ensures x in a[1..] {
      var i :| 0 <= i < |a| && a[i] == x;
      assert a[1..][i - 1] == x;
    }
  }

  /** Two strictly ascending lists with the same elements are the same list. */
  lemma {:induction false} AscendingUnique(a: seq<nat>, b: seq<nat>)
    requires StrictlyAscending(a) && StrictlyAscending(b)
    requires forall x :: x in a <==> x in b
    ensures a == b
  {
    if |a| > 0 {
      assert a[0] in b;
    }
    if |b| > 0 {
      assert b[0] in a;
    }
    if |a| > 0 && |b| > 0 {
      AscendingHead(a);
      AscendingHead(b);
      assert a[0] == b[0];
      AscendingUnique(a[1..], b[1..]);
      assert a == [a[0]] + a[1..];
      assert b == [b[0]] + b[1..];
    }
  }

  // ---------------------------------------------------------------------------
  // Literal search
  // ---------------------------------------------------------------------------

  /** `lit` occurs in `s` starting at index i. */
  predicate LitAt(s: string, i: nat, lit: string)
  {
    i + |lit| <= |s| && s[i..i + |lit|] == lit
  }

  lemma LitChar(s: string, i: nat, lit: string, k: nat)
    requires LitAt(s, i, lit) && k < |lit|
    ensures s[i + k] == lit[k]
  {
    assert s[i..i + |lit|][k] == s[i + k];
  }

  /** A character is a one-character literal where it stands. */
  lemma CharLit(s: string, i: nat, c: char)
    requires i < |s| && s[i] == c
    ensures LitAt(s, i, [c])
  {
  }

  lemma LitSelf(p: string)
    ensures LitAt(p, 0, p)
  {
    assert p[0..|p|] == p;
  }

  lemma LitPrefix(p: string, y: string)
    ensures LitAt(p + y, 0, p)
  {
    assert (p + y)[0..|p|] == p;
  }

  /** Both halves of a concatenation are found where they were put. */
  lemma LitJoin(x: string, y: string)
    ensures LitAt(x + y, 0, x) && LitAt(x + y, |x|, y)
  {
    LitPrefix(x, y);
    LitSelf(y);
    LitShift(x, y, 0, y);
  }

  /** An occurrence in y is an occurrence in x + y, shifted by |x|. */
  lemma LitShift(x: string, y: string, i: nat, p: string)
    requires LitAt(y, i, p)
    ensures LitAt(x + y, |x| + i, p)
  {
    assert (x + y)[|x| + i..|x| + i + |p|] == y[i..i + |p|];
  }

  /** LitShift, with the position in the joined text named. */
  lemma LitShiftTo(x: string, y: string, i: nat, p: string, j: nat)
    requires LitAt(y, i, p) && j == |x| + i
    ensures LitAt(x + y, j, p)
  {
    LitShift(x, y, i, p);
  }

  /** An occurrence in x is an occurrence in x + y. */
  lemma LitExtend(x: string, y: string, i: nat, p: string)
    requires LitAt(x, i, p)
    ensures LitAt(x + y, i, p)
  {
    assert (x + y)[i..i + |p|] == x[i..i + |p|];
  }

  /** A literal at the front of a literal found in s is found in s too. */
  lemma LitNested(s: string, i: nat, t: string, p: string)
    requires LitAt(s, i, t) && LitAt(t, 0, p)
    ensures LitAt(s, i, p)
  {
    LitPart(s, i, t, 0, |p|);
    assert t[0..|p|] == p;
  }

  /** A piece of an occurrence is an occurrence of the piece. */
  lemma LitPart(s: string, i: nat, lit: string, a: nat, b: nat)
    requires LitAt(s, i, lit) && a <= b <= |lit|
    ensures LitAt(s, i + a, lit[a..b])
  {
    forall k | 0 <= k < b - a
      ensures s[i + a..i + b][k] == lit[a..b][k]
    {
      assert s[i..i + |lit|][a + k] == s[i + a + k];
    }
  }

  lemma NotLitAt(s: string, i: nat, lit: string, k: nat)
    requires k < |lit| && (i + k >= |s| || s[i + k] != lit[k])
    ensures !LitAt(s, i, lit)
  {
    if LitAt(s, i, lit) { LitChar(s, i, lit, k); }
  }

  /** Occurrences in two texts that share a suffix correspond. */
  lemma LitAtSuffix(r: string, s: string, k: nat, k2: nat, d: nat, lit: string)
    requires k <= |r| && k2 <= |s| && r[k..] == s[k2..]
    ensures LitAt(r, k + d, lit) <==> LitAt(s, k2 + d, lit)
  {
    if k + d + |lit| <= |r| {
      var a := r[k + d..k + d + |lit|];
      var b := s[k2 + d..k2 + d + |lit|];
      forall i | 0 <= i < |lit|
        ensures a[i] == b[i]
      {
        assert r[k..][d + i] == s[k2..][d + i];
      }
    }
  }

  /** `s.find(lit, from)`: the first occurrence of lit at or after from. */
  function IndexOf(s: string, lit: string, from: nat): (r: Option<nat>)
    requires |lit| > 0 && from <= |s|
    ensures r.Some? ==> from <= r.value && LitAt(s, r.value, lit)
    ensures r.Some? ==> forall j: nat :: from <= j < r.value ==> !LitAt(s, j, lit)
    ensures r.None? ==> forall j: nat :: from <= j ==> !LitAt(s, j, lit)
    decreases |s| - from
  {
    if from + |lit| > |s| then None
    else if s[from..from + |lit|] == lit then Some(from)
    else IndexOf(s, lit, from + 1)
  }

  /** `s.rfind(lit)` restricted to starts below `below`. */
  function LastIndexBelow(s: string, lit: string, below: nat): (r: Option<nat>)
    requires |lit| > 0
    ensures r.Some? ==> r.value < below && LitAt(s, r.value, lit)
    ensures r.Some? ==> forall j: nat :: r.value < j < below ==> !LitAt(s, j, lit)
    ensures r.None? ==> forall j: nat :: j < below ==> !LitAt(s, j, lit)
  {
    if below == 0 then None
    else if LitAt(s, below - 1, lit) then Some(below - 1)
    else LastIndexBelow(s, lit, below - 1)
  }

  /** `s.rfind(lit)`: the last occurrence of lit in s. */
  function LastIndexOf(s: string, lit: string): (r: Option<nat>)
    requires |lit| > 0
    ensures r.Some? ==> LitAt(s, r.value, lit)
    ensures r.Some? ==> forall j: nat :: r.value < j ==> !LitAt(s, j, lit)
    ensures r.None? ==> forall j: nat :: !LitAt(s, j, lit)
  {
    LastIndexBelow(s, lit, |s| + 1)
  }

  /** The last occurrence is the one with none after it. */
  lemma LastIndexOfIs(s: string, lit: string, p: nat)
    requires |lit| > 0 && LitAt(s, p, lit)
    requires forall j: nat :: p < j ==> !LitAt(s, j, lit)
    ensures LastIndexOf(s, lit) == Some(p)
  {
  }
}
