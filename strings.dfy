/** The part of Go's `strings` and `strconv` packages that the explorer uses.
    A Go string is a sequence of bytes; here each byte is one `char`, and
    lower-casing is defined on ASCII letters only. */
module Strings {

  /** An ASCII letter in lower case; every other character unchanged. */
  function LowerChar(c: char): char
  {
    if 'A' <= c <= 'Z' then (c as int + 32) as char else c
  }

  /** strings.ToLower, restricted to ASCII: same length, letter by letter. */
  function Lower(s: string): (r: string)
    ensures |r| == |s|
  {
    seq(|s|, i requires 0 <= i < |s| => LowerChar(s[i]))
  }

  lemma LowerIdempotent(s: string)
    ensures Lower(Lower(s)) == Lower(s)
  {
  }

  lemma LowerSlice(s: string, i: int, j: int)
    requires 0 <= i <= j <= |s|
    ensures Lower(s)[i..j] == Lower(s[i..j])
  {
  }

  /** `t` occurs in `s` starting at position `i`. */
  predicate OccursAt(s: string, t: string, i: int)
  {
    0 <= i && i + |t| <= |s| && s[i..i + |t|] == t
  }

  lemma OccursAtShift(s: string, t: string, j: int)
    requires |s| > 0 && j >= 0
    ensures OccursAt(s[1..], t, j) <==> OccursAt(s, t, j + 1)
  {
    if 0 <= j && j + |t| <= |s| - 1 {
      assert s[1..][j..j + |t|] == s[j + 1..j + 1 + |t|];
    }
  }

  /** strings.Index: the first position at which `t` occurs in `s`, or -1
      when it occurs nowhere (`IndexSpec`). The empty string occurs at 0. */
  function Index(s: string, t: string): (r: int)
    ensures -1 <= r <= |s|
    decreases |s|
  {
    if |t| > |s| then -1
    else if s[..|t|] == t then 0
    else
      var k := Index(s[1..], t);
      if k == -1 then -1 else k + 1
  }

  /** The position `strings.Index` reports holds an occurrence and none
      starts before it; -1 means that there is no occurrence at all. */
  lemma {:induction false} IndexSpec(s: string, t: string)
    ensures var r := Index(s, t);
      && (r >= 0 ==> OccursAt(s, t, r))
      && (r >= 0 ==> forall j :: 0 <= j < r ==> !OccursAt(s, t, j))
      && (r == -1 <==> forall j :: !OccursAt(s, t, j))
    decreases |s|
  {
    if |t| > |s| {
    } else if s[..|t|] == t {
      assert OccursAt(s, t, 0);
    } else {
      IndexSpec(s[1..], t);
      forall j | j >= 0 ensures OccursAt(s[1..], t, j) <==> OccursAt(s, t, j + 1) {
        OccursAtShift(s, t, j);
      }
      assert !OccursAt(s, t, 0);
      assert forall j :: OccursAt(s, t, j) ==> j >= 1 && OccursAt(s[1..], t, j - 1);
    }
  }

  /** strings.Contains: `t` occurs somewhere in `s`. */
  predicate Contains(s: string, t: string)
  {
    Index(s, t) >= 0
  }

  lemma ContainsIff(s: string, t: string)
    ensures Contains(s, t) <==> exists j :: OccursAt(s, t, j)
  {
    IndexSpec(s, t);
  }

  /** Every string contains itself, and so also the empty string. */
  lemma ContainsSelf(s: string)
    ensures Contains(s, s) && Contains(s, "")
  {
    ContainsIff(s, s);
    ContainsIff(s, "");
    assert OccursAt(s, s, 0);
    assert OccursAt(s, "", 0);
  }

  /** Concatenation regroups; stated once so that long string sums need not
      be regrouped by the solver. */
  lemma AppendAssoc<T>(a: seq<T>, b: seq<T>, c: seq<T>)
    ensures a + (b + c) == (a + b) + c
  {
  }

  /** strings.HasPrefix. */
  predicate HasPrefix(s: string, p: string)
  {
    |p| <= |s| && s[..|p|] == p
  }

  /** strings.Repeat. */
  function Repeat(s: string, n: nat): (r: string)
    ensures |r| == n * |s|
  {
    if n == 0 then "" else s + Repeat(s, n - 1)
  }

  /** Every character of `s` is a blank. */
  predicate AllBlank(s: string)
  {
    forall i :: 0 <= i < |s| ==> s[i] == ' '
  }

  /** Repeating blanks gives blanks. */
  lemma {:induction false} RepeatBlank(s: string, n: nat)
    requires AllBlank(s)
    ensures AllBlank(Repeat(s, n))
  {
    if n > 0 {
      RepeatBlank(s, n - 1);
      var r := Repeat(s, n);
      assert r == s + Repeat(s, n - 1);
      forall i | 0 <= i < |r| ensures r[i] == ' ' {
        if i >= |s| {
          assert r[i] == Repeat(s, n - 1)[i - |s|];
        }
      }
    }
  }

  /** strings.Join: the strings with `sep` between each two of them. */
  function Join(ss: seq<string>, sep: string): string
  {
    if ss == [] then ""
    else if |ss| == 1 then ss[0]
    else Join(ss[..|ss| - 1], sep) + sep + ss[|ss| - 1]
  }

  /** strings.TrimLeft(s, " "): `s` with its leading blanks removed. */
  function TrimLeftBlanks(s: string): (r: string)
    ensures |r| <= |s| && r == s[|s| - |r|..]
    ensures r == [] || r[0] != ' '
    ensures forall i :: 0 <= i < |s| - |r| ==> s[i] == ' '
  {
    if s != [] && s[0] == ' ' then TrimLeftBlanks(s[1..]) else s
  }

  function DigitChar(d: nat): (c: char)
    requires d < 10
    ensures '0' <= c <= '9'
  {
    ('0' as int + d) as char
  }

  predicate IsDecimal(s: string)
  {
    |s| >= 1 && forall i :: 0 <= i < |s| ==> '0' <= s[i] <= '9'
  }

  /** strconv.Itoa on a non-negative number: its decimal digits, with no
      leading zero unless the number is 0. */
  function NatToString(n: nat): (r: string)
    ensures IsDecimal(r)
    ensures r[0] != '0' || n == 0
    decreases n
  {
    if n < 10 then [DigitChar(n)] else NatToString(n / 10) + [DigitChar(n % 10)]
  }

  /** The value of a string of decimal digits. */
  function DecimalValue(s: string): nat
    requires forall i :: 0 <= i < |s| ==> '0' <= s[i] <= '9'
  {
    if s == [] then 0 else DecimalValue(s[..|s| - 1]) * 10 + (s[|s| - 1] as int - '0' as int)
  }

  /** Reading back what strconv.Itoa wrote gives the number again. */
  lemma {:induction false} NatToStringRoundTrip(n: nat)
    ensures DecimalValue(NatToString(n)) == n
    decreases n
  {
    if n >= 10 {
      var s := NatToString(n);
      NatToStringRoundTrip(n / 10);
      assert s[..|s| - 1] == NatToString(n / 10);
    }
  }

  /** Distinct numbers have distinct decimal strings. */
  lemma NatToStringInjective(m: nat, n: nat)
    ensures NatToString(m) == NatToString(n) ==> m == n
  {
    NatToStringRoundTrip(m);
    NatToStringRoundTrip(n);
  }
}
