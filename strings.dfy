/** Text helpers shared by the collapse engine and the host: decimal rendering
    of integers (Java's string concatenation of an int, and JavaScript's
    number-to-string on integers below 10^21 in magnitude, where it does not
    yet switch to exponent notation), substring search (`String.contains`),
    `String.replace(CharSequence, CharSequence)` and `Array.prototype.join("-")`. */
module Strings {

  /** The decimal digit character for `d`. */
  function DigitChar(d: nat): (c: char)
    requires d < 10
    ensures '0' <= c <= '9' && c as int - '0' as int == d
  {
    ('0' as int + d) as char
  }

  predicate IsDigits(s: string) {
    forall k :: 0 <= k < |s| ==> '0' <= s[k] <= '9'
  }

  /** Decimal rendering of a natural number, most significant digit first,
      without leading zeros. */
  function NatToString(n: nat): (s: string)
    ensures |s| >= 1 && IsDigits(s)
    ensures s[0] == '0' ==> n == 0
    decreases n
  {
    if n < 10 then [DigitChar(n)] else NatToString(n / 10) + [DigitChar(n % 10)]
  }

  /** The value a string of decimal digits denotes. */
  function DecimalValue(s: string): nat
    requires IsDigits(s)
    decreases |s|
  {
    if s == [] then 0 else DecimalValue(s[..|s| - 1]) * 10 + (s[|s| - 1] as int - '0' as int)
  }

  /** Reading the rendering of `n` back gives `n`. */
  lemma {:induction false} DecimalRoundTrip(n: nat)
    ensures DecimalValue(NatToString(n)) == n
  {
    if n >= 10 {
      var s := NatToString(n);
      assert s[..|s| - 1] == NatToString(n / 10);
      DecimalRoundTrip(n / 10);
    }
  }

  /** Decimal rendering of an integer, with a leading '-' when negative. */
  function IntToString(i: int): (s: string)
    ensures |s| >= 1
  {
    if i < 0 then "-" + NatToString(-i) else NatToString(i)
  }

  /** The rendering starts with '-' exactly for negative integers. */
  lemma IntToStringSign(i: int)
    ensures IntToString(i)[0] == '-' <==> i < 0
  {
    if i < 0 {
      assert IntToString(i) == "-" + NatToString(-i);
    } else {
      assert '0' <= NatToString(i)[0] <= '9';
    }
  }

  /** Different natural numbers are rendered differently. */
  lemma NatToStringInjective(a: nat, b: nat)
    requires NatToString(a) == NatToString(b)
    ensures a == b
  {
    DecimalRoundTrip(a);
    DecimalRoundTrip(b);
  }

  /** Different integers are rendered differently. */
  lemma IntToStringInjective(a: int, b: int)
    requires IntToString(a) == IntToString(b)
    ensures a == b
  {
    IntToStringSign(a);
    IntToStringSign(b);
    if a < 0 {
      assert IntToString(a)[1..] == NatToString(-a);
      assert IntToString(b)[1..] == NatToString(-b);
      NatToStringInjective(-a, -b);
    } else {
      NatToStringInjective(a, b);
    }
  }

  /** `sub` occurs in `s` starting at position `k`. */
  predicate OccursAt(s: string, sub: string, k: int) {
    0 <= k && k + |sub| <= |s| && s[k..k + |sub|] == sub
  }

  /** Java's `s.contains(sub)`. */
  predicate Contains(s: string, sub: string) {
    exists k | 0 <= k <= |s| - |sub| :: OccursAt(s, sub, k)
  }

  /** Text put in front keeps what the rest contains. */
  lemma ContainsAfter(x: string, r: string, w: string)
    requires Contains(r, w)
    ensures Contains(x + r, w)
  {
    var m :| 0 <= m <= |r| - |w| && OccursAt(r, w, m);
    assert (x + r)[|x| + m..|x| + m + |w|] == r[m..m + |w|];
    assert OccursAt(x + r, w, |x| + m);
  }

  /** Java's `s.replace(target, replacement)` for a non-empty target: every
      occurrence found scanning left to right, occurrences not overlapping, is
      replaced. */
  function Replace(s: string, target: string, replacement: string): (r: string)
    requires |target| > 0
    decreases |s|
  {
    if |s| < |target| then s
    else if s[..|target|] == target then replacement + Replace(s[|target|..], target, replacement)
    else [s[0]] + Replace(s[1..], target, replacement)
  }

  /** A text without the target is left as it is. */
  lemma {:induction false} ReplaceAbsent(s: string, target: string, replacement: string)
    requires |target| > 0
    requires !Contains(s, target)
    ensures Replace(s, target, replacement) == s
  {
    if |s| >= |target| {
      assert !OccursAt(s, target, 0);
      assert s[..|target|] != target;
      forall k | 0 <= k <= |s[1..]| - |target|
        ensures !OccursAt(s[1..], target, k)
      {
        assert !OccursAt(s, target, k + 1);
        assert s[1..][k..k + |target|] == s[k + 1..k + 1 + |target|];
      }
      ReplaceAbsent(s[1..], target, replacement);
    }
  }

  /** A text that contains the target contains the replacement afterwards. */
  lemma {:induction false} ReplaceInserts(s: string, target: string, replacement: string)
    requires |target| > 0
    requires Contains(s, target)
    ensures Contains(Replace(s, target, replacement), replacement)
    decreases |s|
  {
    var k :| 0 <= k <= |s| - |target| && OccursAt(s, target, k);
    if s[..|target|] == target {
      var rest := Replace(s[|target|..], target, replacement);
      assert Replace(s, target, replacement) == replacement + rest;
      assert (replacement + rest)[0..|replacement|] == replacement;
      assert OccursAt(replacement + rest, replacement, 0);
    } else {
      var rest := Replace(s[1..], target, replacement);
      assert Replace(s, target, replacement) == [s[0]] + rest;
      assert k != 0;
      assert s[1..][k - 1..k - 1 + |target|] == s[k..k + |target|];
      assert OccursAt(s[1..], target, k - 1);
      ReplaceInserts(s[1..], target, replacement);
      ContainsAfter([s[0]], rest, replacement);
    }
  }

  /** Dropping the first `d` characters moves every position back by `d`, so
      a window free of the target moves back with it. */
  lemma FreeShifted(s: string, target: string, d: nat, lo: int, hi: int)
    requires d <= |s|
    requires forall p :: lo < p < hi ==> !OccursAt(s, target, p)
    ensures forall p :: lo - d < p < hi - d ==> !OccursAt(s[d..], target, p)
  {
    forall p | lo - d < p < hi - d
      ensures !OccursAt(s[d..], target, p)
    {
      assert !OccursAt(s, target, p + d);
      if 0 <= p && p + |target| <= |s[d..]| {
        assert s[d..][p..p + |target|] == s[p + d..p + d + |target|];
      }
    }
  }

  /** An occurrence at `k` is an occurrence at `k - d` once `d` characters
      are dropped. */
  lemma OccursShifted(s: string, w: string, d: nat, k: nat)
    requires d <= k && OccursAt(s, w, k)
    ensures OccursAt(s[d..], w, k - d)
  {
    assert s[d..][k - d..k - d + |w|] == s[k..k + |w|];
  }

  /** Where the target does not start the text, the scan copies one
      character. */
  lemma ReplaceCopiesOne(s: string, target: string, replacement: string)
    requires |target| > 0 && |s| > 0
    requires !OccursAt(s, target, 0)
    ensures Replace(s, target, replacement) == [s[0]] + Replace(s[1..], target, replacement)
  {
    if |s| < |target| {
      assert s == [s[0]] + s[1..];
    } else {
      assert s[..|target|] != target;
    }
  }

  /** The first character followed by the next `n - 1` is the first `n`. */
  lemma PrefixSplit(s: string, n: nat, z: string)
    requires 1 <= n <= |s|
    ensures [s[0]] + (s[1..][..n - 1] + z) == s[..n] + z
  {
    assert [s[0]] + s[1..][..n - 1] == s[..n];
  }

  /** Where the target occurs nowhere before `n`, the scan copies the first
      `n` characters and carries on from `n`. */
  lemma {:induction false} ReplaceSkips(s: string, target: string, replacement: string, n: nat)
    requires |target| > 0 && n <= |s|
    requires forall p :: 0 <= p < n ==> !OccursAt(s, target, p)
    ensures Replace(s, target, replacement) == s[..n] + Replace(s[n..], target, replacement)
    decreases n
  {
    if n == 0 {
      assert s[..0] + s[0..] == s[0..] == s;
    } else {
      assert !OccursAt(s, target, 0);
      ReplaceCopiesOne(s, target, replacement);
      FreeShifted(s, target, 1, -1, n);
      ReplaceSkips(s[1..], target, replacement, n - 1);
      assert s[1..][n - 1..] == s[n..];
      PrefixSplit(s, n, Replace(s[n..], target, replacement));
    }
  }

  /** An occurrence of `w` that no occurrence of the target overlaps survives
      the replacement. */
  lemma {:induction false} ReplaceKeeps(s: string, target: string, replacement: string, w: string, k: nat)
    requires |target| > 0
    requires OccursAt(s, w, k)
    requires forall p :: k - |target| < p < k + |w| ==> !OccursAt(s, target, p)
    ensures Contains(Replace(s, target, replacement), w)
    decreases |s|
  {
    if |w| == 0 {
      assert OccursAt(Replace(s, target, replacement), w, 0);
    } else if |s| < |target| {
      assert OccursAt(Replace(s, target, replacement), w, k);
    } else if s[..|target|] == target {
      assert OccursAt(s, target, 0);
      assert k >= |target|;
      FreeShifted(s, target, |target|, k - |target|, k + |w|);
      OccursShifted(s, w, |target|, k);
      ReplaceKeeps(s[|target|..], target, replacement, w, k - |target|);
      ContainsAfter(replacement, Replace(s[|target|..], target, replacement), w);
    } else if k > 0 {
      FreeShifted(s, target, 1, k - |target|, k + |w|);
      OccursShifted(s, w, 1, k);
      ReplaceKeeps(s[1..], target, replacement, w, k - 1);
      ContainsAfter([s[0]], Replace(s[1..], target, replacement), w);
    } else {
      ReplaceSkips(s, target, replacement, |w|);
      var r := Replace(s, target, replacement);
      assert r[..|w|] == s[..|w|] == w;
      assert OccursAt(r, w, 0);
    }
  }

  /** `w` and `target` cannot overlap: `w` does not start with a later
      character of the target, the target's second character does not occur in
      `w`, and `w` does not end with the target's first character. */
  predicate Apart(w: string, target: string)
    requires |w| >= 1 && |target| >= 2
  {
    w[0] !in target[1..] && target[1] !in w && w[|w| - 1] != target[0]
  }

  /** A text that contains `w` still contains it after replacing a target that
      cannot overlap `w`. */
  lemma ReplaceKeepsApart(s: string, target: string, replacement: string, w: string)
    requires |w| >= 1 && |target| >= 2 && Apart(w, target)
    requires Contains(s, w)
    ensures Contains(Replace(s, target, replacement), w)
  {
    var k :| 0 <= k <= |s| - |w| && OccursAt(s, w, k);
    forall p | k - |target| < p < k + |w|
      ensures !OccursAt(s, target, p)
    {
      if 0 <= p && p + |target| <= |s| {
        if p < k {
          assert s[k] == s[k..k + |w|][0] == w[0];
          assert target[k - p] == target[1..][k - p - 1];
          assert s[p..p + |target|][k - p] == s[k] != target[k - p];
        } else if p - k + 1 < |w| {
          assert s[p + 1] == s[k..k + |w|][p - k + 1] == w[p - k + 1];
          assert s[p..p + |target|][1] == s[p + 1] != target[1];
        } else {
          assert s[p] == s[k..k + |w|][|w| - 1] == w[|w| - 1];
          assert s[p..p + |target|][0] != target[0];
        }
      }
    }
    ReplaceKeeps(s, target, replacement, w, k);
  }

  /** A replacement at least as long as the target never shortens the text. */
  lemma {:induction false} ReplaceNotShorter(s: string, target: string, replacement: string)
    requires |target| > 0 && |replacement| >= |target|
    ensures |Replace(s, target, replacement)| >= |s|
    decreases |s|
  {
    if |s| >= |target| {
      if s[..|target|] == target {
        ReplaceNotShorter(s[|target|..], target, replacement);
      } else {
        ReplaceNotShorter(s[1..], target, replacement);
      }
    }
  }

  /** A longer replacement lengthens every text that contains the target. */
  lemma {:induction false} ReplaceGrows(s: string, target: string, replacement: string)
    requires |target| > 0 && |replacement| > |target|
    requires Contains(s, target)
    ensures |Replace(s, target, replacement)| > |s|
    decreases |s|
  {
    var k :| 0 <= k <= |s| - |target| && OccursAt(s, target, k);
    if s[..|target|] == target {
      ReplaceNotShorter(s[|target|..], target, replacement);
    } else {
      assert k != 0;
      assert s[1..][k - 1..k - 1 + |target|] == s[k..k + |target|];
      assert OccursAt(s[1..], target, k - 1);
      ReplaceGrows(s[1..], target, replacement);
    }
  }

  /** `parts.join("-")`. */
  function JoinDash(parts: seq<string>): string {
    if |parts| == 0 then ""
    else if |parts| == 1 then parts[0]
    else parts[0] + "-" + JoinDash(parts[1..])
  }

  /** `xs.reverse()`, as a value. */
  function Reverse<T>(xs: seq<T>): (r: seq<T>)
    ensures |r| == |xs|
    ensures forall k :: 0 <= k < |xs| ==> r[k] == xs[|xs| - 1 - k]
  {
    if xs == [] then [] else Reverse(xs[1..]) + [xs[0]]
  }
}
