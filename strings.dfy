/** Character and string helpers shared by the renderers and the predicate:
    decimal numerals, ASCII case folding, substring search, joining and
    searching for a character. */
module Strings {

  import opened Wrappers

  /** Decimal digits */

  predicate IsDigit(c: char) {
    '0' <= c <= '9'
  }

  predicate AllDigits(s: string) {
    forall i :: 0 <= i < |s| ==> IsDigit(s[i])
  }

  /** The value of a digit character (zero for any other character). */
  function DigitValue(c: char): nat {
    if IsDigit(c) then c as int - '0' as int else 0
  }

  function DigitChar(d: nat): (c: char)
    requires d < 10
    ensures IsDigit(c) && DigitValue(c) == d
  {
    ('0' as int + d) as char
  }

  function Pow10(k: nat): (p: nat)
    ensures p >= 1
  {
    if k == 0 then 1 else 10 * Pow10(k - 1)
  }

  /** The number a string of decimal digits denotes (leading zeros allowed). */
  function DigitsValue(s: string): nat {
    if s == [] then 0 else 10 * DigitsValue(s[..|s| - 1]) + DigitValue(s[|s| - 1])
  }

  /** Python's `str(n)` and `"%d" % n` for a non-negative int: the shortest
      numeral, without leading zeros. */
  function Decimal(n: nat): (s: string)
    ensures |s| >= 1
  {
    if n < 10 then [DigitChar(n)] else Decimal(n / 10) + [DigitChar(n % 10)]
  }

  /** Python's `str(n)` for any int: a minus sign before the numeral of |n|. */
  function SignedDecimal(n: int): string {
    if n < 0 then "-" + Decimal(-n) else Decimal(n)
  }

  /** `"%0<width>d" % n` for 0 <= n < 10^width: exactly `width` digits,
      zero-padded on the left. */
  function FixedDigits(n: nat, width: nat): (s: string)
    ensures |s| == width
  {
    if width == 0 then [] else FixedDigits(n / 10, width - 1) + [DigitChar(n % 10)]
  }

  /** Decimal writes digits only, denoting n, with no leading zero. */
  lemma {:induction false} DecimalDigits(n: nat)
    ensures AllDigits(Decimal(n))
    ensures DigitsValue(Decimal(n)) == n
    ensures |Decimal(n)| > 1 ==> Decimal(n)[0] != '0'
  {
    if n >= 10 {
      DecimalDigits(n / 10);
      var s := Decimal(n);
      assert s[..|s| - 1] == Decimal(n / 10);
    }
  }

  /** FixedDigits writes digits only, denoting n when n fits the width. */
  lemma {:induction false} FixedDigitsValue(n: nat, width: nat)
    ensures AllDigits(FixedDigits(n, width))
    ensures n < Pow10(width) ==> DigitsValue(FixedDigits(n, width)) == n
  {
    if width > 0 {
      FixedDigitsValue(n / 10, width - 1);
      var s := FixedDigits(n, width);
      assert s[..|s| - 1] == FixedDigits(n / 10, width - 1);
    }
  }

  /** A signed numeral holds no character other than digits and `-`. */
  lemma SignedDecimalAvoids(n: int, c: char)
    requires !IsDigit(c) && c != '-'
    ensures c !in SignedDecimal(n)
  {
    DecimalDigits(if n < 0 then -n else n);
  }

  /** Case folding, restricted to ASCII letters */

  function LowerChar(c: char): char {
    if 'A' <= c <= 'Z' then (c as int - 'A' as int + 'a' as int) as char else c
  }

  /** Python's `str.casefold()` on ASCII text: every upper-case letter lowered. */
  function Casefold(s: string): (r: string)
    ensures |r| == |s|
  {
    seq(|s|, i requires 0 <= i < |s| => LowerChar(s[i]))
  }

  /** Two texts that differ only in the case of their letters. */
  predicate SameIgnoringCase(a: string, b: string) {
    |a| == |b| && forall i :: 0 <= i < |a| ==> LowerChar(a[i]) == LowerChar(b[i])
  }

  /** Substrings */

  predicate OccursAt(w: string, t: string, i: int) {
    0 <= i && i + |w| <= |t| && t[i..i + |w|] == w
  }

  /** `w` occurs somewhere in `t`: the meaning of Python's `w in t`. */
  ghost predicate IsSubstring(w: string, t: string) {
    exists i :: OccursAt(w, t, i)
  }

  /** Python's `w in t`, searched left to right. */
  function Contains(t: string, w: string): bool
    decreases |t|
  {
    if |w| > |t| then false
    else if t[..|w|] == w then true
    else Contains(t[1..], w)
  }

  /** Joining and searching */

  /** Python's `sep.join(parts)`. */
  function Join(sep: string, parts: seq<string>): string {
    if |parts| == 0 then ""
    else if |parts| == 1 then parts[0]
    else parts[0] + sep + Join(sep, parts[1..])
  }

  /** Splitting at blank lines */

  /** Every line break in `p` is followed, inside `p`, by a character that is
      not a line break: `p` holds no `"\n\n"` and does not end with `"\n"`. */
  predicate NoBlankLine(p: string) {
    forall k :: 0 <= k < |p| && p[k] == '\n' ==> k + 1 < |p| && p[k + 1] != '\n'
  }

  /** The position of the first `"\n\n"` at or after position `i`, or `|s|`. */
  function BlankFrom(s: string, i: nat): (k: nat)
    requires i <= |s|
    ensures i <= k <= |s|
    ensures k < |s| ==> k + 1 < |s| && s[k] == '\n' && s[k + 1] == '\n'
    decreases |s| - i
  {
    if i + 1 >= |s| then |s|
    else if s[i] == '\n' && s[i + 1] == '\n' then i
    else BlankFrom(s, i + 1)
  }

  /** Python's `s.split("\n\n")`: the pieces between the non-overlapping
      occurrences of the separator, found from the left. */
  function SplitBlank(s: string): (parts: seq<string>)
    ensures |parts| >= 1
    decreases |s|
  {
    var k := BlankFrom(s, 0);
    if k == |s| then [s] else [s[..k]] + SplitBlank(s[k + 2..])
  }

  /** Index of the first `c` in `s`, or `|s|` when there is none. */
  function IndexOf(s: string, c: char): (k: nat)
    ensures k <= |s|
  {
    if s == [] then 0
    else if s[0] == c then 0
    else 1 + IndexOf(s[1..], c)
  }

  /** IndexOf finds the first `c`, and reaches the end only when there is none. */
  lemma {:induction false} IndexOfFirst(s: string, c: char)
    ensures c !in s[..IndexOf(s, c)]
    ensures IndexOf(s, c) < |s| <==> c in s
    ensures IndexOf(s, c) < |s| ==> s[IndexOf(s, c)] == c
  {
    if s != [] && s[0] != c {
      IndexOfFirst(s[1..], c);
      var k := IndexOf(s, c);
      assert s[..k] == [s[0]] + s[1..][..k - 1];
      assert s == [s[0]] + s[1..];
    }
  }

  /** The text before the first line break. */
  function FirstLine(s: string): string {
    s[..IndexOf(s, '\n')]
  }

  /** The number of occurrences of `c` in `s`. */
  function CountChar(s: string, c: char): nat {
    if s == [] then 0
    else (if s[0] == c then 1 else 0) + CountChar(s[1..], c)
  }

  /** Reading text back, by position */

  /** The text `t` stands in `s` from position `i` on. */
  predicate At(s: string, i: nat, t: string) {
    i + |t| <= |s| && forall k :: 0 <= k < |t| ==> s[i + k] == t[k]
  }

  /** The end of the run of digits that starts at position `i` of `s`. */
  function DigitRunEnd(s: string, i: nat): (j: nat)
    ensures i <= j && (i <= |s| ==> j <= |s|)
    decreases |s| - i
  {
    if i < |s| && IsDigit(s[i]) then DigitRunEnd(s, i + 1) else i
  }

  /** The number the digits `s[i..j]` denote. */
  function NumeralValue(s: string, i: nat, j: nat): nat
    requires i <= j <= |s|
    decreases j - i
  {
    if j == i then 0 else 10 * NumeralValue(s, i, j - 1) + DigitValue(s[j - 1])
  }

  /** Reads the numeral at position `i` of `s`: its value and the position
      after its last digit. */
  function ParseNatAt(s: string, i: nat): Option<(nat, nat)> {
    var j := DigitRunEnd(s, i);
    if i > |s| || j == i then None else Some((NumeralValue(s, i, j), j))
  }

  /** Reads an optionally negative numeral at position `i` of `s`. */
  function ParseIntAt(s: string, i: nat): Option<(int, nat)> {
    var negative := i < |s| && s[i] == '-';
    var p :- ParseNatAt(s, if negative then i + 1 else i);
    Some((if negative then -(p.0 as int) else p.0 as int, p.1))
  }

  /** The position of the last `c` in `s`, if there is one. */
  function LastIndexOf(s: string, c: char): (r: Option<nat>)
    ensures r.Some? ==> r.value < |s| && s[r.value] == c
    decreases |s|
  {
    if s == [] then None
    else if s[|s| - 1] == c then Some(|s| - 1)
    else LastIndexOf(s[..|s| - 1], c)
  }

  /** Reads exactly `width` digits at position `i` of `s`. */
  function ParseFixedAt(s: string, i: nat, width: nat): Option<(nat, nat)> {
    if i + width <= |s| && i + width <= DigitRunEnd(s, i)
    then Some((NumeralValue(s, i, i + width), i + width))
    else None
  }

  /** Consumes the character `c` at position `i` of `s`. */
  function SkipAt(s: string, i: nat, c: char): Option<nat> {
    if i < |s| && s[i] == c then Some(i + 1) else None
  }

  /** The position of the first `c` at or after position `i` of `s`, or the
      end of `s` when there is none. */
  function FindFrom(s: string, i: nat, c: char): (k: nat)
    ensures i <= k && (i <= |s| ==> k <= |s|)
    decreases |s| - i
  {
    if i < |s| && s[i] != c then FindFrom(s, i + 1, c) else i
  }

  /** A run of digits extends at least as far as the digits known to be there,
      and stops at the first character that is not one. */
  lemma {:induction false} DigitRun(s: string, i: nat, j: nat)
    requires i <= j <= |s|
    requires forall k :: i <= k < j ==> IsDigit(s[k])
    ensures j <= DigitRunEnd(s, i)
    ensures j == |s| || !IsDigit(s[j]) ==> DigitRunEnd(s, i) == j
    decreases j - i
  {
    if i < j {
        DigitRun(s, i + 1, j);
    }
  }

  /** Standing text splits into its two halves. */
  lemma AtSplit(s: string, i: nat, t: string, u: string)
    requires At(s, i, t + u)
    ensures At(s, i, t) && At(s, i + |t|, u)
  {
    forall k | 0 <= k < |t|
      ensures s[i + k] == t[k]
    {
      assert (t + u)[k] == t[k];
    }
    forall k | 0 <= k < |u|
      ensures s[i + |t| + k] == u[k]
    {
      assert (t + u)[|t| + k] == u[k];
    }
  }

  /** Two pieces standing one after the other make their concatenation stand. */
  lemma AtJoin(s: string, i: nat, t: string, u: string)
    requires At(s, i, t) && At(s, i + |t|, u)
    ensures At(s, i, t + u)
  {
    forall k | 0 <= k < |t| + |u|
      ensures s[i + k] == (t + u)[k]
    {
      if k >= |t| {
        assert s[i + |t| + (k - |t|)] == u[k - |t|];
      }
    }
  }

  /** A word, a space and the rest, standing in `s`, split at the space. */
  lemma AtWord(s: string, i: nat, x: string, r: string)
    requires At(s, i, x + " " + r)
    ensures At(s, i, x) && i + |x| < |s| && s[i + |x|] == ' ' && At(s, i + |x| + 1, r)
  {
    AtSplit(s, i, x + " ", r);
    AtSplit(s, i, x, " ");
    assert s[i + |x| + 0] == " "[0];
  }

  /** The first character of standing text is at the position it stands at. */
  lemma AtHead(s: string, i: nat, t: string)
    requires At(s, i, t) && |t| > 0
    ensures s[i] == t[0]
  {
    assert s[i + 0] == t[0];
  }

  /** The second part of a concatenation stands after the first. */
  lemma AtSuffix(s: string, x: string, t: string)
    requires s == x + t
    ensures At(s, |x|, t)
  {
    forall k | 0 <= k < |t|
      ensures s[|x| + k] == t[k]
    {
    }
  }

  /** A text stands in itself at its start. */
  lemma AtWhole(s: string)
    ensures At(s, 0, s)
  {
  }

  /** Standing digits in `s` denote what they denote on their own. */
  lemma {:induction false} NumeralValueAt(s: string, i: nat, t: string)
    requires At(s, i, t)
    ensures NumeralValue(s, i, i + |t|) == DigitsValue(t)
    decreases |t|
  {
    if t != [] {
      var u := t[..|t| - 1];
      assert At(s, i, u) by {
        forall k | 0 <= k < |u|
          ensures s[i + k] == u[k]
        {
          assert u[k] == t[k];
        }
      }
      NumeralValueAt(s, i, u);
      assert s[i + |t| - 1] == t[|t| - 1];
    }
  }

  /** The digits of standing text lie in `s`. */
  lemma AtDigits(s: string, i: nat, t: string)
    requires At(s, i, t) && AllDigits(t)
    ensures i + |t| <= |s|
    ensures forall k :: i <= k < i + |t| ==> IsDigit(s[k])
  {
    forall k | i <= k < i + |t|
      ensures IsDigit(s[k])
    {
      assert s[i + (k - i)] == t[k - i];
    }
  }

  /** ParseNatAt reads back exactly the numeral Decimal writes, stopping
      where the numeral ends. */
  lemma ParseNatDecimal(s: string, i: nat, n: nat)
    requires At(s, i, Decimal(n))
    requires i + |Decimal(n)| >= |s| || !IsDigit(s[i + |Decimal(n)|])
    ensures ParseNatAt(s, i) == Some((n, i + |Decimal(n)|))
  {
    var t := Decimal(n);
    DecimalDigits(n);
    AtDigits(s, i, t);
    DigitRun(s, i, i + |t|);
    NumeralValueAt(s, i, t);
  }

  /** ParseIntAt reads back exactly the numeral SignedDecimal writes. */
  lemma ParseIntSigned(s: string, i: nat, n: int)
    requires At(s, i, SignedDecimal(n))
    requires i + |SignedDecimal(n)| >= |s| || !IsDigit(s[i + |SignedDecimal(n)|])
    ensures ParseIntAt(s, i) == Some((n, i + |SignedDecimal(n)|))
  {
    if n < 0 {
      AtSplit(s, i, "-", Decimal(-n));
      AtHead(s, i, "-");
      ParseNatDecimal(s, i + 1, -n);
    } else {
      DecimalDigits(n);
      AtHead(s, i, Decimal(n));
      ParseNatDecimal(s, i, n);
    }
  }

  /** A `c` with none after it is the last one. */
  lemma {:induction false} LastIndexOfAt(s: string, k: nat, c: char)
    requires k < |s| && s[k] == c && c !in s[k + 1..]
    ensures LastIndexOf(s, c) == Some(k)
    decreases |s|
  {
    var n := |s| - 1;
    if k < n {
      assert s[n] in s[k + 1..];
      assert s[..n][k + 1..] == s[k + 1..n];
      assert s[k + 1..n] == s[k + 1..][..n - (k + 1)];
      LastIndexOfAt(s[..n], k, c);
    }
  }

  /** ParseFixedAt reads back the digits FixedDigits writes. */
  lemma ParseFixedDigits(s: string, i: nat, n: nat, width: nat)
    requires n < Pow10(width)
    requires At(s, i, FixedDigits(n, width))
    ensures ParseFixedAt(s, i, width) == Some((n, i + width))
  {
    var t := FixedDigits(n, width);
    FixedDigitsValue(n, width);
    AtDigits(s, i, t);
    DigitRun(s, i, i + width);
    NumeralValueAt(s, i, t);
  }

  /** The search for `c` passes over characters that are not `c` and stops
      at the first that is. */
  lemma {:induction false} FindFromRun(s: string, i: nat, j: nat, c: char)
    requires i <= j < |s| && s[j] == c
    requires forall k :: i <= k < j ==> s[k] != c
    ensures FindFrom(s, i, c) == j
    decreases j - i
  {
    if i < j {
      FindFromRun(s, i + 1, j, c);
    }
  }

  /** Searching from where text without `c` stands finds the `c` right after it. */
  lemma FindFromAt(s: string, i: nat, t: string, c: char)
    requires At(s, i, t) && c !in t
    requires i + |t| < |s| && s[i + |t|] == c
    ensures FindFrom(s, i, c) == i + |t|
  {
    forall k | i <= k < i + |t|
      ensures s[k] != c
    {
      assert s[i + (k - i)] == t[k - i];
    }
    FindFromRun(s, i, i + |t|, c);
  }

  /** Text that runs to the end of `s` is all of `s` from `i` on. */
  lemma AtTail(s: string, i: nat, t: string)
    requires At(s, i, t) && i + |t| == |s|
    ensures s[i..] == t
  {
    AtSlice(s, i, t);
    assert s[i..] == s[i..i + |t|];
  }

  /** The slice where text stands is that text. */
  lemma AtSlice(s: string, i: nat, t: string)
    requires At(s, i, t)
    ensures s[i..i + |t|] == t
  {
    forall k | 0 <= k < |t|
      ensures s[i..i + |t|][k] == t[k]
    {
      assert s[i + k] == t[k];
    }
  }

  /** Where three pieces stand together, each stands in its place. */
  lemma AtThree(s: string, i: nat, a: string, b: string, c: string)
    requires At(s, i, a + (b + c))
    ensures At(s, i, a) && At(s, i + |a|, b) && At(s, i + |a| + |b|, c)
  {
    AtSplit(s, i, a, b + c);
    AtSplit(s, i + |a|, b, c);
  }

  /** Facts about substrings and case folding */

  /** The recursive search agrees with the definition of a substring. */
  lemma {:induction false} ContainsIsSubstring(t: string, w: string)
    ensures Contains(t, w) <==> IsSubstring(w, t)
    decreases |t|
  {
    if |w| > |t| {
    } else if t[..|w|] == w {
      assert OccursAt(w, t, 0);
    } else {
      ContainsIsSubstring(t[1..], w);
      if Contains(t[1..], w) {
        var i :| OccursAt(w, t[1..], i);
        OccursShift(w, t, i);
      }
      if IsSubstring(w, t) {
        var i :| OccursAt(w, t, i);
        assert i != 0;
        OccursShift(w, t, i - 1);
      }
    }
  }

  /** An occurrence in `t[1..]` is one in `t`, one place further on. */
  lemma OccursShift(w: string, t: string, i: int)
    requires |t| > 0 && 0 <= i
    ensures OccursAt(w, t[1..], i) <==> OccursAt(w, t, i + 1)
  {
    if i + |w| <= |t[1..]| {
      assert t[1..][i..i + |w|] == t[i + 1..i + 1 + |w|];
    }
  }

  /** A substring of a substring is a substring. */
  lemma SubstringTransitive(a: string, b: string, c: string)
    requires IsSubstring(a, b) && IsSubstring(b, c)
    ensures IsSubstring(a, c)
  {
    var i :| OccursAt(a, b, i);
    var j :| OccursAt(b, c, j);
    forall k | 0 <= k < |a|
      ensures c[i + j..i + j + |a|][k] == a[k]
    {
      assert b[i..i + |a|][k] == a[k];
      assert c[j..j + |b|][i + k] == b[i + k];
    }
    assert OccursAt(a, c, i + j);
  }

  /** Case folding keeps every occurrence where it was. */
  lemma CasefoldSubstring(w: string, t: string)
    requires IsSubstring(w, t)
    ensures IsSubstring(Casefold(w), Casefold(t))
  {
    var i :| OccursAt(w, t, i);
    assert Casefold(t)[i..i + |w|] == Casefold(w) by {
      forall k | 0 <= k < |w|
        ensures Casefold(t)[i..i + |w|][k] == Casefold(w)[k]
      {
        assert t[i..i + |w|][k] == w[k];
      }
    }
    assert OccursAt(Casefold(w), Casefold(t), i);
  }

  /** Texts that differ only in letter case fold to the same text. */
  lemma CasefoldSameIgnoringCase(a: string, b: string)
    requires SameIgnoringCase(a, b)
    ensures Casefold(a) == Casefold(b)
  {
    forall k | 0 <= k < |a|
      ensures Casefold(a)[k] == Casefold(b)[k]
    {
    }
  }

  /** Facts about joining, counting and searching */

  /** Joining two non-empty lists is joining each and gluing with `sep`. */
  lemma {:induction false} JoinAppend(sep: string, a: seq<string>, b: seq<string>)
    requires |a| > 0 && |b| > 0
    ensures Join(sep, a + b) == Join(sep, a) + sep + Join(sep, b)
  {
    if |a| == 1 {
      assert (a + b)[1..] == b;
    } else {
      assert (a + b)[1..] == a[1..] + b;
      JoinAppend(sep, a[1..], b);
    }
  }

  /** A character in neither the separator nor any part is not in the join. */
  lemma {:induction false} JoinAvoids(sep: string, parts: seq<string>, c: char)
    requires c !in sep
    requires forall i :: 0 <= i < |parts| ==> c !in parts[i]
    ensures c !in Join(sep, parts)
  {
    if |parts| > 1 {
      JoinAvoids(sep, parts[1..], c);
    }
  }

  lemma {:induction false} CountCharAppend(a: string, b: string, c: char)
    ensures CountChar(a + b, c) == CountChar(a, c) + CountChar(b, c)
  {
    if a != [] {
      assert (a + b)[1..] == a[1..] + b;
      CountCharAppend(a[1..], b, c);
    } else {
      assert a + b == b;
    }
  }

  lemma {:induction false} CountCharAbsent(s: string, c: char)
    ensures CountChar(s, c) == 0 <==> c !in s
  {
    if s != [] {
      CountCharAbsent(s[1..], c);
      assert s == [s[0]] + s[1..];
    }
  }

  lemma {:induction false} IndexOfAppend(a: string, b: string, c: char)
    requires c !in a
    ensures IndexOf(a + b, c) == |a| + IndexOf(b, c)
  {
    if a != [] {
      assert (a + b)[1..] == a[1..] + b;
      IndexOfAppend(a[1..], b, c);
    } else {
      assert a + b == b;
    }
  }

  /** The search for a blank line passes over positions where none starts. */
  lemma {:induction false} BlankFromRun(s: string, i: nat, j: nat)
    requires i <= j <= |s|
    requires forall k :: i <= k < j && k + 1 < |s| ==> !(s[k] == '\n' && s[k + 1] == '\n')
    requires j + 1 >= |s| || (s[j] == '\n' && s[j + 1] == '\n')
    ensures BlankFrom(s, i) == (if j + 1 >= |s| then |s| else j)
    decreases j - i
  {
    if i < j && i + 1 < |s| {
      BlankFromRun(s, i + 1, j);
    }
  }

  /** In a part with no blank line followed by the separator, the first
      blank line is the separator. */
  lemma BlankAfterPart(p: string, r: string)
    requires NoBlankLine(p)
    ensures BlankFrom(p + "\n\n" + r, 0) == |p|
  {
    var s := p + "\n\n" + r;
    forall k | 0 <= k < |p| && k + 1 < |s|
      ensures !(s[k] == '\n' && s[k + 1] == '\n')
    {
      if s[k] == '\n' {
        assert p[k] == '\n';
      }
    }
    BlankFromRun(s, 0, |p|);
  }

  /** A part with no blank line holds no separator. */
  lemma NoBlankInPart(p: string)
    requires NoBlankLine(p)
    ensures BlankFrom(p, 0) == |p|
  {
    BlankFromRun(p, 0, |p|);
  }

  /** Splitting a part with no blank line off the front. */
  lemma SplitBlankStep(p: string, r: string)
    requires NoBlankLine(p)
    ensures SplitBlank(p + "\n\n" + r) == [p] + SplitBlank(r)
  {
    var s := p + "\n\n" + r;
    BlankAfterPart(p, r);
    assert s[..|p|] == p;
    assert s[|p| + 2..] == r;
  }

  /** Splitting at blank lines undoes joining with a blank line, when no
      part holds a blank line or ends with a line break. */
  lemma {:induction false} SplitBlankJoin(parts: seq<string>)
    requires |parts| >= 1
    requires forall i :: 0 <= i < |parts| ==> NoBlankLine(parts[i])
    ensures SplitBlank(Join("\n\n", parts)) == parts
  {
    if |parts| == 1 {
      NoBlankInPart(parts[0]);
    } else {
      SplitBlankStep(parts[0], Join("\n\n", parts[1..]));
      SplitBlankJoin(parts[1..]);
      assert parts == [parts[0]] + parts[1..];
    }
  }

  /** A text with no line break has no blank line. */
  lemma NoBreakNoBlank(t: string)
    requires '\n' !in t
    ensures NoBlankLine(t)
  {
  }

  /** A line, a break, and a text that neither starts with a break nor holds
      a blank line: the whole holds no blank line. */
  lemma LineThenText(t: string, r: string)
    requires '\n' !in t && NoBlankLine(r) && |r| > 0 && r[0] != '\n'
    ensures NoBlankLine(t + "\n" + r)
  {
    var s := t + "\n" + r;
    forall k | 0 <= k < |s| && s[k] == '\n'
      ensures k + 1 < |s| && s[k + 1] != '\n'
    {
      if k > |t| {
        assert s[k] == r[k - |t| - 1];
        assert k + 1 < |s| && s[k + 1] == r[k - |t|];
      }
    }
  }

  /** A line without a break, then a break: that line is the first line,
      and the rest follows the break. */
  lemma FirstLineOf(t: string, r: string)
    requires '\n' !in t
    ensures FirstLine(t + "\n" + r) == t
    ensures (t + "\n" + r)[|t| + 1..] == r
  {
    IndexOfAppend(t, "\n" + r, '\n');
    assert t + "\n" + r == t + ("\n" + r);
    assert (t + "\n" + r)[..|t|] == t;
  }

  /** Two lines without breaks, joined by one break, hold exactly one. */
  lemma OneBreak(t: string, r: string)
    requires '\n' !in t && '\n' !in r
    ensures CountChar(t + "\n" + r, '\n') == 1
  {
    CountCharAbsent(t, '\n');
    CountCharAbsent(r, '\n');
    CountCharAppend(t, "\n", '\n');
    CountCharAppend(t + "\n", r, '\n');
    assert CountChar("\n", '\n') == 1;
  }

  /** Every character of a substring occurs in the text. */
  lemma LetterOfSubstring(w: string, t: string, j: int)
    requires IsSubstring(w, t) && 0 <= j < |w|
    ensures w[j] in t
  {
    var i :| OccursAt(w, t, i);
    assert t[i..i + |w|][j] == t[i + j];
  }
}
