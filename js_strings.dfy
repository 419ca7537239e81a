/**
 The few JavaScript string operations the extension relies on: relational
 comparison of strings, `String.prototype.split` with a one-character
 separator, `Array.prototype.join` (which is also how an array turns into a
 string when compared with `>`), `Number.prototype.toString` on a natural
 number and `String.prototype.padStart`.
 */
module JsStrings {

  /**
   JavaScript's `a < b` on two strings: lexicographic on characters, a proper
   prefix coming first.
   */
  predicate Less(a: string, b: string): (r: bool)
    // a proper prefix comes first
    ensures a < b ==> r
    // and nothing comes before the empty string
    ensures b == [] ==> !r
  {
    if a == [] then b != []
    else if b == [] then false
    else a[0] < b[0] || (a[0] == b[0] && Less(a[1..], b[1..]))
  }

  lemma {:induction false} LessIrreflexive(a: string)
    ensures !Less(a, a)
  {
    if a != [] {
      LessIrreflexive(a[1..]);
    }
  }

  /** Exactly one of `a == b`, `a < b`, `b < a` holds. */
  lemma {:induction false} LessTrichotomy(a: string, b: string)
    ensures a == b || Less(a, b) || Less(b, a)
    ensures !(Less(a, b) && Less(b, a))
    ensures a == b ==> !Less(a, b)
  {
    if a != [] && b != [] {
      LessTrichotomy(a[1..], b[1..]);
      if a[0] == b[0] && a[1..] == b[1..] {
        assert a == [a[0]] + a[1..] && b == [b[0]] + b[1..];
      }
    }
    if a == b {
      LessIrreflexive(a);
    }
  }

  lemma {:induction false} LessTransitive(a: string, b: string, c: string)
    requires Less(a, b) && Less(b, c)
    ensures Less(a, c)
  {
    if a != [] && a[0] == b[0] && b[0] == c[0] {
      LessTransitive(a[1..], b[1..], c[1..]);
    }
  }

  /**
   Appending one character to each of two strings of equal length: the
   shorter common part decides, unless it is equal.
   */
  lemma {:induction false} LessAppend(a: string, b: string, x: char, y: char)
    requires |a| == |b|
    ensures Less(a + [x], b + [y]) <==> Less(a, b) || (a == b && x < y)
  {
    if a != [] {
      assert (a + [x])[1..] == a[1..] + [x];
      assert (b + [y])[1..] == b[1..] + [y];
      LessAppend(a[1..], b[1..], x, y);
      if a[0] == b[0] && a[1..] == b[1..] {
        assert a == [a[0]] + a[1..] && b == [b[0]] + b[1..];
      }
    }
  }

  /** `s.split(sep)`: the pieces between occurrences of `sep`; never empty. */
  function Split(s: string, sep: char): (parts: seq<string>)
    ensures |parts| >= 1
    ensures forall k :: 0 <= k < |parts| ==> sep !in parts[k]
  {
    if s == [] then [[]]
    else
      var rest := Split(s[1..], sep);
      if s[0] == sep then [[]] + rest
      else [[s[0]] + rest[0]] + rest[1..]
  }

  /** `parts.join(glue)`; `String(parts)` is `parts.join(',')`. */
  function Join(parts: seq<string>, glue: char): string
  {
    if |parts| == 0 then []
    else if |parts| == 1 then parts[0]
    else parts[0] + [glue] + Join(parts[1..], glue)
  }

  /** `s` with every occurrence of `x` replaced by `y`. */
  function Replace(s: string, x: char, y: char): (r: string)
    ensures |r| == |s|
    ensures forall k :: 0 <= k < |s| ==> r[k] == if s[k] == x then y else s[k]
  {
    if s == [] then [] else [if s[0] == x then y else s[0]] + Replace(s[1..], x, y)
  }

  lemma JoinPrepend(c: char, parts: seq<string>, glue: char)
    requires |parts| >= 1
    ensures Join([[c] + parts[0]] + parts[1..], glue) == [c] + Join(parts, glue)
  {
    var q := [[c] + parts[0]] + parts[1..];
    assert q[1..] == parts[1..];
  }

  /** Splitting on `sep` and joining with `glue` replaces each `sep` by `glue`. */
  lemma {:induction false} JoinSplit(s: string, sep: char, glue: char)
    ensures Join(Split(s, sep), glue) == Replace(s, sep, glue)
  {
    if s != [] {
      var rest := Split(s[1..], sep);
      JoinSplit(s[1..], sep, glue);
      if s[0] == sep {
        assert ([[]] + rest)[1..] == rest;
      } else {
        JoinPrepend(s[0], rest, glue);
      }
    }
  }

  /** Joining the pieces with the separator they were split on gives the string back. */
  lemma JoinSplitRoundTrip(s: string, sep: char)
    ensures Join(Split(s, sep), sep) == s
  {
    JoinSplit(s, sep, sep);
  }

  function Pow10(n: nat): (p: nat)
    ensures p >= 1
  {
    if n == 0 then 1 else 10 * Pow10(n - 1)
  }

  /** The character of a decimal digit. */
  function DigitChar(d: nat): (c: char)
    requires d < 10
    ensures '0' <= c <= '9'
  {
    ['0', '1', '2', '3', '4', '5', '6', '7', '8', '9'][d]
  }

  lemma DigitCharOrder(d: nat, e: nat)
    requires d < 10 && e < 10
    ensures DigitChar(d) < DigitChar(e) <==> d < e
  {
  }

  /** `i.toString()` for a natural number: its decimal digits, no leading zero. */
  function DecimalString(i: nat): (s: string)
    ensures 1 <= |s|
    ensures forall k :: 0 <= k < |s| ==> '0' <= s[k] <= '9'
    ensures |s| > 1 ==> s[0] != '0'
  {
    if i < 10 then [DigitChar(i)] else DecimalString(i / 10) + [DigitChar(i % 10)]
  }

  function Repeat(c: char, n: nat): (s: string)
    ensures |s| == n
    ensures forall k :: 0 <= k < n ==> s[k] == c
  {
    if n == 0 then [] else Repeat(c, n - 1) + [c]
  }

  /** `s.padStart(n, c)` with a one-character pad string. */
  function PadStart(s: string, n: nat, c: char): string
  {
    if |s| >= n then s else Repeat(c, n - |s|) + s
  }

  /**
   What `padStart` gives: at least `n` characters and never truncated, `s`
   at the end and the pad character before it.
   */
  lemma PadStartShape(s: string, n: nat, c: char)
    ensures var r := PadStart(s, n, c);
            && |r| == (if |s| >= n then |s| else n)
            && r[|r| - |s|..] == s
            && forall k :: 0 <= k < |r| - |s| ==> r[k] == c
  {
    var r := PadStart(s, n, c);
    if |s| < n {
      assert r[|r| - |s|..] == s;
    }
  }

  /** The last `n` decimal digits of `i`, most significant first. */
  function FixedDigits(i: nat, n: nat): string
  {
    if n == 0 then [] else FixedDigits(i / 10, n - 1) + [DigitChar(i % 10)]
  }

  lemma {:induction false} FixedDigitsLength(i: nat, n: nat)
    ensures |FixedDigits(i, n)| == n
  {
    if n > 0 {
      FixedDigitsLength(i / 10, n - 1);
    }
  }

  lemma {:induction false} FixedDigitsZero(n: nat)
    ensures FixedDigits(0, n) == Repeat('0', n)
  {
    if n > 0 {
      FixedDigitsZero(n - 1);
    }
  }

  lemma {:induction false} DecimalLength(i: nat, n: nat)
    requires 1 <= n && i < Pow10(n)
    ensures |DecimalString(i)| <= n
  {
    if i >= 10 {
      DecimalLength(i / 10, n - 1);
    }
  }

  /** Dropping the last digit of a number of at most `n` digits leaves at most `n - 1`. */
  lemma DropLastDigit(i: nat, n: nat)
    requires 1 <= n && i < Pow10(n)
    ensures i / 10 < Pow10(n - 1)
  {
  }

  /** Padding a string with one more character at its end pads the rest to one less. */
  lemma PadStartAppend(s: string, d: char, n: nat, c: char)
    requires |s| + 1 <= n
    ensures PadStart(s + [d], n, c) == PadStart(s, n - 1, c) + [d]
  {
    assert Repeat(c, n - |s| - 1) + (s + [d]) == (Repeat(c, n - 1 - |s|) + s) + [d];
  }

  /** Padding the decimal form of `i < 10^n` to `n` characters gives its `n` last digits. */
  lemma {:induction false} PadStartIsFixedDigits(i: nat, n: nat)
    requires 1 <= n && i < Pow10(n)
    ensures PadStart(DecimalString(i), n, '0') == FixedDigits(i, n)
  {
    if i < 10 {
      FixedDigitsZero(n - 1);
      assert FixedDigits(i, n) == FixedDigits(0, n - 1) + [DigitChar(i)];
      assert PadStart([DigitChar(i)], n, '0') == Repeat('0', n - 1) + [DigitChar(i)];
    } else {
      var head := DecimalString(i / 10);
      assert DecimalString(i) == head + [DigitChar(i % 10)];
      DecimalLength(i, n);
      DropLastDigit(i, n);
      PadStartIsFixedDigits(i / 10, n - 1);
      PadStartAppend(head, DigitChar(i % 10), n, '0');
    }
  }

  /** Among numbers below `10^n`, the order of their `n`-digit forms is numeric order. */
  lemma {:induction false} FixedDigitsOrder(i: nat, j: nat, n: nat)
    requires i < Pow10(n) && j < Pow10(n)
    ensures Less(FixedDigits(i, n), FixedDigits(j, n)) <==> i < j
    decreases n
  {
    if n == 0 {
      LessIrreflexive([]);
    } else {
      var fi, fj := FixedDigits(i / 10, n - 1), FixedDigits(j / 10, n - 1);
      FixedDigitsLength(i / 10, n - 1);
      FixedDigitsLength(j / 10, n - 1);
      FixedDigitsOrder(i / 10, j / 10, n - 1);
      FixedDigitsOrder(j / 10, i / 10, n - 1);
      LessAppend(fi, fj, DigitChar(i % 10), DigitChar(j % 10));
      DigitCharOrder(i % 10, j % 10);
      if i / 10 != j / 10 {
        LessTrichotomy(fi, fj);
      }
    }
  }

  /** `i.toString().padStart(8, '0')`, the rank string of the `i`-th completion item. */
  function SortText(i: nat): (t: string)
    ensures |t| >= 8
    ensures forall k :: 0 <= k < |t| ==> '0' <= t[k] <= '9'
    // below `10^8`, the rank's eight last digits
    ensures i < Pow10(8) ==> t == FixedDigits(i, 8)
  {
    var t := PadStart(DecimalString(i), 8, '0');
    PadStartShape(DecimalString(i), 8, '0');
    if i < Pow10(8) then PadStartIsFixedDigits(i, 8); t else t
  }

  /**
   Below `10^8` every rank string has exactly eight characters, and comparing
   two of them as strings compares the ranks.
   */
  lemma SortTextOrder(i: nat, j: nat)
    requires i < Pow10(8) && j < Pow10(8)
    ensures |SortText(i)| == 8
    ensures Less(SortText(i), SortText(j)) <==> i < j
  {
    PadStartIsFixedDigits(i, 8);
    PadStartIsFixedDigits(j, 8);
    FixedDigitsLength(i, 8);
    FixedDigitsOrder(i, j, 8);
  }
}
