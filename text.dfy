/** String helpers: Python's `str.join`, decimal digits, `str.capitalize`
    on ASCII text, and counting characters. */
module Text {

  /** `sep.join(parts)` */
  function Join(parts: seq<string>, sep: string): (r: string)
    ensures |parts| == 1 ==> r == parts[0]
    ensures |parts| == 0 ==> r == []
  {
    if |parts| == 0 then ""
    else if |parts| == 1 then parts[0]
    else parts[0] + sep + Join(parts[1..], sep)
  }

  /** Number of occurrences of `c` in `s`. */
  function Occurrences(s: string, c: char): (n: nat)
    ensures n <= |s|
    ensures n == 0 <==> c !in s
  {
    if s == [] then 0
    else (if s[0] == c then 1 else 0) + Occurrences(s[1..], c)
  }

  lemma {:induction false} OccurrencesConcat(a: string, b: string, c: char)
    ensures Occurrences(a + b, c) == Occurrences(a, c) + Occurrences(b, c)
  {
    if a != [] {
      assert (a + b)[1..] == a[1..] + b;
      OccurrencesConcat(a[1..], b, c);
    } else {
      assert a + b == b;
    }
  }

  /** A join of parts and a separator that are all free of `c` is free of `c`. */
  lemma {:induction false} JoinAvoids(parts: seq<string>, sep: string, c: char)
    requires c !in sep
    requires forall i :: 0 <= i < |parts| ==> c !in parts[i]
    ensures c !in Join(parts, sep)
  {
    if |parts| > 1 {
      JoinAvoids(parts[1..], sep, c);
      OccurrencesConcat(parts[0], sep, c);
      OccurrencesConcat(parts[0] + sep, Join(parts[1..], sep), c);
    }
  }

  // ---------------------------------------------------------------------
  // Decimal digits, as Python's `%0Nd` formatting writes them.

  predicate IsDigit(c: char) { '0' <= c <= '9' }

  function DigitChar(d: nat): (c: char)
    requires d < 10
    ensures IsDigit(c)
  {
    ['0', '1', '2', '3', '4', '5', '6', '7', '8', '9'][d]
  }

  function DigitValue(c: char): (d: nat)
    requires IsDigit(c)
    ensures d < 10 && DigitChar(d) == c
  {
    (c as int - '0' as int)
  }

  function Pow10(w: nat): (p: nat)
    ensures p >= 1
  {
    if w == 0 then 1 else 10 * Pow10(w - 1)
  }

  /** `n` written with exactly `w` decimal digits, zero-padded on the left. */
  function Padded(n: nat, w: nat): (r: string)
    requires n < Pow10(w)
    ensures |r| == w
    ensures forall i :: 0 <= i < |r| ==> IsDigit(r[i])
  {
    if w == 0 then "" else Padded(n / 10, w - 1) + [DigitChar(n % 10)]
  }

  /** The number a string of decimal digits denotes (Python's `int(s)`). */
  function Decimal(s: string): (n: nat)
    requires forall i :: 0 <= i < |s| ==> IsDigit(s[i])
    ensures n < Pow10(|s|)
  {
    if s == [] then 0 else 10 * Decimal(s[..|s| - 1]) + DigitValue(s[|s| - 1])
  }

  /** Reading back a zero-padded number gives the number. */
  lemma {:induction false} DecimalPadded(n: nat, w: nat)
    requires n < Pow10(w)
    ensures Decimal(Padded(n, w)) == n
  {
    if w > 0 {
      var s := Padded(n, w);
      assert s[..w - 1] == Padded(n / 10, w - 1);
      DecimalPadded(n / 10, w - 1);
      assert DigitValue(DigitChar(n % 10)) == n % 10;
    }
  }

  // ---------------------------------------------------------------------
  // ASCII case mapping, as `str.capitalize`, `str.lower` do on ASCII text.

  function Lower(c: char): (r: char)
    ensures 'A' <= c <= 'Z' ==> 'a' <= r <= 'z'
    ensures !('A' <= c <= 'Z') ==> r == c
  {
    if 'A' <= c <= 'Z' then (c as int + 32) as char else c
  }

  function Upper(c: char): (r: char)
    ensures 'a' <= c <= 'z' ==> 'A' <= r <= 'Z'
    ensures !('a' <= c <= 'z') ==> r == c
  {
    if 'a' <= c <= 'z' then (c as int - 32) as char else c
  }

  function LowerAll(s: string): (r: string)
    ensures |r| == |s|
    ensures forall i :: 0 <= i < |s| ==> r[i] == Lower(s[i])
  {
    seq(|s|, i requires 0 <= i < |s| => Lower(s[i]))
  }

  /** `s.capitalize()`: the first character upper-cased, the rest lower-cased. */
  function Capitalize(s: string): (r: string)
    ensures |r| == |s|
    ensures |s| > 0 ==> r[0] == Upper(s[0]) && r[1..] == LowerAll(s[1..])
  {
    if s == [] then "" else [Upper(s[0])] + LowerAll(s[1..])
  }

  /** Upper-casing the first letter of a lower-case word and lower-casing it
      back are inverse: capitalize(s) is a fixed word exactly when lower(s)
      is that word in lower case. */
  lemma CapitalizeIsWord(s: string, word: string)
    requires |word| > 0 && 'a' <= word[0] <= 'z'
    requires forall i :: 0 <= i < |word| ==> 'a' <= word[i] <= 'z'
    ensures Capitalize(s) == [Upper(word[0])] + word[1..] <==> LowerAll(s) == word
  {
    if LowerAll(s) == word {
      assert |s| == |word|;
      assert Upper(s[0]) == Upper(word[0]);
      assert Capitalize(s) == [Upper(word[0])] + word[1..];
    }
    if Capitalize(s) == [Upper(word[0])] + word[1..] {
      assert |s| == |word|;
      forall i | 0 <= i < |s| ensures LowerAll(s)[i] == word[i] {
        if i == 0 {
          assert Upper(s[0]) == Upper(word[0]);
        } else {
          assert Capitalize(s)[i] == word[i];
          assert LowerAll(s[1..])[i - 1] == Lower(s[i]);
        }
      }
    }
  }
}
