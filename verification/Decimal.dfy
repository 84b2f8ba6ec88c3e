/** Decimal text: printing with zero padding, and the parsing that undoes it. */
module Decimal {
  import opened MachineInts

  predicate IsDigit(c: char) {
    '0' <= c <= '9'
  }

  predicate AllDigits(s: string) {
    forall i :: 0 <= i < |s| ==> IsDigit(s[i])
  }

  function DigitChar(d: nat): (c: char)
    requires d < 10
    ensures IsDigit(c)
  {
    '0' + d as char
  }

  function DigitValue(c: char): nat
    requires IsDigit(c)
  {
    (c - '0') as nat
  }

  /** The number's digits, without leading zeros; "0" for zero. */
  function Digits(n: nat): (s: string)
    ensures s != [] && AllDigits(s)
  {
    if n < 10 then [DigitChar(n)] else Digits(n / 10) + [DigitChar(n % 10)]
  }

  /** The number that a string of digits denotes. */
  function Number(s: string): nat
    requires AllDigits(s)
  {
    if s == [] then 0 else 10 * Number(s[..|s| - 1]) + DigitValue(s[|s| - 1])
  }

  function Zeros(n: nat): (s: string)
    ensures |s| == n && AllDigits(s)
  {
    seq(n, _ => '0')
  }

  /** Zero padding up to a width. */
  function Padded(s: string, width: nat): string {
    Zeros(if width > |s| then width - |s| else 0) + s
  }

  /** printf's %0Wd; a minus sign counts for the width and comes before the zeros. */
  function Print(v: int, width: nat): string {
    if v >= 0 then Padded(Digits(v), width)
    else "-" + Padded(Digits(-v), if width > 0 then width - 1 else 0)
  }

  /** Reads back what Print wrote. */
  function Parse(s: string): int
    requires s != [] && AllDigits(if s[0] == '-' then s[1..] else s)
  {
    var magnitude: int := Number(if s[0] == '-' then s[1..] else s);
    if s[0] == '-' then -magnitude else magnitude
  }

  lemma {:induction false} NumberOfDigits(n: nat)
    ensures Number(Digits(n)) == n
  {
    var s := Digits(n);
    if n < 10 {
      assert s[..0] == [];
    } else {
      NumberOfDigits(n / 10);
      assert s[..|s| - 1] == Digits(n / 10);
    }
  }

  lemma {:induction false} LeadingZeros(k: nat, s: string)
    requires AllDigits(s)
    ensures Number(Zeros(k) + s) == Number(s)
  {
    var t := Zeros(k) + s;
    if s != [] {
      assert t[..|t| - 1] == Zeros(k) + s[..|s| - 1];
      LeadingZeros(k, s[..|s| - 1]);
    } else if k > 0 {
      assert t[..|t| - 1] == Zeros(k - 1) + s;
      LeadingZeros(k - 1, s);
    }
  }

  lemma PaddedNumber(n: nat, width: nat)
    ensures Padded(Digits(n), width) != [] && AllDigits(Padded(Digits(n), width))
    ensures Number(Padded(Digits(n), width)) == n
  {
    LeadingZeros(if width > |Digits(n)| then width - |Digits(n)| else 0, Digits(n));
    NumberOfDigits(n);
  }

  /** Padded printing can be undone, so it never prints two numbers alike. */
  lemma ParsePrint(v: int, width: nat)
    ensures var s := Print(v, width);
            s != [] && AllDigits(if s[0] == '-' then s[1..] else s) && Parse(s) == v
  {
    var s := Print(v, width);
    if v >= 0 {
      PaddedNumber(v, width);
      assert s == Padded(Digits(v), width);
      assert IsDigit(s[0]);
    } else {
      PaddedNumber(-v, if width > 0 then width - 1 else 0);
      assert s[1..] == Padded(Digits(-v), if width > 0 then width - 1 else 0);
    }
  }

  /** What is printed is at least as wide as asked, and no wider than it must be. */
  lemma PrintWidth(v: int, width: nat)
    ensures |Print(v, width)| >= width
    ensures |Print(v, width)| > width ==> Print(v, width) == Print(v, 0)
  {
    assert Zeros(0) == [];
  }

  function Pow10(k: nat): nat {
    if k == 0 then 1 else 10 * Pow10(k - 1)
  }

  lemma {:induction false} DigitsLength(n: nat, k: nat)
    requires k > 0 && n < Pow10(k)
    ensures |Digits(n)| <= k
  {
    if n >= 10 {
      DigitsLength(n / 10, k - 1);
    }
  }

  /** An int takes its width, or eleven characters for ten digits and a sign. */
  lemma IntLength(v: s32, width: nat)
    ensures |Print(v, width)| <= if width > 11 then width else 11
  {
    assert Pow10(5) == 100000 && Pow10(10) == 100000 * Pow10(5);
    var magnitude: int := if v >= 0 then v as int else -(v as int);
    DigitsLength(magnitude, 10);
  }

  // ---------------------------------------------------------------- strtoull

  /** How many characters from the start are digits. */
  function DigitCount(s: string): (n: nat)
    ensures n <= |s| && AllDigits(s[..n])
    ensures n < |s| ==> !IsDigit(s[n])
  {
    if s == [] || !IsDigit(s[0]) then 0
    else
      var n := DigitCount(s[1..]);
      assert s[..n + 1] == [s[0]] + s[1..][..n];
      n + 1
  }

  /** strtoull in base 10 on a word: its value, how much it used, and whether it was out of range. */
  datatype Scan = Scan(value: u64, used: nat, outOfRange: bool)

  function Strtoull(s: string): (r: Scan)
    ensures r.used <= |s|
  {
    var sign := if s != [] && (s[0] == '-' || s[0] == '+') then 1 else 0;
    var n := DigitCount(s[sign..]);
    if n == 0 then Scan(0, 0, false)
    else
      var v: int := Number(s[sign..][..n]);
      if v >= TWO64 then Scan(TWO64 - 1, sign + n, true)
      else Scan(if s[0] == '-' then U64(-v) else v, sign + n, false)
  }

  lemma {:induction false} DigitCountOf(digits: string, rest: string)
    requires AllDigits(digits) && (rest != [] ==> !IsDigit(rest[0]))
    ensures DigitCount(digits + rest) == |digits|
  {
    if digits == [] {
      assert digits + rest == rest;
    } else {
      assert (digits + rest)[1..] == digits[1..] + rest;
      DigitCountOf(digits[1..], rest);
    }
  }

  /** What strtoull makes of a number written out, whatever follows. */
  lemma StrtoullOfDigits(n: nat, rest: string)
    requires rest != [] ==> !IsDigit(rest[0])
    ensures Strtoull(Digits(n) + rest) ==
            if n < TWO64 then Scan(n, |Digits(n)|, false) else Scan(TWO64 - 1, |Digits(n)|, true)
  {
    var s := Digits(n) + rest;
    assert IsDigit(s[0]);
    assert s[0..] == s;
    DigitCountOf(Digits(n), rest);
    assert s[..|Digits(n)|] == Digits(n);
    NumberOfDigits(n);
  }

  lemma DigitsThen(n: nat, rest: string)
    requires rest != [] ==> !IsDigit(rest[0])
    ensures DigitCount(Digits(n) + rest) == |Digits(n)| && (Digits(n) + rest)[..|Digits(n)|] == Digits(n)
    ensures Number(Digits(n)) == n
  {
    DigitCountOf(Digits(n), rest);
    NumberOfDigits(n);
  }

  /** With a sign the number is negated, modulo 2^64, or not. */
  lemma StrtoullOfSigned(word: string, n: nat, rest: string)
    requires n < TWO64 && (rest != [] ==> !IsDigit(rest[0]))
    requires word != [] && word[1..] == Digits(n) + rest && (word[0] == '-' || word[0] == '+')
    ensures Strtoull(word) == Scan(if word[0] == '+' || n == 0 then n else TWO64 - n, |Digits(n)| + 1, false)
  {
    DigitsThen(n, rest);
  }

  lemma StrtoullOfNoNumber(word: string)
    requires word != [] ==> !IsDigit(word[0])
    requires |word| > 1 && (word[0] == '-' || word[0] == '+') ==> !IsDigit(word[1])
    ensures Strtoull(word) == Scan(0, 0, false)
  {
    assert word[0..] == word;
  }
}
