/** Trimming, lower case and decimal numerals, used by several components. */
module Text {
  /** No white space (as judged by `space`) at either end. */
  ghost predicate Trimmed(s: string, space: char -> bool) {
    s != "" ==> !space(s[0]) && !space(s[|s| - 1])
  }

  function TrimLeft(s: string, space: char -> bool): (r: string)
    ensures |r| <= |s| && r == s[|s| - |r|..]
    ensures r != "" ==> !space(r[0])
    ensures forall i :: 0 <= i < |s| - |r| ==> space(s[i])
  {
    if s != "" && space(s[0]) then TrimLeft(s[1..], space) else s
  }

  function TrimRight(s: string, space: char -> bool): (r: string)
    ensures |r| <= |s| && r == s[..|r|]
    ensures r != "" ==> !space(r[|r| - 1])
    ensures forall i :: |r| <= i < |s| ==> space(s[i])
  {
    if s != "" && space(s[|s| - 1]) then TrimRight(s[..|s| - 1], space) else s
  }

  /** Both ends trimmed; the result is a slice of `s`. */
  function Trim(s: string, space: char -> bool): (r: string)
    ensures Trimmed(r, space)
    ensures |r| <= |TrimLeft(s, space)|
    ensures r == s[|s| - |TrimLeft(s, space)|..][..|r|]
  {
    TrimRight(TrimLeft(s, space), space)
  }

  /** Trimming only removes white space. */
  lemma TrimKeeps(s: string, space: char -> bool, i: nat)
    requires i < |s| && !space(s[i])
    ensures s[i] in Trim(s, space)
  {
    var t := TrimLeft(s, space);
    var a := |s| - |t|;
    assert s[i] == t[i - a];
    assert Trim(s, space)[i - a] == s[i];
  }

  lemma TrimOfTrimmed(s: string, space: char -> bool)
    requires Trimmed(s, space)
    ensures Trim(s, space) == s
  {
  }

  /** The codec's printer puts one space before a value: trimming takes it away again. */
  lemma TrimOfPadded(s: string, space: char -> bool)
    requires Trimmed(s, space) && space(' ')
    ensures Trim(" " + s, space) == s
  {
    assert (" " + s)[1..] == s;
    assert TrimLeft(" " + s, space) == TrimLeft(s, space) == s;
  }

  function LowerChar(c: char): char {
    if 'A' <= c <= 'Z' then (c as int + 32) as char else c
  }

  function Lower(s: string): string {
    seq(|s|, i requires 0 <= i < |s| => LowerChar(s[i]))
  }

  predicate IsDigit(c: char) {
    '0' <= c <= '9'
  }

  predicate AllDigits(s: string) {
    forall i :: 0 <= i < |s| ==> IsDigit(s[i])
  }

  function DigitValue(c: char): (d: nat)
    requires IsDigit(c)
    ensures d < 10
  {
    c as int - '0' as int
  }

  /** The decimal numeral of n, without leading zeros. */
  function PrintNat(n: nat): (s: string)
    ensures s != "" && AllDigits(s)
  {
    var last := ('0' as int + n % 10) as char;
    if n < 10 then [last] else PrintNat(n / 10) + [last]
  }

  function ParseNat(s: string): nat
    requires AllDigits(s)
  {
    if s == "" then 0 else 10 * ParseNat(s[..|s| - 1]) + DigitValue(s[|s| - 1])
  }

  lemma {:induction false} ParseOfPrint(n: nat)
    ensures ParseNat(PrintNat(n)) == n
  {
    if n >= 10 {
      var s := PrintNat(n);
      assert s[..|s| - 1] == PrintNat(n / 10);
      ParseOfPrint(n / 10);
    }
  }

  function Zeros(n: nat): (s: string)
    ensures |s| == n && AllDigits(s)
  {
    if n == 0 then "" else Zeros(n - 1) + "0"
  }

  /** Leading zeros do not change the number. */
  lemma {:induction false} ParseOfPadded(zeros: nat, n: nat)
    ensures AllDigits(Zeros(zeros) + PrintNat(n)) && ParseNat(Zeros(zeros) + PrintNat(n)) == n
  {
    ParseOfZeros(zeros);
    ParseAfterZeros(zeros, PrintNat(n));
    ParseOfPrint(n);
  }

  lemma {:induction false} ParseOfZeros(n: nat)
    ensures ParseNat(Zeros(n)) == 0
  {
    if n > 0 {
      ParseOfZeros(n - 1);
      assert Zeros(n)[..n - 1] == Zeros(n - 1);
    }
  }

  lemma {:induction false} ParseAfterZeros(zeros: nat, s: string)
    requires AllDigits(s)
    ensures AllDigits(Zeros(zeros) + s) && ParseNat(Zeros(zeros) + s) == ParseNat(s)
    decreases |s|
  {
    var t := Zeros(zeros) + s;
    if s == "" {
      assert t == Zeros(zeros);
      ParseOfZeros(zeros);
    } else {
      ParseAfterZeros(zeros, s[..|s| - 1]);
      assert t[..|t| - 1] == Zeros(zeros) + s[..|s| - 1];
    }
  }

  /** Every run of digits is a numeral with leading zeros. */
  lemma {:induction false} PaddedOfDigits(s: string) returns (zeros: nat)
    requires s != "" && AllDigits(s)
    ensures s == Zeros(zeros) + PrintNat(ParseNat(s))
    decreases |s|
  {
    var init, d := s[..|s| - 1], DigitValue(s[|s| - 1]);
    assert s == init + [s[|s| - 1]];
    LastDigit(ParseNat(init), d);
    if init == "" {
      zeros := 0;
    } else {
      zeros := PaddedOfDigits(init);
      if ParseNat(init) == 0 {
        zeros := zeros + 1;
        assert PrintNat(0) == "0";
        assert Zeros(zeros) == Zeros(zeros - 1) + "0";
      } else {
        assert s == Zeros(zeros) + (PrintNat(ParseNat(init)) + [s[|s| - 1]]);
      }
    }
  }

  lemma LastDigit(n: nat, d: nat)
    requires d < 10
    ensures PrintNat(10 * n + d) == (if n == 0 then "" else PrintNat(n)) + [('0' as int + d) as char]
  {
  }
}
