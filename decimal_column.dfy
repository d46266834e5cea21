/** A concrete column type for the round-trip check: an unsigned integer that a
    std::istringstream reads, after skipping leading white space, as a run of
    decimal digits, and that a std::ostringstream writes in decimal without
    leading zeros. A text that is empty or all white space leaves the slot as it
    was (the stream's sentry fails before anything is parsed); a text whose
    first non-blank character is not a digit stores 0 (what a failed numeric
    extraction stores). */
module DecimalColumn {
  import opened Tuples

  predicate IsDigit(c: char)
  {
    '0' <= c <= '9'
  }

  function DigitValue(c: char): nat
    requires IsDigit(c)
  {
    c as int - '0' as int
  }

  function DigitChar(d: nat): char
    requires d < 10
  {
    (d + '0' as int) as char
  }

  /** The characters that isspace accepts in the "C" locale. */
  predicate IsSpace(c: char)
  {
    c == ' ' || c == '\t' || c == '\n' || c == '\U{000B}' || c == '\U{000C}' || c == '\r'
  }

  /** The number of leading white-space characters of s from from: where
      operator>> starts to read. */
  function SpaceRun(s: string, from: nat): (r: nat)
    requires from <= |s|
    ensures from <= r <= |s|
    ensures forall i :: from <= i < r ==> IsSpace(s[i])
    ensures r < |s| ==> !IsSpace(s[r])
    decreases |s| - from
  {
    if from == |s| || !IsSpace(s[from]) then from else SpaceRun(s, from + 1)
  }

  predicate AllDigits(s: string)
  {
    forall i :: 0 <= i < |s| ==> IsDigit(s[i])
  }

  /** The number of leading digits of s: how far operator>> reads. */
  function DigitRun(s: string, from: nat): (r: nat)
    requires from <= |s|
    ensures from <= r <= |s|
    ensures forall i :: from <= i < r ==> IsDigit(s[i])
    ensures r < |s| ==> !IsDigit(s[r])
    decreases |s| - from
  {
    if from == |s| || !IsDigit(s[from]) then from else DigitRun(s, from + 1)
  }

  /** The value of a string of digits, most significant first. */
  function ValueOf(s: string): nat
    requires AllDigits(s)
  {
    if s == [] then 0 else ValueOf(s[..|s| - 1]) * 10 + DigitValue(s[|s| - 1])
  }

  /** operator<<: decimal, no leading zeros. */
  function Decimal(n: nat): (r: string)
    decreases n
  {
    (if n < 10 then [] else Decimal(n / 10)) + [DigitChar(n % 10)]
  }

  /** operator>>: white space is skipped; with nothing left the slot keeps its
      value, otherwise the value of the digits that follow is stored (0 when
      none follows). */
  function ReadDecimal(text: string, slot: nat): nat
  {
    var start := SpaceRun(text, 0);
    if start == |text| then slot
    else
      var k := DigitRun(text, start);
      if k == start then 0 else ValueOf(text[start..k])
  }

  const Unsigned: Column<nat> := Column(ReadDecimal, Decimal, 0)

  /** How operator<< writes a number: digits only, at least one, and a leading
      zero only for 0 itself. */
  predicate Canonical(s: string)
  {
    |s| >= 1 && AllDigits(s) && (s[0] == '0' ==> |s| == 1)
  }

  lemma {:induction false} DecimalCanonical(n: nat)
    ensures Canonical(Decimal(n)) && (n == 0 <==> Decimal(n) == "0")
    decreases n
  {
    if n >= 10 {
      DecimalCanonical(n / 10);
      var front := Decimal(n / 10);
      assert Decimal(n) == front + [DigitChar(n % 10)];
      assert Decimal(n)[0] == front[0];
      assert |Decimal(n)| >= 2;
    } else {
      SingleDigit(n);
      assert DigitChar(n) == '0' <==> n == 0;
    }
  }

  /** Reading back what operator<< wrote gives the number. */
  lemma {:induction false} ReadsBack(n: nat)
    ensures AllDigits(Decimal(n)) && ValueOf(Decimal(n)) == n
    decreases n
  {
    DecimalCanonical(n);
    var s := Decimal(n);
    if n >= 10 {
      ReadsBack(n / 10);
      assert s[..|s| - 1] == Decimal(n / 10);
    } else {
      assert s[..|s| - 1] == [];
    }
  }

  /** Writing out the value of a canonical text gives that text back. */
  lemma {:induction false} WritesBack(s: string)
    requires Canonical(s)
    ensures Decimal(ValueOf(s)) == s
    decreases |s|
  {
    if |s| == 1 {
      WritesBackDigit(s);
    } else {
      var front := s[..|s| - 1];
      assert front[0] == s[0];
      WritesBack(front);
      WritesBackStep(s);
    }
  }

  /** WritesBack on a single digit. */
  lemma WritesBackDigit(s: string)
    requires Canonical(s) && |s| == 1
    ensures Decimal(ValueOf(s)) == s
  {
    var d := DigitValue(s[0]);
    SingleDigit(d);
    assert s[..0] == [];
    assert ValueOf(s) == d;
    assert s == [DigitChar(d)];
  }

  /** A number below 10 is written as its one digit. */
  lemma SingleDigit(d: nat)
    requires d < 10
    ensures Decimal(d) == [DigitChar(d)]
  {
    assert Decimal(d) == [] + [DigitChar(d)];
  }

  /** The step of WritesBack: the last digit of s is written after the others. */
  lemma WritesBackStep(s: string)
    requires Canonical(s) && |s| > 1
    requires Canonical(s[..|s| - 1]) && Decimal(ValueOf(s[..|s| - 1])) == s[..|s| - 1]
    ensures Decimal(ValueOf(s)) == s
  {
    var front, last := s[..|s| - 1], s[|s| - 1];
    SplitLast(s);
    var d := DigitValue(last);
    assert DigitChar(d) == last;
    PositiveValue(front);
    var q := ValueOf(front);
    assert ValueOf(s) == q * 10 + d;
    LastDigit(q, d);
    assert Decimal(q * 10 + d) == Decimal(q) + [DigitChar(d)];
  }

  /** A non-empty text is its front followed by its last character. A fact Dafny
      knows, stated as a lemma only so that a proof can call it cheaply. */
  lemma SplitLast(s: string)
    requires |s| > 0
    ensures s == s[..|s| - 1] + [s[|s| - 1]]
  {
  }

  /** Appending digit d to q gives a number whose quotient by 10 is q and whose
      remainder is d. Arithmetic Dafny knows, stated as a lemma only so that a
      proof can call it cheaply. */
  lemma LastDigit(q: nat, d: nat)
    requires d < 10
    ensures (q * 10 + d) / 10 == q && (q * 10 + d) % 10 == d
  {
  }

  /** A canonical text of two digits or more is worth at least 1. */
  lemma {:induction false} PositiveValue(s: string)
    requires AllDigits(s) && |s| >= 1 && s[0] != '0'
    ensures ValueOf(s) >= 1
    decreases |s|
  {
    if |s| > 1 {
      PositiveValue(s[..|s| - 1]);
    }
  }

  /** The round-trip check of ConvertValue on this column accepts exactly the
      canonical decimals: "7" is accepted, while "007", "+7", " 7", "7 " and ""
      are rejected. The slot then holds the value of the leading digits. */
  lemma UnsignedAccepts(text: string, slot: nat)
    ensures ConvertValue(Unsigned, text, slot).accepted <==> Canonical(text)
    ensures Canonical(text) ==> ConvertValue(Unsigned, text, slot).value == ValueOf(text)
  {
    var value := ReadDecimal(text, slot);
    DecimalCanonical(value);
    if Canonical(text) {
      assert !IsSpace(text[0]);
      assert DigitRun(text, 0) == |text|;
      assert text[0..|text|] == text;
      WritesBack(text);
    }
  }

  /** An empty or all-blank field leaves the slot as it was, and the cell is
      rejected, since no number is written as blanks. */
  lemma BlankKeepsSlot(text: string, slot: nat)
    requires forall i :: 0 <= i < |text| ==> IsSpace(text[i])
    ensures ConvertValue(Unsigned, text, slot) == Converted(slot, false)
  {
    assert SpaceRun(text, 0) == |text|;
    UnsignedAccepts(text, slot);
    if |text| > 0 {
      assert !IsDigit(text[0]);
    }
  }
}
