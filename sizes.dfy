/**
 * format_size: the unit a size is shown in, and the plain decimal text of
 * the bytes branch. The one-decimal value of the other branches is modelled
 * as the exact quotient; its rounding to one digit is float formatting.
 */
module Sizes {

  /** The size multipliers of dufus.h. */
  const KB: nat := 1024
  const MB: nat := 1024 * 1024
  const GB: nat := 1024 * 1024 * 1024

  datatype Unit = Bytes | Kilobytes | Megabytes | Gigabytes

  /** The suffix printed after the number. */
  function Suffix(u: Unit): string
  {
    match u
    case Bytes => "B"
    case Kilobytes => "KB"
    case Megabytes => "MB"
    case Gigabytes => "GB"
  }

  /** What the printed number is a count of. */
  function Scale(u: Unit): nat
  {
    match u
    case Bytes => 1
    case Kilobytes => KB
    case Megabytes => MB
    case Gigabytes => GB
  }

  /** The order of the units, smallest first. */
  function Rank(u: Unit): nat
  {
    match u
    case Bytes => 0
    case Kilobytes => 1
    case Megabytes => 2
    case Gigabytes => 3
  }

  /** format_size's case split: strict comparisons against KB, MB and GB in turn. */
  function UnitFor(size: nat): Unit
  {
    if size < KB then Bytes
    else if size < MB then Kilobytes
    else if size < GB then Megabytes
    else Gigabytes
  }

  /** What format_size prints: a decimal integer, or a quotient shown to one decimal. */
  datatype Shown = Integer(digits: string, suffix: string) | OneDecimal(value: real, suffix: string)

  /** The character of a decimal digit. */
  function DigitChar(d: nat): (c: char)
    requires d < 10
    ensures '0' <= c <= '9'
  {
    "0123456789"[d]
  }

  /** The value of a decimal digit character. */
  function DigitValue(c: char): nat
  {
    if '0' <= c <= '9' then (c as int - '0' as int) else 0
  }

  /** %lld of a non-negative number: its decimal digits, most significant first. */
  function Decimal(n: nat): (s: string)
    ensures |s| >= 1
    decreases n
  {
    if n < 10 then [DigitChar(n)] else Decimal(n / 10) + [DigitChar(n % 10)]
  }

  /** Reading a string of decimal digits back as a number. */
  function ParseDecimal(s: string): nat
  {
    if s == [] then 0 else ParseDecimal(s[..|s| - 1]) * 10 + DigitValue(s[|s| - 1])
  }

  /** format_size(size). */
  function FormatSize(size: nat): Shown
  {
    var u := UnitFor(size);
    if u == Bytes then Integer(Decimal(size), Suffix(u))
    else OneDecimal(size as real / Scale(u) as real, Suffix(u))
  }

  lemma DigitRoundTrip(d: nat)
    requires d < 10
    ensures DigitValue(DigitChar(d)) == d
  {

  }

  /** Printing a number in decimal and reading it back gives the number. */
  lemma {:induction false} DecimalRoundTrip(n: nat)
    ensures ParseDecimal(Decimal(n)) == n
    decreases n
  {
    if n < 10 {
      DigitRoundTrip(n);
      assert Decimal(n)[..0] == [];
    } else {
      var s := Decimal(n);
      DecimalRoundTrip(n / 10);
      DigitRoundTrip(n % 10);
      assert s[..|s| - 1] == Decimal(n / 10);
    }
  }

  /**
   * The decimal text is made of digits only, and has no leading zero
   * except for the number 0 itself.
   */
  lemma {:induction false} DecimalDigits(n: nat)
    ensures forall i :: 0 <= i < |Decimal(n)| ==> '0' <= Decimal(n)[i] <= '9'
    ensures Decimal(n)[0] == '0' <==> n == 0
    decreases n
  {
    if n >= 10 {
      DecimalDigits(n / 10);
      assert Decimal(n)[0] == Decimal(n / 10)[0];
    } else {
      assert "0123456789"[n] == '0' <==> n == 0;
    }
  }

  /**
   * The unit chosen for a size: bytes exactly below KB, kilobytes exactly in
   * [KB, MB), megabytes exactly in [MB, GB), gigabytes from GB on. Every unit
   * but the largest is used only below 1024 of itself.
   */
  lemma UnitForRange(size: nat)
    ensures UnitFor(size) == Bytes <==> size < KB
    ensures UnitFor(size) == Kilobytes <==> KB <= size < MB
    ensures UnitFor(size) == Megabytes <==> MB <= size < GB
    ensures UnitFor(size) == Gigabytes <==> GB <= size
    ensures Scale(UnitFor(size)) <= size || size < KB
    ensures UnitFor(size) != Gigabytes ==> size < Scale(UnitFor(size)) * 1024
  {
  }

  /** A larger size never gets a smaller unit. */
  lemma UnitForMonotonic(a: nat, b: nat)
    requires a <= b
    ensures Rank(UnitFor(a)) <= Rank(UnitFor(b))
  {
  }

  /**
   * What format_size shows: below KB the exact byte count in decimal with
   * "B"; from KB on a quotient by the unit that is at least 1, below 1024
   * except in gigabytes, and times the unit gives back the size.
   */
  lemma FormatSizeShows(size: nat)
    ensures FormatSize(size).Integer? <==> size < KB
    ensures FormatSize(size).Integer? ==>
              FormatSize(size).suffix == "B" && ParseDecimal(FormatSize(size).digits) == size
    ensures FormatSize(size).OneDecimal? ==>
              && FormatSize(size).suffix == Suffix(UnitFor(size))
              && FormatSize(size).value * Scale(UnitFor(size)) as real == size as real
              && 1.0 <= FormatSize(size).value
              && (UnitFor(size) != Gigabytes ==> FormatSize(size).value < 1024.0)
  {
    UnitForRange(size);
    if size < KB {
      DecimalRoundTrip(size);
    } else {
      var u := UnitFor(size);
      var v := size as real / Scale(u) as real;
      assert v * Scale(u) as real == size as real;
      assert Scale(u) as real <= size as real;
      if u != Gigabytes {
        assert size as real < Scale(u) as real * 1024.0;
      }
    }
  }
}
