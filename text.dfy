/**
 * Number-to-text conversions used by the dumper's output: decimal (the
 * default stream radix and `std::to_string`) and lower-case hexadecimal
 * (`std::hex`), and the left-aligned padding of `std::setw` with `std::left`.
 */
module Text {
  import opened Wrappers

  /** The two radixes the dumper prints in: decimal and hexadecimal. */
  type Radix = b: nat | b == 10 || b == 16 witness 10

  /** Euclidean division facts for a radix; split on the radix so they stay linear. */
  lemma DivMod(n: nat, base: Radix)
    ensures n == (n / base) * base + n % base && n % base < base
    ensures n >= base ==> 1 <= n / base < n
  {
    if base == 10 {
    } else {
    }
  }

  /** The digit character for `d`, lower-case for 10..15 as the stream prints it. */
  function DigitChar(d: nat): char
    requires d < 16
  {
    if d < 10 then ('0' as int + d) as char else ('a' as int + d - 10) as char
  }

  /** The value of digit character `c`, or -1 when `c` is not a digit. */
  function DigitValue(c: char): (d: int)
    ensures -1 <= d < 16
    ensures d >= 0 ==> DigitChar(d) == c
  {
    if '0' <= c <= '9' then c as int - '0' as int
    else if 'a' <= c <= 'f' then c as int - 'a' as int + 10
    else -1
  }

  predicate IsDigits(s: string, base: Radix) {
    forall i :: 0 <= i < |s| ==> 0 <= DigitValue(s[i]) < base
  }

  /** Canonical text: at least one digit and no leading zero unless the text is "0". */
  predicate IsCanonical(s: string, base: Radix) {
    |s| >= 1 && IsDigits(s, base) && (|s| > 1 ==> s[0] != '0')
  }

  /** `n` written in `base` with no prefix, no sign and no leading zeros. */
  function NatToText(n: nat, base: Radix): (s: string)
    ensures IsCanonical(s, base)
    ensures s[0] == '0' <==> n == 0
    decreases n
  {
    DivMod(n, base);
    if n < base then [DigitChar(n)] else NatToText(n / base, base) + [DigitChar(n % base)]
  }

  function TextToNat(s: string, base: Radix): nat
    requires IsDigits(s, base)
  {
    if s == [] then 0 else TextToNat(s[..|s| - 1], base) * base + DigitValue(s[|s| - 1])
  }

  /** Reads a number back from its text; None unless `s` is a non-empty string of digits. */
  function ParseNat(s: string, base: Radix): (r: Option<nat>)
    ensures r.Some? <==> |s| >= 1 && IsDigits(s, base)
  {
    if |s| >= 1 && IsDigits(s, base) then Some(TextToNat(s, base)) else None
  }

  lemma {:induction false} TextToNatOfNatToText(n: nat, base: Radix)
    ensures TextToNat(NatToText(n, base), base) == n
    decreases n
  {
    if n >= base {
      var s := NatToText(n, base);
      DivMod(n, base);
      TextToNatOfNatToText(n / base, base);
      assert s[..|s| - 1] == NatToText(n / base, base);
    }
  }

  /** Printing a number and reading it back gives the number. */
  lemma ParseNatToText(n: nat, base: Radix)
    ensures ParseNat(NatToText(n, base), base) == Some(n)
  {
    TextToNatOfNatToText(n, base);
  }

  lemma {:induction false} TextToNatZero(s: string, base: Radix)
    requires IsDigits(s, base)
    requires TextToNat(s, base) == 0
    ensures forall i :: 0 <= i < |s| ==> s[i] == '0'
  {
    if s != [] {
      var p := s[..|s| - 1];
      assert IsDigits(p, base);
      var q := TextToNat(p, base);
      var d := DigitValue(s[|s| - 1]);
      assert q * base + d == 0;
      assert q == 0 && d == 0 by {
        if base == 10 {
        } else {
        }
      }
      TextToNatZero(p, base);
      assert DigitChar(0) == '0';
    }
  }

  lemma DivModUnique(q: nat, d: nat, base: Radix)
    requires d < base
    ensures (q * base + d) / base == q && (q * base + d) % base == d
  {
    if base == 10 {
    } else {
    }
  }

  /** Appending digit `d` to the text of a positive `q` gives the text of `q * base + d`. */
  lemma NatToTextAppend(q: nat, d: nat, base: Radix)
    requires q > 0 && d < base
    ensures NatToText(q * base + d, base) == NatToText(q, base) + [DigitChar(d)]
  {
    var n := q * base + d;
    assert n >= base by {
      if base == 10 {
      } else {
      }
    }
    DivModUnique(q, d, base);
  }

  /** The value of a digit string with one more digit at the end. */
  lemma TextToNatSnoc(p: string, c: char, base: Radix)
    requires IsDigits(p + [c], base)
    ensures IsDigits(p, base)
    ensures TextToNat(p + [c], base) == TextToNat(p, base) * base + DigitValue(c)
  {
    var s := p + [c];
    assert s[..|s| - 1] == p;
    assert forall i :: 0 <= i < |p| ==> p[i] == s[i];
  }

  /** Every canonical text is what the number it denotes prints as. */
  lemma {:induction false} NatToTextOfTextToNat(s: string, base: Radix)
    requires IsCanonical(s, base)
    ensures NatToText(TextToNat(s, base), base) == s
    decreases |s|
  {
    var d := DigitValue(s[|s| - 1]);
    if |s| == 1 {
      assert s[..0] == [];
      assert TextToNat(s, base) == d;
      assert s == [DigitChar(d)];
    } else {
      var p := s[..|s| - 1];
      assert s == p + [s[|s| - 1]];
      TextToNatSnoc(p, s[|s| - 1], base);
      hide TextToNat, NatToText;
      assert IsCanonical(p, base);
      var q := TextToNat(p, base);
      if q == 0 {
        TextToNatZero(p, base);
        assert false;
      }
      NatToTextOfTextToNat(p, base);
      NatToTextAppend(q, d, base);
      assert s == p + [DigitChar(d)];
    }
  }

  /**
   * Left-aligned output of `s` in a field of `width` characters: `s` followed
   * by `fill` up to the width, and `s` unchanged, never truncated, when it is
   * already as wide.
   */
  function PadRight(s: string, width: nat, fill: char): (r: string)
    ensures |r| == if |s| < width then width else |s|
    ensures r[..|s|] == s
    ensures forall i :: |s| <= i < |r| ==> r[i] == fill
  {
    if |s| < width then s + seq(width - |s|, _ => fill) else s
  }
}
