/**
 * The semantics of the Rust standard-library string operations that the
 * field decoders of src/parser.rs rely on: `str::split` on one character,
 * `str::trim_start_matches` on a string pattern, `char::to_digit` and the
 * unsigned `from_str_radix` / `str::parse`. Also the decimal and hexadecimal
 * formatters used to state round trips.
 */
module RustStr {
  import opened Wrappers

  // ---------------------------------------------------------------- split

  /** `s.split(sep)`: the pieces between separators, always at least one (`"".split(c)` is `[""]`). */
  function Split(s: string, sep: char): (parts: seq<string>)
    ensures |parts| >= 1
  {
    if s == [] then [[]]
    else
      var rest := Split(s[1..], sep);
      if s[0] == sep then [[]] + rest else [[s[0]] + rest[0]] + rest[1..]
  }

  /** Glue pieces together with a separator between neighbours (the inverse of `Split`). */
  function Join(parts: seq<string>, sep: char): string
    requires |parts| >= 1
  {
    if |parts| == 1 then parts[0] else parts[0] + [sep] + Join(parts[1..], sep)
  }

  /** No piece of a split contains the separator. */
  lemma {:induction false} SplitPiecesFree(s: string, sep: char)
    ensures forall i :: 0 <= i < |Split(s, sep)| ==> sep !in Split(s, sep)[i]
  {
    if s != [] {
      SplitPiecesFree(s[1..], sep);
    }
  }

  /** Joining the pieces of a split gives back the string. */
  lemma {:induction false} JoinSplit(s: string, sep: char)
    ensures Join(Split(s, sep), sep) == s
  {
    if s != [] {
      var rest := Split(s[1..], sep);
      JoinSplit(s[1..], sep);
      if s[0] != sep {
        if |rest| == 1 {
          assert Split(s, sep) == [[s[0]] + rest[0]];
        } else {
          var parts := Split(s, sep);
          assert parts[1..] == rest[1..];
          assert Join(parts, sep) == [s[0]] + rest[0] + [sep] + Join(rest[1..], sep);
        }
      }
    }
  }

  /** A string without the separator splits into itself alone. */
  lemma {:induction false} SplitNoSeparator(s: string, sep: char)
    requires sep !in s
    ensures Split(s, sep) == [s]
  {
    if s != [] {
      SplitNoSeparator(s[1..], sep);
      assert s[0] != sep;
      assert [s[0]] + s[1..] == s;
    }
  }

  /** Splitting `a sep b` with `a` free of the separator yields `a` followed by the pieces of `b`. */
  lemma {:induction false} SplitAfterPiece(a: string, sep: char, b: string)
    requires sep !in a
    ensures Split(a + [sep] + b, sep) == [a] + Split(b, sep)
  {
    if a == [] {
      assert [] + [sep] + b == [sep] + b;
      assert ([sep] + b)[1..] == b;
    } else {
      var s := a + [sep] + b;
      assert s[0] == a[0] != sep;
      assert s[1..] == a[1..] + [sep] + b;
      SplitAfterPiece(a[1..], sep, b);
      var rest := Split(s[1..], sep);
      assert rest == [a[1..]] + Split(b, sep);
      assert [a[0]] + a[1..] == a;
    }
  }

  /** Splitting a join of separator-free pieces gives back the pieces. */
  lemma {:induction false} SplitJoin(parts: seq<string>, sep: char)
    requires |parts| >= 1
    requires forall i :: 0 <= i < |parts| ==> sep !in parts[i]
    ensures Split(Join(parts, sep), sep) == parts
  {
    if |parts| == 1 {
      SplitNoSeparator(parts[0], sep);
    } else {
      SplitJoin(parts[1..], sep);
      SplitAfterPiece(parts[0], sep, Join(parts[1..], sep));
      assert [parts[0]] + parts[1..] == parts;
    }
  }

  // ------------------------------------------------------ trim_start_matches

  /** `s.trim_start_matches(pat)`: strip every leading occurrence of `pat`. */
  function TrimStartMatches(s: string, pat: string): (r: string)
    requires pat != []
    ensures |r| <= |s| && r == s[|s| - |r|..]
    ensures !(pat <= r)
    ensures !(pat <= s) ==> r == s
    decreases |s|
  {
    if pat <= s then TrimStartMatches(s[|pat|..], pat) else s
  }

  /** Stripping is idempotent, and a leading `pat` makes no difference. */
  lemma TrimStartMatchesPrefix(s: string, pat: string)
    requires pat != []
    ensures TrimStartMatches(pat + s, pat) == TrimStartMatches(s, pat)
    ensures TrimStartMatches(TrimStartMatches(s, pat), pat) == TrimStartMatches(s, pat)
  {
    assert (pat + s)[|pat|..] == s;
  }

  // --------------------------------------------------------- from_str_radix

  /** `c.to_digit(radix)`: `0`-`9`, then `a`-`z` or `A`-`Z` for 10 to 35, if below `radix`. */
  function DigitValue(c: char, radix: nat): (r: Option<nat>)
    requires 2 <= radix <= 36
    ensures r.Some? ==> r.value < radix
  {
    var d: int :=
      if '0' <= c <= '9' then c as int - '0' as int
      else if 'a' <= c <= 'z' then c as int - 'a' as int + 10
      else if 'A' <= c <= 'Z' then c as int - 'A' as int + 10
      else radix;
    if d < radix then Some(d) else None
  }

  /** Every character is a digit in `radix`. */
  predicate IsDigits(ds: string, radix: nat)
    requires 2 <= radix <= 36
  {
    forall i :: 0 <= i < |ds| ==> DigitValue(ds[i], radix).Some?
  }

  /** The positional value of a digit string, most significant digit first. */
  function DigitsValue(ds: string, radix: nat): nat
    requires 2 <= radix <= 36
    requires IsDigits(ds, radix)
  {
    if ds == [] then 0
    else Shift(DigitsValue(ds[..|ds| - 1], radix), radix, DigitValue(ds[|ds| - 1], radix).value)
  }

  /**
   * The digit loop of `from_str_radix`: starting from 0, for each digit in turn
   * the result is multiplied by `radix` and the digit added, both checked; an
   * invalid digit or a step above `max` fails. Written as a fold over prefixes.
   */
  function CheckedDigits(ds: string, radix: nat, max: nat): (r: Option<nat>)
    requires 2 <= radix <= 36
    ensures r.Some? ==> r.value <= max
  {
    if ds == [] then Some(0)
    else
      match CheckedDigits(ds[..|ds| - 1], radix, max)
      case None => None
      case Some(acc) =>
        match DigitValue(ds[|ds| - 1], radix)
        case None => None
        case Some(d) =>
          var next := Shift(acc, radix, d);
          if next <= max then Some(next) else None
  }

  /** One step of the digit loop: the accumulated value times `radix`, plus the next digit. */
  function Shift(acc: nat, radix: nat, d: nat): nat {
    acc * radix + d
  }

  /**
   * `from_str_radix(s, radix)` for an unsigned type whose largest value is
   * `max`: the empty string, a lone sign, a `-` sign, a non-digit or
   * overflow fail; one leading `+` is allowed.
   */
  function FromStrRadix(s: string, radix: nat, max: nat): (r: Option<nat>)
    requires 2 <= radix <= 36
    ensures r.Some? ==> r.value <= max
  {
    if s == [] then None
    else if s == "+" || s == "-" then None
    else CheckedDigits(if s[0] == '+' then s[1..] else s, radix, max)
  }

  /** `s` is what `from_str_radix(s, radix)` accepts for a type whose largest value is `max`. */
  predicate ValidNumber(s: string, radix: nat, max: nat)
    requires 2 <= radix <= 36
  {
    var t := Unsigned(s);
    t != [] && IsDigits(t, radix) && DigitsValue(t, radix) <= max
  }

  /** The digits `from_str_radix` reads: `s` without one leading `+`. */
  function Unsigned(s: string): string {
    if s != [] && s[0] == '+' then s[1..] else s
  }

  lemma MulMonotone(a: nat, radix: nat)
    requires radix >= 1
    ensures a <= a * radix
  {
  }

  /** The checked digit loop succeeds exactly on digit strings whose value fits, with that value. */
  lemma {:induction false} CheckedDigitsValue(ds: string, radix: nat, max: nat)
    requires 2 <= radix <= 36
    ensures CheckedDigits(ds, radix, max).Some?
            <==> IsDigits(ds, radix) && DigitsValue(ds, radix) <= max
    ensures CheckedDigits(ds, radix, max).Some? ==> CheckedDigits(ds, radix, max).value == DigitsValue(ds, radix)
  {
    if ds != [] {
      var init := ds[..|ds| - 1];
      var last := ds[|ds| - 1];
      CheckedDigitsValue(init, radix, max);
      assert IsDigits(ds, radix) <==> IsDigits(init, radix) && DigitValue(last, radix).Some? by {
        assert forall i :: 0 <= i < |init| ==> init[i] == ds[i];
      }
      if IsDigits(ds, radix) {
        MulMonotone(DigitsValue(init, radix), radix);
      }
    }
  }

  /**
   * `from_str_radix` accepts exactly: a non-empty digit string, optionally
   * after one `+`, whose value is at most `max`; the result is that value.
   */
  lemma FromStrRadixValue(s: string, radix: nat, max: nat)
    requires 2 <= radix <= 36
    ensures FromStrRadix(s, radix, max).Some? <==> ValidNumber(s, radix, max)
    ensures FromStrRadix(s, radix, max).Some? ==> FromStrRadix(s, radix, max).value == DigitsValue(Unsigned(s), radix)
  {
    CheckedDigitsValue(Unsigned(s), radix, max);
    if s == "-" {
      assert !IsDigits(s, radix) by { assert DigitValue(s[0], radix).None?; }
    }
  }

  /** Leading zeros do not change the value. */
  lemma {:induction false} LeadingZero(ds: string, radix: nat)
    requires 2 <= radix <= 36
    requires IsDigits(ds, radix)
    ensures IsDigits("0" + ds, radix) && DigitsValue("0" + ds, radix) == DigitsValue(ds, radix)
  {
    var z := "0" + ds;
    assert DigitValue('0', radix) == Some(0);
    assert forall i :: 1 <= i < |z| ==> z[i] == ds[i - 1];
    if ds != [] {
      assert z[..|z| - 1] == "0" + ds[..|ds| - 1];
      LeadingZero(ds[..|ds| - 1], radix);
    }
  }

  // ---------------------------------------------------------------- formatting

  /** The character of a digit value, lower-case for 10 and above. */
  function DigitChar(d: nat): (c: char)
    requires d < 36
    ensures DigitValue(c, 16) == (if d < 16 then Some(d) else None)
    ensures DigitValue(c, 10) == (if d < 10 then Some(d) else None)
  {
    if d < 10 then ('0' as int + d) as char else ('a' as int + d - 10) as char
  }

  /** `n` in decimal without leading zeros (Rust's `{}` for an unsigned integer). */
  function DecimalString(n: nat): (s: string)
    ensures s != [] && IsDigits(s, 10)
    ensures forall i :: 0 <= i < |s| ==> '0' <= s[i] <= '9'
  {
    if n < 10 then [DigitChar(n)] else DecimalString(n / 10) + [DigitChar(n % 10)]
  }

  /** A byte in two lower-case hexadecimal digits (Rust's `{:02x}`). */
  function HexByteString(b: nat): (s: string)
    requires b < 0x100
    ensures |s| == 2 && IsDigits(s, 16)
    ensures forall i :: 0 <= i < |s| ==> '0' <= s[i] <= '9' || 'a' <= s[i] <= 'f'
  {
    [DigitChar(b / 16), DigitChar(b % 16)]
  }

  /** Reading back a decimal rendering gives the number. */
  lemma {:induction false} DecimalStringValue(n: nat)
    ensures DigitsValue(DecimalString(n), 10) == n
  {
    if n >= 10 {
      var s := DecimalString(n);
      assert s[..|s| - 1] == DecimalString(n / 10);
      DecimalStringValue(n / 10);
    }
  }

  /** `parse` of the decimal rendering of a value that fits gives back the value. */
  lemma DecimalRoundTrip(n: nat, max: nat)
    requires n <= max
    ensures FromStrRadix(DecimalString(n), 10, max) == Some(n)
  {
    DecimalStringValue(n);
    FromStrRadixValue(DecimalString(n), 10, max);
  }

  /** `from_str_radix(_, 16)` of a two-digit rendering gives back the byte. */
  lemma HexByteRoundTrip(b: nat, max: nat)
    requires b < 0x100 && 0xFF <= max
    ensures FromStrRadix(HexByteString(b), 16, max) == Some(b)
  {
    var s := HexByteString(b);
    assert s[..1] == [s[0]] && s[..1][..0] == [];
    assert DigitsValue(s[..1], 16) == b / 16;
    assert DigitsValue(s, 16) == b;
    FromStrRadixValue(s, 16, max);
  }

  /** A 16-bit value in four lower-case hexadecimal digits (Rust's `{:04x}`). */
  function HexWordString(w: nat): (s: string)
    requires w < 0x1_0000
    ensures |s| == 4 && IsDigits(s, 16)
    ensures forall i :: 0 <= i < |s| ==> '0' <= s[i] <= '9' || 'a' <= s[i] <= 'f'
  {
    var q1 := w / 16;
    var q2 := q1 / 16;
    [DigitChar(q2 / 16), DigitChar(q2 % 16), DigitChar(q1 % 16), DigitChar(w % 16)]
  }

  /** `from_str_radix(_, 16)` of a four-digit rendering gives back the value. */
  lemma HexWordRoundTrip(w: nat, max: nat)
    requires w < 0x1_0000 && 0xFFFF <= max
    ensures FromStrRadix(HexWordString(w), 16, max) == Some(w)
  {
    var s := HexWordString(w);
    var s1, s2, s3 := s[..1], s[..2], s[..3];
    assert s1 == [s[0]] && s1[..0] == [] && s2[..1] == s1 && s3[..2] == s2 && s[..3] == s3;
    var q1 := w / 16;
    var q2 := q1 / 16;
    assert DigitsValue(s1, 16) == q2 / 16;
    assert DigitsValue(s2, 16) == q2 by {
      assert q2 == Shift(q2 / 16, 16, q2 % 16);
    }
    assert DigitsValue(s3, 16) == q1 by {
      assert q1 == Shift(q2, 16, q1 % 16);
    }
    assert DigitsValue(s, 16) == w by {
      assert w == Shift(q1, 16, w % 16);
    }
    FromStrRadixValue(s, 16, max);
  }
}
