/** The integer conversions the form engine uses: `fmt.Sprintf("%d", …)` on
    the encode side and `strconv.ParseInt(s, 0, 64)` /
    `strconv.ParseUint(s, 0, 64)` on the decode side. Go's `int` and `uint`
    are taken to be 64 bits wide, as on every 64-bit target, so the
    `bitSize 0` calls of the source parse exactly like the `bitSize 64`
    ones. */
module Numbers {
  import opened Wrappers

  const Int64Min: int := -0x8000_0000_0000_0000
  const Int64Bound: int := 0x8000_0000_0000_0000
  const Uint64Bound: int := 0x1_0000_0000_0000_0000

  /** The values of Go's `int64` (and of `int` on a 64-bit target). */
  type Int64 = i: int | -0x8000_0000_0000_0000 <= i < 0x8000_0000_0000_0000

  /** The values of Go's `uint64` (and of `uint` on a 64-bit target). */
  type Uint64 = n: int | 0 <= n < 0x1_0000_0000_0000_0000

  predicate IsDecimalDigit(c: char) {
    '0' <= c <= '9'
  }

  function DecimalDigit(d: nat): (c: char)
    requires d < 10
    ensures IsDecimalDigit(c)
  {
    ('0' as int + d) as char
  }

  /** The base-10 digits of `n`, most significant first, without leading
      zeros (`0` is the single digit `"0"`). */
  function DecimalDigits(n: nat): (s: string)
    ensures |s| >= 1
    ensures forall i :: 0 <= i < |s| ==> IsDecimalDigit(s[i])
    ensures s[0] == '0' <==> n == 0
    decreases n
  {
    if n < 10 then [DecimalDigit(n)] else DecimalDigits(n / 10) + [DecimalDigit(n % 10)]
  }

  /** `fmt.Sprintf("%d", n)`: a minus sign for negative numbers, then the
      decimal digits of the magnitude. */
  function FormatDecimal(n: int): (s: string)
    ensures |s| >= 1
    ensures s[0] == '-' <==> n < 0
  {
    if n < 0 then "-" + DecimalDigits(-n) else DecimalDigits(n)
  }

  /** strconv's `lower`: maps an ASCII upper-case letter to lower case. It
      is only ever compared against lower-case letters, so leaving every
      other character alone agrees with Go's bit trick. */
  function Lower(c: char): char {
    if 'A' <= c <= 'Z' then (c as int + 32) as char else c
  }

  /** A character strconv can read as a digit in some base up to 36. */
  predicate IsAlnum(c: char) {
    IsDecimalDigit(c) || 'a' <= Lower(c) <= 'z'
  }

  /** The digit value strconv gives an alphanumeric character. */
  function DigitOf(c: char): (d: nat)
    requires IsAlnum(c)
    ensures d < 36
  {
    if IsDecimalDigit(c) then c as int - '0' as int else Lower(c) as int - 'a' as int + 10
  }

  /** Every character is a digit below `base` or an underscore (which the
      base-0 parser skips and `UnderscoreOk` polices). */
  predicate ValidDigits(ds: string, base: nat) {
    forall i :: 0 <= i < |ds| ==> ds[i] == '_' || (IsAlnum(ds[i]) && DigitOf(ds[i]) < base)
  }

  /** The number the digits of `ds` denote in `base`, underscores skipped. */
  function DigitsValue(ds: string, base: nat): nat
    requires ValidDigits(ds, base)
    decreases |ds|
  {
    if ds == [] then 0
    else
      var c := ds[|ds| - 1];
      var n := DigitsValue(ds[..|ds| - 1], base);
      if c == '_' then n else Shift(n, base, DigitOf(c))
  }

  /** `n` followed by one more digit `d` in `base`. */
  function Shift(n: nat, base: nat, d: nat): nat {
    n * base + d
  }

  /** The base chosen by base-0 parsing and the digits that follow the prefix. */
  datatype Prefixed = Prefixed(base: nat, digits: string)

  /** Base-0 prefix detection: `0b`, `0o`, `0x` (either case, and only with at
      least one more character) select bases 2, 8 and 16; any other leading
      `0` selects octal and is dropped; otherwise the base is 10. */
  function BasePrefix(s: string): (p: Prefixed)
    requires s != ""
    ensures p.base in {2, 8, 10, 16}
    ensures |p.digits| < |s| <==> s[0] == '0'
  {
    if s[0] == '0' then
      if |s| >= 3 && Lower(s[1]) == 'b' then Prefixed(2, s[2..])
      else if |s| >= 3 && Lower(s[1]) == 'o' then Prefixed(8, s[2..])
      else if |s| >= 3 && Lower(s[1]) == 'x' then Prefixed(16, s[2..])
      else Prefixed(8, s[1..])
    else Prefixed(10, s)
  }

  /** The last character class seen by `underscoreOK`. */
  datatype Seen = Start | Digit | Underscore | Other

  function ScanUnderscores(s: string, seen: Seen, hex: bool): bool
    decreases |s|
  {
    if s == [] then seen != Underscore
    else if IsDecimalDigit(s[0]) || (hex && 'a' <= Lower(s[0]) <= 'f') then ScanUnderscores(s[1..], Digit, hex)
    else if s[0] == '_' then seen == Digit && ScanUnderscores(s[1..], Underscore, hex)
    else if seen == Underscore then false
    else ScanUnderscores(s[1..], Other, hex)
  }

  /** strconv's `underscoreOK`: every underscore sits between two digits, or
      between a base prefix and a digit. */
  predicate UnderscoreOk(s: string) {
    var t := if |s| >= 1 && (s[0] == '-' || s[0] == '+') then s[1..] else s;
    var prefixed := |t| >= 2 && t[0] == '0' && (Lower(t[1]) == 'b' || Lower(t[1]) == 'o' || Lower(t[1]) == 'x');
    if prefixed then ScanUnderscores(t[2..], Digit, Lower(t[1]) == 'x')
    else ScanUnderscores(t, Start, false)
  }

  /** `strconv.ParseUint(s, 0, 64)`: `None` stands for both the syntax and
      the range error. */
  function ParseUint64(s: string): (r: Option<Uint64>)
    ensures r.Some? ==> s != "" && IsAlnum(s[0])
  {
    if s == "" then None
    else
      var p := BasePrefix(s);
      if !ValidDigits(p.digits, p.base) then None
      else if '_' in p.digits && !UnderscoreOk(s) then None
      else
        var n := DigitsValue(p.digits, p.base);
        if n < Uint64Bound then Some(n) else None
  }

  /** `strconv.ParseInt(s, 0, 64)`: an optional sign, then an unsigned
      base-0 number whose magnitude must fit `int64` (one more for negative
      numbers). */
  function ParseInt64(s: string): (r: Option<Int64>)
    ensures r.Some? ==> s != "" && (r.value < 0 ==> s[0] == '-')
  {
    if s == "" then None
    else
      var neg := s[0] == '-';
      var magnitude := if s[0] == '+' || s[0] == '-' then s[1..] else s;
      match ParseUint64(magnitude)
      case None => None
      case Some(u) =>
        if !neg && u >= Int64Bound then None
        else if neg && u > Int64Bound then None
        else
          var v: int := if neg then -(u as int) else u;
          Some(v)
  }

  /** The decimal digits of `n` read back in base 10 give `n`. */
  lemma {:induction false} DecimalDigitsValue(n: nat)
    ensures ValidDigits(DecimalDigits(n), 10)
    ensures DigitsValue(DecimalDigits(n), 10) == n
    decreases n
  {
    var s := DecimalDigits(n);
    if n >= 10 {
      DecimalDigitsValue(n / 10);
      assert s[..|s| - 1] == DecimalDigits(n / 10);
    }
  }

  /** Unsigned parsing undoes `%d` formatting exactly on the `uint64` range,
      and rejects the formatting of every larger number. */
  lemma ParseUintFormat(n: nat)
    ensures n < Uint64Bound ==> ParseUint64(FormatDecimal(n)) == Some(n)
    ensures n >= Uint64Bound ==> ParseUint64(FormatDecimal(n)) == None
  {
    ParseDigits(n);
  }

  /** The same for the bare digit string, with no sign to strip. */
  lemma {:induction false} ParseDigits(n: nat)
    ensures ParseUint64(DecimalDigits(n)) == if n < Uint64Bound then Some(n) else None
  {
    var s := DecimalDigits(n);
    DecimalDigitsValue(n);
    if n == 0 {
      assert s == "0";
    } else {
      assert BasePrefix(s) == Prefixed(10, s);
    }
  }

  /** Signed parsing undoes `%d` formatting exactly on the `int64` range,
      and rejects the formatting of every number outside it. */
  lemma ParseIntFormat(n: int)
    ensures Int64Min <= n < Int64Bound ==> ParseInt64(FormatDecimal(n)) == Some(n)
    ensures !(Int64Min <= n < Int64Bound) ==> ParseInt64(FormatDecimal(n)) == None
  {
    if n < 0 {
      ParseNegativeFormat(n);
    } else {
      var s := FormatDecimal(n);
      ParseUintFormat(n);
      assert s == DecimalDigits(n);
      assert s[0] != '-' && s[0] != '+' by {
        assert IsDecimalDigit(s[0]);
      }
    }
  }

  /** The negative half: the magnitude after the `-` goes through the
      unsigned parser, and the result must reach down no further than
      the `int64` minimum. */
  lemma ParseNegativeFormat(n: int)
    requires n < 0
    ensures n >= Int64Min ==> ParseInt64(FormatDecimal(n)) == Some(n)
    ensures n < Int64Min ==> ParseInt64(FormatDecimal(n)) == None
  {
    var m := DecimalDigits(-n);
    var s := "-" + m;
    assert FormatDecimal(n) == s;
    assert s[0] == '-' && s[1..] == m;
    ParseDigits(-n);
  }

  /** Decimal input, with and without a sign. */
  lemma ParseDecimalExamples()
    ensures ParseInt64("18") == Some(18)
    ensures ParseInt64("+7") == Some(7)
    ensures ParseInt64("0") == Some(0)
  {
    assert DigitsValue("18", 10) == 18 by {
      assert "18"[..1] == "1";
    }
    assert BasePrefix("18") == Prefixed(10, "18");
  }

  /** Letters are no decimal digits, and the unsigned parser takes no sign
      at all. */
  lemma ParseRejectExamples()
    ensures ParseInt64("abc") == None
    ensures ParseUint64("-1") == None
    ensures ParseUint64("+1") == None
  {
  }

  /** A `0x` prefix selects hexadecimal, either letter case. */
  lemma ParseHexExample()
    ensures ParseInt64("0x1F") == Some(31)
  {
    assert BasePrefix("0x1F") == Prefixed(16, "1F");
    assert DigitOf('F') == 15;
    assert "1F"[..1] == "1";
    assert DigitsValue("1F", 16) == 31;
    assert ParseUint64("0x1F") == Some(31);
  }

  /** A `0b` prefix selects binary, after the sign. */
  lemma ParseBinaryExample()
    ensures ParseInt64("-0b101") == Some(-5)
  {
    assert "-0b101"[1..] == "0b101";
    assert BasePrefix("0b101") == Prefixed(2, "101");
    assert "101"[..2] == "10" && "10"[..1] == "1";
    assert DigitsValue("101", 2) == 5;
    assert ParseUint64("0b101") == Some(5);
  }

  /** `0o` and a bare leading zero both select octal, in which `8` is not
      a digit. */
  lemma ParseOctalExamples()
    ensures ParseInt64("0o17") == Some(15)
    ensures ParseInt64("017") == Some(15)
    ensures ParseInt64("08") == None
  {
    assert BasePrefix("0o17") == Prefixed(8, "17");
    assert BasePrefix("017") == Prefixed(8, "17");
    assert "17"[..1] == "1";
    assert DigitsValue("17", 8) == 15;
    assert ParseUint64("0o17") == Some(15);
    assert ParseUint64("017") == Some(15);
    assert BasePrefix("08") == Prefixed(8, "8");
    assert "8"[0] == '8' && DigitOf('8') == 8;
    assert !ValidDigits("8", 8);
  }

  /** Underscores between digits, or between a base prefix and a digit,
      are skipped. */
  lemma ParseUnderscoreExamples()
    ensures ParseInt64("1_000") == Some(1000)
    ensures ParseInt64("0x_1") == Some(1)
  {
    ThousandDigits();
    assert BasePrefix("0x_1") == Prefixed(16, "_1");
    assert DigitsValue("_1", 16) == 1 by {
      assert "_1"[..1] == "_";
    }
    assert UnderscoreOk("0x_1");
  }

  lemma ThousandDigits()
    ensures DigitsValue("1_000", 10) == 1000 && UnderscoreOk("1_000")
  {
    assert "1_000"[..4] == "1_00";
    assert "1_00"[..3] == "1_0";
    assert "1_0"[..2] == "1_";
    assert "1_"[..1] == "1";
  }

  /** Any other underscore is a syntax error. */
  lemma ParseBadUnderscoreExamples()
    ensures ParseInt64("1__0") == None
    ensures ParseInt64("_1") == None
  {
    assert !UnderscoreOk("1__0");
    assert !UnderscoreOk("_1");
  }
}
