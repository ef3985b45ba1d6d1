/** wasm/libtee_builtin_wrapper.c, lines 592-685: printing numbers digit by digit. Output is a
    sequence of character codes, in the order the output function receives them. */
module Numerals {
  import opened Bytes

  datatype Pad = PadNone | PadZeroBefore | PadSpaceBefore | PadSpaceAfter

  const SPACE := 32
  const ZERO := 48

  // ----- Positional numerals -----

  function Power(base: nat, n: nat): nat {
    if n == 0 then 1 else base * Power(base, n - 1)
  }

  function DigitCode(d: nat): int {
    d + (if d > 9 then 87 else 48)
  }

  function DigitValue(c: int): int {
    if c > 57 then c - 87 else c - 48
  }

  /** The numeral of `n`, most significant digit first. */
  function Numeral(n: nat, base: nat): (digits: seq<int>)
    requires 2 <= base
    ensures |digits| >= 1
    decreases n
  {
    if n < base then [DigitCode(n)] else
      QuotientSmaller(n, base);
      Numeral(n / base, base) + [DigitCode(n % base)]
  }

  /** What a reader makes of a numeral. */
  function Value(digits: seq<int>, base: nat): int {
    if digits == [] then 0 else base * Value(digits[..|digits| - 1], base) + DigitValue(digits[|digits| - 1])
  }

  lemma MulMono(m: int, a: int, b: int)
    requires 0 <= m && a <= b
    ensures m * a <= m * b
  {
    assert m * (b - a) >= 0;
  }

  lemma QuotientSmaller(n: nat, base: nat)
    requires 2 <= base <= n
    ensures 0 < n / base < n && n == base * (n / base) + n % base && 0 <= n % base < base
  {
    var q := n / base;
    assert n == base * q + n % base;
    MulMono(q, 2, base);
    assert q == 0 ==> base * q == 0;
  }

  /** A decimal digit, or one of the letters a to f. */
  predicate IsDigitCode(c: int) {
    '0' as int <= c <= '9' as int || 'a' as int <= c <= 'f' as int
  }

  /** Reading a numeral back gives the number; it has no leading zero unless it is zero, and no capital
      letter. */
  lemma {:induction false} NumeralReadsBack(n: nat, base: nat)
    requires 2 <= base <= 16
    ensures Value(Numeral(n, base), base) == n
    ensures n > 0 ==> Numeral(n, base)[0] != ZERO
    ensures forall i | 0 <= i < |Numeral(n, base)| :: IsDigitCode(Numeral(n, base)[i])
  {
    var digits := Numeral(n, base);
    if n < base {
      assert digits[..|digits| - 1] == [];
    } else {
      QuotientSmaller(n, base);
      NumeralReadsBack(n / base, base);
      assert digits[..|digits| - 1] == Numeral(n / base, base);
    }
  }

  /** A number has at most `k` digits exactly when it is below the `k`th power of the base. */
  lemma {:induction false} NumeralLength(n: nat, base: nat, k: nat)
    requires 2 <= base && k >= 1
    ensures |Numeral(n, base)| <= k <==> n < Power(base, k)
  {
    if k == 1 {
      assert Power(base, 1) == base * Power(base, 0) == base;
      if n >= base {
        QuotientSmaller(n, base);
      }
    } else if n < base {
      PowerAtLeastBase(base, k);
    } else {
      QuotientSmaller(n, base);
      NumeralLength(n / base, base, k - 1);
      QuotientBelow(n, base, Power(base, k - 1));
    }
  }

  lemma {:induction false} PowerAtLeastBase(base: nat, k: nat)
    requires base >= 1 && k >= 1
    ensures Power(base, k) >= base
  {
    if k > 1 {
      PowerAtLeastBase(base, k - 1);
      assert base * Power(base, k - 1) >= base * 1;
    } else {
      assert Power(base, 1) == base * Power(base, 0) == base;
    }
  }

  lemma QuotientBelow(n: nat, base: nat, p: nat)
    requires base >= 1
    ensures n / base < p <==> n < base * p
  {
    var q := n / base;
    assert n == base * q + n % base;
    if q < p {
      MulMono(base, q + 1, p);
      assert base * (q + 1) == base * q + base;
    } else {
      MulMono(base, p, q);
    }
  }

  /** Quotient and remainder are determined by what they satisfy. */
  lemma DivModUnique(n: nat, m: nat, q: nat, r: nat)
    requires m >= 1 && n == m * q + r && r < m
    ensures n / m == q && n % m == r
  {
    var q', r' := n / m, n % m;
    assert n == m * q' + r';
    QuotientOrder(m, q, r, q', r');
    QuotientOrder(m, q', r', q, r);
  }

  lemma QuotientOrder(m: int, q: int, r: int, q': int, r': int)
    requires m >= 1 && m * q + r == m * q' + r' && 0 <= r < m && 0 <= r' < m
    ensures q <= q'
  {
    MulMono(m, q' + 1, Max(q, q' + 1));
    assert m * (q' + 1) == m * q' + m;
  }

  /** Taking one digit off: with `p` a power of the base, the part below `base * p` holds the digit
      at `p` and the part below `p`. */
  lemma SplitDigit(n: nat, base: nat, p: nat)
    requires base >= 2 && p >= 1
    ensures base * p >= 1
    ensures n / p / base == n / (base * p)
    ensures n % (base * p) / p == n / p % base
    ensures n % (base * p) % p == n % p
  {
    var q, r := n / p, n % p;
    var h, d := q / base, q % base;
    assert base * p >= p;
    SplitProduct(n, base, p, q, r, h, d);
    DivModUnique(n, base * p, h, p * d + r);
    DivModUnique(p * d + r, p, d, r);
  }

  lemma SplitProduct(n: nat, base: nat, p: nat, q: nat, r: nat, h: nat, d: nat)
    requires n == p * q + r && q == base * h + d && d < base && r < p
    ensures n == (base * p) * h + (p * d + r)
    ensures p * d + r < base * p
  {
    calc {
      p * q;
      p * (base * h + d);
      p * (base * h) + p * d;
      (base * p) * h + p * d;
    }
    MulMono(p, d + 1, base);
    assert p * (d + 1) == p * d + p;
  }

  // ----- Padding -----

  function Repeat(c: int, n: int): (codes: seq<int>)
    ensures |codes| == Max(0, n)
    ensures forall i | 0 <= i < |codes| :: codes[i] == c
  {
    seq(Max(0, n), _ => c)
  }

  lemma RepeatOneMore(c: int, n: nat)
    ensures Repeat(c, n) + [c] == Repeat(c, n + 1)
  {
  }

  /** Zeros in front do not change what is read. */
  lemma {:induction false} LeadingZeros(n: nat, digits: seq<int>, base: nat)
    ensures Value(Repeat(ZERO, n) + digits, base) == Value(digits, base)
  {
    var all := Repeat(ZERO, n) + digits;
    if digits != [] {
      LeadingZeros(n, digits[..|digits| - 1], base);
      assert all[..|all| - 1] == Repeat(ZERO, n) + digits[..|digits| - 1];
    } else if n > 0 {
      LeadingZeros(n - 1, [], base);
      assert all[..|all| - 1] == Repeat(ZERO, n - 1) + [];
      assert all[|all| - 1] == ZERO;
    }
  }

  /** The loop that fills up with spaces after a number or a string. */
  method SpacesAfter(count: int) returns (out: seq<int>)
    ensures out == Repeat(SPACE, count)
  {
    var remaining := count;
    out := [];
    while remaining > 0
      invariant remaining <= Max(0, count) && out == Repeat(SPACE, Max(0, count) - Max(0, remaining))
    {
      RepeatOneMore(SPACE, Max(0, count) - remaining);
      out := out + [SPACE];
      remaining := remaining - 1;
    }
  }

  // ----- What a reader makes of a printed number -----

  /** In `text` a reader finds `n`, written in `base` without a leading zero: with spaces behind it only if
      the padding goes there, and otherwise with zeros or spaces before it; it is as long as `width` unless
      the digits are longer. */
  ghost predicate ShowsNumber(text: seq<int>, n: nat, base: nat, padding: Pad, width: int) {
    exists from, to | 0 <= from < to <= |text| :: ShowsDigits(text, from, to, n, base, padding, width)
  }

  ghost predicate ShowsDigits(text: seq<int>, from: nat, to: nat, n: nat, base: nat, padding: Pad, width: int) {
    && from < to <= |text| && |text| == Max(to - from, width)
    && Value(text[from..to], base) == n && (text[from] == ZERO ==> to == from + 1)
    && (forall i | from <= i < to :: IsDigitCode(text[i]))
    && (if padding == PadSpaceAfter then from == 0 else to == |text|)
    && (forall i | 0 <= i < from :: text[i] == if padding == PadZeroBefore then ZERO else SPACE)
    && (forall i | to <= i < |text| :: text[i] == SPACE)
  }

  lemma ZeroIsOneDigit(base: nat)
    requires 2 <= base
    ensures |Numeral(0, base)| == 1
  {
  }

  lemma ShowsPadded(text: seq<int>, before: seq<int>, digits: seq<int>, behind: seq<int>, n: nat, base: nat, padding: Pad,
                    width: int)
    requires text == before + digits + behind && 2 <= base <= 16 && digits == Numeral(n, base)
    requires |text| == Max(|digits|, width)
    requires if padding == PadSpaceAfter then before == [] else behind == []
    requires forall i | 0 <= i < |before| :: before[i] == if padding == PadZeroBefore then ZERO else SPACE
    requires forall i | 0 <= i < |behind| :: behind[i] == SPACE
    ensures ShowsNumber(text, n, base, padding, width)
  {
    hide Numeral, Value, IsDigitCode;
    NumeralReadsBack(n, base);
    ZeroIsOneDigit(base);
    assert text[|before|..|before| + |digits|] == digits;
    assert ShowsDigits(text, |before|, |before| + |digits|, n, base, padding, width);
  }

  // ----- Decimal -----

  function DecPadCode(padding: Pad): int {
    if padding == PadZeroBefore then ZERO else SPACE
  }

  /** What `_printf_dec_uint` prints. */
  function PrintedDec(num: uint32, padding: Pad, minWidth: int): seq<int> {
    var width, digits := Max(minWidth, 1), Numeral(num, 10);
    if padding == PadSpaceAfter then digits + Repeat(SPACE, width - |digits|)
    else Repeat(DecPadCode(padding), Min(width, 10) - |digits|) + digits
  }

  /** Length of the printed number, and the number read back from it without its padding. */
  lemma PrintedDecReadsBack(num: uint32, padding: Pad, minWidth: int)
    ensures var printed, digits, width := PrintedDec(num, padding, minWidth), Numeral(num, 10), Max(minWidth, 1);
      && 1 <= |digits| <= 10
      && |printed| == Max(|digits|, if padding == PadSpaceAfter then width else Min(width, 10))
      && (padding == PadSpaceAfter ==> forall i | |digits| <= i < |printed| :: printed[i] == SPACE)
      && (padding != PadSpaceAfter ==>
            forall i | 0 <= i < |printed| - |digits| :: printed[i] == if padding == PadZeroBefore then ZERO else SPACE)
      && (padding == PadSpaceAfter ==> Value(printed[..|digits|], 10) == num)
      && (padding != PadSpaceAfter ==> Value(printed[|printed| - |digits|..], 10) == num)
      && (padding == PadZeroBefore ==> Value(printed, 10) == num)
  {
    hide Numeral, Value, Power;
    var printed, digits := PrintedDec(num, padding, minWidth), Numeral(num, 10);
    NumeralReadsBack(num, 10);
    UpToTenDigits(num);
    if padding == PadSpaceAfter {
      assert printed[..|digits|] == digits;
    } else {
      assert printed[|printed| - |digits|..] == digits;
    }
    if padding == PadZeroBefore {
      LeadingZeros(Max(0, Min(Max(minWidth, 1), 10) - |digits|), digits, 10);
    }
  }

  /** A printed number shows that number, ten digits wide at most when it is padded in front. */
  lemma DecShows(num: uint32, padding: Pad, minWidth: int)
    ensures ShowsNumber(PrintedDec(num, padding, minWidth), num, 10, padding,
                        if padding == PadSpaceAfter then Max(minWidth, 1) else Min(Max(minWidth, 1), 10))
  {
    hide Numeral;
    var printed, digits, width := PrintedDec(num, padding, minWidth), Numeral(num, 10), Max(minWidth, 1);
    UpToTenDigits(num);
    if padding == PadSpaceAfter {
      ShowsPadded(printed, [], digits, printed[|digits|..], num, 10, padding, width);
    } else {
      ShowsPadded(printed, printed[..|printed| - |digits|], digits, [], num, 10, padding, Min(width, 10));
    }
  }

  lemma UpToTenDigits(num: uint32)
    ensures |Numeral(num, 10)| <= 10
  {
    PowersOfTen();
    NumeralLength(num, 10, 10);
  }

  lemma PowersOfTen()
    ensures Power(10, 9) == 1000000000 && Power(10, 10) == 10000000000
  {
    assert Power(10, 3) == 1000;
    assert Power(10, 6) == 1000000;
  }

  lemma PowerPositive(base: nat, n: nat)
    requires base >= 1
    ensures Power(base, n) >= 1
  {
    if n > 0 {
      PowerPositive(base, n - 1);
      assert base * Power(base, n - 1) >= 1 * Power(base, n - 1);
    }
  }

  /** The rest of the number above position `j`. */
  function Above(num: nat, base: nat, j: nat): nat
    requires base >= 2
  {
    PowerPositive(base, j);
    num / Power(base, j)
  }

  /** One step of printing from the top: the digit at position `j`, and what is left below it. */
  lemma NextDigit(num: nat, base: nat, j: nat)
    requires 2 <= base
    ensures Power(base, j) >= 1 && Power(base, j + 1) == base * Power(base, j) >= 1
    ensures Above(num, base, j) / base == Above(num, base, j + 1)
    ensures num % Power(base, j + 1) / Power(base, j) == Above(num, base, j) % base
    ensures num % Power(base, j + 1) % Power(base, j) == num % Power(base, j)
    ensures Above(num, base, j + 1) > 0 ==>
      Numeral(Above(num, base, j), base) == Numeral(Above(num, base, j + 1), base) + [DigitCode(Above(num, base, j) % base)]
    ensures Above(num, base, j + 1) == 0 ==> Numeral(Above(num, base, j), base) == [DigitCode(Above(num, base, j) % base)]
  {
    PowerPositive(base, j);
    SplitDigit(num, base, Power(base, j));
    LastDigit(Above(num, base, j), base);
  }

  lemma LastDigit(n: nat, base: nat)
    requires 2 <= base
    ensures n / base > 0 ==> Numeral(n, base) == Numeral(n / base, base) + [DigitCode(n % base)]
    ensures n / base == 0 ==> Numeral(n, base) == [DigitCode(n % base)]
  {
    QuotientPositive(n, base);
    SmallRemainder(n, base);
  }

  /** Whether the digits have begun by position `j`. */
  lemma DigitsBegun(num: nat, base: nat, j: nat)
    requires 2 <= base && j >= 1
    ensures Above(num, base, j) > 0 <==> |Numeral(num, base)| > j
  {
    PowerPositive(base, j);
    NumeralLength(num, base, j);
    QuotientPositive(num, Power(base, j));
  }

  lemma QuotientPositive(n: nat, p: nat)
    requires p >= 1
    ensures n / p > 0 <==> n >= p
  {
    var q := n / p;
    assert n == p * q + n % p;
    MulMono(p, 1, Max(q, 1));
    assert q == 0 ==> p * q == 0;
  }

  /** What has been printed, of a decimal number, when everything down to position `j` is done. */
  function DecSoFar(num: uint32, padding: Pad, width: int, j: nat): seq<int> {
    var before := if padding == PadSpaceAfter then 0 else Min(width, 10) - Max(j, |Numeral(num, 10)|);
    Repeat(DecPadCode(padding), before) + DigitsAbove(num, 10, j)
  }

  function DigitsAbove(num: nat, base: nat, j: nat): seq<int>
    requires base >= 2
  {
    if Above(num, base, j) > 0 then Numeral(Above(num, base, j), base) else []
  }

  lemma DecStep(num: uint32, padding: Pad, width: int, j: nat)
    requires 1 <= j <= 9
    ensures DecSoFar(num, padding, width, j) == DecSoFar(num, padding, width, j + 1)
      + (if Above(num, 10, j) > 0 then [Above(num, 10, j) % 10 + 48]
         else if padding != PadSpaceAfter && j + 1 <= width then [DecPadCode(padding)] else [])
  {
    hide Above;
    NextDigit(num, 10, j);
    DigitsBegun(num, 10, j);
    DigitsBegun(num, 10, j + 1);
    var length := |Numeral(num, 10)|;
    if Above(num, 10, j) == 0 && padding != PadSpaceAfter && j + 1 <= width {
      RepeatOneMore(DecPadCode(padding), Min(width, 10) - (j + 1));
    }
  }

  lemma DecLast(num: uint32, padding: Pad, width: int)
    requires width >= 1
    ensures DecSoFar(num, padding, width, 1) + [num % 10 + 48]
         == (if padding == PadSpaceAfter then Numeral(num, 10) else PrintedDec(num, padding, width))
  {
    hide Above, Power, Numeral;
    LowestDigit(num, 10);
  }

  lemma LowestDigit(num: nat, base: nat)
    requires base >= 2
    ensures Above(num, base, 0) == num
    ensures DigitsAbove(num, base, 1) + [DigitCode(num % base)] == Numeral(num, base)
  {
    NextDigit(num, base, 0);
    assert Power(base, 0) == 1 && Above(num, base, 0) == num;
  }

  /** The digit at position `j` as `_printf_dec_uint` finds it, with `p` the `j`th power of ten. */
  lemma DecDigit(num: uint32, j: nat, p: int, remainder: int)
    requires 1 <= j <= 9 && p == Power(10, j) && Power(10, j + 1) > 0 && remainder == num % Power(10, j + 1)
    ensures p >= 10 && (p - 1) / 10 == Power(10, j - 1) - 1
    ensures j > 1 ==> Power(10, j - 1) >= 10
    ensures Above(num, 10, j + 1) > 0 || remainder >= p <==> Above(num, 10, j) > 0
    ensures remainder / p == Above(num, 10, j) % 10
    ensures remainder % p == num % p
  {
    NextDigit(num, 10, j);
    NextDigit(num, 10, j - 1);
    PowerAtLeastBase(10, j);
    if j > 1 {
      PowerAtLeastBase(10, j - 1);
    }
    QuotientPositive(num, p);
    QuotientPositive(num, Power(10, j + 1));
    assert Above(num, 10, j + 1) > 0 ==> Above(num, 10, j) > 0;
    SmallRemainder(num, Power(10, j + 1));
  }

  lemma SmallRemainder(n: nat, m: nat)
    requires m >= 1
    ensures n < m ==> n % m == n
  {
  }

  /** `_printf_dec_uint` */
  method PrintDecUint(num: uint32, padding: Pad, minWidth0: int) returns (out: seq<int>)
    ensures out == PrintedDec(num, padding, minWidth0)
  {
    hide Above, DecSoFar, Power, Numeral;
    var pos, remainder: int := 999999999, num;
    var foundLargestDigit := false;
    var remaining, digits, minWidth := 10, 1, minWidth0;
    if minWidth <= 0 {
      minWidth := 1;
    }
    out := [];
    ghost var j := 9;
    DecStart(num, padding, minWidth);
    while pos >= 9
      invariant 0 <= j <= 9 && remaining == j + 1
      invariant pos == Power(10, j) - 1 && (j > 0 ==> pos >= 9)
      invariant Power(10, j + 1) > 0 && remainder == num % Power(10, j + 1)
      invariant foundLargestDigit == (Above(num, 10, j + 1) > 0)
      invariant out == DecSoFar(num, padding, minWidth, j + 1)
      invariant padding == PadSpaceAfter ==> digits == 1 + |out|
      decreases j
    {
      DecDigit(num, j, pos + 1, remainder);
      DecStep(num, padding, minWidth, j);
      if foundLargestDigit || remainder > pos {
        foundLargestDigit := true;
        out := out + [remainder / (pos + 1) + 48];
        digits := digits + 1;
      } else if remaining <= minWidth && padding != PadSpaceAfter {
        out := out + [if padding == PadZeroBefore then ZERO else SPACE];
        digits := digits + 1;
      }
      remaining := remaining - 1;
      remainder := remainder % (pos + 1);
      pos := pos / 10;
      j := j - 1;
    }
    DecLast(num, padding, minWidth);
    out := out + [remainder + 48];
    if padding == PadSpaceAfter {
      var spaces := SpacesAfter(minWidth - digits);
      out := out + spaces;
    }
  }

  lemma DecStart(num: uint32, padding: Pad, width: int)
    ensures Power(10, 9) == 1000000000 && Power(10, 10) == 10000000000
    ensures Above(num, 10, 10) == 0 && DecSoFar(num, padding, width, 10) == []
    ensures num % Power(10, 10) == num && Power(10, 1) == 10 && Power(10, 0) == 1
  {
    PowersOfTen();
    UpToTenDigits(num);
    DigitsBegun(num, 10, 10);
    assert Power(10, 1) == 10 * Power(10, 0);
  }

  // ----- Hexadecimal -----

  /** What `_printf_hex_uint` prints; padding after the number goes to twice the width. */
  function PrintedHex(num: uint64, padding: Pad, minWidth: int): seq<int> {
    var digits := Numeral(num, 16);
    if padding == PadSpaceAfter then digits + Repeat(SPACE, minWidth * 2 - |digits|)
    else Repeat(DecPadCode(padding), HexPadding(num, padding, minWidth)) + digits
  }

  function HexPadding(num: uint64, padding: Pad, minWidth: int): int {
    if padding in {PadZeroBefore, PadSpaceBefore} then Min(minWidth, 16) - |Numeral(num, 16)| else 0
  }

  lemma PrintedHexReadsBack(num: uint64, padding: Pad, minWidth: int)
    ensures var printed, digits := PrintedHex(num, padding, minWidth), Numeral(num, 16);
      && 1 <= |digits| <= 16
      && |printed| == Max(|digits|, if padding == PadSpaceAfter then minWidth * 2
                                    else if padding == PadNone then 0 else Min(minWidth, 16))
      && (padding == PadSpaceAfter ==> forall i | |digits| <= i < |printed| :: printed[i] == SPACE)
      && (padding != PadSpaceAfter ==>
            forall i | 0 <= i < |printed| - |digits| :: printed[i] == if padding == PadZeroBefore then ZERO else SPACE)
      && (padding == PadSpaceAfter ==> Value(printed[..|digits|], 16) == num)
      && (padding != PadSpaceAfter ==> Value(printed[|printed| - |digits|..], 16) == num)
      && (padding == PadZeroBefore ==> Value(printed, 16) == num)
  {
    hide Numeral, Value, Power;
    var printed, digits := PrintedHex(num, padding, minWidth), Numeral(num, 16);
    NumeralReadsBack(num, 16);
    UpToSixteenDigits(num);
    if padding == PadSpaceAfter {
      assert printed[..|digits|] == digits;
    } else {
      assert printed[|printed| - |digits|..] == digits;
    }
    if padding == PadZeroBefore {
      LeadingZeros(Max(0, Min(minWidth, 16) - |digits|), digits, 16);
    }
  }

  /** A printed number shows that number; without a width or a place for padding it is not padded at all,
      and padding behind it goes to twice the width. */
  lemma HexShows(num: uint64, padding: Pad, minWidth: int)
    ensures ShowsNumber(PrintedHex(num, padding, minWidth), num, 16, padding,
                        if padding == PadSpaceAfter then minWidth * 2 else if padding == PadNone then 0 else Min(minWidth, 16))
  {
    hide Numeral;
    var printed, digits := PrintedHex(num, padding, minWidth), Numeral(num, 16);
    UpToSixteenDigits(num);
    if padding == PadSpaceAfter {
      ShowsPadded(printed, [], digits, printed[|digits|..], num, 16, padding, minWidth * 2);
    } else {
      ShowsPadded(printed, printed[..|printed| - |digits|], digits, [], num, 16, padding,
                  if padding == PadNone then 0 else Min(minWidth, 16));
    }
  }

  lemma UpToSixteenDigits(num: uint64)
    ensures |Numeral(num, 16)| <= 16
  {
    assert Power(16, 4) == 65536;
    assert Power(16, 8) == TWO_TO_THE_32;
    assert Power(16, 12) == 65536 * TWO_TO_THE_32;
    assert Power(16, 16) == TWO_TO_THE_64;
    NumeralLength(num, 16, 16);
  }

  /** What has been printed, of a hexadecimal number, when everything down to position `j` is done. */
  function HexSoFar(num: uint64, padding: Pad, width: int, j: nat): seq<int> {
    var before := if padding in {PadZeroBefore, PadSpaceBefore} then Min(width, 16) - Max(j, |Numeral(num, 16)|) else 0;
    Repeat(DecPadCode(padding), before) + DigitsAbove(num, 16, j)
  }

  /** The four bits that end `shift` bits above the lowest. */
  function Nibble(num: uint64, shift: nat): (nibble: nat)
    ensures nibble < 16
  {
    Above(num, 16, shift / 4) % 16
  }

  lemma HexStep(num: uint64, padding: Pad, width: int, j: nat)
    requires 1 <= j <= 15
    ensures HexSoFar(num, padding, width, j) == HexSoFar(num, padding, width, j + 1)
      + (if Above(num, 16, j) > 0 then [DigitCode(Above(num, 16, j) % 16)]
         else if padding in {PadZeroBefore, PadSpaceBefore} && j + 1 <= width then [DecPadCode(padding)] else [])
    ensures Above(num, 16, j) > 0 <==> Above(num, 16, j) % 16 > 0 || Above(num, 16, j + 1) > 0
  {
    NextDigit(num, 16, j);
    hide Above;
    DigitsBegun(num, 16, j);
    DigitsBegun(num, 16, j + 1);
    var q := Above(num, 16, j);
    assert q == 16 * (q / 16) + q % 16;
    if q == 0 && padding in {PadZeroBefore, PadSpaceBefore} && j + 1 <= width {
      RepeatOneMore(DecPadCode(padding), Min(width, 16) - (j + 1));
    }
  }

  lemma HexLast(num: uint64, padding: Pad, width: int)
    ensures HexSoFar(num, padding, width, 1) + [DigitCode(Above(num, 16, 0) % 16)]
         == (if padding == PadSpaceAfter then Numeral(num, 16) else PrintedHex(num, padding, width))
  {
    hide Above, Power, Numeral;
    LowestDigit(num, 16);
    if padding != PadSpaceAfter && padding != PadNone {
      assert Min(width, 16) - Max(1, |Numeral(num, 16)|) == HexPadding(num, padding, width);
    }
  }

  lemma HexStart(num: uint64, padding: Pad, width: int)
    ensures HexSoFar(num, padding, width, 16) == [] && Above(num, 16, 16) == 0
  {
    UpToSixteenDigits(num);
    DigitsBegun(num, 16, 16);
  }

  /** `_printf_hex_uint` */
  method PrintHexUint(num: uint64, padding: Pad, minWidth: int) returns (out: seq<int>)
    ensures out == PrintedHex(num, padding, minWidth)
  {
    hide Above, HexSoFar, Power, Numeral;
    var shift := 64;
    var foundLargestDigit := false;
    var remaining, digits := 16, 0;
    out := [];
    HexStart(num, padding, minWidth);
    HexLast(num, padding, minWidth);
    while shift >= 4
      invariant 0 <= shift <= 64 && shift % 4 == 0
      invariant shift > 0 ==> foundLargestDigit == (Above(num, 16, shift / 4) > 0)
      invariant shift > 0 && !foundLargestDigit ==> remaining == shift / 4
      invariant shift > 0 ==> out == HexSoFar(num, padding, minWidth, shift / 4)
      invariant shift == 0 ==> out == HexSoFar(num, padding, minWidth, 1) + [DigitCode(Above(num, 16, 0) % 16)]
      invariant padding == PadSpaceAfter ==> digits == |out|
    {
      shift := shift - 4;
      var nibble := Nibble(num, shift);
      if shift > 0 {
        HexStep(num, padding, minWidth, shift / 4);
      }
      if nibble != 0 || foundLargestDigit || shift == 0 {
        foundLargestDigit := true;
        out := out + [DigitCode(nibble)];
        digits := digits + 1;
      } else {
        if remaining <= minWidth {
          if padding == PadZeroBefore {
            out := out + [ZERO];
          } else if padding == PadSpaceBefore {
            out := out + [SPACE];
          }
        }
        remaining := remaining - 1;
      }
    }
    if padding == PadSpaceAfter {
      var spaces := SpacesAfter(minWidth * 2 - digits);
      out := out + spaces;
    }
  }
}
