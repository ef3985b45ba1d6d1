/** wasm/libtee_builtin_wrapper.c, lines 64-91 and 687-892: the format interpreter. The loop reads the
    format one character at a time; its meaning is given here one directive at a time. */
module Format {
  import opened Bytes
  import opened Numerals

  /** What the guest hands over besides the format: the memory from the argument pointer to the end of
      the native range, the address it starts at, the strings of the guest (absent at an address that
      holds no valid one), and the text `snprintf` makes of a double. */
  datatype Guest = Guest(base: nat, args: seq<byte>, textAt: uint32 -> Option<seq<int>>, doubleText: seq<byte> -> seq<int>)

  datatype Option<T> = None | Some(value: T)

  datatype Flags = Flags(padding: Pad, minWidth: int, longs: nat)

  datatype Piece = Text(c: char) | Directive(flags: Flags, conversion: char)

  datatype Status = Fine | BadString | OutOfRange

  /** Text printed, position of the next argument, and how it went. */
  datatype Outcome = Outcome(text: seq<int>, next: nat, status: Status)

  const INT32_MAX := TWO_TO_THE_31 - 1
  const INT32_MIN := -TWO_TO_THE_31
  const PERCENT := 37
  const MINUS := 45

  function Codes(s: string): (codes: seq<int>)
    ensures |codes| == |s|
  {
    seq(|s|, i requires 0 <= i < |s| => s[i] as int)
  }

  // ----- Arguments -----

  function Unsigned(v: seq<byte>): nat {
    if v == [] then 0 else v[0] as int + 256 * Unsigned(v[1..])
  }

  function Signed(v: seq<byte>): int {
    var n := Unsigned(v);
    if 2 * n < Power(256, |v|) then n else n - Power(256, |v|)
  }

  lemma {:induction false} UnsignedBound(v: seq<byte>)
    ensures Unsigned(v) < Power(256, |v|)
  {
    if v != [] {
      UnsignedBound(v[1..]);
      assert 256 * (Unsigned(v[1..]) + 1) <= 256 * Power(256, |v| - 1);
    }
  }

  lemma ArgumentRange(v: seq<byte>)
    requires |v| in {4, 8}
    ensures |v| == 4 ==> Unsigned(v) < TWO_TO_THE_32 && INT32_MIN <= Signed(v) <= INT32_MAX
    ensures |v| == 8 ==> Unsigned(v) < TWO_TO_THE_64
  {
    UnsignedBound(v);
    assert Power(256, 4) == TWO_TO_THE_32;
    assert Power(256, 8) == TWO_TO_THE_64;
  }

  /** Bytes of argument a conversion takes. */
  function SlotSize(d: Piece): (size: nat)
    ensures size in {0, 4, 8}
  {
    if d.Text? then 0
    else if d.conversion in {'d', 'i', 'u', 'x', 'X', 'p'} then (if d.flags.longs < 2 then 4 else 8)
    else if d.conversion in {'s', 'c'} then 4
    else if d.conversion == 'f' then 8
    else 0
  }

  /** Where they start, the next argument being at `p`: a double is aligned to eight bytes. */
  function SlotStart(base: nat, d: Piece, p: nat): (start: nat)
    ensures p <= start < p + 8
  {
    if d.Directive? && d.conversion == 'f' then (base + p + 7) / 8 * 8 - base else p
  }

  function SlotEnd(base: nat, d: Piece, p: nat): (end: nat)
    ensures p <= end
  {
    SlotStart(base, d, p) + SlotSize(d)
  }

  // ----- What is printed -----

  function PrintedSigned(n: int, padding: Pad, minWidth: int): seq<int>
    requires INT32_MIN <= n <= INT32_MAX
  {
    if n < 0 then [MINUS] + PrintedDec(-n, padding, minWidth - 1) else PrintedDec(n, padding, minWidth)
  }

  /** What a directive prints of its argument bytes `v`; absent when they are no string's address. */
  function Rendered(g: Guest, d: Piece, v: seq<byte>): Option<seq<int>>
    requires |v| == SlotSize(d)
  {
    if d.Text? then Some([d.c as int]) else
      var Directive(flags, conversion) := d;
      if |v| > 0 then
        ArgumentRange(v);
        match conversion
        case 'd' | 'i' =>
          if INT32_MIN <= Signed(v) <= INT32_MAX then Some(PrintedSigned(Signed(v), flags.padding, flags.minWidth))
          else Some(Codes("ERR"))
        case 'u' =>
          if |v| == 4 || Unsigned(v) <= INT32_MAX then Some(PrintedDec(Unsigned(v), flags.padding, flags.minWidth))
          else Some(Codes("ERR"))
        case 'p' => Some(Codes("0x") + PrintedHex(Unsigned(v), PadZeroBefore, 8))
        case 'x' | 'X' => Some(PrintedHex(Unsigned(v), flags.padding, flags.minWidth))
        case 's' =>
          (match g.textAt(Unsigned(v))
           case None => None
           case Some(text) =>
             Some(text + if flags.padding == PadSpaceAfter then Repeat(SPACE, flags.minWidth - |text|) else []))
        case 'c' => Some([Signed(v)])
        case _ => Some(g.doubleText(v))
      else if conversion == '%' then Some([PERCENT])
      else Some([PERCENT, conversion as int])
  }

  /** What one piece of the format does. */
  function Shown(g: Guest, d: Piece, p: nat): Outcome {
    var start, end := SlotStart(g.base, d, p), SlotEnd(g.base, d, p);
    if start < end && end > |g.args| then
      Outcome(if d.conversion == 'p' then Codes("0x") else [], p, OutOfRange)
    else
      var v := if start < end then g.args[start..end] else [];
      match Rendered(g, d, v)
      case None => Outcome([], end, BadString)
      case Some(text) => Outcome(text, end, Fine)
  }

  function Meaning(g: Guest, pieces: seq<Piece>, p: nat): Outcome {
    if pieces == [] then Outcome([], p, Fine) else
      var first := Shown(g, pieces[0], p);
      if first.status != Fine then first else
        After(first.text, Meaning(g, pieces[1..], first.next))
  }

  function After(before: seq<int>, outcome: Outcome): Outcome {
    outcome.(text := before + outcome.text)
  }

  // ----- Reading the format -----

  predicate IsDigit(c: char) {
    '0' <= c <= '9'
  }

  predicate IsModifier(c: char) {
    IsDigit(c) || c in {'-', 'l', 'z', 'h'}
  }

  /** Number of modifiers a format starts with. */
  function ModifierRun(fmt: string): (n: nat)
    ensures n <= |fmt|
  {
    if fmt != "" && IsModifier(fmt[0]) then 1 + ModifierRun(fmt[1..]) else 0
  }

  function Digits(modifiers: string): (digits: string)
  {
    if modifiers == "" then ""
    else
      var last := modifiers[|modifiers| - 1];
      Digits(modifiers[..|modifiers| - 1]) + if IsDigit(last) then [last] else ""
  }

  function Longs(modifiers: string): nat {
    if modifiers == "" then 0
    else Longs(modifiers[..|modifiers| - 1]) + if modifiers[|modifiers| - 1] == 'l' then 1 else 0
  }

  /** A zero before any other digit and any minus asks for padding with zeros. */
  predicate ZeroFlag(modifiers: string) {
    exists k | 0 <= k < |modifiers| :: modifiers[k] == '0' && Digits(modifiers[..k]) == "" && '-' !in modifiers[..k]
  }

  function WidthDigits(modifiers: string): string {
    var digits := Digits(modifiers);
    if ZeroFlag(modifiers) && digits != "" then digits[1..] else digits
  }

  function WidthOf(modifiers: string): int {
    if WidthDigits(modifiers) == "" then -1 else Value(Codes(WidthDigits(modifiers)), 10)
  }

  /** What the modifiers between a percent sign and its conversion ask for. */
  function FlagsOf(modifiers: string): Flags {
    Flags(
      if '-' in modifiers then PadSpaceAfter
      else if ZeroFlag(modifiers) then PadZeroBefore
      else if Digits(modifiers) != "" then PadSpaceBefore
      else PadNone,
      WidthOf(modifiers),
      Longs(modifiers))
  }

  /** The format, piece by piece; modifiers with no conversion after them mean nothing. */
  function Pieces(fmt: string): seq<Piece> {
    if fmt == "" then []
    else if fmt[0] != '%' then [Text(fmt[0])] + Pieces(fmt[1..])
    else
      var n := ModifierRun(fmt[1..]);
      if n + 1 == |fmt| then []
      else [Directive(FlagsOf(fmt[1..n + 1]), fmt[n + 1])] + Pieces(fmt[n + 2..])
  }

  // ----- One more modifier -----

  lemma NonNegativeValue(digits: string)
    requires forall i | 0 <= i < |digits| :: IsDigit(digits[i])
    ensures Value(Codes(digits), 10) >= 0
  {
    if digits != "" {
      NonNegativeValue(digits[..|digits| - 1]);
      assert Codes(digits)[..|digits| - 1] == Codes(digits[..|digits| - 1]);
    }
  }

  lemma {:induction false} OnlyDigits(modifiers: string)
    ensures forall i | 0 <= i < |Digits(modifiers)| :: IsDigit(Digits(modifiers)[i])
    ensures ZeroFlag(modifiers) ==> Digits(modifiers) != ""
  {
    if modifiers != "" {
      var front := modifiers[..|modifiers| - 1];
      OnlyDigits(front);
      if ZeroFlag(modifiers) && !IsDigit(modifiers[|front|]) {
        var k :| 0 <= k < |modifiers| && modifiers[k] == '0' && Digits(modifiers[..k]) == "" && '-' !in modifiers[..k];
        assert modifiers[..k] == front[..k] && front[k] == '0';
        assert ZeroFlag(front);
      }
    }
  }

  lemma ZeroFlagStep(modifiers: string, c: char)
    ensures ZeroFlag(modifiers + [c]) <==>
      ZeroFlag(modifiers) || (c == '0' && Digits(modifiers) == "" && '-' !in modifiers)
  {
    var more := modifiers + [c];
    forall k | 0 <= k <= |modifiers|
      ensures more[..k] == modifiers[..k]
    {
    }
    assert more[..|modifiers|] == modifiers == modifiers[..|modifiers|];
    if ZeroFlag(modifiers) {
      var k :| 0 <= k < |modifiers| && modifiers[k] == '0' && Digits(modifiers[..k]) == "" && '-' !in modifiers[..k];
      assert more[k] == '0' && more[..k] == modifiers[..k];
    }
    if c == '0' && Digits(modifiers) == "" && '-' !in modifiers {
      assert more[|modifiers|] == '0';
    }
  }

  /** What a modifier does to the flags is what the interpreter does on meeting it. */
  lemma OneModifier(modifiers: string, c: char)
    requires IsModifier(c)
    ensures var was, now := FlagsOf(modifiers), FlagsOf(modifiers + [c]);
      now == if c == '-' then was.(padding := PadSpaceAfter)
             else if c == '0' && was.minWidth < 0 && was.padding == PadNone then was.(padding := PadZeroBefore)
             else if IsDigit(c) then
               Flags(if was.padding == PadNone then PadSpaceBefore else was.padding,
                     (if was.minWidth < 0 then 0 else 10 * was.minWidth) + (c as int - '0' as int),
                     was.longs)
             else if c == 'l' then was.(longs := was.longs + 1)
             else was
  {
    hide Value, ZeroFlag, Digits, WidthDigits, Longs;
    WidthStep(modifiers, c);
    ZeroFlagStep(modifiers, c);
    OnlyDigits(modifiers);
    LongsStep(modifiers, c);
    DigitsStep(modifiers, c);
  }

  lemma DigitsStep(modifiers: string, c: char)
    ensures Digits(modifiers + [c]) == Digits(modifiers) + if IsDigit(c) then [c] else ""
  {
    var more := modifiers + [c];
    assert more[..|modifiers|] == modifiers;
  }

  lemma LongsStep(modifiers: string, c: char)
    ensures Longs(modifiers + [c]) == Longs(modifiers) + if c == 'l' then 1 else 0
  {
    var more := modifiers + [c];
    assert more[..|modifiers|] == modifiers;
  }

  lemma WidthStep(modifiers: string, c: char)
    ensures WidthOf(modifiers) >= -1 && (Digits(modifiers) == "" ==> WidthDigits(modifiers) == "")
    ensures WidthOf(modifiers) < 0 <==> WidthDigits(modifiers) == ""
    ensures WidthOf(modifiers + [c])
         == if !IsDigit(c) || (c == '0' && Digits(modifiers) == "" && '-' !in modifiers) then WidthOf(modifiers)
            else (if WidthOf(modifiers) < 0 then 0 else 10 * WidthOf(modifiers)) + (c as int - '0' as int)
  {
    var more := modifiers + [c];
    DigitsStep(modifiers, c);
    ZeroFlagStep(modifiers, c);
    OnlyDigits(modifiers);
    OnlyDigits(more);
    hide ZeroFlag, Digits, Value;
    var before, after := WidthDigits(modifiers), WidthDigits(more);
    NonNegativeValue(before);
    if !IsDigit(c) || (c == '0' && Digits(modifiers) == "" && '-' !in modifiers) {
      assert after == before;
    } else {
      assert after == before + [c];
      ValueStep(before, c);
    }
  }

  lemma ValueStep(digits: string, c: char)
    requires IsDigit(c)
    ensures Value(Codes(digits + [c]), 10) == 10 * Value(Codes(digits), 10) + (c as int - '0' as int)
    ensures digits == "" ==> Value(Codes(digits), 10) == 0
  {
    var more := Codes(digits + [c]);
    assert more == Codes(digits) + [c as int];
    assert more[..|more| - 1] == Codes(digits);
  }

  lemma {:induction false} RunEnds(fmt: string, n: nat)
    requires n <= |fmt| && forall i | 0 <= i < n :: IsModifier(fmt[i])
    requires n < |fmt| ==> !IsModifier(fmt[n])
    ensures ModifierRun(fmt) == n
  {
    if n > 0 {
      RunEnds(fmt[1..], n - 1);
    }
  }

  // ----- The interpreter -----

  /** `CHECK_VA_ARG` and `_va_arg`: the next argument of `size` bytes, if it lies in the native range. */
  method VaArg(g: Guest, ap: nat, size: nat) returns (next: nat, v: seq<byte>, fits: bool)
    requires size in {4, 8}
    ensures fits == (ap + size <= |g.args|)
    ensures fits ==> next == ap + size && v == g.args[ap..next] && |v| == size
    ensures fits && size == 4 ==> Unsigned(v) < TWO_TO_THE_32 && INT32_MIN <= Signed(v) <= INT32_MAX
    ensures fits && size == 8 ==> Unsigned(v) < TWO_TO_THE_64
    ensures !fits ==> next == ap
  {
    next, v, fits := ap, [], ap + size <= |g.args|;
    if fits {
      next := ap + size;
      v := g.args[ap..next];
      ArgumentRange(v);
    }
  }

  /** One conversion: the part of the switch in `_vprintf_wa` that prints. */
  method Convert(g: Guest, conversion: char, flags: Flags, ap: nat) returns (text: seq<int>, next: nat, status: Status)
    requires ap <= |g.args| && !IsModifier(conversion)
    ensures Outcome(text, next, status) == Shown(g, Directive(flags, conversion), ap)
    ensures next <= |g.args|
  {
    hide PrintedDec, PrintedHex, Unsigned, Signed, Repeat;
    var padding, minWidth, longs := flags.padding, flags.minWidth, flags.longs;
    var v: seq<byte>, fits: bool;
    text, next, status := [], ap, Fine;
    match conversion {
      case 'd' | 'i' =>
        next, v, fits := VaArg(g, ap, if longs < 2 then 4 else 8);
        if !fits {
          return [], next, OutOfRange;
        }
        var d := Signed(v);
        if longs >= 2 && (d > INT32_MAX || d < INT32_MIN) {
          text := Codes("ERR");
          return;
        }
        if d < 0 {
          text := [MINUS];
          d := -d;
          minWidth := minWidth - 1;
        }
        var number := PrintDecUint(d, padding, minWidth);
        text := text + number;
      case 'u' =>
        next, v, fits := VaArg(g, ap, if longs < 2 then 4 else 8);
        if !fits {
          return [], next, OutOfRange;
        }
        if longs >= 2 && Unsigned(v) > INT32_MAX {
          text := Codes("ERR");
          return;
        }
        text := PrintDecUint(Unsigned(v), padding, minWidth);
      case 'p' | 'x' | 'X' =>
        if conversion == 'p' {
          text := Codes("0x");
          padding := PadZeroBefore;
          minWidth := 8;
        }
        next, v, fits := VaArg(g, ap, if longs < 2 then 4 else 8);
        if !fits {
          return text, next, OutOfRange;
        }
        var number := PrintHexUint(Unsigned(v), padding, minWidth);
        text := text + number;
      case 's' =>
        next, v, fits := VaArg(g, ap, 4);
        if !fits {
          return [], next, OutOfRange;
        }
        match g.textAt(Unsigned(v)) {
          case None =>
            status := BadString;
          case Some(s) =>
            text := s;
            if padding == PadSpaceAfter {
              var spaces := SpacesAfter(minWidth - |s|);
              text := text + spaces;
            }
        }
      case 'c' =>
        next, v, fits := VaArg(g, ap, 4);
        if !fits {
          return [], next, OutOfRange;
        }
        text := [Signed(v)];
      case '%' =>
        text := [PERCENT];
      case 'f' =>
        next, v, fits := VaArg(g, (g.base + ap + 7) / 8 * 8 - g.base, 8);
        if !fits {
          return [], ap, OutOfRange;
        }
        text := g.doubleText(v);
      case _ =>
        text := [PERCENT, conversion as int];
    }
  }

  /** With `k` characters of the format done and `out` printed, what is left to print is the meaning of
      the rest of the format, whose first argument is at `ap`. */
  ghost predicate Printed(g: Guest, fmt: string, k: int, ap: nat, out: seq<int>) {
    0 <= k <= |fmt| && Meaning(g, Pieces(fmt), 0) == After(out, Meaning(g, Pieces(fmt[k..]), ap))
  }

  /** Between the percent sign at `k` and character `i` there are only modifiers, and this is what they
      ask for. */
  ghost predicate Collected(fmt: string, k: int, i: int, flags: Flags) {
    && 0 <= k < i <= |fmt| && fmt[k] == '%' && flags == FlagsOf(fmt[k + 1..i])
    && forall n | k < n < i :: IsModifier(fmt[n])
  }

  /** The part of the switch in `_vprintf_wa` that goes on to `still_might_format`. */
  method ReadModifier(c: char, padding0: Pad, minWidth0: int, longs0: nat, ghost fmt: string, ghost k: nat, ghost i: nat)
    returns (padding: Pad, minWidth: int, longs: nat)
    requires i < |fmt| && c == fmt[i] && IsModifier(c)
    requires Collected(fmt, k, i, Flags(padding0, minWidth0, longs0))
    ensures Collected(fmt, k, i + 1, Flags(padding, minWidth, longs))
  {
    hide FlagsOf;
    OneModifier(fmt[k + 1..i], c);
    assert fmt[k + 1..i + 1] == fmt[k + 1..i] + [c];
    padding, minWidth, longs := padding0, minWidth0, longs0;
    if c == '-' {
      padding := PadSpaceAfter;
    } else if c == '0' && minWidth < 0 && padding == PadNone {
      padding := PadZeroBefore;
    } else if IsDigit(c) {
      if minWidth < 0 {
        minWidth := c as int - '0' as int;
      } else {
        minWidth := 10 * minWidth + c as int - '0' as int;
      }
      if padding == PadNone {
        padding := PadSpaceBefore;
      }
    } else if c == 'l' {
      longs := longs + 1;
    }
  }

  /** `_vprintf_wa`; `inRange` is whether the argument pointer lies in the guest's native memory. */
  method Vprintf(g: Guest, fmt: string, inRange: bool) returns (out: seq<int>, ok: bool)
    ensures !inRange ==> out == [] && !ok
    ensures inRange ==> out == Meaning(g, Pieces(fmt), 0).text && ok == (Meaning(g, Pieces(fmt), 0).status == Fine)
  {
    hide Meaning, Pieces, Shown, Printed, Collected, IsModifier, SlotEnd;
    var mightFormat := false;
    var padding, minWidth, longs := PadNone, -1, 0;
    var ap: nat := 0;
    out := [];
    if !inRange {
      return [], false;
    }
    Start(g, fmt);
    var i := 0;
    ghost var k := 0;
    while i < |fmt|
      invariant i <= |fmt| && ap <= |g.args|
      invariant Printed(g, fmt, k, ap, out)
      invariant if mightFormat then Collected(fmt, k, i, Flags(padding, minWidth, longs)) else k == i
    {
      if !mightFormat {
        if fmt[i] != '%' {
          PlainStep(g, fmt, i, ap, out);
          out := out + [fmt[i] as int];
          k := i + 1;
        } else {
          mightFormat := true;
          minWidth := -1;
          padding := PadNone;
          longs := 0;
          NoModifiers(fmt, i);
        }
      } else if IsModifier(fmt[i]) {
        padding, minWidth, longs := ReadModifier(fmt[i], padding, minWidth, longs, fmt, k, i);
      } else {
        DirectiveStep(g, fmt, k, i, ap, out, Flags(padding, minWidth, longs));
        var text, next, status := Convert(g, fmt[i], Flags(padding, minWidth, longs), ap);
        out := out + text;
        if status != Fine {
          return out, false;
        }
        ap := next;
        mightFormat := false;
        k := i + 1;
      }
      i := i + 1;
    }
    End(g, fmt, k, ap, out, Flags(padding, minWidth, longs));
    ok := true;
  }

  lemma Start(g: Guest, fmt: string)
    ensures Printed(g, fmt, 0, 0, [])
  {
    assert fmt[0..] == fmt;
    var all := Meaning(g, Pieces(fmt), 0);
    assert [] + all.text == all.text;
  }

  lemma NoModifiers(fmt: string, k: nat)
    requires k < |fmt| && fmt[k] == '%'
    ensures Collected(fmt, k, k + 1, Flags(PadNone, -1, 0))
  {
    assert fmt[k + 1..k + 1] == "";
  }

  lemma End(g: Guest, fmt: string, k: int, p: nat, out: seq<int>, flags: Flags)
    requires Printed(g, fmt, k, p, out) && (k == |fmt| || Collected(fmt, k, |fmt|, flags))
    ensures Meaning(g, Pieces(fmt), 0).text == out && Meaning(g, Pieces(fmt), 0).status == Fine
  {
    if k < |fmt| {
      RunEnds(fmt[k + 1..], |fmt| - k - 1);
      assert fmt[k..][1..] == fmt[k + 1..];
    }
  }

  lemma PlainStep(g: Guest, fmt: string, k: nat, p: nat, out: seq<int>)
    requires k < |fmt| && fmt[k] != '%' && Printed(g, fmt, k, p, out)
    ensures Printed(g, fmt, k + 1, p, out + [fmt[k] as int])
  {
    var rest := fmt[k..];
    assert rest[1..] == fmt[k + 1..];
    assert Pieces(rest) == [Text(fmt[k])] + Pieces(fmt[k + 1..]);
    MeaningStep(g, Text(fmt[k]), Pieces(fmt[k + 1..]), p, out);
  }

  lemma DirectiveStep(g: Guest, fmt: string, k: int, i: nat, p: nat, out: seq<int>, flags: Flags)
    requires i < |fmt| && !IsModifier(fmt[i])
    requires Collected(fmt, k, i, flags) && Printed(g, fmt, k, p, out)
    ensures var first := Shown(g, Directive(flags, fmt[i]), p);
      if first.status == Fine then Printed(g, fmt, i + 1, first.next, out + first.text)
      else Meaning(g, Pieces(fmt), 0) == After(out, first)
  {
    hide FlagsOf, IsModifier, Shown, Meaning;
    var rest, n := fmt[k..], i - k - 1;
    RunEnds(rest[1..], n);
    assert rest[1..n + 1] == fmt[k + 1..i];
    assert rest[n + 2..] == fmt[i + 1..];
    MeaningStep(g, Directive(flags, fmt[i]), Pieces(fmt[i + 1..]), p, out);
  }

  lemma MeaningStep(g: Guest, piece: Piece, pieces: seq<Piece>, p: nat, out: seq<int>)
    ensures var first := Shown(g, piece, p);
      After(out, Meaning(g, [piece] + pieces, p))
      == if first.status == Fine then After(out + first.text, Meaning(g, pieces, first.next)) else After(out, first)
  {
    var all := [piece] + pieces;
    assert all[0] == piece && all[1..] == pieces;
    var first := Shown(g, piece, p);
    if first.status == Fine {
      var rest := Meaning(g, pieces, first.next);
      assert out + (first.text + rest.text) == (out + first.text) + rest.text;
    }
  }

  // ----- What the format alone decides -----

  /** Position after the arguments of all the pieces. */
  function ArgumentsEnd(base: nat, pieces: seq<Piece>, p: nat): (end: nat)
    ensures p <= end
  {
    if pieces == [] then p else ArgumentsEnd(base, pieces[1..], SlotEnd(base, pieces[0], p))
  }

  /** Every string argument that lies in the native range is the address of a string. */
  predicate StringsValid(g: Guest, pieces: seq<Piece>, p: nat) {
    pieces == [] ||
      (&& (pieces[0].Directive? && pieces[0].conversion == 's' && p + 4 <= |g.args| ==>
             g.textAt(StringAddress(g, p)).Some?)
       && StringsValid(g, pieces[1..], SlotEnd(g.base, pieces[0], p)))
  }

  function StringAddress(g: Guest, p: nat): uint32
    requires p + 4 <= |g.args|
  {
    ArgumentRange(g.args[p..p + 4]);
    Unsigned(g.args[p..p + 4])
  }

  lemma ShownFine(g: Guest, d: Piece, p: nat)
    requires p <= |g.args|
    ensures var first, end := Shown(g, d, p), SlotEnd(g.base, d, p);
      && (first.status == OutOfRange <==> end > |g.args|)
      && (first.status == BadString <==>
            && end <= |g.args| && d.Directive? && d.conversion == 's'
            && g.textAt(StringAddress(g, p)).None?)
      && (first.status != OutOfRange ==> first.next == end)
  {
  }

  /** Everything is printed exactly when the last argument ends inside the native range and the strings
      are strings; the position reached is then the one the format alone decides. */
  lemma {:induction false} FineExactly(g: Guest, pieces: seq<Piece>, p: nat)
    requires p <= |g.args|
    ensures var m := Meaning(g, pieces, p);
      && (m.status == Fine <==> ArgumentsEnd(g.base, pieces, p) <= |g.args| && StringsValid(g, pieces, p))
      && (m.status == Fine ==> m.next == ArgumentsEnd(g.base, pieces, p))
  {
    if pieces != [] {
      ShownFine(g, pieces[0], p);
      var first := Shown(g, pieces[0], p);
      hide Shown, SlotEnd;
      if first.status == Fine {
        FineExactly(g, pieces[1..], first.next);
      }
    }
  }

  /** The meaning of two formats one after the other. */
  lemma {:induction false} MeaningConcat(g: Guest, a: seq<Piece>, b: seq<Piece>, p: nat)
    ensures var m := Meaning(g, a, p);
      Meaning(g, a + b, p) == if m.status == Fine then After(m.text, Meaning(g, b, m.next)) else m
  {
    hide Shown;
    if a == [] {
      assert a + b == b;
      var rest := Meaning(g, b, p);
      assert [] + rest.text == rest.text;
    } else {
      var first := Shown(g, a[0], p);
      assert (a + b)[1..] == a[1..] + b;
      if first.status == Fine {
        MeaningConcat(g, a[1..], b, first.next);
        var m := Meaning(g, a[1..], first.next);
        var rest := Meaning(g, b, m.next);
        assert first.text + (m.text + rest.text) == (first.text + m.text) + rest.text;
      }
    }
  }

  /** The interpreter stops at the first argument that does not fit: what was printed before it, and for
      a pointer its prefix, is all that comes out. */
  lemma StopsAtFirstMissing(g: Guest, pieces: seq<Piece>, k: nat)
    requires k < |pieces| && Meaning(g, pieces[..k], 0).status == Fine
    requires ArgumentsEnd(g.base, pieces[..k + 1], 0) > |g.args|
    ensures Meaning(g, pieces, 0)
         == Outcome(Meaning(g, pieces[..k], 0).text + (if pieces[k].Directive? && pieces[k].conversion == 'p' then Codes("0x") else []),
                    ArgumentsEnd(g.base, pieces[..k], 0), OutOfRange)
  {
    var m := Meaning(g, pieces[..k], 0);
    FineExactly(g, pieces[..k], 0);
    assert pieces[..k + 1] == pieces[..k] + [pieces[k]];
    ArgumentsConcat(g.base, pieces[..k], [pieces[k]], 0);
    ShownFine(g, pieces[k], m.next);
    assert pieces == pieces[..k] + pieces[k..];
    MeaningConcat(g, pieces[..k], pieces[k..], 0);
  }

  lemma {:induction false} ArgumentsConcat(base: nat, a: seq<Piece>, b: seq<Piece>, p: nat)
    ensures ArgumentsEnd(base, a + b, p) == ArgumentsEnd(base, b, ArgumentsEnd(base, a, p))
  {
    if a == [] {
      assert a + b == b;
    } else {
      assert (a + b)[1..] == a[1..] + b;
      ArgumentsConcat(base, a[1..], b, SlotEnd(base, a[0], p));
    }
  }

  // ----- Text that comes out as it is -----

  /** Every percent sign doubled. */
  function Escaped(text: string): string {
    if text == "" then ""
    else (if text[0] == '%' then "%%" else [text[0]]) + Escaped(text[1..])
  }

  /** Any text, escaped, is printed as it is and takes no argument. */
  lemma {:induction false} EscapedIsPrinted(g: Guest, text: string, p: nat)
    ensures Meaning(g, Pieces(Escaped(text)), p) == Outcome(Codes(text), p, Fine)
  {
    hide FlagsOf, Pieces, Shown;
    if text == "" {
      NoPieces();
    } else {
      var rest := Escaped(text[1..]);
      EscapedIsPrinted(g, text[1..], p);
      assert Codes(text) == [text[0] as int] + Codes(text[1..]);
      hide Meaning;
      if text[0] == '%' {
        PercentIsPrinted(g, rest, p);
      } else {
        TextIsPrinted(g, text[0], rest, p);
      }
    }
  }

  lemma PercentIsPrinted(g: Guest, rest: string, p: nat)
    ensures Meaning(g, Pieces("%%" + rest), p) == After([PERCENT], Meaning(g, Pieces(rest), p))
  {
    PercentPiece(rest);
    hide FlagsOf, Pieces, Meaning;
    MeaningStep(g, Directive(FlagsOf(""), '%'), Pieces(rest), p, []);
    var all := Meaning(g, Pieces("%%" + rest), p);
    assert [] + all.text == all.text;
  }

  lemma TextIsPrinted(g: Guest, c: char, rest: string, p: nat)
    requires c != '%'
    ensures Meaning(g, Pieces([c] + rest), p) == After([c as int], Meaning(g, Pieces(rest), p))
  {
    TextPiece(c, rest);
    hide FlagsOf, Pieces, Meaning;
    MeaningStep(g, Text(c), Pieces(rest), p, []);
    var all := Meaning(g, Pieces([c] + rest), p);
    assert [] + all.text == all.text;
  }

  lemma NoPieces()
    ensures Pieces("") == []
  {
  }

  lemma TextPiece(c: char, rest: string)
    requires c != '%'
    ensures Pieces([c] + rest) == [Text(c)] + Pieces(rest)
  {
    assert ([c] + rest)[1..] == rest;
  }

  lemma PercentPiece(rest: string)
    ensures Pieces("%%" + rest) == [Directive(FlagsOf(""), '%')] + Pieces(rest)
  {
    hide FlagsOf;
    var fmt := "%%" + rest;
    assert fmt[1..] == "%" + rest && fmt[2..] == rest;
    assert fmt[1..1] == "";
  }

  // ----- Signed numbers -----

  /** A printed signed number, without its padding, reads back: a minus sign first if there is one, then
      the digits. The width counts the sign. */
  lemma SignedReadsBack(n: int, padding: Pad, minWidth: int)
    requires INT32_MIN <= n <= INT32_MAX
    ensures var printed := PrintedSigned(n, padding, minWidth);
      var magnitude, sign := if n < 0 then -n else n, if n < 0 then 1 else 0;
      var length, width := |Numeral(magnitude, 10)|, Max(minWidth - sign, 1);
      && (n < 0 ==> printed[0] == MINUS)
      && |printed| == sign + Max(length, if padding == PadSpaceAfter then width else Min(width, 10))
      && (padding == PadSpaceAfter ==> Value(printed[sign..sign + length], 10) == magnitude)
      && (padding == PadZeroBefore ==> Value(printed[sign..], 10) == magnitude)
      && (padding != PadSpaceAfter ==> Value(printed[|printed| - length..], 10) == magnitude)
  {
    hide PrintedDec, Value, Numeral;
    if n < 0 {
      var number, length := PrintedDec(-n, padding, minWidth - 1), |Numeral(-n, 10)|;
      PrintedDecReadsBack(-n, padding, minWidth - 1);
      BehindSign(number, length);
    } else {
      PrintedDecReadsBack(n, padding, minWidth);
      assert PrintedDec(n, padding, minWidth)[0..] == PrintedDec(n, padding, minWidth);
    }
  }

  lemma BehindSign(number: seq<int>, length: nat)
    requires length <= |number|
    ensures var printed := [MINUS] + number;
      && printed[1..] == number
      && printed[|printed| - length..] == number[|number| - length..]
      && printed[1..1 + length] == number[..length]
  {
  }

  // ----- What each conversion prints -----

  predicate AllModifiers(modifiers: string) {
    forall i | 0 <= i < |modifiers| :: IsModifier(modifiers[i])
  }

  /** A format that is one directive. */
  function Single(modifiers: string, conversion: char): string {
    "%" + modifiers + [conversion]
  }

  /** A directive does alone what it does in front of any other format. */
  lemma DirectiveFirst(g: Guest, modifiers: string, conversion: char, rest: string, p: nat)
    requires AllModifiers(modifiers) && !IsModifier(conversion)
    ensures var first := Meaning(g, Pieces(Single(modifiers, conversion)), p);
      Meaning(g, Pieces(Single(modifiers, conversion) + rest), p)
      == if first.status == Fine then After(first.text, Meaning(g, Pieces(rest), first.next)) else first
  {
    DirectivePiece(modifiers, conversion, rest);
    DirectivePiece(modifiers, conversion, "");
    NoPieces();
    hide Meaning, Pieces, FlagsOf;
    assert Single(modifiers, conversion) + "" == Single(modifiers, conversion);
    var d := Directive(FlagsOf(modifiers), conversion);
    assert [d] + [] == [d];
    MeaningConcat(g, [d], Pieces(rest), p);
  }

  lemma DirectivePiece(modifiers: string, conversion: char, rest: string)
    requires AllModifiers(modifiers) && !IsModifier(conversion)
    ensures Pieces(Single(modifiers, conversion) + rest) == [Directive(FlagsOf(modifiers), conversion)] + Pieces(rest)
  {
    var fmt, n := Single(modifiers, conversion) + rest, |modifiers|;
    RunEnds(fmt[1..], n);
    assert fmt[1..n + 1] == modifiers && fmt[n + 2..] == rest;
    hide FlagsOf;
  }

  lemma OneDirective(g: Guest, modifiers: string, conversion: char, p: nat)
    requires AllModifiers(modifiers) && !IsModifier(conversion)
    ensures Meaning(g, Pieces(Single(modifiers, conversion)), p) == Shown(g, Directive(FlagsOf(modifiers), conversion), p)
  {
    DirectivePiece(modifiers, conversion, "");
    NoPieces();
    assert Single(modifiers, conversion) + "" == Single(modifiers, conversion);
    hide Pieces, FlagsOf, Shown;
    var d := Directive(FlagsOf(modifiers), conversion);
    assert [d] + [] == [d] && [d][1..] == [];
    var first := Shown(g, d, p);
    assert first.text + [] == first.text;
  }

  /** The 64-bit argument at `p`, low word first. */
  function LongAt(bytes: seq<byte>, p: nat): uint64
    requires p + 8 <= |bytes|
  {
    WordAt(bytes, p) + TWO_TO_THE_32 * WordAt(bytes, p + 4)
  }

  /** The argument a number conversion takes at `p`: four bytes, or eight after `ll`. */
  function ArgumentAt(g: Guest, modifiers: string, p: nat): nat
    requires p + (if Longs(modifiers) < 2 then 4 else 8) <= |g.args|
  {
    if Longs(modifiers) < 2 then WordAt(g.args, p) else LongAt(g.args, p)
  }

  lemma ArgumentValue(args: seq<byte>, p: nat, size: nat)
    requires size in {4, 8} && p + size <= |args|
    ensures size == 4 ==> Unsigned(args[p..p + 4]) == WordAt(args, p)
    ensures size == 8 ==> Unsigned(args[p..p + 8]) == LongAt(args, p)
    ensures Power(256, 4) == TWO_TO_THE_32 && Power(256, 8) == TWO_TO_THE_64
  {
    var v := args[p..p + size];
    assert Power(256, 4) == TWO_TO_THE_32 && Power(256, 8) == TWO_TO_THE_64;
    UnsignedWord(v);
    if size == 8 {
      UnsignedWord(v[4..]);
    }
  }

  lemma UnsignedWord(v: seq<byte>)
    requires |v| >= 4
    ensures Unsigned(v) == WordAt(v, 0) + TWO_TO_THE_32 * Unsigned(v[4..])
  {
    assert v[1..][1..] == v[2..] && v[2..][1..] == v[3..] && v[3..][1..] == v[4..];
    assert Unsigned(v) == v[0] as int + 256 * Unsigned(v[1..]);
    assert Unsigned(v[1..]) == v[1] as int + 256 * Unsigned(v[2..]);
    assert Unsigned(v[2..]) == v[2] as int + 256 * Unsigned(v[3..]);
    assert Unsigned(v[3..]) == v[3] as int + 256 * Unsigned(v[4..]);
  }

  /** A number conversion takes those bytes. */
  lemma NumberTaken(g: Guest, modifiers: string, conversion: char, p: nat)
    requires AllModifiers(modifiers) && conversion in {'d', 'i', 'u', 'x', 'X', 'p'}
    requires p + (if Longs(modifiers) < 2 then 4 else 8) <= |g.args|
    ensures var d, size := Directive(FlagsOf(modifiers), conversion), if Longs(modifiers) < 2 then 4 else 8;
      var v := g.args[p..p + size];
      && size == SlotSize(d) && Unsigned(v) == ArgumentAt(g, modifiers, p) && Rendered(g, d, v).Some?
      && Meaning(g, Pieces(Single(modifiers, conversion)), p) == Outcome(Rendered(g, d, v).value, p + size, Fine)
  {
    hide Meaning, Pieces, Unsigned, Rendered, Shown, SlotSize, FlagsOf, Longs, Power, WordAt, LongAt;
    OneDirective(g, modifiers, conversion, p);
    LongsOf(modifiers);
    ArgumentValue(g.args, p, if Longs(modifiers) < 2 then 4 else 8);
    NumberShown(g, FlagsOf(modifiers), conversion, p);
  }

  lemma NumberShown(g: Guest, flags: Flags, conversion: char, p: nat)
    requires conversion in {'d', 'i', 'u', 'x', 'X', 'p'} && p + (if flags.longs < 2 then 4 else 8) <= |g.args|
    ensures var d, size := Directive(flags, conversion), if flags.longs < 2 then 4 else 8;
      var v := g.args[p..p + size];
      && size == SlotSize(d) && Rendered(g, d, v).Some?
      && Shown(g, d, p) == Outcome(Rendered(g, d, v).value, p + size, Fine)
  {
    hide Unsigned, PrintedDec, PrintedHex, PrintedSigned, Signed, Power;
  }

  lemma LongsOf(modifiers: string)
    ensures FlagsOf(modifiers).longs == Longs(modifiers)
  {
  }

  /** What a number conversion prints of a number `x` of this many bytes. */
  ghost predicate ShowsUnsigned(text: seq<int>, x: nat, size: nat, flags: Flags) {
    var width := Max(flags.minWidth, 1);
    if size == 8 && x > INT32_MAX then text == Codes("ERR")
    else ShowsNumber(text, x, 10, flags.padding, if flags.padding == PadSpaceAfter then width else Min(width, 10))
  }

  ghost predicate ShowsSigned(text: seq<int>, x: nat, size: nat, flags: Flags) {
    var range := if size == 8 then TWO_TO_THE_64 else TWO_TO_THE_32;
    var sign := if 2 * x < range then 0 else 1;
    var magnitude := if sign == 0 then x else range - x;
    var width := Max(flags.minWidth - sign, 1);
    if magnitude >= TWO_TO_THE_31 + sign then text == Codes("ERR")
    else
      && magnitude >= 0 && |text| > sign && (sign == 1 ==> text[0] == '-' as int)
      && ShowsNumber(text[sign..], magnitude, 10, flags.padding,
                     if flags.padding == PadSpaceAfter then width else Min(width, 10))
  }

  ghost predicate ShowsHex(text: seq<int>, x: nat, flags: Flags) {
    ShowsNumber(text, x, 16, flags.padding,
                if flags.padding == PadSpaceAfter then flags.minWidth * 2
                else if flags.padding == PadNone then 0 else Min(flags.minWidth, 16))
  }

  /** `%u` prints its argument in base ten; one of eight bytes above INT32_MAX prints as ERR. `%d` and `%i`
      print a minus sign exactly for the upper half of their range, then the magnitude in base ten, the
      sign counting towards the width; one of eight bytes that is no `int32_t` prints as ERR. `%x` and `%X`
      print in base sixteen, both with small letters. `%p` prints 0x and at least eight digits, whatever
      its modifiers say about the width. */
  lemma NumberIsPrinted(g: Guest, modifiers: string, conversion: char, p: nat)
    requires AllModifiers(modifiers) && conversion in {'d', 'i', 'u', 'x', 'X', 'p'}
    requires p + (if Longs(modifiers) < 2 then 4 else 8) <= |g.args|
    ensures var out, x := Meaning(g, Pieces(Single(modifiers, conversion)), p), ArgumentAt(g, modifiers, p);
      var flags, size := FlagsOf(modifiers), if Longs(modifiers) < 2 then 4 else 8;
      && out.status == Fine && out.next == p + size
      && (conversion == 'u' ==> ShowsUnsigned(out.text, x, size, flags))
      && (conversion in {'d', 'i'} ==> ShowsSigned(out.text, x, size, flags))
      && (conversion in {'x', 'X'} ==> ShowsHex(out.text, x, flags))
      && (conversion == 'p' ==> Codes("0x") <= out.text && ShowsHex(out.text[2..], x, Flags(PadZeroBefore, 8, 0)))
  {
    hide ShowsUnsigned, ShowsSigned, ShowsHex, Meaning, Pieces, Unsigned, Rendered, FlagsOf, ArgumentAt;
    NumberTaken(g, modifiers, conversion, p);
    var v := g.args[p..p + (if Longs(modifiers) < 2 then 4 else 8)];
    if conversion == 'u' {
      RenderedUnsigned(g, FlagsOf(modifiers), v);
    } else if conversion in {'d', 'i'} {
      RenderedSigned(g, FlagsOf(modifiers), conversion, v);
    } else {
      RenderedHex(g, FlagsOf(modifiers), conversion, v);
    }
  }

  lemma RenderedUnsigned(g: Guest, flags: Flags, v: seq<byte>)
    requires |v| == SlotSize(Directive(flags, 'u'))
    ensures var r := Rendered(g, Directive(flags, 'u'), v);
      r.Some? && ShowsUnsigned(r.value, Unsigned(v), |v|, flags)
  {
    hide Unsigned, PrintedDec, ShowsNumber, Power;
    ArgumentRange(v);
    if Unsigned(v) < TWO_TO_THE_32 {
      DecShows(Unsigned(v), flags.padding, flags.minWidth);
    }
  }

  lemma RenderedSigned(g: Guest, flags: Flags, conversion: char, v: seq<byte>)
    requires conversion in {'d', 'i'} && |v| == SlotSize(Directive(flags, conversion))
    ensures var r := Rendered(g, Directive(flags, conversion), v);
      r.Some? && ShowsSigned(r.value, Unsigned(v), |v|, flags)
  {
    hide Unsigned, PrintedSigned, PrintedDec, PrintedHex, ShowsNumber, Power, Signed, Min, Max, Codes;
    SignedIs(v);
    ArgumentRange(v);
    if INT32_MIN <= Signed(v) <= INT32_MAX {
      SignedShows(Signed(v), flags.padding, flags.minWidth);
    }
  }

  lemma SignedShows(n: int, padding: Pad, minWidth: int)
    requires INT32_MIN <= n <= INT32_MAX
    ensures var text, sign := PrintedSigned(n, padding, minWidth), if n < 0 then 1 else 0;
      var width := Max(minWidth - sign, 1);
      && |text| > sign && (n < 0 ==> text[0] == '-' as int)
      && ShowsNumber(text[sign..], if n < 0 then -n else n, 10, padding,
                     if padding == PadSpaceAfter then width else Min(width, 10))
  {
    hide PrintedDec, ShowsNumber;
    var magnitude, sign := if n < 0 then -n else n, if n < 0 then 1 else 0;
    DecShows(magnitude, padding, minWidth - sign);
    PrintedDecReadsBack(magnitude, padding, minWidth - sign);
    var number := PrintedDec(magnitude, padding, minWidth - sign);
    assert ([MINUS] + number)[1..] == number && number[0..] == number;
  }

  lemma SignedIs(v: seq<byte>)
    requires |v| in {4, 8}
    ensures var range := if |v| == 8 then TWO_TO_THE_64 else TWO_TO_THE_32;
      Signed(v) == if 2 * Unsigned(v) < range then Unsigned(v) else Unsigned(v) - range
  {
    assert Power(256, 4) == TWO_TO_THE_32 && Power(256, 8) == TWO_TO_THE_64;
  }

  lemma RenderedHex(g: Guest, flags: Flags, conversion: char, v: seq<byte>)
    requires conversion in {'x', 'X', 'p'} && |v| == SlotSize(Directive(flags, conversion))
    ensures var r := Rendered(g, Directive(flags, conversion), v);
      && r.Some?
      && (conversion != 'p' ==> ShowsHex(r.value, Unsigned(v), flags))
      && (conversion == 'p' ==> Codes("0x") <= r.value && ShowsHex(r.value[2..], Unsigned(v), Flags(PadZeroBefore, 8, 0)))
  {
    hide Unsigned, PrintedHex, ShowsNumber, Power;
    ArgumentRange(v);
    HexShows(Unsigned(v), flags.padding, flags.minWidth);
    HexShows(Unsigned(v), PadZeroBefore, 8);
    var number := PrintedHex(Unsigned(v), PadZeroBefore, 8);
    assert (Codes("0x") + number)[2..] == number;
  }

  /** `%c` prints one character, its argument as an `int`, and no padding. */
  lemma CharacterIsPrinted(g: Guest, modifiers: string, p: nat)
    requires AllModifiers(modifiers) && p + 4 <= |g.args|
    ensures var x := WordAt(g.args, p);
      Meaning(g, Pieces(Single(modifiers, 'c')), p)
      == Outcome([if x < TWO_TO_THE_31 then x else x - TWO_TO_THE_32], p + 4, Fine)
  {
    hide Meaning, Pieces, Unsigned, Signed, FlagsOf, Power, WordAt;
    OneDirective(g, modifiers, 'c', p);
    ArgumentValue(g.args, p, 4);
    SignedIs(g.args[p..p + 4]);
  }

  /** `%s` prints the string at the address it is given, and spaces behind it only when a minus asks for
      them; an address without a string ends the printing. */
  lemma StringIsPrinted(g: Guest, modifiers: string, p: nat)
    requires AllModifiers(modifiers) && p + 4 <= |g.args|
    ensures var out, s := Meaning(g, Pieces(Single(modifiers, 's')), p), g.textAt(WordAt(g.args, p));
      && out.next == p + 4
      && (s.None? ==> out.status == BadString && out.text == [])
      && (s.Some? ==>
            && out.status == Fine
            && |out.text| == Max(|s.value|, if '-' in modifiers then FlagsOf(modifiers).minWidth else 0)
            && out.text[..|s.value|] == s.value
            && forall i | |s.value| <= i < |out.text| :: out.text[i] == ' ' as int)
  {
    OneDirective(g, modifiers, 's', p);
    ArgumentValue(g.args, p, 4);
    hide Meaning, Pieces, Unsigned, WidthOf;
  }

  /** `%f` takes eight bytes at the next address that is a multiple of eight. */
  lemma DoubleIsPrinted(g: Guest, modifiers: string, p: nat, start: nat)
    requires AllModifiers(modifiers) && start + 8 <= |g.args|
    requires p <= start < p + 8 && (g.base + start) % 8 == 0
    ensures Meaning(g, Pieces(Single(modifiers, 'f')), p) == Outcome(g.doubleText(g.args[start..start + 8]), start + 8, Fine)
  {
    hide Meaning, Pieces, SlotStart, FlagsOf, Unsigned;
    OneDirective(g, modifiers, 'f', p);
    AlignedStart(g.base, FlagsOf(modifiers), p, start);
  }

  lemma AlignedStart(base: nat, flags: Flags, p: nat, start: nat)
    requires p <= start < p + 8 && (base + start) % 8 == 0
    ensures SlotStart(base, Directive(flags, 'f'), p) == start
  {
  }

  /** Any other conversion takes no argument and prints as it stands, without its modifiers; a percent
      sign prints once. */
  lemma UnknownIsPrinted(g: Guest, modifiers: string, conversion: char, p: nat)
    requires AllModifiers(modifiers) && !IsModifier(conversion)
    requires conversion !in {'d', 'i', 'u', 'x', 'X', 'p', 's', 'c', 'f'}
    ensures Meaning(g, Pieces(Single(modifiers, conversion)), p)
         == Outcome(if conversion == '%' then Codes("%") else Codes("%" + [conversion]), p, Fine)
  {
    OneDirective(g, modifiers, conversion, p);
    hide Meaning, Pieces;
    assert Codes("%" + [conversion]) == [PERCENT, conversion as int] && Codes("%") == [PERCENT];
  }

  /** Digits that do not begin with a zero are the width, in front of which spaces go; a zero before them
      asks for zeros instead, and a minus for spaces behind. */
  lemma UsualFlags(digits: string)
    requires digits != "" && digits[0] != '0' && forall i | 0 <= i < |digits| :: IsDigit(digits[i])
    ensures FlagsOf(digits) == Flags(PadSpaceBefore, Value(Codes(digits), 10), 0)
    ensures FlagsOf("0" + digits) == Flags(PadZeroBefore, Value(Codes(digits), 10), 0)
    ensures FlagsOf("-" + digits) == Flags(PadSpaceAfter, Value(Codes(digits), 10), 0)
  {
    hide Digits, Longs, Value, ZeroFlag;
    DigitsOfDigits("", digits);
    DigitsOfDigits("0", digits);
    DigitsOfDigits("-", digits);
    NoDigits();
    assert "" + digits == digits && ("0" + digits)[1..] == digits;
    ZeroFlags(digits);
    assert ("-" + digits)[0] == '-';
  }

  lemma ZeroFlags(digits: string)
    requires digits != "" && digits[0] != '0' && forall i | 0 <= i < |digits| :: IsDigit(digits[i])
    ensures !ZeroFlag(digits) && ZeroFlag("0" + digits) && !ZeroFlag("-" + digits)
  {
    hide Digits;
    ZeroFlagOnlyFirst(digits);
    var zero, minus := "0" + digits, "-" + digits;
    assert zero[0] == '0' && zero[..0] == "" && Digits("") == "" by { NoDigits(); }
    assert minus[0] == '-';
  }

  lemma NoDigits()
    ensures Digits("") == Digits("-") == "" && Digits("0") == "0"
    ensures Longs("") == Longs("0") == Longs("-") == 0
  {
  }

  lemma ZeroFlagOnlyFirst(digits: string)
    requires digits != "" && digits[0] != '0' && forall i | 0 <= i < |digits| :: IsDigit(digits[i])
    ensures !ZeroFlag(digits)
  {
    forall k | 0 <= k < |digits| && digits[k] == '0'
      ensures Digits(digits[..k]) != ""
    {
      DigitsOfDigits("", digits[..k]);
      assert "" + digits[..k] == digits[..k];
    }
  }

  lemma {:induction false} DigitsOfDigits(before: string, digits: string)
    requires forall i | 0 <= i < |digits| :: IsDigit(digits[i])
    ensures Digits(before + digits) == Digits(before) + digits && Longs(before + digits) == Longs(before)
  {
    if digits == "" {
      assert before + digits == before;
    } else {
      var front := digits[..|digits| - 1];
      DigitsOfDigits(before, front);
      assert (before + digits)[..|before + digits| - 1] == before + front;
    }
  }
}
