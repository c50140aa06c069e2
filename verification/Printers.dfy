/** The two formatted printers, alt_log_private_printf and alt_printf, as they put characters on a port. */
module Printers {
  import opened Words
  import opened IntegerPrinter
  import opened FormatSpec

  datatype State = Chars | FirstFmtChar | OtherFmtChar

  /** The directive being read: its state, its leading zero and the modifiers read. */
  function Remaining(state: State, zero: bool, read: string, s: string, a: Arguments): string {
    match state
    case Chars => Render(s, a)
    case FirstFmtChar => Render("%" + s, a)
    case OtherFmtChar => Directive(zero, read, s, a)
  }

  /** alt_printf: only %%, %c, %x and %s, without modifiers; anything else after % prints nothing. */
  function RenderPlain(fmt: string, a: Arguments): string {
    if fmt == "" then ""
    else if fmt[0] != '%' then [fmt[0]] + RenderPlain(fmt[1..], a)
    else if |fmt| == 1 then ""
    else if fmt[1] == '%' then "%" + RenderPlain(fmt[2..], a)
    else if fmt[1] == 'c' then [CharOf(First(a))] + RenderPlain(fmt[2..], After(a))
    else if fmt[1] == 'x' then HexText(WordOf(First(a))) + RenderPlain(fmt[2..], After(a))
    else if fmt[1] == 's' then a.memory(First(a)) + RenderPlain(fmt[2..], After(a))
    else RenderPlain(fmt[2..], a)
  }

  /** Lower-case hexadecimal digits, without superfluous zeros. */
  function HexText(v: Word): string {
    Text(Digits(v, 16, Count(v, 16)), false)
  }

  /** Formats on which the printers should agree: no modifiers and none of the conversions only one of them has. */
  predicate Common(fmt: string) {
    if fmt == "" || |fmt| == 1 then true
    else if fmt[0] != '%' then Common(fmt[1..])
    else !IsModifier(fmt[1]) && fmt[1] !in {'d', 'i', 'u', 'o', 'X'} && Common(fmt[2..])
  }

  /** The two printers emit the same characters on every such format, whatever the arguments. */
  lemma {:induction false} PrintersAgree(fmt: string, a: Arguments)
    requires Common(fmt)
    ensures Render(fmt, a) == RenderPlain(fmt, a)
  {
    if |fmt| == 1 && fmt[0] != '%' {
      assert fmt[1..] == "";
    } else if |fmt| > 1 && fmt[0] != '%' {
      PrintersAgree(fmt[1..], a);
    } else if |fmt| > 1 && fmt[1] == '%' {
      PrintersAgree(fmt[2..], a);
    } else if |fmt| > 1 {
      OneLetter(fmt, a);
      PrintersAgree(fmt[2..], Consumed(fmt[1], a));
    }
  }

  /** A directive of a single letter. */
  lemma OneLetter(fmt: string, a: Arguments)
    requires |fmt| > 1 && fmt[0] == '%' && fmt[1] != '%' && !IsModifier(fmt[1])
    ensures Render(fmt, a) == Conversion(fmt[1], false, -1, a) + Render(fmt[2..], Consumed(fmt[1], a))
    ensures fmt[1] == 'c' ==> Conversion(fmt[1], false, -1, a) == [CharOf(First(a))]
    ensures fmt[1] == 's' ==> Conversion(fmt[1], false, -1, a) == a.memory(First(a))
    ensures fmt[1] == 'x' ==> Conversion(fmt[1], false, -1, a) == HexText(WordOf(First(a)))
  {
    var s := fmt[1..];
    assert Modifiers(s) == 0 && s[..0] == "" && "" + s[..0] == "" && Width("") == -1;
    assert s[1..] == fmt[2..];
  }

  /** With %d they do not agree: alt_printf prints nothing for it. */
  lemma PlainIgnoresDecimal(a: Arguments)
    ensures RenderPlain("%d", a) == "" && Render("%d", a) != ""
  {
    OneLetter("%d", a);
    assert "%d"[2..] == "";
  }

  /** An output port: the characters written to its transmit register. */
  class Port {
    var sent: string

    constructor ()
      ensures sent == ""
    {
      sent := "";
    }

    /** alt_log_txchar and alt_putchar. */
    method PutChar(c: char)
      modifies this
      ensures sent == old(sent) + [c]
    {
      sent := sent + [c];
    }

    method RepChar(c: char, r: int)
      modifies this
      ensures sent == old(sent) + Repeat(c, r)
    {
      var n := r;
      while n > 0
        invariant n <= r && (r <= 0 ==> n == r) && (r > 0 ==> n >= 0)
        invariant sent == old(sent) + Repeat(c, if r > 0 then r - n else 0)
      {
        PutChar(c);
        n := n - 1;
      }
    }

    method PutString(s: string)
      modifies this
      ensures sent == old(sent) + s
    {
      var i := 0;
      while i < |s|
        invariant 0 <= i <= |s| && sent == old(sent) + s[..i]
      {
        PutChar(s[i]);
        i := i + 1;
      }
    }

    /** Counts the digits and finds the largest place value, which fits in 32 bits. */
    static method CountDigits(v: Word, base: Base) returns (place: Word, digitCount: nat)
      ensures digitCount == Count(v, base) && place == Place(v, base)
    {
      var shrink := v / base;
      place, digitCount := 1, 1;
      NextPlace(v, base, 0);
      assert Quotient(v, base, 0) == v;
      CountOnce(v, base);
      hide Quotient, Power, Count;
      while shrink > 0
        invariant 0 <= shrink && digitCount > 0
        invariant place == Power(base, digitCount - 1) && shrink == Quotient(v, base, digitCount)
        invariant Count(v, base) == if shrink > 0 then digitCount + Count(shrink, base) else digitCount
      {
        NextPlace(v, base, digitCount - 1);
        NextPlace(v, base, digitCount);
        CountOnce(shrink, base);
        place := place * base;
        digitCount := digitCount + 1;
        shrink := shrink / base;
      }
    }

    /** The printing loop: one digit for each place. */
    method PutDigits(value: Word, place: Word, base: Base, upper: bool)
      requires place == Place(value, base)
      modifies this
      ensures sent == old(sent) + Text(Digits(value, base, Count(value, base)), upper)
    {
      var v: Word, p: Word := value, place;
      ghost var k: nat := Count(value, base);
      CountFits(value, base);
      PowerPositive(base, k - 1);
      assert Power(base, 0) == 1;
      hide Count, Place, Power, Digits, Text, DigitChar;
      ghost var all := old(sent) + Text(Digits(value, base, k), upper);
      while p > 0
        invariant 0 <= p && 0 <= v < Power(base, k)
        invariant if p > 0 then k > 0 && p == Power(base, k - 1) else k == 0
        invariant sent + Text(Digits(v, base, k), upper) == all
        decreases k
      {
        var d;
        d, v, p := TakeDigit(v, p, base, k, upper);
        AppendChar(sent, DigitChar(d, upper), Text(Digits(v, base, k - 1), upper));
        PutChar(DigitChar(d, upper));
        k := k - 1;
      }
    }

    /** The digit at the current place, the rest of the value and the next place. */
    static method TakeDigit(v: Word, p: Word, base: Base, ghost k: nat, upper: bool)
        returns (d: Digit, v': Word, p': Word)
      requires k > 0 && 0 < p == Power(base, k - 1) && v < Power(base, k)
      ensures v' < Power(base, k - 1)
      ensures if p' > 0 then k > 1 && p' == Power(base, k - 2) else k == 1
      ensures Text(Digits(v, base, k), upper) == [DigitChar(d, upper)] + Text(Digits(v', base, k - 1), upper)
    {
      NextDigit(v, base, k, p, upper);
      PlaceBelow(base, k, p);
      hide *;
      d := v / p;
      v' := v % p;
      p' := p / base;
    }

    /** The integer conversions. */
    method PrintInteger(arg: Word, f: Format)
      modifies this
      ensures sent == old(sent) + IntegerText(arg, f)
    {
      hide Count, Digits, Text, IntegerText, Repeat, Place;
      var v: Word, sign := arg, false;
      if f.signed && v >= 0x8000_0000 {
        v, sign := Wrap(0xFFFF_FFFF - v + 1), true;
      }
      var place, digitCount := CountDigits(v, f.base);
      PutLead(f.zero, sign, f.width - digitCount);
      PutDigits(v, place, f.base, f.upper);
      TextParts(arg, f, sign, v);
      hide *;
    }

    /** Leading characters and sign. */
    method PutLead(zero: bool, sign: bool, width: int)
      modifies this
      ensures var s, room := if sign then "-" else "", if sign then width - 1 else width;
        sent == old(sent) + if zero then s + Repeat('0', room) else Repeat(' ', room) + s
    {
      var room := width;
      if zero {
        if sign {
          PutChar('-');
          room := room - 1;
        }
        RepChar('0', room);
      } else {
        if sign {
          room := room - 1;
        }
        RepChar(' ', room);
        if sign {
          PutChar('-');
        }
      }
    }

    /** One conversion letter. */
    method Convert(c: char, zero: bool, width: int, a: Arguments) returns (rest: Arguments)
      modifies this
      ensures sent == old(sent) + Conversion(c, zero, width, a) && rest == Consumed(c, a)
    {
      rest := a;
      if c == 'd' || c == 'i' {
        PrintInteger(WordOf(First(a)), Format(zero, width, 10, true, false));
        rest := After(a);
      } else if c == 'u' {
        PrintInteger(WordOf(First(a)), Format(zero, width, 10, false, false));
        rest := After(a);
      } else if c == 'o' {
        PrintInteger(WordOf(First(a)), Format(zero, width, 8, false, false));
        rest := After(a);
      } else if c == 'x' {
        PrintInteger(WordOf(First(a)), Format(zero, width, 16, false, false));
        rest := After(a);
      } else if c == 'X' {
        PrintInteger(WordOf(First(a)), Format(zero, width, 16, false, true));
        rest := After(a);
      } else if c == 'c' {
        RepChar(' ', width - 1);
        PutChar(CharOf(First(a)));
        rest := After(a);
      } else if c == 's' {
        RepChar(' ', width - |a.memory(First(a))|);
        PutString(a.memory(First(a)));
        rest := After(a);
      }
    }

    /** Inside a directive: a modifier, or the letter that ends it. */
    method OtherChar(c: char, zero: bool, before: int, after: int, a: Arguments, ghost read: string, ghost s: string)
        returns (state: State, before': int, after': int, a': Arguments)
      requires s != "" && c == s[0] && before == Width(read) && (after < 0 <==> '.' !in read)
      modifies this
      ensures state == if IsModifier(c) then OtherFmtChar else Chars
      ensures state.OtherFmtChar? ==> before' == Width(read + [c]) && (after' < 0 <==> '.' !in read + [c])
      ensures sent + Remaining(state, zero, read + [c], s[1..], a') == old(sent) + Directive(zero, read, s, a)
    {
      state, before', after', a' := OtherFmtChar, before, after, a;
      NextInDirective(zero, read, s, a);
      hide Render, Directive, Conversion, Consumed, Width, Repeat;
      if c == '.' {
        after' := 0;
      } else if '0' <= c <= '9' {
        before', after' := ReadDigit(c, before, after, read);
      } else if c == 'l' {
      } else {
        a' := Convert(c, zero, before, a);
        state := Chars;
        assert sent + Render(s[1..], a') == old(sent) + (Conversion(c, zero, before, a) + Render(s[1..], a'));
      }
    }

    /** A digit of the width, or of the precision, which is not used. */
    static method ReadDigit(c: char, before: int, after: int, ghost read: string) returns (before': int, after': int)
      requires IsDigit(c) && before == Width(read) && (after < 0 <==> '.' !in read)
      ensures before' == Width(read + [c]) && (after' < 0 <==> '.' !in read + [c])
    {
      before', after' := before, after;
      if after < 0 {
        before' := if before < 0 then 0 else before * 10;
        before' := before' + DigitValue(c);
      } else {
        after' := after * 10 + DigitValue(c);
      }
      WidthGrows(read, c);
    }

    /** Literal characters, a percent sign, and what may follow it directly: another one, or a zero. */
    method OutsideDirective(c: char, state: State, ghost s: string, a: Arguments) returns (state': State, zero: bool)
      requires s != "" && s[0] == c && (state.Chars? || (state.FirstFmtChar? && (c == '0' || c == '%')))
      modifies this
      ensures state' == if state.Chars? then (if c == '%' then FirstFmtChar else Chars)
                        else if c == '0' then OtherFmtChar else Chars
      ensures zero == (state.FirstFmtChar? && c == '0')
      ensures sent + Remaining(state', zero, "", s[1..], a) == old(sent) + Remaining(state, false, "", s, a)
    {
      hide Render, Directive;
      NextChar(s, a);
      AfterPercent(s, a);
      state', zero := Chars, false;
      if state.Chars? {
        if c == '%' {
          state' := FirstFmtChar;
        } else {
          AppendChar(sent, c, Render(s[1..], a));
          PutChar(c);
        }
      } else if c == '0' {
        state', zero := OtherFmtChar, true;
      } else {
        AppendChar(sent, c, Render(s[1..], a));
        PutChar(c);
      }
    }

    /** alt_log_private_printf: the state machine prints what the format stands for. */
    method PrivatePrintf(fmt: string, args: Arguments)
      modifies this
      ensures sent == old(sent) + Render(fmt, args)
    {
      var state, a := Chars, args;
      var zero, before, after := false, -1, -1;
      ghost var read := "";
      var i := 0;
      hide Render, Directive, Conversion, Consumed, Width;
      EmptyWidth();
      while i < |fmt|
        invariant 0 <= i <= |fmt|
        invariant state.OtherFmtChar? ==> before == Width(read) && (after < 0 <==> '.' !in read)
        invariant state.FirstFmtChar? ==> before == -1 && after == -1 && !zero && read == ""
        invariant sent + Remaining(state, zero, read, fmt[i..], a) == old(sent) + Render(fmt, args)
      {
        var c := fmt[i];
        ghost var s := fmt[i..];
        assert s[1..] == fmt[i + 1..];
        if state.Chars? || (state.FirstFmtChar? && (c == '0' || c == '%')) {
          if state.Chars? && c == '%' {
            before, after := -1, -1;
          }
          state, zero := OutsideDirective(c, state, s, a);
          read := "";
        } else {
          if state.FirstFmtChar? {
            AfterPercent(s, a);
            state, read := OtherFmtChar, "";
          }
          state, before, after, a := OtherChar(c, zero, before, after, a, read, s);
          read := read + [c];
        }
        i := i + 1;
      }
      AtEnd(zero, read, a);
    }

    /** The hexadecimal conversion of alt_printf: find the first digit that is not zero, print from there. */
    method PrintHex(v: bv32)
      modifies this
      ensures sent == old(sent) + HexText(WordOf(v))
    {
      if v == 0 {
        assert HexText(WordOf(0)) == "0" by { ZeroText(); }
        PutChar('0');
        return;
      }
      var first := FirstShift(v);
      var shift: int := first;
      ghost var n := first / 4 + 1;
      ghost var k: int := n - 1;
      ghost var all := Text(Digits(WordOf(v), 16, n), false);
      hide WordOf, Digits, Count, Text, Nibble;
      while shift >= 0
        invariant -1 <= k < n <= 8 && shift == 4 * k
        invariant sent == old(sent) + all[..n - 1 - k]
      {
        HexDigit(v, n, k);
        assert shift / 4 == k;
        var digit := Nibble(v, shift / 4);
        var c := if digit <= 9 then '0' + digit as char else 'a' + (digit - 10) as char;
        PutChar(c);
        shift := shift - 4;
        k := k - 1;
      }
    }

    /** The shift of the first hexadecimal digit that is not zero: 28 and down, in fours. */
    static method FirstShift(v: bv32) returns (shift: nat)
      requires v != 0
      ensures shift <= 28 && shift % 4 == 0 && shift / 4 + 1 == Count(WordOf(v), 16)
    {
      shift := 28;
      Below(v);
      hide WordOf, Count, Power, Nibble;
      while Nibble(v, shift / 4) == 0
        invariant 0 <= shift <= 28 && shift % 4 == 0
        invariant WordOf(v) < Power(16, shift / 4 + 1) && WordOf(v) > 0
        decreases shift
      {
        ZeroNibble(v, shift / 4);
        shift := shift - 4;
      }
      FoundNibble(v, shift / 4);
    }

    /** alt_printf. */
    method PlainPrintf(fmt: string, args: Arguments)
      modifies this
      ensures sent == old(sent) + RenderPlain(fmt, args)
    {
      var a, i := args, 0;
      hide HexText, WordOf;
      while i < |fmt|
        invariant 0 <= i <= |fmt|
        invariant sent + RenderPlain(fmt[i..], a) == old(sent) + RenderPlain(fmt, args)
        decreases |fmt| - i
      {
        ghost var s := fmt[i..];
        assert s[1..] == fmt[i + 1..];
        if fmt[i] != '%' {
          PutChar(fmt[i]);
          i := i + 1;
        } else if i + 1 == |fmt| {
          return;
        } else {
          assert s[2..] == fmt[i + 2..];
          var c := fmt[i + 1];
          if c == '%' {
            PutChar(c);
          } else if c == 'c' {
            PutChar(CharOf(First(a)));
            a := After(a);
          } else if c == 'x' {
            PrintHex(First(a));
            a := After(a);
          } else if c == 's' {
            PutString(a.memory(First(a)));
            a := After(a);
          }
          i := i + 2;
        }
      }
    }
  }

  /** (v & (0xF << shift)) >> shift, for shift == 4 * k. */
  function Nibble(v: bv32, k: nat): (d: Digit)
    requires k < 8
  {
    var n := match k
      case 0 => v & 0xF
      case 1 => (v & (0xF << 4)) >> 4
      case 2 => (v & (0xF << 8)) >> 8
      case 3 => (v & (0xF << 12)) >> 12
      case 4 => (v & (0xF << 16)) >> 16
      case 5 => (v & (0xF << 20)) >> 20
      case 6 => (v & (0xF << 24)) >> 24
      case _ => (v & (0xF << 28)) >> 28;
    LowNibble(n)
  }

  lemma ZeroText()
    ensures HexText(WordOf(0)) == "0"
  {
    assert forall k: nat :: Unsigned(0, k) == 0 by {
      forall k: nat { AllZero(k); }
    }
    assert Digits(0, 16, 0) == [];
  }

  lemma {:induction false} AllZero(k: nat)
    ensures Unsigned(0, k) == 0
  {
    if k > 0 {
      AllZero(k - 1);
    }
  }

  /** Masks and shifts give the digits that repeated division gives. */
  lemma NibbleIsDigit(v: bv32, k: nat)
    requires k < 8
    ensures Nibble(v, k) == Digits(WordOf(v), 16, 8)[7 - k]
  {
    NibbleShifted(v, k);
    DigitsShifted(v, 8, k);
  }

  lemma NibbleShifted(v: bv32, k: nat)
    requires k < 8
    ensures Nibble(v, k) == LowNibble(Shifted(v, k))
  {
  }

  lemma {:induction false} DigitsShifted(v: bv32, n: nat, k: nat)
    requires k < n
    ensures Digits(Unsigned(v, n), 16, n)[n - 1 - k] == LowNibble(Shifted(v, k))
  {
    DivMod(Unsigned(v, n), 16, Unsigned(v >> 4, n - 1), LowNibble(v));
    if k > 0 {
      DigitsShifted(v >> 4, n - 1, k - 1);
    }
  }

  /** At most eight digits, and not zero unless the word is. */
  lemma Below(v: bv32)
    requires v != 0
    ensures 0 < WordOf(v) < Power(16, 8)
  {
    UnsignedFits(v, 8);
    if Unsigned(v, 8) == 0 {
      EightShifts(v);
      OnlyZero(v, 8);
      assert false;
    }
  }

  lemma EightShifts(v: bv32)
    ensures Shifted(v, 8) == 0
  {
    FourShifts(v, 4);
    FourShifts(v >> 16, 0);
  }

  lemma FourShifts(v: bv32, k: nat)
    ensures Shifted(v, k + 4) == Shifted(v >> 16, k)
  {
    assert Shifted(v, k + 4) == Shifted(v >> 4, k + 3) == Shifted(v >> 4 >> 4, k + 2);
    assert Shifted(v >> 4 >> 4, k + 2) == Shifted(v >> 4 >> 4 >> 4, k + 1);
    assert v >> 4 >> 4 >> 4 >> 4 == v >> 16;
  }

  lemma {:induction false} OnlyZero(v: bv32, k: nat)
    requires Unsigned(v, k) == 0 && Shifted(v, k) == 0
    ensures v == 0
  {
    if k > 0 {
      OnlyZero(v >> 4, k - 1);
      assert (v & 0xF) as nat == 0;
    }
  }

  /** The digit at position k of n. */
  lemma HexDigit(v: bv32, n: nat, k: nat)
    requires k < n <= 8
    ensures Text(Digits(WordOf(v), 16, n), false)[n - 1 - k] == DigitChar(Nibble(v, k), false)
  {
    NibbleIsDigit(v, k);
    LastDigits(WordOf(v), 16, 8, n);
  }

  /** A zero in front: one digit fewer suffices. */
  lemma ZeroNibble(v: bv32, k: nat)
    requires k < 8 && 0 < WordOf(v) < Power(16, k + 1) && Nibble(v, k) == 0
    ensures k > 0 && WordOf(v) < Power(16, k)
  {
    Leading(v, k);
    PowerPositive(16, k);
    assert WordOf(v) == Power(16, k) * (WordOf(v) / Power(16, k)) + WordOf(v) % Power(16, k);
  }

  /** Otherwise this is the number of digits. */
  lemma FoundNibble(v: bv32, k: nat)
    requires k < 8 && WordOf(v) < Power(16, k + 1) && Nibble(v, k) != 0
    ensures k + 1 == Count(WordOf(v), 16)
  {
    Leading(v, k);
    PowerPositive(16, k);
    if WordOf(v) < Power(16, k) {
      DivMod(WordOf(v), Power(16, k), 0, WordOf(v));
    }
    CountUnique(WordOf(v), 16, k + 1);
  }

  lemma Leading(v: bv32, k: nat)
    requires k < 8 && WordOf(v) < Power(16, k + 1)
    ensures Power(16, k) > 0 && Nibble(v, k) == WordOf(v) / Power(16, k)
  {
    PowerPositive(16, k);
    NibbleIsDigit(v, k);
    LastDigits(WordOf(v), 16, 8, k + 1);
    FirstDigit(WordOf(v), 16, k);
  }

  lemma EmptyWidth()
    ensures Width("") == -1
  {
  }

  /** One character of a format, in each state of the machine. */
  lemma NextChar(s: string, a: Arguments)
    requires s != ""
    ensures Render(s, a) == if s[0] == '%' then Render("%" + s[1..], a) else [s[0]] + Render(s[1..], a)
  {
    if s[0] == '%' {
      assert s == "%" + s[1..];
    }
  }

  lemma AfterPercent(s: string, a: Arguments)
    requires s != ""
    ensures Render("%" + s, a)
      == if s[0] == '%' then "%" + Render(s[1..], a)
         else if s[0] == '0' then Directive(true, "", s[1..], a)
         else Directive(false, "", s, a)
    ensures Width("") == -1
  {
    assert ("%" + s)[1..] == s && ("%" + s)[2..] == s[1..];
  }

  lemma NextInDirective(zero: bool, read: string, s: string, a: Arguments)
    requires s != ""
    ensures Directive(zero, read, s, a)
      == if IsModifier(s[0]) then Directive(zero, read + [s[0]], s[1..], a)
         else Conversion(s[0], zero, Width(read), a) + Render(s[1..], Consumed(s[0], a))
    ensures IsModifier(s[0]) && !IsDigit(s[0]) ==> Width(read + [s[0]]) == Width(read)
  {
    if IsModifier(s[0]) {
      ReadModifier(zero, read, s, a);
      WidthGrows(read, s[0]);
    } else {
      assert read + s[..0] == read;
    }
  }

  /** A format that ends inside a directive prints nothing for it. */
  lemma AtEnd(zero: bool, read: string, a: Arguments)
    ensures forall state :: Remaining(state, zero, read, "", a) == ""
  {
    assert "%" + "" == "%";
  }

  lemma AppendChar(s: string, c: char, t: string)
    ensures s + ([c] + t) == s + [c] + t
  {
  }

  /** What comes before the digits, as the printer computes it. */
  lemma TextParts(v: Word, f: Format, sign: bool, m: Word)
    requires sign == Negative(v, f) && m == Magnitude(v, f)
    ensures var s, width := if sign then "-" else "", f.width - Count(m, f.base);
      var room := if sign then width - 1 else width;
      IntegerText(v, f) == (if f.zero then s + Repeat('0', room) else Repeat(' ', room) + s)
        + Text(Digits(m, f.base, Count(m, f.base)), f.upper)
  {
  }

  /** The width as it is collected, one digit at a time. */
  lemma WidthGrows(read: string, c: char)
    requires IsModifier(c)
    ensures '.' in read + [c] <==> '.' in read || c == '.'
    ensures Width(read + [c])
      == if !IsDigit(c) || '.' in read then Width(read)
         else (if Width(read) < 0 then 0 else Width(read) * 10) + DigitValue(c)
  {
    assert (read + [c])[..|read|] == read;
    WidthNotNegative(read);
    var d := WidthDigits(read);
    if IsDigit(c) && '.' !in read {
      assert WidthDigits(read + [c]) == d + [c] && (d + [c])[..|d|] == d;
      assert ParseDigits(d + [c], 10) == ParseDigits(d, 10) * 10 + DigitValue(c);
    }
  }

  lemma {:induction false} WidthNotNegative(read: string)
    ensures forall i :: 0 <= i < |WidthDigits(read)| ==> IsDigit(WidthDigits(read)[i])
    ensures WidthDigits(read) != "" ==> Width(read) >= 0
  {
    if read != "" {
      WidthNotNegative(read[..|read| - 1]);
      var front := WidthDigits(read[..|read| - 1]);
      assert WidthDigits(read) == front || WidthDigits(read) == front + [read[|read| - 1]];
    }
    NotNegative(WidthDigits(read));
  }

  lemma {:induction false} NotNegative(t: string)
    requires forall i :: 0 <= i < |t| ==> IsDigit(t[i])
    ensures ParseDigits(t, 10) >= 0
  {
    if t != "" {
      NotNegative(t[..|t| - 1]);
    }
  }
}
