/** What the conversions of the log printer mean, letter by letter, and what a format as a whole prints. */
module FormatLaws {
  import opened Words
  import opened IntegerPrinter
  import opened FormatSpec

  /** The value of a word as a 32-bit two's complement number. */
  function SignedValue(v: Word): int {
    if v < 0x8000_0000 then v else v - 0x1_0000_0000
  }

  /** d and i print the signed value in decimal, u the word in decimal, o in octal, x and X in hexadecimal. */
  lemma IntegersMean(c: char, zero: bool, width: int, a: Arguments)
    ensures var t, v := Conversion(c, zero, width, a), WordOf(First(a));
      && (c == 'd' || c == 'i' ==> Parse(t, 10) == SignedValue(v))
      && (c == 'u' ==> Parse(t, 10) == v)
      && (c == 'o' ==> Parse(t, 8) == v)
      && (c == 'x' || c == 'X' ==> Parse(t, 16) == v)
  {
    if IsInteger(c) {
      PrintThenParse(WordOf(First(a)), IntegerFormat(c, zero, width));
      hide WordOf, IntegerText, Parse;
    }
  }

  /** The sixteen digits. */
  lemma Alphabet(d: Digit)
    ensures DigitChar(d, false) == "0123456789abcdef"[d] && DigitChar(d, true) == "0123456789ABCDEF"[d]
  {
  }

  /** x prints no upper-case letter, and X no lower-case one. */
  lemma CaseOfDigits(zero: bool, width: int, a: Arguments)
    ensures forall k :: k in Conversion('x', zero, width, a) ==> !('A' <= k <= 'Z')
    ensures forall k :: k in Conversion('X', zero, width, a) ==> !('a' <= k <= 'z')
  {
    hide WordOf, Digits, Count;
  }

  /** The padding: zeros behind the sign, or blanks in front of it, up to the width. */
  lemma IntegersArePadded(c: char, zero: bool, width: int, a: Arguments)
    requires c in {'d', 'i', 'u', 'o', 'x', 'X'}
    ensures var t := Conversion(c, zero, width, a);
      && |t| > 0 && |t| == (if width > |Conversion(c, zero, 0, a)| then width else |Conversion(c, zero, 0, a)|)
      && (zero ==> ' ' !in t)
      && (!zero && t[0] != ' ' ==> |t| == 1 || t[0] != '0')
      && (c != 'd' && c != 'i' ==> '-' !in t)
  {
    hide WordOf, Count, Digits;
    var v, f := WordOf(First(a)), IntegerFormat(c, zero, width);
    PrintedLength(v, f);
    NumeralHead(v, f);
  }

  lemma NumeralHead(v: Word, f: Format)
    ensures |Numeral(v, f)| > 0 && forall k :: k in Numeral(v, f) ==> k != ' ' && k != '-'
    ensures Numeral(v, f)[0] == '0' ==> |Numeral(v, f)| == 1
  {
    NoSuperfluousZero(v, f);
    if Numeral(v, f)[0] == '0' {
      assert Magnitude(v, f) == 0 && Count(0, f.base) == 1;
    }
    hide Digits, Count;
  }

  /** c prints one character, s a string, both behind blanks up to the width; other letters print nothing. */
  lemma OthersMean(c: char, zero: bool, width: int, a: Arguments)
    ensures var t, s := Conversion(c, zero, width, a), a.memory(First(a));
      && (c == 'c' ==> |t| == (if width > 1 then width else 1) && t[|t| - 1] == CharOf(First(a))
                       && forall i :: 0 <= i < |t| - 1 ==> t[i] == ' ')
      && (c == 's' ==> |t| == (if width > |s| then width else |s|) && t[|t| - |s|..] == s
                       && forall i :: 0 <= i < |t| - |s| ==> t[i] == ' ')
      && (c !in {'d', 'i', 'u', 'o', 'x', 'X', 'c', 's'} ==> t == "")
  {
    hide WordOf, IntegerText;
  }

  /** Each conversion takes one argument, every other letter none. */
  lemma OneArgumentEach(c: char, a: Arguments, n: nat)
    ensures Consumed(c, a).memory == a.memory
    ensures Consumed(c, a).slot(n) == if c in {'d', 'i', 'u', 'o', 'x', 'X', 'c', 's'} then a.slot(n + 1) else a.slot(n)
  {
  }

  /** Text without a percent sign is printed as it is. */
  lemma {:induction false} LiteralText(s: string, rest: string, a: Arguments)
    requires '%' !in s
    ensures Render(s + rest, a) == s + Render(rest, a)
  {
    if s == "" {
      assert s + rest == rest;
    } else {
      assert (s + rest)[1..] == s[1..] + rest;
      LiteralText(s[1..], rest, a);
      assert s == [s[0]] + s[1..];
    }
  }

  /** Two percent signs print one. */
  lemma PercentSign(rest: string, a: Arguments)
    ensures Render("%%" + rest, a) == "%" + Render(rest, a)
  {
    assert ("%%" + rest)[2..] == rest;
  }

  /** A directive: percent sign, modifiers that do not begin with a zero, and a letter ... */
  lemma PlainDirective(mods: string, c: char, rest: string, a: Arguments)
    requires (forall i :: 0 <= i < |mods| ==> IsModifier(mods[i])) && !IsModifier(c)
    requires (mods + [c])[0] != '0' && (mods + [c])[0] != '%'
    ensures Render("%" + (mods + [c] + rest), a) == Conversion(c, false, Width(mods), a) + Render(rest, Consumed(c, a))
  {
    DirectiveTail(false, mods, c, rest, a);
    assert (mods + [c] + rest)[0] == (mods + [c])[0];
    NoZeroFirst(mods + [c] + rest, a);
  }

  /** ... and one with a leading zero. */
  lemma ZeroDirective(mods: string, c: char, rest: string, a: Arguments)
    requires (forall i :: 0 <= i < |mods| ==> IsModifier(mods[i])) && !IsModifier(c)
    ensures Render("%0" + (mods + [c] + rest), a) == Conversion(c, true, Width(mods), a) + Render(rest, Consumed(c, a))
  {
    DirectiveTail(true, mods, c, rest, a);
    ZeroFirst(mods + [c] + rest, a);
  }

  lemma ZeroFirst(tail: string, a: Arguments)
    ensures Render("%0" + tail, a) == Directive(true, "", tail, a)
  {
    assert ("%0" + tail)[2..] == tail;
  }

  lemma NoZeroFirst(tail: string, a: Arguments)
    requires tail != "" && tail[0] != '0' && tail[0] != '%'
    ensures Render("%" + tail, a) == Directive(false, "", tail, a)
  {
    assert ("%" + tail)[1..] == tail;
  }

  lemma DirectiveTail(zero: bool, mods: string, c: char, rest: string, a: Arguments)
    requires (forall i :: 0 <= i < |mods| ==> IsModifier(mods[i])) && !IsModifier(c)
    ensures Directive(zero, "", mods + [c] + rest, a)
            == Conversion(c, zero, Width(mods), a) + Render(rest, Consumed(c, a))
  {
    hide Conversion, Consumed, Width;
    var tail := mods + [c] + rest;
    ModifiersOf(mods, c, rest);
    assert tail[..|mods|] == mods && tail[|mods| + 1..] == rest && tail[|mods|] == c;
    assert "" + mods == mods;
  }

  lemma {:induction false} ModifiersOf(mods: string, c: char, rest: string)
    requires (forall i :: 0 <= i < |mods| ==> IsModifier(mods[i])) && !IsModifier(c)
    ensures Modifiers(mods + [c] + rest) == |mods|
  {
    var s := mods + [c] + rest;
    if mods != "" {
      assert s[1..] == mods[1..] + [c] + rest;
      ModifiersOf(mods[1..], c, rest);
    }
  }

  /** The width is the number written, if one is; what follows a period does not count. */
  lemma {:induction false} WidthWritten(digits: string, more: string)
    requires forall i :: 0 <= i < |digits| ==> IsDigit(digits[i])
    requires more == "" || more[0] == '.'
    ensures Width(digits + more) == if digits == "" then -1 else ParseDigits(digits, 10)
  {
    DigitsOnly(digits, more);
  }

  lemma {:induction false} DigitsOnly(digits: string, more: string)
    requires forall i :: 0 <= i < |digits| ==> IsDigit(digits[i])
    requires more == "" || more[0] == '.'
    ensures WidthDigits(digits + more) == digits
    decreases |more|, |digits|
  {
    var s := digits + more;
    if more != "" {
      assert s[..|s| - 1] == digits + more[..|more| - 1];
      DigitsOnly(digits, more[..|more| - 1]);
      assert s[|digits|] == '.';
    } else if digits != "" {
      assert s == digits && s[..|s| - 1] == digits[..|digits| - 1] + "";
      DigitsOnly(digits[..|digits| - 1], "");
    }
  }

  /** The word 0xFFFFFFFB: minus five, or 4294967291. */
  lemma MinusFive(zero: bool, width: int, a: Arguments)
    requires WordOf(First(a)) == 0xFFFF_FFFB
    ensures Conversion('d', zero, width, a)
            == if zero then "-" + Repeat('0', width - 2) + "5" else Repeat(' ', width - 2) + "-" + "5"
    ensures Parse(Conversion('u', zero, width, a), 10) == 4_294_967_291
  {
    IntegersMean('u', zero, width, a);
    var f := Format(zero, width, 10, true, false);
    assert IntegerFormat('d', zero, width) == f;
    OneDigit();
    assert Sign(0xFFFF_FFFB, f) == "-" && Magnitude(0xFFFF_FFFB, f) == 5;
    assert Numeral(0xFFFF_FFFB, f) == "5";
    hide Digits, Count, Numeral, Sign, WordOf, Parse;
  }

  lemma OneDigit()
    ensures Text(Digits(5, 10, Count(5, 10)), false) == "5"
  {
    assert Digits(5, 10, 0) == [] && Count(5, 10) == 1;
  }
}
