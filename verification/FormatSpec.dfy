/** What a format string of the log printer stands for, directive by directive. */
module FormatSpec {
  import opened Words
  import opened IntegerPrinter

  /**
   The variable arguments: every int, long or pointer occupies one 32-bit slot. Strings are found in memory,
   without their terminating zero.
   */
  datatype Arguments = Arguments(slot: nat -> bv32, memory: bv32 -> string)

  function After(a: Arguments): Arguments {
    a.(slot := (n: nat) => a.slot(n + 1))
  }

  function First(a: Arguments): bv32 {
    a.slot(0)
  }

  /** Digit k (from the right) of a word in hexadecimal: shift and mask. */
  function Shifted(v: bv32, k: nat): bv32 {
    if k == 0 then v else Shifted(v >> 4, k - 1)
  }

  function LowNibble(v: bv32): (d: Digit) {
    (v & 0xF) as nat
  }

  /** The number that k hexadecimal digits of a word stand for. */
  function Unsigned(v: bv32, k: nat): nat {
    if k == 0 then 0 else 16 * Unsigned(v >> 4, k - 1) + LowNibble(v)
  }

  lemma {:induction false} UnsignedFits(v: bv32, k: nat)
    ensures Unsigned(v, k) < Power(16, k)
  {
    if k > 0 {
      UnsignedFits(v >> 4, k - 1);
    }
  }

  function WordOf(v: bv32): Word {
    UnsignedFits(v, 8);
    assert Power(16, 8) == 0x1_0000_0000;
    Unsigned(v, 8)
  }

  /** A transmit register keeps the low eight bits. */
  function CharOf(v: bv32): char {
    (v & 0xFF) as char
  }

  predicate IsDigit(c: char) {
    '0' <= c <= '9'
  }

  /** Characters that may stand between % and the conversion letter. */
  predicate IsModifier(c: char) {
    c == '.' || IsDigit(c) || c == 'l'
  }

  /** The number of modifiers at the start of s. */
  function Modifiers(s: string): (n: nat)
    ensures n <= |s|
  {
    if s == "" || !IsModifier(s[0]) then 0 else 1 + Modifiers(s[1..])
  }

  /** The digits in front of the first period. */
  function WidthDigits(mods: string): string {
    if mods == "" then ""
    else
      var front := WidthDigits(mods[..|mods| - 1]);
      var c := mods[|mods| - 1];
      if IsDigit(c) && '.' !in mods then front + [c] else front
  }

  /** The width, -1 when none is given. */
  function Width(mods: string): int {
    if WidthDigits(mods) == "" then -1 else ParseDigits(WidthDigits(mods), 10)
  }

  predicate IsInteger(c: char) {
    c in {'d', 'i', 'u', 'o', 'x', 'X'}
  }

  /** The format of an integer conversion. */
  function IntegerFormat(c: char, zero: bool, width: int): Format {
    Format(zero, width, if c == 'o' then 8 else if c == 'x' || c == 'X' then 16 else 10, c == 'd' || c == 'i', c == 'X')
  }

  predicate IsConversion(c: char) {
    IsInteger(c) || c == 'c' || c == 's'
  }

  /** What one conversion prints; letters that are not conversions print nothing. */
  function Conversion(c: char, zero: bool, width: int, a: Arguments): string {
    if IsInteger(c) then IntegerText(WordOf(First(a)), IntegerFormat(c, zero, width))
    else if c == 'c' then Repeat(' ', width - 1) + [CharOf(First(a))]
    else if c == 's' then Repeat(' ', width - |a.memory(First(a))|) + a.memory(First(a))
    else ""
  }

  function Consumed(c: char, a: Arguments): Arguments {
    if IsConversion(c) then After(a) else a
  }

  /** The rendering of a format: literal characters, %%, and directives; a directive cut short prints nothing. */
  function Render(fmt: string, a: Arguments): string
    decreases |fmt|, 1
  {
    if fmt == "" then ""
    else if fmt[0] != '%' then [fmt[0]] + Render(fmt[1..], a)
    else if |fmt| == 1 then ""
    else if fmt[1] == '%' then "%" + Render(fmt[2..], a)
    else if fmt[1] == '0' then Directive(true, "", fmt[2..], a)
    else Directive(false, "", fmt[1..], a)
  }

  /** A directive after its % and leading zero: modifiers, of which some were read already, and a letter. */
  function Directive(zero: bool, read: string, s: string, a: Arguments): string
    decreases |s|, 2
  {
    var n := Modifiers(s);
    if n == |s| then ""
    else Conversion(s[n], zero, Width(read + s[..n]), a) + Render(s[n + 1..], Consumed(s[n], a))
  }

  /** Reading one modifier does not change what the directive means. */
  lemma ReadModifier(zero: bool, read: string, s: string, a: Arguments)
    requires s != "" && IsModifier(s[0])
    ensures Directive(zero, read, s, a) == Directive(zero, read + [s[0]], s[1..], a)
  {
    var n := Modifiers(s);
    assert read + s[..n] == read + [s[0]] + s[1..][..n - 1];
  }
}
