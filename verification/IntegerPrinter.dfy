/** The integer conversions of alt_log_private_printf. */
module IntegerPrinter {
  import opened Words

  /** The bases of the conversions d, i, u (10), o (8), x and X (16). */
  type Base = b: nat | b == 8 || b == 10 || b == 16 witness 10

  type Digit = d: nat | d < 16

  function DigitChar(d: Digit, upper: bool): char {
    if d <= 9 then '0' + (d as char) else (if upper then 'A' else 'a') + ((d - 10) as char)
  }

  function DigitValue(c: char): int {
    if '0' <= c <= '9' then (c - '0') as int
    else if 'a' <= c <= 'f' then (c - 'a') as int + 10
    else if 'A' <= c <= 'F' then (c - 'A') as int + 10
    else -1
  }

  lemma DigitRoundTrip(d: Digit, upper: bool)
    ensures DigitValue(DigitChar(d, upper)) == d
  {
  }

  function Power(b: nat, k: nat): nat {
    if k == 0 then 1 else b * Power(b, k - 1)
  }

  /** The last k digits of v, most significant first, zeros included. */
  function Digits(v: nat, b: Base, k: nat): (s: seq<Digit>)
    ensures |s| == k
  {
    if k == 0 then [] else Digits(v / b, b, k - 1) + [v % b]
  }

  /** How many digits v has; zero has one. */
  function Count(v: nat, b: Base): (n: nat)
    ensures n > 0
  {
    if v < b then 1 else 1 + Count(v / b, b)
  }

  /** Dividing counts a digit, until nothing is left. */
  lemma CountOnce(v: nat, b: Base)
    ensures Count(v, b) == if v / b > 0 then 1 + Count(v / b, b) else 1
  {
  }

  function ValueOf(ds: seq<Digit>, b: Base): int {
    if ds == [] then 0 else ValueOf(ds[..|ds| - 1], b) * b + ds[|ds| - 1]
  }

  lemma {:induction false} DigitsValue(v: nat, b: Base, k: nat)
    requires v < Power(b, k)
    ensures ValueOf(Digits(v, b, k), b) == v
  {
    if k > 0 {
      QuotientBelow(v, b, Power(b, k - 1));
      DigitsValue(v / b, b, k - 1);
    }
  }

  lemma QuotientBelow(v: nat, b: nat, p: nat)
    requires b > 0 && v < b * p
    ensures v / b < p
  {
    assert v == b * (v / b) + v % b;
    if v / b >= p {
      Increasing(b, p, v / b);
    }
  }

  lemma Increasing(c: nat, x: nat, y: nat)
    requires x <= y
    ensures c * x <= c * y
  {
    assert c * y == c * x + c * (y - x);
  }

  /** Count is the number of digits needed: v fits, and the first digit is not a superfluous zero. */
  lemma {:induction false} CountFits(v: nat, b: Base)
    ensures v < Power(b, Count(v, b))
    ensures Count(v, b) > 1 ==> Power(b, Count(v, b) - 1) <= v
  {
    if v < b {
      assert Power(b, 1) == b * Power(b, 0);
    } else {
      CountFits(v / b, b);
      var n := Count(v / b, b);
      assert v == b * (v / b) + v % b;
      Increasing(b, v / b + 1, Power(b, n));
      if n > 1 {
        Increasing(b, Power(b, n - 1), v / b);
      } else {
        assert Power(b, 1) == b * Power(b, 0);
      }
    }
  }

  /** The first of k + 1 digits, by place value: how the printing loop takes them. */
  lemma {:induction false} FirstDigit(v: nat, b: Base, k: nat)
    requires v < Power(b, k + 1)
    ensures v / Power(b, k) < b
    ensures Digits(v, b, k + 1) == [v / Power(b, k)] + Digits(v % Power(b, k), b, k)
  {
    var p := Power(b, k);
    PowerPositive(b, k);
    QuotientBelow(v, p, b);
    if k == 0 {
      assert v / 1 == v && v % 1 == 0;
    } else {
      var p1 := Power(b, k - 1);
      PowerPositive(b, k - 1);
      QuotientBelow(v, b, p);
      FirstDigit(v / b, b, k - 1);
      DivisionSteps(v, b, p1);
    }
  }

  lemma PowerPositive(b: nat, k: nat)
    requires b > 0
    ensures Power(b, k) > 0
  {
  }

  /** Dividing by b and then by p, or by b * p. */
  lemma DivisionSteps(v: nat, b: nat, p: nat)
    requires b > 0 && p > 0
    ensures b * p > 0
    ensures v / b / p == v / (b * p)
    ensures v % (b * p) / b == v / b % p
    ensures v % (b * p) % b == v % b
  {
    var q, r := v / b, v % b;
    var q1, r1 := q / p, q % p;
    DivMods(v, b, q, r);
    DivMods(q, p, q1, r1);
    Assemble(b, p, q1, r1, r);
    DivMod(v, b * p, q1, b * r1 + r);
    DivMod(b * r1 + r, b, r1, r);
  }

  lemma DivMods(v: nat, d: nat, q: nat, r: nat)
    requires d > 0 && q == v / d && r == v % d
    ensures v == d * q + r && r < d
  {
  }

  lemma Assemble(b: nat, p: nat, q1: nat, r1: nat, r: nat)
    requires r < b && r1 < p
    ensures b * (p * q1 + r1) + r == b * p * q1 + (b * r1 + r)
    ensures 0 <= b * r1 + r < b * p
  {
    Increasing(b, r1 + 1, p);
    Increasing(b, 0, r1);
  }

  lemma DivMod(v: nat, d: nat, q: nat, r: nat)
    requires d > 0 && v == d * q + r && r < d
    ensures v / d == q && v % d == r
  {
    assert v == d * (v / d) + v % d;
    if v / d > q {
      Increasing(d, q + 1, v / d);
    } else if v / d < q {
      Increasing(d, v / d + 1, q);
    }
  }

  /** The place value of the leading digit. */
  function Place(v: nat, b: Base): nat {
    Power(b, Count(v, b) - 1)
  }

  /** A number of n digits, the first not zero, has exactly n digits. */
  lemma {:induction false} CountUnique(v: nat, b: Base, n: nat)
    requires n > 0 && v < Power(b, n) && (n > 1 ==> Power(b, n - 1) <= v)
    ensures n == Count(v, b)
  {
    CountFits(v, b);
    var m := Count(v, b);
    if m < n {
      PowerGrows(b, m, n - 1);
    } else if n < m {
      PowerGrows(b, n, m - 1);
    }
  }

  lemma {:induction false} PowerGrows(b: nat, m: nat, n: nat)
    requires b > 0 && m <= n
    ensures Power(b, m) <= Power(b, n)
  {
    if m < n {
      PowerGrows(b, m, n - 1);
      Increasing(Power(b, n - 1), 1, b);
    }
  }

  lemma TailOfAppended(xs: seq<nat>, d: nat, i: nat)
    requires i <= |xs|
    ensures (xs + [d])[i..] == xs[i..] + [d]
  {
  }

  /** The last digits of a longer expansion. */
  lemma {:induction false} LastDigits(v: nat, b: Base, m: nat, k: nat)
    requires k <= m
    ensures Digits(v, b, m)[m - k..] == Digits(v, b, k)
  {
    if k > 0 {
      LastDigits(v / b, b, m - 1, k - 1);
      TailOfAppended(Digits(v / b, b, m - 1), v % b, m - k);
    }
  }

  /** What is left of v after n divisions by b. */
  function Quotient(v: nat, b: Base, n: nat): nat {
    PowerPositive(b, n);
    v / Power(b, n)
  }

  /** One more division: while something is left, the next place is not above v. */
  lemma NextPlace(v: nat, b: Base, n: nat)
    ensures Quotient(v, b, n) > 0 ==> Power(b, n) <= v
    ensures Quotient(v, b, n + 1) == Quotient(v, b, n) / b
    ensures Power(b, n + 1) == b * Power(b, n)
  {
    PowerPositive(b, n);
    var p := Power(b, n);
    DivisionSteps(v, p, b);
    assert p * b == b * p;
    if v / p > 0 {
      assert v == p * (v / p) + v % p;
      Increasing(p, 1, v / p);
    }
  }

  /** The printing loop takes the first digit and keeps the remainder ... */
  lemma NextDigit(v: nat, b: Base, k: nat, p: nat, upper: bool)
    requires k > 0 && v < Power(b, k) && p == Power(b, k - 1) && p > 0
    ensures v / p < b && v % p < p && v % p <= v
    ensures Text(Digits(v, b, k), upper) == [DigitChar(v / p, upper)] + Text(Digits(v % p, b, k - 1), upper)
  {
    FirstDigit(v, b, k - 1);
    AtMost(v, p);
  }

  lemma AtMost(v: nat, p: nat)
    requires p > 0
    ensures v % p < p && v % p <= v
  {
    assert v == p * (v / p) + v % p;
    Increasing(p, 0, v / p);
  }

  /** ... and goes to the next place. */
  lemma PlaceBelow(b: Base, k: nat, p: nat)
    requires k > 0 && p == Power(b, k - 1) && p > 0
    ensures 0 <= p / b <= p
    ensures if p / b > 0 then k > 1 && p / b == Power(b, k - 2) else k == 1
  {
    if k > 1 {
      PowerPositive(b, k - 2);
      Increasing(Power(b, k - 2), 1, b);
      DivMod(p, b, Power(b, k - 2), 0);
    }
  }

  /** Digits as characters. */
  function Text(ds: seq<Digit>, upper: bool): (t: string)
    ensures |t| == |ds|
  {
    seq(|ds|, i requires 0 <= i < |ds| => DigitChar(ds[i], upper))
  }

  function Repeat(c: char, n: int): (t: string)
    ensures |t| == if n > 0 then n else 0
  {
    seq(if n > 0 then n else 0, _ => c)
  }

  /** The fields collected from a directive: leading zero, width (-1 if none), base, signedness and case. */
  datatype Format = Format(zero: bool, width: int, base: Base, signed: bool, upper: bool)

  predicate Negative(v: Word, f: Format) {
    f.signed && v >= 0x8000_0000
  }

  /** The value the word stands for. */
  function Meaning(v: Word, f: Format): int {
    if Negative(v, f) then v - WORD_LIMIT else v
  }

  function Magnitude(v: Word, f: Format): Word {
    if Negative(v, f) then WORD_LIMIT - v else v
  }

  function Sign(v: Word, f: Format): string {
    if Negative(v, f) then "-" else ""
  }

  /** The digits of the magnitude, without superfluous zeros. */
  function Numeral(v: Word, f: Format): (t: string)
    ensures |t| == Count(Magnitude(v, f), f.base)
  {
    Text(Digits(Magnitude(v, f), f.base, Count(Magnitude(v, f), f.base)), f.upper)
  }

  /** A converted integer: zeros go after the sign, blanks before it. */
  function IntegerText(v: Word, f: Format): string {
    var room := f.width - |Sign(v, f)| - |Numeral(v, f)|;
    if f.zero then Sign(v, f) + Repeat('0', room) + Numeral(v, f)
    else Repeat(' ', room) + Sign(v, f) + Numeral(v, f)
  }

  /** Reading digits, and reading blanks, a sign and digits. */
  function ParseDigits(t: string, b: Base): int {
    if t == "" then 0 else ParseDigits(t[..|t| - 1], b) * b + DigitValue(t[|t| - 1])
  }

  function Parse(t: string, b: Base): int {
    if t == "" then 0
    else if t[0] == ' ' then Parse(t[1..], b)
    else if t[0] == '-' then -ParseDigits(t[1..], b)
    else ParseDigits(t, b)
  }

  /** Reading back, after any number of zeros, gives the number. */
  lemma {:induction false} ParseZeros(n: int, b: Base)
    ensures ParseDigits(Repeat('0', n), b) == 0
  {
    if n > 0 {
      assert Repeat('0', n)[..n - 1] == Repeat('0', n - 1);
      ParseZeros(n - 1, b);
    }
  }

  lemma {:induction false} ParseText(zeros: int, ds: seq<Digit>, upper: bool, b: Base)
    ensures ParseDigits(Repeat('0', zeros) + Text(ds, upper), b) == ValueOf(ds, b)
  {
    var t := Repeat('0', zeros) + Text(ds, upper);
    if ds == [] {
      assert t == Repeat('0', zeros);
      ParseZeros(zeros, b);
    } else {
      var front := ds[..|ds| - 1];
      assert t[..|t| - 1] == Repeat('0', zeros) + Text(front, upper);
      assert t[|t| - 1] == DigitChar(ds[|ds| - 1], upper);
      DigitRoundTrip(ds[|ds| - 1], upper);
      ParseText(zeros, front, upper, b);
    }
  }

  lemma {:induction false} ParseBlanks(n: int, t: string, b: Base)
    ensures Parse(Repeat(' ', n) + t, b) == Parse(t, b)
  {
    if n <= 0 {
      assert Repeat(' ', n) + t == t;
    } else {
      assert (Repeat(' ', n) + t)[1..] == Repeat(' ', n - 1) + t;
      ParseBlanks(n - 1, t, b);
    }
  }

  /** Sign and digits, with or without zeros between them. */
  lemma ParseSigned(sign: string, zeros: int, ds: seq<Digit>, upper: bool, b: Base)
    requires sign == "" || sign == "-"
    requires ds != []
    ensures Parse(sign + (Repeat('0', zeros) + Text(ds, upper)), b)
      == if sign == "-" then -ValueOf(ds, b) else ValueOf(ds, b)
  {
    var t := Repeat('0', zeros) + Text(ds, upper);
    ParseText(zeros, ds, upper, b);
    if sign == "-" {
      assert (sign + t)[1..] == t;
    } else {
      assert sign + t == t;
      assert t[0] == '0' || t[0] == DigitChar(ds[0], upper);
      assert DigitChar(ds[0], upper) != ' ' && DigitChar(ds[0], upper) != '-';
    }
  }

  /** Printing inverts parsing for every word, base, width, padding and case, the smallest integer included. */
  lemma PrintThenParse(v: Word, f: Format)
    ensures Parse(IntegerText(v, f), f.base) == Meaning(v, f)
  {
    var m := Magnitude(v, f);
    var n := Count(m, f.base);
    CountFits(m, f.base);
    DigitsValue(m, f.base, n);
    Layout(v, f);
    hide *;
    var ds := Digits(m, f.base, n);
    var room := f.width - |Sign(v, f)| - |Numeral(v, f)|;
    ParseSigned(Sign(v, f), if f.zero then room else 0, ds, f.upper, f.base);
    ParseBlanks(if f.zero then 0 else room, Sign(v, f)
        + (Repeat('0', if f.zero then room else 0) + Text(ds, f.upper)), f.base);
    SignedMagnitude(v, f);
  }

  lemma SignedMagnitude(v: Word, f: Format)
    ensures Sign(v, f) == if Negative(v, f) then "-" else ""
    ensures if Negative(v, f) then Meaning(v, f) + Magnitude(v, f) == 0 else Meaning(v, f) == Magnitude(v, f)
  {
  }

  /** Blanks, sign, zeros and digits: one of the two paddings is empty. */
  lemma Layout(v: Word, f: Format)
    ensures var m, room := Magnitude(v, f), f.width - |Sign(v, f)| - |Numeral(v, f)|;
      IntegerText(v, f) == Repeat(' ', if f.zero then 0 else room)
        + (Sign(v, f) + (Repeat('0', if f.zero then room else 0) + Text(Digits(m, f.base, Count(m, f.base)), f.upper)))
  {
  }

  /** The text is as long as asked for, or as long as needed; its last characters are the numeral ... */
  lemma PrintedLength(v: Word, f: Format)
    ensures var t, needed := IntegerText(v, f), |Sign(v, f)| + |Numeral(v, f)|;
      && |t| == (if f.width > needed then f.width else needed)
      && t[|t| - |Numeral(v, f)|..] == Numeral(v, f)
  {
  }

  /** ... which starts with 0 only when the word is 0. */
  lemma NoSuperfluousZero(v: Word, f: Format)
    ensures Numeral(v, f)[0] == '0' <==> v == 0
  {
    LeadingDigit(Magnitude(v, f), f.base);
    DigitRoundTrip(Digits(Magnitude(v, f), f.base, Count(Magnitude(v, f), f.base))[0], f.upper);
    hide Digits, Count;
  }

  lemma LeadingDigit(m: nat, b: Base)
    ensures Digits(m, b, Count(m, b))[0] == 0 <==> m == 0
  {
    var n := Count(m, b);
    var p := Power(b, n - 1);
    CountFits(m, b);
    FirstDigit(m, b, n - 1);
    PowerPositive(b, n - 1);
    if n > 1 {
      AtLeastOne(m, p);
    } else {
      assert p == 1 && m / p == m;
    }
  }

  lemma AtLeastOne(m: nat, p: nat)
    requires 0 < p <= m
    ensures m / p >= 1
  {
    assert m == p * (m / p) + m % p;
  }
}
