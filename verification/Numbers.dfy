/**
  Number text in `cast`: radix printing into a fixed buffer, signed text over
  two's complement, and fixed-point printing.
 */
module Numbers {
  import opened Prelude
  import opened Numerals

  const WORD: int := 0x1_0000000000000000_0000000000000000_0000000000000000_0000000000000000
  const HALF: int := 0x8000000000000000_0000000000000000_0000000000000000_0000000000000000

  type u256 = x: int | 0 <= x < WORD

  datatype Base = Binary | Octal | Decimal | Hexadecimal {
    function Radix(): (r: nat)
      ensures 2 <= r <= 16
    {
      match this case Binary => 2 case Octal => 8 case Decimal => 10 case Hexadecimal => 16
    }
  }

  datatype NumberWithBase = NumberWithBase(number: u256, isNonnegative: bool, base: Base)

  lemma HalfWordIsPower()
    ensures Pow(2, 128) == 0x1_0000000000000000_0000000000000000
  {
    assert Pow(2, 4) == 16;
    hide Pow;
    assert Pow(2, 8) == 0x100 by { PowAdd(2, 4, 4); }
    assert Pow(2, 16) == 0x1_0000 by { PowAdd(2, 8, 8); }
    assert Pow(2, 32) == 0x1_0000_0000 by { PowAdd(2, 16, 16); }
    assert Pow(2, 64) == 0x1_0000_0000_0000_0000 by { PowAdd(2, 32, 32); }
    PowAdd(2, 64, 64);
  }

  lemma WordIsPower()
    ensures Pow(2, 256) == WORD && Pow(2, 255) == HALF
  {
    assert Pow(2, 256) == 2 * Pow(2, 255);
    hide Pow;
    HalfWordIsPower();
    PowAdd(2, 128, 128);
  }

  lemma {:induction false} PowBases(a: nat, b: nat, k: nat)
    requires a <= b
    ensures Pow(a, k) <= Pow(b, k)
  {
    if k > 0 {
      PowBases(a, b, k - 1);
      MulMonotone(Pow(a, k - 1), Pow(b, k - 1), a);
      MulMonotone(a, b, Pow(b, k - 1));
    }
  }

  lemma FitsBuffer(number: u256, r: nat)
    requires r >= 2
    ensures number < Pow(r, 256)
  {
    WordIsPower();
    PowBases(2, r, 256);
  }

  // ---- Radix printing ----

  /**
    `format_radix` fills a 256-character buffer from its end. The buffer is never
    overrun, and the text is the numeral of the number.
   */
  method FormatRadix(number: u256, base: Base) returns (s: string)
    requires base in {Binary, Octal}
    ensures s == Numeral(number, base.Radix())
    ensures base == Binary ==> IsNumeral(s, 2) && Value(s, 2) == number
    ensures base == Octal ==> IsNumeral(s, 8) && Value(s, 8) == number
    ensures s != "" && (s[0] == '0' <==> number == 0)
  {
    hide Pow, Numeral;
    var r := base.Radix();
    FitsBuffer(number, r);
    var buf := new char[256](_ => '\0');
    var x: nat := number;
    var i := 255;
    while true
      invariant 0 <= i <= 255 && buf.Length == 256
      invariant x < Pow(r, i + 1)
      invariant Numeral(number, r) == Numeral(x, r) + buf[i + 1..]
      decreases i
    {
      PlaceStep(x, r, i);
      var m := x % r;
      ghost var before := buf[i + 1..];
      buf[i] := HexChar(m);
      assert buf[i..] == [HexChar(m)] + before;
      x := x / r;
      if x == 0 {
        break;
      }
      i := i - 1;
    }
    s := buf[i..];
    NumeralValue(number, r);
  }

  lemma PlaceStep(x: nat, r: nat, i: nat)
    requires 2 <= r <= 16 && x < Pow(r, i + 1)
    ensures x / r < Pow(r, i)
    ensures x / r == 0 ==> Numeral(x, r) == [HexChar(x % r)]
    ensures x / r > 0 ==> i > 0 && Numeral(x, r) == Numeral(x / r, r) + [HexChar(x % r)]
  {
    assert Pow(r, i + 1) == r * Pow(r, i) && (i == 0 ==> Pow(r, i) == 1);
    hide Pow, HexChar;
    DivBelowExactly(x, r, Pow(r, i));
    SmallQuotient(x, r);
  }

  lemma SmallQuotient(x: nat, r: nat)
    requires r > 0
    ensures x / r == 0 <==> x < r
    ensures x < r ==> x % r == x
  {
  }

  /** The binary text of a negative two's-complement word fills all 256 places. */
  lemma NegativeFillsBuffer(number: u256)
    ensures |Numeral(number, 2)| <= 256
    ensures |Numeral(number, 2)| == 256 <==> number >= HALF
    ensures |Numeral(number, 8)| <= 86
  {
    WordIsPower();
    NumeralLength(number, 2, 256);
    NumeralLength(number, 2, 255);
    EightToTheEightySix();
    NumeralLength(number, 8, 86);
  }

  lemma EightToTheEightySix()
    ensures WORD <= Pow(8, 86)
  {
    assert Pow(8, 5) == 32768;
    PowAdd(8, 5, 5);
    PowAdd(8, 10, 11);
    assert Pow(8, 11) == 8 * Pow(8, 10);
    PowAdd(8, 21, 21);
    assert Pow(8, 43) == 8 * Pow(8, 42);
    PowAdd(8, 43, 43);
  }

  // ---- Parsing ----

  function GetSign(s: string): (string, bool) {
    if s != "" && s[0] == '+' then (s[1..], false)
    else if s != "" && s[0] == '-' then (s[1..], true)
    else (s, false)
  }

  /** Binary and octal text is refused; decimal and hexadecimal must fit the word. */
  function ParseUint(s: string, base: Base): Option<u256> {
    match base
    case Decimal =>
      if IsNumeral(s, 10) && Value(s, 10) < WORD then Some(Value(s, 10)) else None
    case Hexadecimal =>
      var h := Strip(s, "0x");
      if |h| <= 64 && IsNumeral(h, 16) && Value(h, 16) < WORD then Some(Value(h, 16)) else None
    case _ => None
  }

  /** Signs are skipped; text that looks binary or octal can not be parsed later. */
  function Detect(s: string): Option<Base> {
    if s != "" && s[0] in "+-" then Detect(s[1..])
    else if "0b" <= s || "0o" <= s then None
    else if "0x" <= s then (if ParseUint(s, Hexadecimal).Some? then Some(Hexadecimal) else None)
    else if ParseUint(s, Decimal).Some? then Some(Decimal)
    else if ParseUint(s, Hexadecimal).Some? then Some(Hexadecimal)
    else None
  }

  /** Inverts all bits and adds one, wrapping around. */
  function Negate(n: u256): u256 {
    (WORD - 1 - n + 1) % WORD
  }

  /** Sign, magnitude and base of a number text. */
  function ParseParts(s: string): Option<(bool, u256, Base)> {
    var base :- Detect(s);
    var (t, negative) := GetSign(s);
    var n :- ParseUint(t, base);
    Some((negative, n, base))
  }

  function ParseInt(s: string): Option<NumberWithBase> {
    var (negative, n, base) :- ParseParts(s);
    Some(NumberWithBase(if negative then Negate(n) else n, !negative, base))
  }

  function Signed(negative: bool, magnitude: int): int {
    if negative then -magnitude else magnitude
  }

  /** The integer a number text denotes. */
  function Denoted(s: string): Option<int> {
    var (negative, n, _) :- ParseParts(s);
    Some(Signed(negative, n))
  }

  // ---- Printing ----

  /** The text of a word read as a signed 256-bit integer. */
  function SignedText(raw: u256): string {
    if raw >= HALF then "-" + Numeral(WORD - raw, 10) else Numeral(raw, 10)
  }

  function Format(n: NumberWithBase): string {
    match n.base
    case Decimal =>
      if n.isNonnegative then Numeral(n.number, 10) else Strip(SignedText(n.number), "-")
    case _ => Numeral(n.number, n.base.Radix())
  }

  /** `Display`: decimal, with a sign unless the number is zero. */
  function Display(n: NumberWithBase): string {
    if n.number == 0 then "0"
    else (if n.isNonnegative then "" else "-") + Format(n.(base := Decimal))
  }

  lemma DecimalDetected(s: string)
    requires IsNumeral(s, 10) && Value(s, 10) < WORD
    ensures Detect(s) == Some(Decimal) && GetSign(s) == (s, false)
  {
    if s != "" {
      assert IsDigit(s[0], 10);
    }
    if |s| >= 2 {
      assert IsDigit(s[1], 10);
    }
  }

  lemma MinusDetected(n: u256)
    ensures ParseInt("-" + Numeral(n, 10)) == Some(NumberWithBase(Negate(n), false, Decimal))
    ensures Denoted("-" + Numeral(n, 10)) == Some(Signed(true, n))
  {
    hide Value;
    var t := Numeral(n, 10);
    NumeralValue(n, 10);
    DecimalDetected(t);
    assert ("-" + t)[1..] == t;
  }

  lemma NoMinus(n: nat)
    ensures Strip(Numeral(n, 10), "-") == Numeral(n, 10)
    ensures Strip("-" + Numeral(n, 10), "-") == Numeral(n, 10)
  {
    NumeralValue(n, 10);
    assert IsDigit(Numeral(n, 10)[0], 10);
    assert ("-" + Numeral(n, 10))[1..] == Numeral(n, 10);
  }

  /** The magnitude printed for a negated n: wrong once it exceeds 2^255. */
  function Magnitude(n: u256): nat {
    if n <= HALF then n else WORD - n
  }

  lemma NegatedFormat(n: u256)
    requires n > 0
    ensures Negate(n) == WORD - n
    ensures Format(NumberWithBase(Negate(n), false, Decimal)) == Numeral(Magnitude(n), 10)
  {
    NoMinus(n);
    NoMinus(WORD - n);
  }

  /** "-n" survives parsing and printing exactly for n from 1 to 2^255. */
  lemma SignedRoundTrip(n: u256)
    ensures var text := "-" + Numeral(n, 10);
            && ParseInt(text).Some?
            && ParseInt(text).value.number == (if n == 0 then 0 else WORD - n)
            && (Display(ParseInt(text).value) == text <==> 1 <= n <= HALF)
  {
    MinusDetected(n);
    NumeralValue(n, 10);
    if n > 0 {
      NegatedFormat(n);
      if n > HALF {
        if Numeral(WORD - n, 10) == Numeral(n, 10) {
          NumeralInjective(WORD - n, n, 10);
        }
        assert ("-" + Numeral(WORD - n, 10))[1..] == Numeral(WORD - n, 10);
        assert ("-" + Numeral(n, 10))[1..] == Numeral(n, 10);
      }
    } else {
      assert ("-" + Numeral(n, 10))[0] == '-';
    }
  }

  lemma UnsignedRoundTrip(n: u256)
    ensures var text := Numeral(n, 10);
            ParseInt(text) == Some(NumberWithBase(n, true, Decimal)) && Display(ParseInt(text).value) == text
  {
    NumeralValue(n, 10);
    DecimalDetected(Numeral(n, 10));
  }

  lemma SixtyFourHexDigits()
    ensures Pow(16, 64) == WORD
  {
    assert Pow(16, 2) == 0x100;
    hide Pow;
    assert Pow(16, 4) == 0x1_0000 by { PowAdd(16, 2, 2); }
    assert Pow(16, 8) == 0x1_0000_0000 by { PowAdd(16, 4, 4); }
    assert Pow(16, 16) == 0x1_0000_0000_0000_0000 by { PowAdd(16, 8, 8); }
    PowAdd(16, 16, 16);
    PowAdd(16, 32, 32);
  }

  /** Prefixed hexadecimal text is read as the word it spells. */
  lemma HexadecimalRead(n: u256)
    ensures var text := "0x" + Numeral(n, 16);
            && ParseInt(text) == Some(NumberWithBase(n, true, Hexadecimal))
            && Display(ParseInt(text).value) == Numeral(n, 10)
  {
    hide Value, Numeral, Pow;
    var h := Numeral(n, 16);
    NumeralValue(n, 16);
    NumeralValue(n, 10);
    SixtyFourHexDigits();
    NumeralLength(n, 16, 64);
    var text := "0x" + h;
    assert text[0] == '0' && text[1] == 'x' && text[2..] == h;
    assert "0b"[1] == 'b' && "0o"[1] == 'o';
    assert "0x" <= text;
  }

  /**
    The number texts: one optional sign, then decimal digits below 2^256, or up to
    64 hexadecimal digits, which without prefix must not be all decimal and must
    not start with what looks like a binary prefix.
   */
  ghost predicate Denotes(s: string, negative: bool, n: u256, base: Base) {
    var signed := s != "" && (s[0] == '+' || s[0] == '-');
    var t := if signed then s[1..] else s;
    var prefixed := |t| >= 2 && t[0] == '0' && t[1] == 'x';
    var h := if prefixed then t[2..] else t;
    && negative == (signed && s[0] == '-')
    && match base
       case Decimal => IsNumeral(t, 10) && Value(t, 10) == n
       case Hexadecimal =>
         && |h| <= 64 && IsNumeral(h, 16) && Value(h, 16) == n
         && (!prefixed ==> !IsNumeral(t, 10) && !(|t| >= 2 && t[0] == '0' && t[1] == 'b'))
       case _ => false
  }

  lemma PlaceBound(v: nat, p: nat, radix: nat, d: nat)
    requires v < p && d < radix
    ensures v * radix + d < radix * p
  {
    MulMonotone(v, p - 1, radix);
  }

  lemma {:induction false} ValueBelowPower(s: string, radix: nat)
    requires IsNumeral(s, radix)
    ensures Value(s, radix) < Pow(radix, |s|)
  {
    if s != "" {
      hide HexDigit;
      var n := |s| - 1;
      ValueBelowPower(s[..n], radix);
      assert IsDigit(s[n], radix);
      PlaceBound(Value(s[..n], radix), Pow(radix, n), radix, HexDigit(s[n]).value);
    }
  }

  /** Numbers of up to 64 digits fit the word. */
  lemma SixtyFourFit(s: string, radix: nat)
    requires radix in {10, 16} && IsNumeral(s, radix) && |s| <= 64
    ensures Value(s, radix) < WORD
  {
    hide Value, Pow;
    ValueBelowPower(s, radix);
    PowGrows(radix, |s|, 64);
    PowBases(radix, 16, 64);
    SixtyFourHexDigits();
  }

  predicate Starts(t: string, c: char) {
    |t| >= 2 && t[0] == '0' && t[1] == c
  }

  lemma Prefixes(t: string)
    ensures "0b" <= t <==> Starts(t, 'b')
    ensures "0o" <= t <==> Starts(t, 'o')
    ensures "0x" <= t <==> Starts(t, 'x')
    ensures Starts(t, 'b') || Starts(t, 'o') || Starts(t, 'x') ==> !IsNumeral(t, 10)
    ensures Starts(t, 'o') || Starts(t, 'x') ==> !IsNumeral(t, 16)
    ensures t != "" && t[0] in "+-" ==> !IsNumeral(t, 10) && !IsNumeral(t, 16)
  {
    assert "0b"[0] == '0' && "0o"[0] == '0' && "0x"[0] == '0';
    assert "0b"[1] == 'b' && "0o"[1] == 'o' && "0x"[1] == 'x';
    if Starts(t, 'b') || Starts(t, 'o') || Starts(t, 'x') {
      assert !IsDigit(t[1], 10);
    }
    if Starts(t, 'o') || Starts(t, 'x') {
      assert !IsDigit(t[1], 16);
    }
    if t != "" && t[0] in "+-" {
      assert !IsDigit(t[0], 16);
    }
  }

  /** Unsigned text: what its first parse settles on. */
  lemma UnsignedParse(t: string, n: u256, base: Base)
    requires t == "" || t[0] !in "+-"
    ensures Detect(t) == Some(base) && ParseUint(t, base) == Some(n) <==> Denotes(t, false, n, base)
  {
    hide Value, IsNumeral, Starts;
    Prefixes(t);
    var h := Strip(t, "0x");
    if IsNumeral(h, 16) && |h| <= 64 {
      SixtyFourFit(h, 16);
    }
    if IsNumeral(t, 10) && |t| <= 64 {
      SixtyFourFit(t, 10);
    }
  }

  /** Parsing answers on the number texts and nothing else. */
  lemma ParseExactly(s: string, negative: bool, n: u256, base: Base)
    ensures ParseParts(s) == Some((negative, n, base)) <==> Denotes(s, negative, n, base)
    ensures var raw := if negative && n > 0 then WORD - n else n;
            ParseInt(s) == Some(NumberWithBase(raw, !negative, base)) <==> Denotes(s, negative, n, base)
  {
    hide Value, IsNumeral, Denotes;
    var (t, minus) := GetSign(s);
    Prefixes(t);
    if t == "" || t[0] !in "+-" {
      UnsignedParse(t, n, base);
    }
    SignSplit(s, negative, n, base);
  }

  lemma SignSplit(s: string, negative: bool, n: u256, base: Base)
    ensures var (t, minus) := GetSign(s);
            Denotes(s, negative, n, base) <==>
              negative == minus && (t == "" || t[0] !in "+-") && Denotes(t, false, n, base)
  {
    hide Value, IsNumeral;
    Prefixes(GetSign(s).0);
  }

  /** A plus sign changes nothing. */
  lemma PlusRead(n: u256)
    ensures ParseInt("+" + Numeral(n, 10)) == Some(NumberWithBase(n, true, Decimal))
    ensures Denoted("+" + Numeral(n, 10)) == Some(n) && Denoted(Numeral(n, 10)) == Some(n)
  {
    hide Value;
    var t := Numeral(n, 10);
    NumeralValue(n, 10);
    DecimalDetected(t);
    assert ("+" + t)[1..] == t;
  }

  /** Unprefixed text is hexadecimal when it is not decimal. */
  lemma BareHexadecimalRead(n: u256)
    requires !IsNumeral(Numeral(n, 16), 10)
    ensures ParseInt(Numeral(n, 16)) == Some(NumberWithBase(n, true, Hexadecimal))
  {
    hide Value, Numeral, Pow, HexDigit;
    var h := Numeral(n, 16);
    NumeralValue(n, 16);
    SixtyFourHexDigits();
    NumeralLength(n, 16, 64);
    NoPrefix(h);
  }

  lemma NoPrefix(h: string)
    requires h != "" && IsNumeral(h, 16) && (h[0] == '0' ==> h == "0")
    ensures !("0b" <= h) && !("0o" <= h) && !("0x" <= h) && h[0] !in "+-"
    ensures Strip(h, "0x") == h && GetSign(h) == (h, false)
  {
    assert IsDigit(h[0], 16);
    assert "0b"[0] == '0' && "0o"[0] == '0' && "0x"[0] == '0';
  }

  /** In every base but ten the text is the word itself, in base ten its magnitude. */
  lemma FormatValue(n: NumberWithBase)
    ensures n.base == Binary ==> IsNumeral(Format(n), 2) && Value(Format(n), 2) == n.number
    ensures n.base == Octal ==> IsNumeral(Format(n), 8) && Value(Format(n), 8) == n.number
    ensures n.base == Hexadecimal ==> IsNumeral(Format(n), 16) && Value(Format(n), 16) == n.number
    ensures n.base == Decimal ==>
              && IsNumeral(Format(n), 10)
              && Value(Format(n), 10) ==
                 if n.isNonnegative || n.number < HALF then n.number else WORD - n.number
  {
    hide Value, Numeral;
    NumeralValue(n.number, n.base.Radix());
    NumeralValue(WORD - n.number, 10);
    NumeralValue(n.number, 10);
    NoMinus(n.number);
    NoMinus(WORD - n.number);
  }

  // ---- Fixed point ----

  function Zeros(k: nat): string {
    seq(k, _ => '0')
  }

  /** Puts the point before the last `decimals` digits, padding with zeros. */
  function InsertPoint(digits: string, decimals: nat): string {
    if decimals >= |digits| then "0." + Zeros(decimals - |digits|) + digits
    else digits[..|digits| - decimals] + "." + digits[|digits| - decimals..]
  }

  function ToFixedPoint(value: string, decimals: string): Option<string> {
    var number :- ParseInt(value);
    var places :- Places(decimals);
    var sign := if number.isNonnegative then "" else "-";
    Some(sign + InsertPoint(Strip(Display(number), "-"), places))
  }

  /** The number of decimals: unsigned text, of which the low 64 bits count. */
  function Places(decimals: string): Option<nat> {
    var base :- Detect(decimals);
    var count :- ParseUint(decimals, base);
    Some(count % 0x1_0000_0000_0000_0000)
  }

  // Reading a fixed-point text back, independently of how it was made.

  function IndexOf(s: string, c: char): (i: nat)
    ensures i <= |s|
    ensures forall k :: 0 <= k < i ==> s[k] != c
    ensures i < |s| ==> s[i] == c
  {
    if s == "" || s[0] == c then 0 else 1 + IndexOf(s[1..], c)
  }

  function Rational(whole: nat, fraction: nat, unit: nat): real
    requires unit > 0
  {
    whole as real + fraction as real / unit as real
  }

  /** The rational a text such as -12.50 denotes, with its number of decimals. */
  function ReadFixed(text: string): Option<(real, nat)> {
    var (t, negative) := GetSign(text);
    var i := IndexOf(t, '.');
    if i == |t| || !IsNumeral(t[..i], 10) || !IsNumeral(t[i + 1..], 10) then None
    else
      var whole, fraction := t[..i], t[i + 1..];
      PowPositive(10, |fraction|);
      var magnitude := Rational(Value(whole, 10), Value(fraction, 10), Pow(10, |fraction|));
      Some((if negative then -magnitude else magnitude, |fraction|))
  }

  lemma IndexOfPoint(whole: string, fraction: string)
    requires IsNumeral(whole, 10)
    ensures IndexOf(whole + "." + fraction, '.') == |whole|
  {
    var s := whole + "." + fraction;
    forall k | 0 <= k < |whole|
      ensures s[k] != '.'
    {
      assert s[k] == whole[k] && IsDigit(whole[k], 10);
    }
    assert s[|whole|] == '.';
  }

  lemma RationalOverUnit(w: nat, f: nat, p: nat)
    requires p > 0
    ensures Rational(w, f, p) == (w * p + f) as real / p as real
  {
    assert (w * p + f) as real == w as real * p as real + f as real;
    assert w as real * p as real / p as real == w as real;
  }

  lemma SignOf(t: string, negative: bool)
    requires t != "" && IsDigit(t[0], 10)
    ensures GetSign((if negative then "-" else "") + t) == (t, negative)
  {
    if negative {
      assert ("-" + t)[1..] == t;
    } else {
      assert "" + t == t;
    }
  }

  lemma ReadFixedParts(whole: string, fraction: string, negative: bool)
    requires whole != "" && IsNumeral(whole, 10) && IsNumeral(fraction, 10)
    ensures Pow(10, |fraction|) > 0
    ensures var q := Rational(Value(whole, 10), Value(fraction, 10), Pow(10, |fraction|));
            ReadFixed((if negative then "-" else "") + (whole + "." + fraction))
            == Some((if negative then -q else q, |fraction|))
  {
    hide Value, Pow, Rational, HexDigit, GetSign, IndexOf;
    PowPositive(10, |fraction|);
    var t := whole + "." + fraction;
    SignOf(t, negative);
    IndexOfPoint(whole, fraction);
    assert t[..|whole|] == whole && t[|whole| + 1..] == fraction;
  }

  /** Both branches place the point so that the text is digits / 10^decimals. */
  lemma InsertPointValue(digits: string, decimals: nat, negative: bool)
    requires IsNumeral(digits, 10) && digits != ""
    ensures Pow(10, decimals) > 0
    ensures var q := Value(digits, 10) as real / Pow(10, decimals) as real;
            ReadFixed((if negative then "-" else "") + InsertPoint(digits, decimals))
            == Some((if negative then -q else q, decimals))
  {
    hide Value, InsertPoint, ReadFixed, Pow, Rational;
    var whole, fraction := SplitAtPoint(digits, decimals);
    ReadFixedParts(whole, fraction, negative);
    RationalOverUnit(Value(whole, 10), Value(fraction, 10), Pow(10, decimals));
  }

  lemma SplitAtPoint(digits: string, decimals: nat) returns (whole: string, fraction: string)
    requires IsNumeral(digits, 10) && digits != ""
    ensures whole != "" && IsNumeral(whole, 10) && IsNumeral(fraction, 10) && |fraction| == decimals
    ensures InsertPoint(digits, decimals) == whole + "." + fraction
    ensures whole == if decimals >= |digits| then "0" else digits[..|digits| - decimals]
    ensures Value(whole, 10) * Pow(10, decimals) + Value(fraction, 10) == Value(digits, 10)
  {
    hide Value, Pow, HexDigit;
    var n := |digits|;
    if decimals >= n {
      var z := Zeros(decimals - n);
      whole, fraction := "0", z + digits;
      assert InsertPoint(digits, decimals) == whole + "." + fraction;
      ZerosValue(decimals - n, 10);
      ValueConcat(z, digits, 10);
      ZerosValue(1, 10);
      assert whole == seq(1, _ => '0');
      ZeroProducts(Pow(10, decimals), Pow(10, n));
    } else {
      whole, fraction := digits[..n - decimals], digits[n - decimals..];
      ValueConcat(whole, fraction, 10);
      assert whole + fraction == digits;
    }
  }

  lemma ZeroProducts(x: int, y: int)
    ensures 0 * x == 0 && 0 * y == 0
  {
  }

  /**
    `to_fixed_point` prints the denoted integer over 10^decimals, with exactly
    that many decimals, unless the integer lies below -2^255; then it does not.
   */
  lemma FixedPointValue(value: string, decimals: string)
    requires ToFixedPoint(value, decimals).Some?
    ensures Denoted(value).Some? && Places(decimals).Some?
    ensures var v, d := Denoted(value).value, Places(decimals).value;
            var read := ReadFixed(ToFixedPoint(value, decimals).value);
            && Pow(10, d) > 0
            && read.Some? && read.value.1 == d
            && (read.value.0 == v as real / Pow(10, d) as real <==> v >= -HALF)
  {
    hide Value, Numeral, ReadFixed, InsertPoint, Detect, Display, Pow, ParseUint;
    var number := ParseInt(value).value;
    var d := Places(decimals).value;
    var m := DisplayedMagnitude(value);
    PowPositive(10, d);
    NumeralValue(m, 10);
    InsertPointValue(Numeral(m, 10), d, !number.isNonnegative);
    SameQuotient(Signed(!number.isNonnegative, m), Denoted(value).value, Pow(10, d));
    NegatedQuotient(m, Pow(10, d));
  }

  lemma PlacesRead(d: nat)
    requires d < 0x1_0000_0000_0000_0000
    ensures Places(Numeral(d, 10)) == Some(d)
  {
    hide Value, Numeral, Detect, HexDigit;
    NumeralValue(d, 10);
    DecimalDetected(Numeral(d, 10));
    assert ParseUint(Numeral(d, 10), Decimal) == Some(d);
  }

  /** The point splits a numeral into quotient and remainder by the power of ten. */
  lemma InsertPointText(m: nat, d: nat) returns (fraction: string)
    ensures Pow(10, d) > 0
    ensures InsertPoint(Numeral(m, 10), d) == Numeral(m / Pow(10, d), 10) + "." + fraction
    ensures |fraction| == d && IsNumeral(fraction, 10) && Value(fraction, 10) == m % Pow(10, d)
  {
    hide Value, Pow, HexDigit, Numeral, InsertPoint;
    PowPositive(10, d);
    var q, rest := Divided(m, Pow(10, d));
    NumeralValue(m, 10);
    NumeralValue(q, 10);
    QuotientDigits(m, d, q);
    var whole;
    whole, fraction := SplitAtPoint(Numeral(m, 10), d);
  }

  lemma QuotientDigits(m: nat, d: nat, q: nat)
    requires Pow(10, d) > 0 && q == m / Pow(10, d)
    ensures var digits := Numeral(m, 10);
            Numeral(q, 10) == if d >= |digits| then "0" else digits[..|digits| - d]
  {
    hide Pow, Numeral;
    NumeralValue(m, 10);
    if d < |Numeral(m, 10)| {
      NumeralPrefix(m, 10, d, q);
    } else {
      NumeralLength(m, 10, d);
      SmallQuotient(m, Pow(10, d));
      NumeralValue(0, 10);
    }
  }

  ghost predicate ShowsQuotient(text: string, negative: bool, m: nat, d: nat, fraction: string) {
    && Pow(10, d) > 0
    && text == (if negative then "-" else "") + (Numeral(m / Pow(10, d), 10) + "." + fraction)
    && |fraction| == d && IsNumeral(fraction, 10) && Value(fraction, 10) == m % Pow(10, d)
  }

  /**
    The exact text of `to_fixed_point`: sign, quotient, point, and the remainder
    in as many digits as asked for. Below -2^255 the magnitude is the wrong one.
   */
  lemma FixedPointText(negative: bool, n: u256, d: nat) returns (fraction: string)
    requires d < 0x1_0000_0000_0000_0000
    ensures ToFixedPoint((if negative then "-" else "") + Numeral(n, 10), Numeral(d, 10)).Some?
    ensures ShowsQuotient(ToFixedPoint((if negative then "-" else "") + Numeral(n, 10), Numeral(d, 10)).value,
                          negative, if negative && n > HALF then WORD - n else n, d, fraction)
  {
    hide Value, Numeral, InsertPoint, Pow, ParseInt, Display, Places;
    var m := if negative && n > HALF then WORD - n else n;
    fraction := InsertPointText(m, d);
    PlacesRead(d);
    DisplayedNumeral(negative, n);
  }

  lemma DisplayedNumeral(negative: bool, n: u256)
    ensures var m := if negative && n > HALF then WORD - n else n;
            var number := ParseInt((if negative then "-" else "") + Numeral(n, 10));
            && number.Some? && number.value.isNonnegative == !negative
            && Strip(Display(number.value), "-") == Numeral(m, 10)
  {
    hide Value, Numeral, ParseInt;
    NumeralValue(0, 10);
    NumeralValue(n, 10);
    NoMinus(n);
    if negative {
      MinusDetected(n);
      if n > 0 {
        NegatedFormat(n);
        NoMinus(Magnitude(n));
      }
    } else {
      UnsignedRoundTrip(n);
      assert "" + Numeral(n, 10) == Numeral(n, 10);
    }
  }

  /** The magnitude that `to_fixed_point` puts its point into. */
  lemma DisplayedMagnitude(value: string) returns (m: nat)
    requires ParseInt(value).Some?
    ensures Denoted(value).Some?
    ensures Strip(Display(ParseInt(value).value), "-") == Numeral(m, 10)
    ensures var v := Denoted(value).value;
            var shown := Signed(!ParseInt(value).value.isNonnegative, m);
            shown == v <==> v >= -HALF
  {
    hide Detect, Value;
    var number := ParseInt(value).value;
    var (t, negative) := GetSign(value);
    var n := ParseUint(t, number.base).value;
    if n == 0 {
      m := 0;
      NumeralValue(0, 10);
      NoMinus(0);
    } else if negative {
      m := Magnitude(n);
      NegatedFormat(n);
      NoMinus(m);
    } else {
      m := n;
      NoMinus(m);
    }
  }

  lemma NegatedQuotient(m: nat, p: nat)
    requires p > 0
    ensures -(m as real / p as real) == (0 - m) as real / p as real
  {
  }

  lemma SameQuotient(v: int, w: int, p: nat)
    requires p > 0
    ensures v as real / p as real == w as real / p as real <==> v == w
  {
    assert v as real == v as real / p as real * p as real;
    assert w as real == w as real / p as real * p as real;
  }
}
