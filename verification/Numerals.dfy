/** Positional numerals: the digits 0-9a-f, writing and reading in a radix up to 16. */
module Numerals {
  import opened Prelude

  function HexChar(n: nat): char
    requires n < 16
  {
    if n < 10 then '0' + n as char else 'a' + (n - 10) as char
  }

  /** The value of a digit; capital letters are read too. */
  function HexDigit(c: char): Option<nat> {
    if '0' <= c <= '9' then Some((c - '0') as nat)
    else if 'a' <= c <= 'f' then Some((c - 'a') as nat + 10)
    else if 'A' <= c <= 'F' then Some((c - 'A') as nat + 10)
    else None
  }

  lemma HexDigitOfChar(n: nat)
    requires n < 16
    ensures HexDigit(HexChar(n)) == Some(n)
    ensures '0' <= HexChar(n) <= '9' || 'a' <= HexChar(n) <= 'f'
  {
  }

  lemma HexCharTable(n: nat)
    requires n < 16
    ensures HexChar(n) == "0123456789abcdef"[n]
  {
  }

  predicate IsDigit(c: char, radix: nat) {
    HexDigit(c).Some? && HexDigit(c).value < radix
  }

  predicate IsNumeral(s: string, radix: nat) {
    forall i :: 0 <= i < |s| ==> IsDigit(s[i], radix)
  }

  function Value(s: string, radix: nat): nat
    requires IsNumeral(s, radix)
  {
    if s == "" then 0
    else
      var n := |s| - 1;
      Value(s[..n], radix) * radix + HexDigit(s[n]).value
  }

  function Numeral(n: nat, radix: nat): string
    requires 2 <= radix <= 16
    decreases n
  {
    if n < radix then [HexChar(n)] else Numeral(n / radix, radix) + [HexChar(n % radix)]
  }

  lemma ValueSnoc(s: string, c: char, radix: nat)
    requires IsNumeral(s, radix) && IsDigit(c, radix)
    ensures IsNumeral(s + [c], radix)
    ensures Value(s + [c], radix) == Value(s, radix) * radix + HexDigit(c).value
  {
    assert (s + [c])[..|s|] == s;
  }

  /** A numeral reads back as its number and starts with 0 only for 0 itself. */
  lemma {:induction false} NumeralValue(n: nat, radix: nat)
    requires 2 <= radix <= 16
    ensures var s := Numeral(n, radix);
            && s != "" && IsNumeral(s, radix) && Value(s, radix) == n
            && (s[0] == '0' <==> n == 0)
            && (n == 0 ==> s == "0")
    decreases n
  {
    if n < radix {
      OneDigit(n, radix);
    } else {
      DivMod(n, radix);
      NumeralValue(n / radix, radix);
      NumeralStep(n, radix);
    }
  }

  lemma NumeralStep(n: nat, radix: nat)
    requires 2 <= radix <= 16 && radix <= n
    requires var t := Numeral(n / radix, radix);
             t != "" && t[0] != '0' && IsNumeral(t, radix) && Value(t, radix) == n / radix
    ensures var s := Numeral(n, radix);
            s != "" && s[0] != '0' && IsNumeral(s, radix) && Value(s, radix) == n
  {
    hide HexDigit, Value;
    OneDigit(n % radix, radix);
    ValueSnoc(Numeral(n / radix, radix), HexChar(n % radix), radix);
    DivMod(n, radix);
  }

  lemma OneDigit(d: nat, radix: nat)
    requires d < radix <= 16
    ensures IsDigit(HexChar(d), radix) && HexDigit(HexChar(d)).value == d
    ensures Value([HexChar(d)], radix) == d
    ensures HexChar(d) == '0' <==> d == 0
  {
    HexDigitOfChar(d);
    assert "" + [HexChar(d)] == [HexChar(d)];
    ValueSnoc("", HexChar(d), radix);
  }

  lemma NumeralInjective(m: nat, n: nat, radix: nat)
    requires 2 <= radix <= 16 && Numeral(m, radix) == Numeral(n, radix)
    ensures m == n
  {
    NumeralValue(m, radix);
    NumeralValue(n, radix);
  }

  /** A number below radix^k needs at most k places, one from radix^(k-1) on exactly k. */
  lemma {:induction false} NumeralLength(n: nat, radix: nat, k: nat)
    requires 2 <= radix <= 16 && k > 0
    ensures |Numeral(n, radix)| <= k <==> n < Pow(radix, k)
    decreases k
  {
    if k == 1 {
      assert Pow(radix, 1) == radix * Pow(radix, 0);
    } else if n >= radix {
      NumeralLength(n / radix, radix, k - 1);
      DivBelowExactly(n, radix, Pow(radix, k - 1));
    } else {
      PowGrows(radix, 1, k);
      assert Pow(radix, 1) == radix * Pow(radix, 0);
    }
  }

  /** Dropping d digits divides by the d-th power of the radix. */
  lemma {:induction false} NumeralPrefix(n: nat, radix: nat, d: nat, q: nat)
    requires 2 <= radix <= 16 && d < |Numeral(n, radix)|
    requires Pow(radix, d) > 0 && q == n / Pow(radix, d)
    ensures Numeral(n, radix)[..|Numeral(n, radix)| - d] == Numeral(q, radix)
    decreases d
  {
    hide HexChar;
    var s := Numeral(n, radix);
    if d == 0 {
      assert s[..|s|] == s;
    } else {
      var t := Numeral(n / radix, radix);
      assert s == t + [HexChar(n % radix)];
      PowPositive(radix, d - 1);
      DivDiv(n, radix, Pow(radix, d - 1));
      NumeralPrefix(n / radix, radix, d - 1, q);
      assert s[..|s| - d] == t[..|t| - (d - 1)];
    }
  }

  lemma {:induction false} ValueConcat(s: string, t: string, radix: nat)
    requires IsNumeral(s, radix) && IsNumeral(t, radix)
    ensures IsNumeral(s + t, radix)
    ensures Value(s + t, radix) == Value(s, radix) * Pow(radix, |t|) + Value(t, radix)
    decreases |t|
  {
    if t == "" {
      assert s + t == s;
    } else {
      hide HexDigit;
      var n := |t| - 1;
      var front, c := t[..n], t[n];
      ValueConcat(s, front, radix);
      ValueSnoc(s + front, c, radix);
      assert s + t == (s + front) + [c];
      Regroup(Value(s, radix), Pow(radix, n), Value(front, radix), radix, HexDigit(c).value);
    }
  }

  lemma {:induction false} ZerosValue(k: nat, radix: nat)
    requires radix > 0
    ensures var z := seq(k, _ => '0'); IsNumeral(z, radix) && Value(z, radix) == 0
  {
    if k > 0 {
      ZerosValue(k - 1, radix);
      assert seq(k, _ => '0') == seq(k - 1, _ => '0') + ['0'];
      ValueSnoc(seq(k - 1, _ => '0'), '0', radix);
    }
  }

  function Strip(s: string, prefix: string): string {
    if prefix <= s then s[|prefix|..] else s
  }
}
