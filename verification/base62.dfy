/** Base-62 encoding of non-negative identifiers into short codes
    (handler/handler.go, `base62Chars` and `ToBase62`).

    The encoder is the system's own; `Decode` is its specification-level
    inverse, which the system never needs but which states what the
    encoding means. */
module Base62 {

  const Digits: string := "0123456789"
  const Upper: string := "ABCDEFGHIJKLMNOPQRSTUVWXYZ"
  const Lower: string := "abcdefghijklmnopqrstuvwxyz"

  /** The fixed alphabet: digits, then upper case, then lower case. */
  const Alphabet: string := Digits + Upper + Lower

  const Radix: nat := 62

  function Pow(e: nat): (r: nat)
    ensures r >= 1
  {
    if e == 0 then 1 else Radix * Pow(e - 1)
  }

  /** The character code of the symbol with value `d`, by the alphabet's
      three contiguous ASCII runs. */
  function SymbolCode(d: nat): int
  {
    if d < 10 then '0' as int + d
    else if d < 36 then 'A' as int + (d - 10)
    else 'a' as int + (d - 36)
  }

  lemma RunsLayout(d: int)
    requires 0 <= d < 26
    ensures d < 10 ==> Digits[d] as int == '0' as int + d
    ensures Upper[d] as int == 'A' as int + d
    ensures Lower[d] as int == 'a' as int + d
  {
  }

  /** The symbol at position `d` sits in its ASCII run. */
  lemma AlphabetAt(d: int)
    requires 0 <= d < Radix
    ensures |Alphabet| == Radix
    ensures Alphabet[d] as int == SymbolCode(d)
  {
    if d < 10 {
      RunsLayout(d);
    } else if d < 36 {
      RunsLayout(d - 10);
    } else {
      RunsLayout(d - 36);
    }
  }

  /** A digit or an ASCII letter: one of the alphabet's three runs. */
  predicate IsSymbol(c: char)
  {
    '0' <= c <= '9' || 'A' <= c <= 'Z' || 'a' <= c <= 'z'
  }

  /** The symbols are exactly the characters of the alphabet. */
  lemma SymbolsAreAlphabet(c: char)
    ensures IsSymbol(c) <==> c in Alphabet
  {
    if c in Alphabet {
      var i :| 0 <= i < |Alphabet| && Alphabet[i] == c;
      AlphabetAt(i);
    }
    if IsSymbol(c) {
      var d := DigitValue(c);
    }
  }

  /** Every symbol at a position of the alphabet is a digit or a letter. */
  lemma SymbolAt(d: int)
    requires 0 <= d < Radix
    ensures |Alphabet| == Radix && IsSymbol(Alphabet[d])
  {
    AlphabetAt(d);
  }

  /** The first symbol, the encoding of zero, is the digit 0. */
  lemma ZeroSymbol()
    ensures |Alphabet| == Radix && Alphabet[0] == '0'
  {
    SymbolOfCode('0', 0);
  }

  predicate IsBase62(s: string)
  {
    forall i :: 0 <= i < |s| ==> IsSymbol(s[i])
  }

  /** The symbol whose character code is `SymbolCode(d)` is the one at
      position `d`. */
  lemma SymbolOfCode(c: char, d: int)
    requires 0 <= d < Radix && c as int == SymbolCode(d)
    ensures |Alphabet| == Radix && Alphabet[d] == c
  {
    AlphabetAt(d);
    var a := Alphabet[d];
    assert a as int == c as int;
  }

  /** The value of one alphabet symbol: its position in the alphabet. */
  function DigitValue(c: char): (d: nat)
    requires IsSymbol(c)
    ensures d < Radix && Alphabet[d] == c
  {
    var d :=
      if '0' <= c <= '9' then c as int - '0' as int
      else if 'A' <= c <= 'Z' then c as int - 'A' as int + 10
      else c as int - 'a' as int + 36;
    SymbolOfCode(c, d);
    d
  }

  /** Distinct positions hold distinct symbols, so a symbol's value is
      exactly the position it was taken from. */
  lemma DigitValueOfSymbol(d: nat)
    requires d < Radix
    ensures |Alphabet| == Radix
    ensures DigitValue(Alphabet[d]) == d
  {
    AlphabetAt(d);
    var e := DigitValue(Alphabet[d]);
    AlphabetAt(e);
  }

  /** Most-significant-first positional reading of a base-62 string; the
      empty string reads as 0. */
  function Decode(s: string): (n: nat)
    requires IsBase62(s)
    ensures n < Pow(|s|)
  {
    if s == [] then 0
    else Decode(s[..|s| - 1]) * Radix + DigitValue(s[|s| - 1])
  }

  /** The loop of `ToBase62` for a strictly positive number: repeated
      division by 62, each remainder's symbol placed in front of the
      symbols already collected. A non-positive number yields nothing. */
  function EncodeDigits(n: int): (s: string)
    ensures IsBase62(s)
    ensures n <= 0 <==> s == []
    decreases n
  {
    if n <= 0 then []
    else
      SymbolAt(n % Radix);
      EncodeDigits(n / Radix) + [Alphabet[n % Radix]]
  }

  /** `ToBase62`: zero is the single first symbol, a positive number its
      digit string, and a negative number (the loop never runs) the empty
      string. */
  function ToBase62(num: int): (s: string)
    ensures IsBase62(s)
    ensures num == 0 ==> s == [Alphabet[0]] && s == "0"
    ensures num < 0 ==> s == []
  {
    ZeroSymbol();
    if num == 0 then [Alphabet[0]] else EncodeDigits(num)
  }

  lemma {:induction false} EncodeDigitsRoundTrip(n: int)
    requires n >= 0
    ensures Decode(EncodeDigits(n)) == n
    decreases n
  {
    if n > 0 {
      ZeroSymbol();
      var s := EncodeDigits(n);
      EncodeDigitsRoundTrip(n / Radix);
      assert s[..|s| - 1] == EncodeDigits(n / Radix);
      DigitValueOfSymbol(n % Radix);
    }
  }

  /** Decoding an encoding gives back the number, for every non-negative
      number. */
  lemma RoundTrip(num: int)
    requires num >= 0
    ensures Decode(ToBase62(num)) == num
  {
    if num == 0 {
      ZeroSymbol();
      DigitValueOfSymbol(0);
      assert ToBase62(num)[..0] == [];
    } else {
      EncodeDigitsRoundTrip(num);
    }
  }

  /** Distinct non-negative numbers receive distinct codes. */
  lemma Injective(a: int, b: int)
    requires a >= 0 && b >= 0
    ensures ToBase62(a) == ToBase62(b) ==> a == b
  {
    RoundTrip(a);
    RoundTrip(b);
  }

  lemma {:induction false} EncodeDigitsShape(n: int)
    requires n > 0
    ensures var s := EncodeDigits(n);
      |s| >= 1 && s[0] != Alphabet[0] && Pow(|s| - 1) <= n < Pow(|s|)
    decreases n
  {
    ZeroSymbol();
    var s := EncodeDigits(n);
    if n < Radix {
      assert n / Radix == 0;
      assert s == [Alphabet[n]];
      DigitValueOfSymbol(n);
      DigitValueOfSymbol(0);
    } else {
      EncodeDigitsShape(n / Radix);
      var p := EncodeDigits(n / Radix);
      assert s == p + [Alphabet[n % Radix]];
      assert s[0] == p[0];
    }
  }

  /** For a positive number the code has no leading zero symbol and its
      length L is the number of base-62 digits: 62^(L-1) <= num < 62^L. */
  lemma Shape(num: int)
    requires num > 0
    ensures var s := ToBase62(num);
      |s| >= 1 && s[0] != '0' && Pow(|s| - 1) <= num < Pow(|s|)
  {
    EncodeDigitsShape(num);
    ZeroSymbol();
  }

  /** A non-empty base-62 string without a leading zero symbol reads as at
      least 62^(L-1). */
  lemma {:induction false} DecodeLowerBound(s: string)
    requires IsBase62(s) && |s| >= 1 && s[0] != Alphabet[0]
    ensures Decode(s) >= Pow(|s| - 1)
    decreases |s|
  {
    ZeroSymbol();
    if |s| == 1 {
      var d := DigitValue(s[0]);
      assert d != 0;
    } else {
      var p := s[..|s| - 1];
      assert p[0] == s[0];
      DecodeLowerBound(p);
    }
  }

  lemma SplitLast(s: string)
    requires s != []
    ensures s == s[..|s| - 1] + [s[|s| - 1]]
  {
  }

  lemma {:induction false} EncodeDecodeDigits(s: string)
    requires IsBase62(s)
    requires s == [] || s[0] != Alphabet[0]
    ensures EncodeDigits(Decode(s)) == s
    decreases |s|
  {
    if s != [] {
      var p := s[..|s| - 1];
      var last := s[|s| - 1];
      var d := DigitValue(last);
      var n := Decode(s);
      DecodeLowerBound(s);
      assert n > 0;
      assert n == Decode(p) * Radix + d;
      assert n / Radix == Decode(p) && n % Radix == d;
      assert EncodeDigits(n) == EncodeDigits(Decode(p)) + [Alphabet[d]];
      assert p == [] || p[0] == s[0];
      EncodeDecodeDigits(p);
      SplitLast(s);
    }
  }

  /** The encoding is onto the canonical strings: every non-empty base-62
      string that is "0" or has no leading zero symbol is the code of the
      number it decodes to. With `RoundTrip` this makes `ToBase62` a
      bijection between non-negative numbers and canonical strings. */
  lemma DecodeEncode(s: string)
    requires IsBase62(s) && s != []
    requires s == "0" || s[0] != '0'
    ensures ToBase62(Decode(s)) == s
  {
    ZeroSymbol();
    if s == "0" {
      DigitValueOfSymbol(0);
      assert s[..0] == [];
    } else {
      DecodeLowerBound(s);
      EncodeDecodeDigits(s);
    }
  }
}
