/** Hexadecimal and decimal text: what the gateway prints with hex.EncodeToString and big.Int.String, and the
    bouncer's decoder (ground-station/src/egress_hex.cpp). */
module EgressHex {
  import opened Words

  const DIGITS := "0123456789abcdef"

  function HexChar(n: nat): char
    requires n < 16
  {
    DIGITS[n]
  }

  /** Two lower-case digits a byte. */
  function HexOf(s: Bytes): (r: string)
    ensures |r| == 2 * |s|
  {
    if s == [] then []
    else
      var b := s[|s| - 1];
      HexOf(s[..|s| - 1]) + [HexChar(b / 16), HexChar(b % 16)]
  }

  /** The value of a hex digit in either case, or -1. */
  function Nibble(c: char): (n: int)
    ensures -1 <= n < 16
  {
    if '0' <= c <= '9' then c as int - '0' as int
    else if 'a' <= c <= 'f' then c as int - 'a' as int + 10
    else if 'A' <= c <= 'F' then c as int - 'A' as int + 10
    else -1
  }

  function Push(r: Option<Bytes>, hi: int, lo: int): Option<Bytes>
    requires -1 <= hi < 16 && -1 <= lo < 16
  {
    if r.None? || hi < 0 || lo < 0 then None else Some(r.value + [16 * hi + lo])
  }

  /** The bytes an even number of hex digits denotes. */
  function HexVal(hex: string): Option<Bytes>
    requires |hex| % 2 == 0
  {
    if hex == [] then Some([])
    else
      var n := |hex| - 2;
      Push(HexVal(hex[..n]), Nibble(hex[n]), Nibble(hex[n + 1]))
  }

  lemma NibbleOfChar(n: nat)
    requires n < 16
    ensures Nibble(HexChar(n)) == n
  {
  }

  lemma HexValSnoc(h: string, c: char, d: char, s: Bytes)
    requires |h| % 2 == 0 && HexVal(h) == Some(s) && Nibble(c) >= 0 && Nibble(d) >= 0
    ensures HexVal(h + [c, d]) == Some(s + [16 * Nibble(c) + Nibble(d)])
  {
    hide Nibble;
    var w := h + [c, d];
    assert w[..|h|] == h && w[|h|] == c && w[|h| + 1] == d;
    assert HexVal(w) == Push(HexVal(h), Nibble(c), Nibble(d));
  }

  lemma {:induction false} DecodeUndoesEncode(s: Bytes)
    ensures HexVal(HexOf(s)) == Some(s)
    decreases |s|
  {
    hide HexChar, Nibble, HexVal;
    if s == [] {
      HexValNothing();
    } else {
      var init, b := s[..|s| - 1], s[|s| - 1];
      DecodeUndoesEncode(init);
      NibbleOfChar(b / 16);
      NibbleOfChar(b % 16);
      HexValSnoc(HexOf(init), HexChar(b / 16), HexChar(b % 16), init);
      assert s == init + [b];
    }
  }

  lemma HexValNothing()
    ensures HexVal([]) == Some([])
  {
  }

  function LowerChar(c: char): char {
    if 'A' <= c <= 'F' then (c as int + 32) as char else c
  }

  /** The text with the letters A to F in lower case. */
  function Lower(s: string): (r: string)
    ensures |r| == |s|
  {
    seq(|s|, i requires 0 <= i < |s| => LowerChar(s[i]))
  }

  lemma CharOfNibble(c: char)
    ensures Nibble(c) >= 0 ==> LowerChar(c) == HexChar(Nibble(c))
    ensures forall n: nat :: n < 16 && LowerChar(c) == HexChar(n) ==> Nibble(c) == n
  {
  }

  lemma HexValTwo(hex: string)
    requires |hex| % 2 == 0 && hex != []
    ensures var n := |hex| - 2; HexVal(hex) == Push(HexVal(hex[..n]), Nibble(hex[n]), Nibble(hex[n + 1]))
  {
    hide Nibble;
  }

  lemma LowerTwo(hex: string)
    requires |hex| >= 2
    ensures var n := |hex| - 2; Lower(hex) == Lower(hex[..n]) + [LowerChar(hex[n]), LowerChar(hex[n + 1])]
  {
    hide LowerChar;
  }

  /** Which texts decode, and to what: those that are the encoding of some bytes up to the case of their letters. */
  lemma {:induction false} DecodesExactly(hex: string, s: Bytes)
    requires |hex| % 2 == 0
    ensures HexVal(hex) == Some(s) <==> Lower(hex) == HexOf(s)
    decreases |hex|
  {
    hide Nibble, HexChar, LowerChar, HexVal, Lower;
    if hex == [] {
      HexValNothing();
      assert Lower([]) == [] by {
        LowerNothing();
      }
    } else if s == [] {
      HexValTwo(hex);
    } else {
      var n, m := |hex| - 2, |s| - 1;
      var b := s[m];
      DecodesExactly(hex[..n], s[..m]);
      HexValTwo(hex);
      LowerTwo(hex);
      CharOfNibble(hex[n]);
      CharOfNibble(hex[n + 1]);
      assert s == s[..m] + [b];
      NibblesOfByte(hex[n], hex[n + 1], b);
      PushIs(HexVal(hex[..n]), Nibble(hex[n]), Nibble(hex[n + 1]), s);
      TailsAgree(Lower(hex[..n]), LowerChar(hex[n]), LowerChar(hex[n + 1]), HexOf(s[..m]), HexChar(b / 16), HexChar(b % 16));
    }
  }

  lemma LowerNothing()
    ensures Lower([]) == []
  {
  }

  lemma PushIs(r: Option<Bytes>, hi: int, lo: int, s: Bytes)
    requires -1 <= hi < 16 && -1 <= lo < 16 && s != []
    ensures Push(r, hi, lo) == Some(s)
            <==> r == Some(s[..|s| - 1]) && hi >= 0 && lo >= 0 && 16 * hi + lo == s[|s| - 1]
  {
    assert s == s[..|s| - 1] + [s[|s| - 1]];
    if r.Some? && hi >= 0 && lo >= 0 && Push(r, hi, lo) == Some(s) {
      assert s[..|s| - 1] == r.value;
    }
  }

  lemma NibblesOfByte(c: char, d: char, b: U8)
    ensures Nibble(c) >= 0 && Nibble(d) >= 0 && 16 * Nibble(c) + Nibble(d) == b
            <==> LowerChar(c) == HexChar(b / 16) && LowerChar(d) == HexChar(b % 16)
  {
    CharOfNibble(c);
    CharOfNibble(d);
    hide Nibble, HexChar, LowerChar;
  }

  lemma TailsAgree(a: string, c: char, d: char, b: string, e: char, f: char)
    ensures a + [c, d] == b + [e, f] <==> a == b && c == e && d == f
  {
    var x, y := a + [c, d], b + [e, f];
    if x == y {
      assert a == x[..|x| - 2] && b == y[..|y| - 2];
      assert x[|x| - 2] == c && x[|x| - 1] == d && y[|y| - 2] == e && y[|y| - 1] == f;
    }
  }

  lemma {:induction false} HexValLength(hex: string)
    requires |hex| % 2 == 0 && HexVal(hex).Some?
    ensures 2 * |HexVal(hex).value| == |hex|
    decreases |hex|
  {
    if hex != [] {
      HexValLength(hex[..|hex| - 2]);
    }
  }

  lemma {:induction false} HexValPrefix(hex: string, n: nat)
    requires |hex| % 2 == 0 && n % 2 == 0 && n <= |hex| && HexVal(hex[..n]) == None
    ensures HexVal(hex) == None
    decreases |hex|
  {
    if n == |hex| {
      assert hex[..n] == hex;
    } else {
      var init := hex[..|hex| - 2];
      assert hex[..n] == init[..n];
      HexValPrefix(init, n);
    }
  }

  /** hex_decode: fails on an odd length, on too small a buffer and on any character that is no hex digit. */
  method HexDecode(hex: string, out: array<U8>) returns (ok: bool)
    modifies out
    ensures ok <==> |hex| % 2 == 0 && |hex| / 2 <= out.Length && HexVal(hex).Some?
    ensures ok ==> out[..|hex| / 2] == HexVal(hex).value
    ensures forall k :: |hex| / 2 <= k < out.Length ==> out[k] == old(out[k])
  {
    if |hex| % 2 != 0 {
      return false;
    }
    var need := |hex| / 2;
    if need > out.Length {
      return false;
    }
    for i := 0 to need
      invariant HexVal(hex[..2 * i]) == Some(out[..i])
      invariant forall k :: need <= k < out.Length ==> out[k] == old(out[k])
    {
      assert hex[..2 * i + 2][..2 * i] == hex[..2 * i];
      var hi := Nibble(hex[2 * i]);
      var lo := Nibble(hex[2 * i + 1]);
      if hi < 0 || lo < 0 {
        HexValPrefix(hex, 2 * i + 2);
        return false;
      }
      ghost var done := out[..i];
      out[i] := 16 * hi + lo;
      assert out[..i + 1] == done + [16 * hi + lo];
    }
    assert hex[..2 * need] == hex;
    ok := true;
  }

  // ---- Decimal --------------------------------------------------------------------------------------------

  function Decimal(n: nat): (r: string)
    ensures r != []
  {
    if n < 10 then [DIGITS[n]] else Decimal(n / 10) + [DIGITS[n % 10]]
  }

  predicate IsDigits(s: string) {
    forall i :: 0 <= i < |s| ==> '0' <= s[i] <= '9'
  }

  lemma {:induction false} DecimalIsDigits(n: nat)
    ensures IsDigits(Decimal(n))
    decreases n
  {
    if n >= 10 {
      DecimalIsDigits(n / 10);
    }
  }

  /** The number a string of decimal digits denotes. */
  function DecimalVal(s: string): nat
    requires IsDigits(s)
  {
    if s == [] then 0 else 10 * DecimalVal(s[..|s| - 1]) + (s[|s| - 1] as int - '0' as int)
  }

  lemma DigitValue(n: nat)
    requires n < 10
    ensures DIGITS[n] as int - '0' as int == n
  {
  }

  lemma DecimalValSnoc(s: string, c: char)
    requires IsDigits(s) && '0' <= c <= '9'
    ensures IsDigits(s + [c]) && DecimalVal(s + [c]) == 10 * DecimalVal(s) + (c as int - '0' as int)
  {
    assert (s + [c])[..|s|] == s;
  }

  /** Reading a decimal number back. */
  lemma {:induction false} DecimalRoundTrip(n: nat)
    ensures IsDigits(Decimal(n)) && DecimalVal(Decimal(n)) == n
    decreases n
  {
    DecimalIsDigits(n);
    DigitValue(n % 10);
    if n < 10 {
      DecimalValSnoc([], DIGITS[n]);
      assert [] + [DIGITS[n]] == [DIGITS[n]];
    } else {
      DecimalRoundTrip(n / 10);
      DecimalValSnoc(Decimal(n / 10), DIGITS[n % 10]);
    }
  }

  lemma DigitsDistinct(i: nat, j: nat)
    requires i < 10 && j < 10 && DIGITS[i] == DIGITS[j]
    ensures i == j
  {
  }

  lemma LastDigit(n: nat)
    ensures Decimal(n)[|Decimal(n)| - 1] == DIGITS[n % 10]
    ensures |Decimal(n)| == 1 <==> n < 10
  {
  }

  lemma {:induction false} DecimalInjective(m: nat, n: nat)
    requires Decimal(m) == Decimal(n)
    ensures m == n
    decreases m
  {
    var s, t := Decimal(m), Decimal(n);
    LastDigit(m);
    LastDigit(n);
    DigitsDistinct(m % 10, n % 10);
    if m >= 10 && n >= 10 {
      assert s[..|s| - 1] == Decimal(m / 10) && t[..|t| - 1] == Decimal(n / 10);
      DecimalInjective(m / 10, n / 10);
    }
  }

  function Pow10(k: nat): (r: nat)
    ensures r > 0
  {
    if k == 0 then 1 else 10 * Pow10(k - 1)
  }

  lemma {:induction false} DecimalLength(n: nat, k: nat)
    requires 0 < k && n < Pow10(k)
    ensures |Decimal(n)| <= k
    decreases k
  {
    if n >= 10 {
      DecimalLength(n / 10, k - 1);
    }
  }

  lemma {:induction false} Pow10Add(j: nat, k: nat)
    ensures Pow10(j + k) == Pow10(j) * Pow10(k)
    decreases j
  {
    if j > 0 {
      Pow10Add(j - 1, k);
    }
  }

  lemma Pow10Values()
    ensures Pow10(5) == 100_000 && Pow10(10) == 10_000_000_000 && Pow10(20) == 100_000_000_000_000_000_000
  {
    assert Pow10(5) == 100_000;
    Pow10Add(5, 5);
    Pow10Add(10, 10);
  }

  lemma Pow10Of78()
    ensures Pow10(78) == 1_000000_000000_000000_000000_000000_000000_000000_000000_000000_000000_000000_000000_000000
  {
    Pow10Values();
    hide Pow10;
    Pow10Add(20, 20);
    Pow10Add(40, 20);
    assert Pow10(13) == 10_000_000_000_000 by {
      Small();
    }
    Pow10Add(5, 13);
    Pow10Add(60, 18);
  }

  lemma Small()
    ensures Pow10(13) == 10_000_000_000_000
  {
    Pow10Values();
    assert Pow10(3) == 1000;
    Pow10Add(3, 10);
  }

  /** How long the decimal forms of the program's numbers can get. */
  lemma DecimalWidths(n: nat)
    ensures n < TWO256 ==> |Decimal(n)| <= 78
    ensures n < TWO64 ==> |Decimal(n)| <= 20
    ensures n < TWO32 ==> |Decimal(n)| <= 10
  {
    Pow10Of78();
    Pow10Values();
    hide Pow10;
    if n < TWO256 {
      DecimalLength(n, 78);
    }
    if n < TWO64 {
      DecimalLength(n, 20);
    }
    if n < TWO32 {
      DecimalLength(n, 10);
    }
  }
}
