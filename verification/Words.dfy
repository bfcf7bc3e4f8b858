/** Machine words as bounded integers. For the unsigned words of the program, `v >> k` is `v / 2^k`,
    `v & (2^k - 1)` is `v % 2^k` and `hi << k | lo` is `hi * 2^k + lo` when lo fits in k bits. */
module Words {
  const TWO16: nat := 0x1_0000
  const TWO32: nat := 0x1_0000_0000
  const TWO64: nat := 0x1_0000_0000_0000_0000
  const TWO160: nat := 0x1_0000000000000000_0000000000000000_00000000
  const TWO256: nat := 0x1_0000000000000000_0000000000000000_0000000000000000_0000000000000000

  type U8 = x: int | 0 <= x < 0x100
  type U16 = x: int | 0 <= x < TWO16
  type U32 = x: int | 0 <= x < TWO32
  type U64 = x: int | 0 <= x < TWO64
  type Address = x: int | 0 <= x < TWO160
  type U256 = x: int | 0 <= x < TWO256
  type Bytes = seq<U8>

  datatype Option<+T> = None | Some(value: T)

  function Pow2(n: nat): (r: nat)
    ensures r > 0
  {
    if n == 0 then 1 else 2 * Pow2(n - 1)
  }

  function BitXor(p: int, q: int): nat {
    if p == q then 0 else 1
  }

  /** Bitwise exclusive or of two naturals. */
  function Xor(a: nat, b: nat): nat
    decreases a + b
  {
    if a == 0 && b == 0 then 0 else 2 * Xor(a / 2, b / 2) + BitXor(a % 2, b % 2)
  }

  lemma {:induction false} XorBits(a: nat, b: nat)
    ensures Xor(a, b) / 2 == Xor(a / 2, b / 2)
    ensures Xor(a, b) % 2 == BitXor(a % 2, b % 2)
  {
    assert a == 0 && b == 0 ==> Xor(a / 2, b / 2) == 0;
  }

  lemma {:induction false} XorZero(a: nat)
    ensures Xor(a, 0) == a
    decreases a
  {
    if a > 0 {
      XorZero(a / 2);
    }
  }

  lemma {:induction false} XorComm(a: nat, b: nat)
    ensures Xor(a, b) == Xor(b, a)
    decreases a + b
  {
    if a + b > 0 {
      XorComm(a / 2, b / 2);
    }
  }

  lemma {:induction false} XorAssoc(a: nat, b: nat, c: nat)
    ensures Xor(Xor(a, b), c) == Xor(a, Xor(b, c))
    decreases a + b + c
  {
    if a + b + c > 0 {
      XorAssoc(a / 2, b / 2, c / 2);
      XorBits(a, b);
      XorBits(b, c);
      XorBits(Xor(a, b), c);
      XorBits(a, Xor(b, c));
    }
  }

  lemma {:induction false} XorSelf(a: nat)
    ensures Xor(a, a) == 0
    decreases a
  {
    if a > 0 {
      XorSelf(a / 2);
    }
  }

  lemma XorCancel(a: nat, b: nat, c: nat)
    requires Xor(a, c) == Xor(b, c)
    ensures a == b
  {
    XorAssoc(a, c, c);
    XorAssoc(b, c, c);
    XorSelf(c);
    XorZero(a);
    XorZero(b);
  }

  lemma XorSwap(a: nat, b: nat, c: nat)
    ensures Xor(Xor(a, b), c) == Xor(Xor(a, c), b)
  {
    XorAssoc(a, b, c);
    XorAssoc(a, c, b);
    XorComm(b, c);
  }

  /** The exclusive or of two n-bit words is an n-bit word. */
  lemma {:induction false} XorFits(a: nat, b: nat, n: nat)
    requires a < Pow2(n) && b < Pow2(n)
    ensures Xor(a, b) < Pow2(n)
    decreases n
  {
    if n > 0 {
      XorFits(a / 2, b / 2, n - 1);
      XorBits(a, b);
    }
  }

  /** If exactly one of two words has bit n as its top bit, so does their exclusive or. */
  lemma {:induction false} XorTop(a: nat, b: nat, n: nat)
    requires a < Pow2(n) <= b < 2 * Pow2(n)
    ensures Xor(a, b) >= Pow2(n)
    decreases n
  {
    XorBits(a, b);
    if n > 0 {
      XorTop(a / 2, b / 2, n - 1);
    } else {
      assert a == 0 && b == 1;
    }
  }

  /** Bitwise and. */
  function And(a: nat, b: nat): nat
    decreases a
  {
    if a == 0 then 0 else 2 * And(a / 2, b / 2) + (if a % 2 == 1 && b % 2 == 1 then 1 else 0)
  }

  lemma {:induction false} AndOnes(a: nat, n: nat)
    requires a < Pow2(n)
    ensures And(a, Pow2(n) - 1) == a
    decreases n
  {
    if a > 0 {
      var m := Pow2(n - 1);
      assert (2 * m - 1) / 2 == m - 1 && (2 * m - 1) % 2 == 1;
      AndOnes(a / 2, n - 1);
    }
  }

  lemma {:induction false} AndZero(a: nat)
    ensures And(a, 0) == 0
    decreases a
  {
    if a > 0 {
      AndZero(a / 2);
    }
  }

  lemma Pow2Values()
    ensures Pow2(31) == 0x8000_0000 && Pow2(32) == TWO32
  {
    assert Pow2(8) == 0x100;
    assert Pow2(16) == TWO16;
    assert Pow2(24) == 0x100_0000;
  }

  // ---- Little- and big-endian byte strings ---------------------------------------------------

  /** The n low bytes of v, least significant first. */
  function LE(v: nat, n: nat): (r: Bytes)
    ensures |r| == n
    decreases n
  {
    if n == 0 then [] else [v % 0x100] + LE(v / 0x100, n - 1)
  }

  /** The number a byte string denotes, least significant byte first. */
  function LEVal(s: Bytes): nat {
    if s == [] then 0 else s[0] + 0x100 * LEVal(s[1..])
  }

  function BE(v: nat, n: nat): (r: Bytes)
    ensures |r| == n
    decreases n
  {
    if n == 0 then [] else BE(v / 0x100, n - 1) + [v % 0x100]
  }

  function BEVal(s: Bytes): nat {
    if s == [] then 0 else 0x100 * BEVal(s[..|s| - 1]) + s[|s| - 1]
  }

  function Pow256(n: nat): (r: nat)
    ensures r > 0
  {
    if n == 0 then 1 else 0x100 * Pow256(n - 1)
  }

  lemma {:induction false} LEValFits(s: Bytes)
    ensures LEVal(s) < Pow256(|s|)
    decreases |s|
  {
    if s != [] {
      LEValFits(s[1..]);
    }
  }

  lemma {:induction false} BEValFits(s: Bytes)
    ensures BEVal(s) < Pow256(|s|)
    decreases |s|
  {
    if s != [] {
      BEValFits(s[..|s| - 1]);
    }
  }

  lemma {:induction false} LERoundTrip(v: nat, n: nat)
    requires v < Pow256(n)
    ensures LEVal(LE(v, n)) == v
    decreases n
  {
    if n > 0 {
      assert LE(v, n)[1..] == LE(v / 0x100, n - 1);
      LERoundTrip(v / 0x100, n - 1);
    }
  }

  lemma DivMod256(q: nat, r: U8)
    ensures (0x100 * q + r) / 0x100 == q && (0x100 * q + r) % 0x100 == r
  {
  }

  lemma {:induction false} LEOfVal(s: Bytes)
    ensures LE(LEVal(s), |s|) == s
    decreases |s|
  {
    if s != [] {
      LEOfVal(s[1..]);
      DivMod256(LEVal(s[1..]), s[0]);
    }
  }

  lemma {:induction false} BERoundTrip(v: nat, n: nat)
    requires v < Pow256(n)
    ensures BEVal(BE(v, n)) == v
    decreases n
  {
    if n > 0 {
      assert BE(v, n)[..n - 1] == BE(v / 0x100, n - 1);
      BERoundTrip(v / 0x100, n - 1);
    }
  }

  lemma {:induction false} BEOfVal(s: Bytes)
    ensures BE(BEVal(s), |s|) == s
    decreases |s|
  {
    if s != [] {
      BEOfVal(s[..|s| - 1]);
      DivMod256(BEVal(s[..|s| - 1]), s[|s| - 1]);
      assert s == s[..|s| - 1] + [s[|s| - 1]];
    }
  }

  lemma Pow256Values()
    ensures Pow256(1) == 0x100 && Pow256(2) == TWO16 && Pow256(4) == TWO32 && Pow256(8) == TWO64
  {
    assert Pow256(3) == 0x100_0000;
    assert Pow256(6) == 0x1_0000_0000_0000;
  }
}
