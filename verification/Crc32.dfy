/** CRC-32 as every component computes it (IEEE 802.3 section 3.2.9, reflected polynomial 0xEDB88320).
    The C++ copies run the same bit-serial loop with two different ways of masking the polynomial;
    Go's crc32.ChecksumIEEE is the same function. The main results are that this is the standard's checksum, the
    complemented remainder of a polynomial division, and burst detection: two byte strings of any length that
    differ only inside one window of at most 32 consecutive bits, in transmission order, have different checksums. */
module Crc32 {
  import opened Words

  const POLY: U32 := 0xEDB88320
  const ONES: U32 := 0xFFFFFFFF

  /** One bit step: shift the low bit out and, if it was set, xor the polynomial in. */
  function Step(c: U32): (r: U32) {
    Pow2Values();
    XorFits(c / 2, POLY, 32);
    if c % 2 == 1 then Xor(c / 2, POLY) else c / 2
  }

  function Steps(c: U32, n: nat): U32
    decreases n
  {
    if n == 0 then c else Steps(Step(c), n - 1)
  }

  /** Exclusive or of two 32-bit words. */
  function Mix(c: U32, w: U32): U32 {
    Pow2Values();
    XorFits(c, w, 32);
    Xor(c, w)
  }

  /** The register after one byte: xor it in, then eight bit steps. */
  function ByteStep(c: U32, b: U8): U32 {
    Steps(Mix(c, b), 8)
  }

  /** The register after a whole byte string. */
  function Register(c: U32, s: Bytes): U32
    decreases |s|
  {
    if s == [] then c else Register(ByteStep(c, s[0]), s[1..])
  }

  /** The checksum of a byte string. */
  function Crc(s: Bytes): U32 {
    ONES - Register(ONES, s)
  }

  // ---- The bit-serial loops -------------------------------------------------------------------

  /** `(uint32_t)-(int32_t)(crc & 1)`: the low bit negated and cut to 32 bits. */
  function NegatedLowBit(c: U32): U32 {
    (TWO32 - c % 2) % TWO32
  }

  lemma NegationMasks(p: U32, c: U32)
    ensures And(p, NegatedLowBit(c)) == if c % 2 == 1 then p else 0
  {
    if c % 2 == 1 {
      Pow2Values();
      AndOnes(p, 32);
    } else {
      AndZero(p);
    }
  }

  /** The ground station's masking (negation) and the firmware's (conditional) are both Step. */
  lemma MaskFormsAgree(c: U32)
    ensures Xor(c / 2, And(POLY, NegatedLowBit(c))) == Step(c)
    ensures Xor(c / 2, if c % 2 == 1 then POLY else 0) == Step(c)
  {
    hide And, Xor;
    NegationMasks(POLY, c);
    XorZero(c / 2);
  }

  lemma {:induction false} StepsSnoc(c: U32, n: nat)
    ensures Steps(c, n + 1) == Step(Steps(c, n))
    decreases n
  {
    if n > 0 {
      StepsSnoc(Step(c), n - 1);
    }
  }

  lemma {:induction false} RegisterAppend(c: U32, s: Bytes, t: Bytes)
    ensures Register(c, s + t) == Register(Register(c, s), t)
    decreases |s|
  {
    if s == [] {
      assert s + t == t;
    } else {
      assert (s + t)[1..] == s[1..] + t;
      RegisterAppend(ByteStep(c, s[0]), s[1..], t);
    }
  }

  lemma RegisterSnoc(c: U32, s: Bytes, b: U8)
    ensures Register(c, s + [b]) == ByteStep(Register(c, s), b)
  {
    hide ByteStep;
    RegisterAppend(c, s, [b]);
  }

  /** The ground station's and the delivery builder's loop (negated-bit mask) over data[..len]. */
  method Crc32Ieee(data: array<U8>, len: nat) returns (r: U32)
    requires len <= data.Length
    ensures r == Crc(data[..len])
  {
    hide And, Xor, Step;
    var crc: U32 := ONES;
    for i := 0 to len
      invariant crc == Register(ONES, data[..i])
    {
      RegisterSnoc(ONES, data[..i], data[i]);
      assert data[..i + 1] == data[..i] + [data[i]];
      crc := Mix(crc, data[i]);
      ghost var mixed := crc;
      for b := 0 to 8
        invariant crc == Steps(mixed, b)
      {
        MaskFormsAgree(crc);
        StepsSnoc(mixed, b);
        var mask := NegatedLowBit(crc);
        crc := Xor(crc / 2, And(POLY, mask));
      }
    }
    r := ONES - crc;
  }

  /** The satellite firmware's loop (conditional mask). */
  method CalculateCrc(data: array<U8>, len: nat) returns (r: U32)
    requires len <= data.Length
    ensures r == Crc(data[..len])
  {
    hide And, Xor, Step;
    var crc: U32 := ONES;
    for i := 0 to len
      invariant crc == Register(ONES, data[..i])
    {
      RegisterSnoc(ONES, data[..i], data[i]);
      assert data[..i + 1] == data[..i] + [data[i]];
      crc := Mix(crc, data[i]);
      ghost var mixed := crc;
      for b := 0 to 8
        invariant crc == Steps(mixed, b)
      {
        MaskFormsAgree(crc);
        StepsSnoc(mixed, b);
        var mask: U32 := if crc % 2 == 1 then POLY else 0;
        crc := Xor(crc / 2, mask);
      }
    }
    r := ONES - crc;
  }

  // ---- The register as a machine over single bits -----------------------------------------------

  /** One transmitted bit: xor it into the low end, then step. */
  function Feed(c: U32, b: U8): U32 {
    Step(Mix(c, b))
  }

  predicate IsBits(s: Bytes) {
    forall i :: 0 <= i < |s| ==> s[i] < 2
  }

  function BitRegister(c: U32, bits: Bytes): U32
    decreases |bits|
  {
    if bits == [] then c else BitRegister(Feed(c, bits[0]), bits[1..])
  }

  /** The n low bits of v in transmission order, low bit first. */
  function BitsOf(v: nat, n: nat): (r: Bytes)
    ensures |r| == n && IsBits(r)
    decreases n
  {
    if n == 0 then [] else [v % 2] + BitsOf(v / 2, n - 1)
  }

  /** The transmitted bits of a byte string. */
  function Bits(s: Bytes): (r: Bytes)
    ensures |r| == 8 * |s| && IsBits(r)
  {
    if s == [] then [] else BitsOf(s[0], 8) + Bits(s[1..])
  }

  lemma StepInjective(a: U32, b: U32)
    requires Step(a) == Step(b)
    ensures a == b
  {
    Pow2Values();
    if a % 2 == 1 && b % 2 == 1 {
      XorCancel(a / 2, b / 2, POLY);
    } else if a % 2 == 1 {
      XorTop(a / 2, POLY, 31);
    } else if b % 2 == 1 {
      XorTop(b / 2, POLY, 31);
    }
  }

  lemma {:induction false} StepsInjective(a: U32, b: U32, n: nat)
    requires Steps(a, n) == Steps(b, n)
    ensures a == b
    decreases n
  {
    if n > 0 {
      StepsInjective(Step(a), Step(b), n - 1);
      StepInjective(a, b);
    }
  }

  lemma {:induction false} BitRegisterAppend(c: U32, s: Bytes, t: Bytes)
    ensures BitRegister(c, s + t) == BitRegister(BitRegister(c, s), t)
    decreases |s|
  {
    if s == [] {
      assert s + t == t;
    } else {
      assert (s + t)[1..] == s[1..] + t;
      BitRegisterAppend(Feed(c, s[0]), s[1..], t);
    }
  }

  lemma {:induction false} BitRegisterInjective(c: U32, d: U32, s: Bytes)
    requires BitRegister(c, s) == BitRegister(d, s)
    ensures c == d
    decreases |s|
  {
    if s != [] {
      BitRegisterInjective(Feed(c, s[0]), Feed(d, s[0]), s[1..]);
      StepInjective(Mix(c, s[0]), Mix(d, s[0]));
      XorCancel(c, d, s[0]);
    }
  }

  // ---- A window of bits as one word ---------------------------------------------------------------

  /** The word whose bit i is bits[i]. */
  function Word(bits: Bytes): (w: nat)
    requires IsBits(bits)
    ensures w < Pow2(|bits|)
  {
    if bits == [] then 0 else bits[0] + 2 * Word(bits[1..])
  }

  lemma {:induction false} Pow2Mono(m: nat, n: nat)
    requires m <= n
    ensures Pow2(m) <= Pow2(n)
    decreases n
  {
    if m < n {
      Pow2Mono(m, n - 1);
    }
  }

  /** Placing a word above a bit before the step is adding the word after it. */
  lemma FeedPut(c: U32, w: U32, b: U8)
    requires 2 * w + b < TWO32 && b < 2
    ensures Step(Mix(c, 2 * w + b)) == Mix(Feed(c, b), w)
  {
    XorBits(c, 2 * w + b);
    XorBits(c, b);
    XorZero(c / 2);
    XorSwap(c / 2, w, POLY);
  }

  /** Feeding up to 32 bits one at a time equals xoring their word in first and stepping blindly. */
  lemma {:induction false} WindowIsWord(c: U32, bits: Bytes)
    requires |bits| <= 32 && IsBits(bits)
    ensures Word(bits) < TWO32
    ensures BitRegister(c, bits) == Steps(Mix(c, Word(bits)), |bits|)
    decreases |bits|
  {
    hide Step, Mix;
    Pow2Values();
    Pow2Mono(|bits|, 32);
    if bits == [] {
      MixZero(c);
    } else {
      WindowIsWord(Feed(c, bits[0]), bits[1..]);
      FeedPut(c, Word(bits[1..]), bits[0]);
    }
  }

  lemma MixZero(c: U32)
    ensures Mix(c, 0) == c
  {
    XorZero(c);
  }

  lemma {:induction false} WordInjective(x: Bytes, y: Bytes)
    requires |x| == |y| && IsBits(x) && IsBits(y) && Word(x) == Word(y)
    ensures x == y
    decreases |x|
  {
    if x != [] {
      WordInjective(x[1..], y[1..]);
      assert x == [x[0]] + x[1..] && y == [y[0]] + y[1..];
    }
  }

  // ---- Bytes are bits ---------------------------------------------------------------------------

  lemma {:induction false} WordOfBits(v: nat, n: nat)
    requires v < Pow2(n)
    ensures Word(BitsOf(v, n)) == v
    decreases n
  {
    if n > 0 {
      assert BitsOf(v, n)[1..] == BitsOf(v / 2, n - 1);
      WordOfBits(v / 2, n - 1);
    }
  }

  lemma {:induction false} RegisterIsBitRegister(c: U32, s: Bytes)
    ensures Register(c, s) == BitRegister(c, Bits(s))
    decreases |s|
  {
    hide Step, Mix, BitsOf;
    if s != [] {
      WindowIsWord(c, BitsOf(s[0], 8));
      assert Pow2(8) == 0x100;
      WordOfBits(s[0], 8);
      BitRegisterAppend(c, BitsOf(s[0], 8), Bits(s[1..]));
      RegisterIsBitRegister(ByteStep(c, s[0]), s[1..]);
    }
  }

  lemma {:induction false} BitsAppend(s: Bytes, t: Bytes)
    ensures Bits(s + t) == Bits(s) + Bits(t)
    decreases |s|
  {
    hide BitsOf;
    if s == [] {
      assert s + t == t;
    } else {
      assert (s + t)[1..] == s[1..] + t;
      BitsAppend(s[1..], t);
    }
  }

  lemma {:induction false} BitsInjective(s: Bytes, t: Bytes)
    requires |s| == |t| && Bits(s) == Bits(t)
    ensures s == t
    decreases |s|
  {
    hide BitsOf;
    if s != [] {
      assert BitsOf(s[0], 8) == Bits(s)[..8] == Bits(t)[..8] == BitsOf(t[0], 8);
      assert Pow2(8) == 0x100;
      WordOfBits(s[0], 8);
      WordOfBits(t[0], 8);
      assert Bits(s[1..]) == Bits(s)[8..] == Bits(t)[8..] == Bits(t[1..]);
      BitsInjective(s[1..], t[1..]);
      assert s == [s[0]] + s[1..] && t == [t[0]] + t[1..];
    }
  }

  // ---- Main results -------------------------------------------------------------------------------

  /** A window of at most 32 bits between a common prefix and a common suffix is determined by the register. */
  lemma WindowDetermined(c: U32, p: Bytes, x: Bytes, y: Bytes, q: Bytes)
    requires |x| == |y| <= 32 && IsBits(x) && IsBits(y)
    requires BitRegister(c, p + (x + q)) == BitRegister(c, p + (y + q))
    ensures x == y
  {
    var d := BitRegister(c, p);
    BitRegisterAppend(c, p, x + q);
    BitRegisterAppend(c, p, y + q);
    BitRegisterAppend(d, x, q);
    BitRegisterAppend(d, y, q);
    BitRegisterInjective(BitRegister(d, x), BitRegister(d, y), q);
    WindowIsWord(d, x);
    WindowIsWord(d, y);
    StepsInjective(Mix(d, Word(x)), Mix(d, Word(y)), |x|);
    XorComm(d, Word(x));
    XorComm(d, Word(y));
    XorCancel(Word(x), Word(y), d);
    WordInjective(x, y);
  }

  /** Burst detection: damage confined to at most 32 consecutive transmitted bits changes the checksum. */
  lemma BurstDetected(s: Bytes, t: Bytes, lo: nat, hi: nat)
    requires |s| == |t| && lo <= hi <= 8 * |s| && hi - lo <= 32
    requires Bits(s)[..lo] == Bits(t)[..lo] && Bits(s)[hi..] == Bits(t)[hi..]
    requires s != t
    ensures Crc(s) != Crc(t)
  {
    hide Bits, Register, BitRegister;
    var a, b := Bits(s), Bits(t);
    var p, x, y, q := a[..lo], a[lo..hi], b[lo..hi], a[hi..];
    assert a == p + (x + q) && b == p + (y + q);
    RegisterIsBitRegister(ONES, s);
    RegisterIsBitRegister(ONES, t);
    if Crc(s) == Crc(t) {
      WindowDetermined(ONES, p, x, y, q);
      BitsInjective(s, t);
    }
  }

  /** The byte form: a change confined to at most four consecutive bytes changes the checksum. */
  lemma FourBytesDetected(p: Bytes, x: Bytes, y: Bytes, q: Bytes)
    requires |x| == |y| <= 4 && x != y
    ensures Crc(p + x + q) != Crc(p + y + q)
  {
    hide Bits, Crc;
    var s, t := p + x + q, p + y + q;
    BitsAppend(p + x, q);
    BitsAppend(p + y, q);
    BitsAppend(p, x);
    BitsAppend(p, y);
    assert x == s[|p|..|p| + |x|] && y == t[|p|..|p| + |y|];
    BurstDetected(s, t, 8 * |p|, 8 * (|p| + |x|));
  }

  // ---- The checksum as a remainder ------------------------------------------------------------------

  /** x^32 + x^26 + x^23 + x^22 + x^16 + x^12 + x^11 + x^10 + x^8 + x^7 + x^5 + x^4 + x^2 + x + 1, highest power first. */
  const GENERATOR: Bytes := [1, 0, 0, 0, 0, 0, 1, 0, 0, 1, 1, 0, 0, 0, 0, 0, 1, 0, 0, 0, 1, 1, 1, 0, 1, 1, 0, 1, 1, 0, 1, 1, 1]

  /** The sum of two polynomials with coefficients in {0, 1}. */
  function Add(a: Bytes, b: Bytes): (r: Bytes)
    requires |a| == |b|
    ensures |r| == |a| && IsBits(r)
  {
    seq(|a|, i requires 0 <= i < |a| => BitXor(a[i], b[i]))
  }

  /** Long division by the generator, leading coefficient first: what is left of degree below 32. */
  function Remainder(m: Bytes): (r: Bytes)
    ensures |m| >= 32 ==> |r| == 32
    decreases |m|
  {
    if |m| <= 32 then m
    else if m[0] == 0 then Remainder(m[1..])
    else Remainder(Add(m[..33], GENERATOR)[1..] + m[33..])
  }

  function Zeros(n: nat): (r: Bytes)
    ensures |r| == n && IsBits(r)
  {
    seq(n, _ => 0)
  }

  function Ones(n: nat): (r: Bytes)
    ensures |r| == n && IsBits(r)
  {
    seq(n, _ => 1)
  }

  lemma BitsOfCons(v: nat, n: nat)
    requires n > 0
    ensures BitsOf(v, n) == [v % 2] + BitsOf(v / 2, n - 1)
  {
  }

  lemma AddCons(b: U8, x: Bytes, c: U8, y: Bytes)
    requires |x| == |y|
    ensures Add([b] + x, [c] + y) == [BitXor(b, c)] + Add(x, y)
  {
    hide BitXor;
  }

  lemma {:induction false} BitsOfXor(a: nat, b: nat, n: nat)
    ensures BitsOf(Xor(a, b), n) == Add(BitsOf(a, n), BitsOf(b, n))
    decreases n
  {
    if n > 0 {
      XorBits(a, b);
      BitsOfXor(a / 2, b / 2, n - 1);
      BitsOfCons(Xor(a, b), n);
      BitsOfCons(a, n);
      BitsOfCons(b, n);
      hide BitsOf, Xor;
      AddCons(a % 2, BitsOf(a / 2, n - 1), b % 2, BitsOf(b / 2, n - 1));
      hide Add, BitXor;
    } else {
      assert Add([], []) == [];
    }
  }

  lemma {:induction false} BitsOfHigh(v: nat, n: nat)
    requires v < Pow2(n)
    ensures BitsOf(v, n + 1) == BitsOf(v, n) + [0]
    decreases n
  {
    if n > 0 {
      BitsOfHigh(v / 2, n - 1);
    }
  }

  lemma {:induction false} BitsOfComplement(v: nat, n: nat)
    requires v < Pow2(n)
    ensures BitsOf(Pow2(n) - 1 - v, n) == Add(BitsOf(v, n), Ones(n))
    decreases n
  {
    if n > 0 {
      var w := Pow2(n) - 1 - v;
      assert w / 2 == Pow2(n - 1) - 1 - v / 2 && w % 2 == BitXor(v % 2, 1);
      BitsOfComplement(v / 2, n - 1);
      BitsOfCons(w, n);
      BitsOfCons(v, n);
      hide BitsOf;
      AddCons(v % 2, BitsOf(v / 2, n - 1), 1, Ones(n - 1));
      assert Ones(n) == [1] + Ones(n - 1);
      hide Add, BitXor;
    } else {
      assert Add([], []) == [];
    }
  }

  lemma Product(p: nat, w: nat)
    ensures (2 * p) * w == 2 * (p * w)
  {
  }

  /** The low bits and the rest. */
  lemma {:induction false} BitsOfJoin(v: nat, w: nat, j: nat, k: nat)
    requires v < Pow2(j)
    ensures BitsOf(v + Pow2(j) * w, j + k) == BitsOf(v, j) + BitsOf(w, k)
    decreases j
  {
    if j == 0 {
      assert BitsOf(v, 0) == [];
    } else {
      Product(Pow2(j - 1), w);
      BitsOfJoin(v / 2, w, j - 1, k);
      JoinStep(v, Pow2(j - 1) * w, j, k);
    }
  }

  lemma JoinStep(v: nat, high: nat, j: nat, k: nat)
    requires j > 0
    ensures BitsOf(v + 2 * high, j + k) == [v % 2] + BitsOf(v / 2 + high, j - 1 + k)
    ensures BitsOf(v, j) == [v % 2] + BitsOf(v / 2, j - 1)
  {
    BitsOfCons(v + 2 * high, j + k);
    BitsOfCons(v, j);
    hide BitsOf;
    assert (v + 2 * high) % 2 == v % 2 && (v + 2 * high) / 2 == v / 2 + high;
  }

  lemma Pow2Of8()
    ensures Pow2(8) == 0x100
  {
    assert Pow2(4) == 16;
  }

  lemma ByteInFront(s: Bytes)
    requires s != []
    ensures LEVal(s) == s[0] + 0x100 * LEVal(s[1..]) && Bits(s) == BitsOf(s[0], 8) + Bits(s[1..])
    ensures 8 * |s| == 8 + 8 * |s[1..]|
  {
    hide BitsOf;
  }

  lemma ByteJoin(b: U8, w: nat, k: nat)
    ensures BitsOf(b + 0x100 * w, 8 + k) == BitsOf(b, 8) + BitsOf(w, k)
  {
    hide BitsOf;
    Pow2Of8();
    hide Pow2;
    BitsOfJoin(b, w, 8, k);
    assert Pow2(8) * w == 0x100 * w;
  }

  lemma NoBytes()
    ensures LEVal([]) == 0 && BitsOf(0, 0) == [] && Bits([]) == []
  {
  }

  /** The bits of a number are those of its little-endian bytes. */
  lemma {:induction false} BitsOfBytes(s: Bytes)
    ensures BitsOf(LEVal(s), 8 * |s|) == Bits(s)
    decreases |s|
  {
    hide *;
    if s == [] {
      NoBytes();
    } else {
      var rest := s[1..];
      ByteInFront(s);
      ByteJoin(s[0], LEVal(rest), 8 * |rest|);
      BitsOfBytes(rest);
    }
  }

  lemma LEValFour(a: U8, b: U8, c: U8, d: U8)
    ensures LEVal([a, b, c, d]) == a + 0x100 * b + 0x1_0000 * c + 0x100_0000 * d
  {
    assert [a, b, c, d][1..] == [b, c, d] && [b, c, d][1..] == [c, d] && [c, d][1..] == [d];
    assert LEVal([d]) == d;
    assert LEVal([c, d]) == c + 0x100 * d;
  }

  lemma BitsFour(a: U8, b: U8, c: U8, d: U8)
    ensures Bits([a, b, c, d]) == BitsOf(a, 8) + BitsOf(b, 8) + BitsOf(c, 8) + BitsOf(d, 8)
  {
    hide BitsOf;
    assert [a, b, c, d][1..] == [b, c, d] && [b, c, d][1..] == [c, d] && [c, d][1..] == [d];
    assert Bits([d]) == BitsOf(d, 8) + [];
    assert Bits([c, d]) == BitsOf(c, 8) + Bits([d]);
  }

  lemma BitsOfFour(a: U8, b: U8, c: U8, d: U8)
    ensures BitsOf(a + 0x100 * b + 0x1_0000 * c + 0x100_0000 * d, 32)
            == BitsOf(a, 8) + BitsOf(b, 8) + BitsOf(c, 8) + BitsOf(d, 8)
  {
    hide BitsOf, Bits, LEVal;
    LEValFour(a, b, c, d);
    BitsFour(a, b, c, d);
    BitsOfBytes([a, b, c, d]);
  }

  lemma Nibbles(lo: nat, hi: nat)
    requires lo < 16
    ensures BitsOf(lo + 16 * hi, 8) == BitsOf(lo, 4) + BitsOf(hi, 4)
  {
    hide BitsOf;
    Pow2Of4();
    hide Pow2;
    BitsOfJoin(lo, hi, 4, 4);
    assert Pow2(4) * hi == 16 * hi;
  }

  lemma Pow2Of4()
    ensures Pow2(4) == 16
  {
    assert Pow2(2) == 4;
  }

  lemma Halve(b: U8, w: nat)
    requires b < 2
    ensures (b + 2 * w) % 2 == b && (b + 2 * w) / 2 == w
  {
  }

  lemma OneBit(b: U8, w: nat, n: nat)
    requires b < 2
    ensures BitsOf(b + 2 * w, n + 1) == [b] + BitsOf(w, n)
  {
    hide BitsOf;
    Halve(b, w);
    BitsOfCons(b + 2 * w, n + 1);
  }

  lemma FourBits(a: U8, b: U8, c: U8, d: U8)
    requires a < 2 && b < 2 && c < 2 && d < 2
    ensures BitsOf(a + 2 * b + 4 * c + 8 * d, 4) == [a, b, c, d]
  {
    hide BitsOf;
    OneBit(a, b + 2 * c + 4 * d, 3);
    OneBit(b, c + 2 * d, 2);
    OneBit(c, d, 1);
    OneBit(d, 0, 0);
    assert |BitsOf(0, 0)| == 0;
  }

  lemma PolyBytes()
    ensures BitsOf(0x20, 8) == [0, 0, 0, 0, 0, 1, 0, 0] && BitsOf(0x83, 8) == [1, 1, 0, 0, 0, 0, 0, 1]
    ensures BitsOf(0xB8, 8) == [0, 0, 0, 1, 1, 1, 0, 1] && BitsOf(0xED, 8) == [1, 0, 1, 1, 0, 1, 1, 1]
    ensures BitsOf(0xFF, 8) == Ones(8)
  {
    hide BitsOf;
    Nibbles(0x0, 0x2);
    Nibbles(0x3, 0x8);
    Nibbles(0x8, 0xB);
    Nibbles(0xD, 0xE);
    Nibbles(0xF, 0xF);
    FourBits(0, 0, 0, 0);
    FourBits(0, 1, 0, 0);
    FourBits(1, 1, 0, 0);
    FourBits(0, 0, 0, 1);
    FourBits(1, 1, 0, 1);
    FourBits(1, 0, 1, 1);
    FourBits(0, 1, 1, 1);
    FourBits(1, 1, 1, 1);
  }

  lemma PolyIsGenerator()
    ensures BitsOf(POLY, 32) == GENERATOR[1..]
  {
    hide BitsOf;
    BitsOfFour(0x20, 0x83, 0xB8, 0xED);
    PolyBytes();
  }

  /** What the leading bit of the division is, and what the register becomes. */
  lemma FeedBit(c: U32, b: U8)
    requires b < 2
    ensures Feed(c, b) == if BitXor(b, c % 2) == 1 then Xor(c / 2, POLY) else c / 2
  {
    XorBits(c, b);
    XorZero(c / 2);
  }

  /** Dividing a message whose first 32 coefficients have the register added in. */
  function Dividend(c: U32, m: Bytes): (r: Bytes)
    ensures |r| == |m| + 32
  {
    Add(m + Zeros(32), BitsOf(c, 32) + Zeros(|m|))
  }

  lemma AddSplit(a: Bytes, b: Bytes, c: Bytes, d: Bytes)
    requires |a| == |c| && |b| == |d|
    ensures Add(a + b, c + d) == Add(a, c) + Add(b, d)
  {
  }

  lemma BitsOfHalf(c: U32)
    ensures BitsOf(c, 32) == [c % 2] + BitsOf(c / 2, 31)
    ensures BitsOf(c / 2, 32) == BitsOf(c / 2, 31) + [0]
  {
    Pow2Values();
    BitsOfHigh(c / 2, 31);
  }

  lemma DividendStep(c: U32, b: U8, m: Bytes)
    requires b < 2 && IsBits(m)
    ensures Dividend(c, [b] + m)[0] == BitXor(b, c % 2)
    ensures Dividend(c, [b] + m)[1..] == Dividend(c / 2, m)
  {
    BitsOfHalf(c);
    hide BitsOf, BitXor, Add, Zeros;
    var m1: Bytes := [b] + m;
    var h := BitsOf(c / 2, 31);
    DividendShift(c % 2, h, b, m);
    assert Dividend(c, m1) == Add(m1 + Zeros(32), [c % 2] + h + Zeros(|m| + 1));
  }

  lemma DividendShift(c: U8, h: Bytes, b: U8, m: Bytes)
    requires |h| == 31
    ensures var d := Add([b] + m + Zeros(32), [c] + h + Zeros(|m| + 1));
            d[0] == BitXor(b, c) && d[1..] == Add(m + Zeros(32), h + [0] + Zeros(|m|))
  {
    assert [c] + h + Zeros(|m| + 1) == [c] + (h + [0] + Zeros(|m|));
    assert [b] + m + Zeros(32) == [b] + (m + Zeros(32));
    AddSplit([b], m + Zeros(32), [c], h + [0] + Zeros(|m|));
    assert Add([b], [c]) == [BitXor(b, c)];
    hide Add, BitXor;
  }

  lemma DividendPlusGenerator(c: U32, m: Bytes)
    requires IsBits(m) && c < Pow2(31) && Xor(c, POLY) < TWO32
    ensures Add(Dividend(c, m)[..32], GENERATOR[1..]) + Dividend(c, m)[32..] == Dividend(Xor(c, POLY), m)
  {
    PolyIsGenerator();
    BitsOfXor(c, POLY, 32);
    hide BitsOf, Xor;
  }

  lemma {:induction false} DivisionIsRegister(c: U32, m: Bytes)
    requires IsBits(m)
    ensures Remainder(Dividend(c, m)) == BitsOf(BitRegister(c, m), 32)
    decreases |m|
  {
    hide Feed, Xor, Dividend, Add;
    if m == [] {
      DividendOfNothing(c);
    } else {
      var b, rest := m[0], m[1..];
      assert m == [b] + rest;
      FeedBit(c, b);
      DividendStep(c, b, rest);
      DivisionIsRegister(Feed(c, b), rest);
      if BitXor(b, c % 2) == 1 {
        DivisionStep(c, b, rest);
      }
    }
  }

  lemma DividendOfNothing(c: U32)
    ensures Dividend(c, []) == BitsOf(c, 32)
  {
    hide BitsOf;
  }

  lemma DivideOnce(d: Bytes)
    requires |d| > 32 && d[0] == 1
    ensures Remainder(d) == Remainder(Add(d[1..][..32], GENERATOR[1..]) + d[1..][32..])
  {
    var g: Bytes := GENERATOR;
    AddSplit([1], d[1..33], [1], g[1..]);
    assert d[..33] == [1] + d[1..33] && g == [1] + g[1..];
    assert d[1..][..32] == d[1..33] && d[33..] == d[1..][32..];
    hide Add;
  }

  lemma DivisionStep(c: U32, b: U8, m: Bytes)
    requires b < 2 && IsBits(m) && BitXor(b, c % 2) == 1
    ensures Feed(c, b) == Xor(c / 2, POLY)
    ensures Remainder(Dividend(c, [b] + m)) == Remainder(Dividend(Xor(c / 2, POLY), m))
  {
    FeedBit(c, b);
    DividendStep(c, b, m);
    Pow2Values();
    DividendPlusGenerator(c / 2, m);
    hide Feed, Xor, Dividend, Pow2;
    DivideOnce(Dividend(c, [b] + m));
  }

  /** The standard's definition, for every byte string: send each byte low bit first, complement the first 32 bits,
      append 32 zeros, divide by the generator; the checksum is the complement of the remainder, low bit first. */
  lemma CrcIsRemainder(s: Bytes)
    ensures var m := Bits(s) + Zeros(32);
            BitsOf(Crc(s), 32) == Add(Remainder(Add(m, Ones(32) + Zeros(|m| - 32))), Ones(32))
  {
    hide BitsOf, Register, BitRegister, Bits, Remainder, Add, Ones, Zeros;
    RegisterIsBitRegister(ONES, s);
    DivisionIsRegister(ONES, Bits(s));
    ComplementBits(Register(ONES, s));
    DividendIs(Bits(s));
  }

  lemma ComplementBits(c: U32)
    ensures BitsOf(ONES - c, 32) == Add(BitsOf(c, 32), Ones(32))
  {
    Pow2Values();
    hide BitsOf, Add, Ones, Pow2;
    BitsOfComplement(c, 32);
  }

  lemma DividendIs(m: Bytes)
    requires IsBits(m)
    ensures Dividend(ONES, m) == Add(m + Zeros(32), Ones(32) + Zeros(|m|))
  {
    AllOnes();
    hide BitsOf;
  }

  lemma AllOnes()
    ensures BitsOf(ONES, 32) == Ones(32)
  {
    hide BitsOf;
    PolyBytes();
    BitsOfFour(0xFF, 0xFF, 0xFF, 0xFF);
  }

  /** And these 32 bits are the whole checksum. */
  lemma BitsDetermine(v: U32, w: U32)
    requires BitsOf(v, 32) == BitsOf(w, 32)
    ensures v == w
  {
    Pow2Values();
    hide BitsOf, Pow2;
    WordOfBits(v, 32);
    WordOfBits(w, 32);
  }
}
