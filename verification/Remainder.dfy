/** What the bit-at-a-time CRC-32C of `Crc32c.dfy` means: section 12.1 of RFC 3720 defines the checksum as
    the remainder of the message polynomial, 32 places up and with a starting value added, by the
    generator 0x11EDC6F41. A polynomial over GF(2) is the set of its exponents; bits are sent low bit
    first, so bit 0 of a register stands for the exponent 31. */
module Remainder {
  import opened Crc32c

  type Poly = set<nat>

  /** x^32 + x^28 + ... + 1: the exponents of 0x11EDC6F41. */
  ghost function Generator(): Poly {
    {32, 28, 27, 26, 25, 23, 22, 20, 19, 18, 14, 13, 11, 10, 9, 8, 6, 0}
  }

  /** Addition, which is also subtraction. */
  ghost function Sum(a: Poly, b: Poly): Poly {
    (a - b) + (b - a)
  }

  /** Multiplication by x^n. */
  ghost function Up(a: Poly, n: nat): Poly {
    set e | e in a :: e + n
  }

  /** The product of the generator and the polynomial with these coefficients, the highest first. */
  ghost function Multiple(q: seq<bool>): Poly {
    if q == [] then {} else Sum(Up(Multiple(q[..|q| - 1]), 1), if q[|q| - 1] then Generator() else {})
  }

  /** `r` is the remainder of `m` by the generator. */
  ghost predicate IsRemainder(m: Poly, r: Poly) {
    (forall e :: e in r ==> e < 32) && exists q :: m == Sum(Multiple(q), r)
  }

  lemma SumAssoc(a: Poly, b: Poly, c: Poly)
    ensures Sum(Sum(a, b), c) == Sum(a, Sum(b, c))
  {
  }

  lemma UpSum(a: Poly, b: Poly, n: nat)
    ensures Up(Sum(a, b), n) == Sum(Up(a, n), Up(b, n))
  {
    forall x
      ensures x in Up(Sum(a, b), n) <==> x in Sum(Up(a, n), Up(b, n))
    {
      if x in Up(Sum(a, b), n) {
        var e :| e in Sum(a, b) && x == e + n;
      }
      if x in Up(a, n) - Up(b, n) {
        var e :| e in a && x == e + n;
        assert e in Sum(a, b);
      }
      if x in Up(b, n) - Up(a, n) {
        var e :| e in b && x == e + n;
        assert e in Sum(a, b);
      }
    }
  }

  lemma UpUp(a: Poly, m: nat, n: nat)
    ensures Up(Up(a, m), n) == Up(a, m + n) && Up(a, 0) == a
  {
    forall x
      ensures x in Up(Up(a, m), n) <==> x in Up(a, m + n)
    {
      if x in Up(a, m + n) {
        var e :| e in a && x == e + (m + n);
        assert e + m in Up(a, m);
      }
    }
  }

  lemma GeneratorTop()
    ensures 32 in Generator() && forall e :: e in Generator() ==> e <= 32
  {
  }

  /** A multiple of the generator other than zero has an exponent of 32 or more. */
  lemma {:induction false} MultipleHigh(q: seq<bool>) returns (e: nat)
    ensures true in q ==> e >= 32 && e in Multiple(q)
    ensures true !in q ==> Multiple(q) == {}
  {
    hide Generator;
    GeneratorTop();
    e := 0;
    if q != [] {
      var init, last := q[..|q| - 1], q[|q| - 1];
      assert q == init + [last];
      e := MultipleHigh(init);
      if true in init {
        e := e + 1;
        assert e in Up(Multiple(init), 1);
      } else {
        e := 32;
        assert Up(Multiple(init), 1) == {};
      }
    }
  }

  lemma {:induction false} MultipleAppend(a: seq<bool>, b: seq<bool>)
    ensures Multiple(a + b) == Sum(Up(Multiple(a), |b|), Multiple(b))
    decreases |b|
  {
    hide Generator, Sum, Up;
    UpUp(Multiple(a), 0, 0);
    if b == [] {
      assert a + b == a;
      SumZero(Multiple(a));
    } else {
      var init, g := b[..|b| - 1], if b[|b| - 1] then Generator() else {};
      assert (a + b)[..|a + b| - 1] == a + init;
      MultipleAppend(a, init);
      UpSum(Up(Multiple(a), |init|), Multiple(init), 1);
      UpUp(Multiple(a), |init|, 1);
      SumAssoc(Up(Multiple(a), |b|), Up(Multiple(init), 1), g);
    }
  }

  lemma SumZero(a: Poly)
    ensures Sum(a, {}) == a && Sum({}, a) == a && Sum(a, a) == {}
  {
  }

  /** The sum of two multiples is one. */
  lemma {:induction false} MultipleSum(a: seq<bool>, b: seq<bool>) returns (s: seq<bool>)
    ensures Multiple(s) == Sum(Multiple(a), Multiple(b))
    decreases |a|
  {
    hide Generator, Sum, Up;
    if a == [] {
      s := b;
      SumZero(Multiple(b));
    } else if b == [] {
      s := a;
      SumZero(Multiple(a));
    } else {
      var a0, b0 := a[..|a| - 1], b[..|b| - 1];
      var la, lb := a[|a| - 1], b[|b| - 1];
      var init := MultipleSum(a0, b0);
      s := init + [la != lb];
      assert s[..|s| - 1] == init;
      UpSum(Multiple(a0), Multiple(b0), 1);
      var ga, gb := if la then Generator() else {}, if lb then Generator() else {};
      SumPairs(Up(Multiple(a0), 1), ga, Up(Multiple(b0), 1), gb);
      SumZero(Generator());
      SumZero({});
    }
  }

  lemma SumPairs(a: Poly, b: Poly, c: Poly, d: Poly)
    ensures Sum(Sum(a, b), Sum(c, d)) == Sum(Sum(a, c), Sum(b, d))
  {
  }

  /** There is one remainder. */
  lemma RemainderUnique(m: Poly, r: Poly, r': Poly)
    requires IsRemainder(m, r) && IsRemainder(m, r')
    ensures r == r'
  {
    hide Multiple;
    var q :| m == Sum(Multiple(q), r);
    var q' :| m == Sum(Multiple(q'), r');
    var s := MultipleSum(q, q');
    assert Multiple(s) == Sum(r, r');
    var e := MultipleHigh(s);
  }

  // Registers and messages

  /** The low `n` bits of a register, the lowest being the highest exponent. */
  ghost function Reg(c: bv32, n: nat): Poly {
    if n == 0 then {} else (if Odd(c) then {n - 1} else {}) + Reg(Half(c), n - 1)
  }

  ghost function BytePoly(b: bv8): Poly {
    Reg(Widen(b), 8)
  }

  /** The bytes in order, the first being the highest. */
  ghost function MessagePoly(s: seq<bv8>): Poly {
    if s == [] then {} else Sum(Up(BytePoly(s[0]), 8 * (|s| - 1)), MessagePoly(s[1..]))
  }

  lemma {:induction false} RegBelow(c: bv32, n: nat)
    ensures forall e :: e in Reg(c, n) ==> e < n
  {
    if n > 0 {
      RegBelow(Half(c), n - 1);
    }
  }

  lemma {:induction false} RegXor(a: bv32, b: bv32, n: nat)
    ensures Reg(Xor(a, b), n) == Sum(Reg(a, n), Reg(b, n))
    decreases n
  {
    hide Xor, Half, Odd;
    if n > 0 {
      HalfXor(a, b);
      OddXor(a, b);
      RegXor(Half(a), Half(b), n - 1);
      RegBelow(Half(a), n - 1);
      RegBelow(Half(b), n - 1);
    }
  }

  ghost function Halves(c: bv32, n: nat): bv32
    decreases n
  {
    if n == 0 then c else Halves(Half(c), n - 1)
  }

  lemma {:induction false} RegZero(n: nat)
    ensures Reg(0, n) == {}
  {
    if n > 0 {
      assert Half(0) == 0 && !Odd(0);
      RegZero(n - 1);
    }
  }

  /** Above the highest bit there is nothing. */
  lemma {:induction false} RegUp(c: bv32, m: nat, k: nat)
    requires Halves(c, m) == 0
    ensures Reg(c, m + k) == Up(Reg(c, m), k)
    decreases m
  {
    hide Half, Odd;
    if m == 0 {
      RegZero(k);
    } else {
      RegUp(Half(c), m - 1, k);
      UpJoin(if Odd(c) then {m - 1} else {}, Reg(Half(c), m - 1), k);
      assert Up({m - 1}, k) == {m - 1 + k};
    }
  }

  lemma UpJoin(a: Poly, b: Poly, n: nat)
    ensures Up(a + b, n) == Up(a, n) + Up(b, n)
  {
    forall x
      ensures x in Up(a + b, n) <==> x in Up(a, n) + Up(b, n)
    {
      if x in Up(a, n) {
        var e :| e in a && x == e + n;
        assert e in a + b;
      }
      if x in Up(b, n) {
        var e :| e in b && x == e + n;
        assert e in a + b;
      }
    }
  }

  lemma EightHalves(c: bv32)
    ensures Halves(c, 8) == HighBytes(c)
  {
    FourShift(c);
    FourShift(Half(Half(Half(Half(c)))));
    EightShift(c);
    hide Half, HighBytes;
    var a := Half(Half(c));
    var b := Half(Half(a));
    var d := Half(Half(b));
    assert Halves(c, 8) == Halves(a, 6) == Halves(b, 4) == Halves(d, 2);
  }

  lemma FourShift(c: bv32)
    ensures Half(Half(Half(Half(c)))) == c >> 4
  {
  }

  lemma EightShift(c: bv32)
    ensures (c >> 4) >> 4 == HighBytes(c)
  {
  }

  lemma {:induction false} HalvesAdd(c: bv32, m: nat, n: nat)
    ensures Halves(c, m + n) == Halves(Halves(c, m), n)
    decreases m
  {
    hide Half;
    if m > 0 {
      HalvesAdd(Half(c), m - 1, n);
    }
  }

  lemma HalvesOut(c: bv32)
    ensures Halves(Half(c), 31) == 0
  {
    hide Half, HighBytes, Halves;
    NoHighBytes(c);
    EightHalves(c);
    EightHalves(HighBytes(c));
    EightHalves(HighBytes(HighBytes(c)));
    EightHalves(HighBytes(HighBytes(HighBytes(c))));
    HalvesAdd(c, 8, 8);
    HalvesAdd(c, 16, 8);
    HalvesAdd(c, 24, 8);
    HalvesNext(c, 31);
  }

  lemma HalvesNext(c: bv32, n: nat)
    ensures Halves(c, n + 1) == Halves(Half(c), n)
  {
    hide Half;
  }

  /** The lowest four bits of a register. */
  ghost function Nibble(c: bv32, n: nat): Poly
    requires n >= 4
  {
    (if c & 1 == 1 then {n - 1} else {}) + (if c & 2 == 2 then {n - 2} else {})
    + (if c & 4 == 4 then {n - 3} else {}) + (if c & 8 == 8 then {n - 4} else {})
  }

  lemma RegNibble(c: bv32, rest: bv32, n: nat)
    requires n >= 4 && rest == c >> 4
    ensures Reg(c, n) == Nibble(c, n) + Reg(rest, n - 4)
  {
    NibbleBits(c);
    FourShift(c);
    hide Half, Odd;
    var c1 := Half(c);
    var c2 := Half(c1);
    var c3 := Half(c2);
    assert Reg(c, n) == (if Odd(c) then {n - 1} else {}) + Reg(c1, n - 1);
    assert Reg(c1, n - 1) == (if Odd(c1) then {n - 2} else {}) + Reg(c2, n - 2);
    assert Reg(c2, n - 2) == (if Odd(c2) then {n - 3} else {}) + Reg(c3, n - 3);
    assert Reg(c3, n - 3) == (if Odd(c3) then {n - 4} else {}) + Reg(rest, n - 4);
  }

  lemma NibbleBits(c: bv32)
    ensures Odd(c) <==> c & 1 == 1
    ensures Odd(Half(c)) <==> c & 2 == 2
    ensures Odd(Half(Half(c))) <==> c & 4 == 4
    ensures Odd(Half(Half(Half(c)))) <==> c & 8 == 8
  {
  }

  lemma PolyNibbles()
    ensures Nibble(0x82f6_3b78, 32) == {28}
    ensures Nibble(0x082f_63b7, 28) == {27, 26, 25}
    ensures Nibble(0x0082_f63b, 24) == {23, 22, 20}
    ensures Nibble(0x0008_2f63, 20) == {19, 18}
    ensures Nibble(0x0000_82f6, 16) == {14, 13}
    ensures Nibble(0x0000_082f, 12) == {11, 10, 9, 8}
    ensures Nibble(0x0000_0082, 8) == {6}
    ensures Nibble(0x0000_0008, 4) == {0}
  {
  }

  lemma PolyLow()
    ensures Reg(0x82f6_3b78, 32) == {28, 27, 26, 25, 23, 22, 20, 19, 18} + Reg(0x82f6, 16)
  {
    hide Reg, Nibble;
    PolyNibbles();
    RegNibble(0x82f6_3b78, 0x082f_63b7, 32);
    RegNibble(0x082f_63b7, 0x0082_f63b, 28);
    RegNibble(0x0082_f63b, 0x0008_2f63, 24);
    RegNibble(0x0008_2f63, 0x0000_82f6, 20);
  }

  lemma PolyHigh()
    ensures Reg(0x82f6, 16) == {14, 13, 11, 10, 9, 8, 6, 0}
  {
    hide Reg, Nibble;
    PolyNibbles();
    RegNibble(0x0000_82f6, 0x0000_082f, 16);
    RegNibble(0x0000_082f, 0x0000_0082, 12);
    RegNibble(0x0000_0082, 0x0000_0008, 8);
    RegNibble(0x0000_0008, 0x0000_0000, 4);
    RegNone();
  }

  /** The feedback word is the generator without its highest term. */
  lemma PolyIsGenerator()
    ensures Sum({32}, Reg(POLY, 32)) == Generator()
  {
    hide Reg;
    PolyLow();
    PolyHigh();
  }

  lemma RegNone()
    ensures Reg(0, 0) == {}
  {
  }

  /** One step multiplies by x and takes the generator off when the result needs it. */
  lemma StepReduces(c: bv32)
    ensures Up(Reg(c, 32), 1) == Sum(if Odd(c) then Generator() else {}, Reg(Step(c), 32))
  {
    hide Generator, Half, Odd, Xor, Reg, Up, Sum;
    var r := Reg(Half(c), 32);
    StepUp(c);
    RegBelow(Half(c), 32);
    if Odd(c) {
      RegXor(Half(c), POLY, 32);
      PolyIsGenerator();
      TakeOff(r, Reg(POLY, 32));
    } else {
      SumZero(r);
    }
  }

  lemma StepUp(c: bv32)
    ensures Up(Reg(c, 32), 1) == Sum(if Odd(c) then {32} else {}, Reg(Half(c), 32))
  {
    hide Half, Odd, Reg, Halves, Up, Sum;
    RegHead(c);
    HalvesOut(c);
    RegUp(Half(c), 31, 1);
    UpJoin(if Odd(c) then {31} else {}, Reg(Half(c), 31), 1);
    RegBelow(Half(c), 32);
    TopUp(Reg(Half(c), 32));
  }

  lemma TopUp(r: Poly)
    requires 32 !in r
    ensures Up({31}, 1) == {32} && Up({}, 1) == {}
    ensures {32} + r == Sum({32}, r) && {} + r == Sum({}, r)
  {
  }

  lemma RegHead(c: bv32)
    ensures Reg(c, 32) == (if Odd(c) then {31} else {}) + Reg(Half(c), 31)
  {
    hide Half, Odd;
  }

  lemma TakeOff(r: Poly, p: Poly)
    ensures Sum(Sum({32}, p), Sum(r, p)) == Sum({32}, r)
  {
  }

  lemma {:induction false} StepsReduce(c: bv32, n: nat) returns (q: seq<bool>)
    ensures |q| == n && Up(Reg(c, 32), n) == Sum(Multiple(q), Reg(Steps(c, n), 32))
    decreases n
  {
    hide Generator, Step, Sum, Up, Odd, Reg;
    UpUp(Reg(c, 32), 0, 0);
    if n == 0 {
      q := [];
      SumZero(Reg(c, 32));
    } else {
      var g := if Odd(c) then Generator() else {};
      var rest := StepsReduce(Step(c), n - 1);
      q := [Odd(c)] + rest;
      StepReduces(c);
      UpUp(Reg(c, 32), 1, n - 1);
      UpSum(g, Reg(Step(c), 32), n - 1);
      SumAssoc(Up(g, n - 1), Multiple(rest), Reg(Steps(c, n), 32));
      MultipleAppend([Odd(c)], rest);
      OneMultiple(Odd(c));
    }
  }

  lemma OneMultiple(t: bool)
    ensures Multiple([t]) == if t then Generator() else {}
  {
    hide Generator;
    assert Up({}, 1) == {} && [t][..0] == [];
    SumZero(if t then Generator() else {});
  }

  /** A byte is its polynomial 24 places up in the register. */
  lemma ByteUp(b: bv8)
    ensures Reg(Widen(b), 32) == Up(BytePoly(b), 24)
  {
    ByteShort(b);
    EightHalves(Widen(b));
    hide Widen;
    RegUp(Widen(b), 8, 24);
  }

  lemma ByteShort(b: bv8)
    ensures Widen(b) >> 8 == 0
  {
  }

  lemma ByteReduces(c: bv32, b: bv8) returns (q: seq<bool>)
    ensures |q| == 8
    ensures Sum(Up(Reg(c, 32), 8), Up(BytePoly(b), 32)) == Sum(Multiple(q), Reg(Byte(c, b), 32))
  {
    hide Xor, Widen, Steps, Multiple, Reg, Sum, Up;
    q := StepsReduce(Xor(c, Widen(b)), 8);
    RegXor(c, Widen(b), 32);
    UpSum(Reg(c, 32), Reg(Widen(b), 32), 8);
    ByteUp(b);
    UpUp(BytePoly(b), 24, 8);
  }

  lemma {:induction false} BytesReduce(c: bv32, s: seq<bv8>) returns (q: seq<bool>)
    ensures |q| == 8 * |s|
    ensures Sum(Up(Reg(c, 32), 8 * |s|), Up(MessagePoly(s), 32)) == Sum(Multiple(q), Reg(Bytes(c, s), 32))
    decreases |s|
  {
    hide Byte, Multiple, Reg, Sum, Up, BytePoly;
    if s == [] {
      q := [];
      UpUp(Reg(c, 32), 0, 0);
      NoMessage(Reg(c, 32));
    } else {
      var n, rest, c' := 8 * (|s| - 1), s[1..], Byte(c, s[0]);
      var first := ByteReduces(c, s[0]);
      var others := BytesReduce(c', rest);
      q := first + others;
      MultipleAppend(first, others);
      Rearrange(Reg(c, 32), BytePoly(s[0]), MessagePoly(rest), Multiple(first), Reg(c', 32), Multiple(others),
                Reg(Bytes(c', rest), 32), n);
    }
  }

  lemma NoMessage(r: Poly)
    ensures Up({}, 32) == {} && Sum(r, {}) == Sum(Multiple([]), r)
  {
  }

  lemma Rearrange(r: Poly, b: Poly, m: Poly, q: Poly, r': Poly, q': Poly, last: Poly, n: nat)
    requires Sum(Up(r, 8), Up(b, 32)) == Sum(q, r') && Sum(Up(r', n), Up(m, 32)) == Sum(q', last)
    ensures Sum(Up(r, n + 8), Up(Sum(Up(b, n), m), 32)) == Sum(Sum(Up(q, n), q'), last)
  {
    hide Sum, Up;
    UpUp(r, 8, n);
    UpUp(b, n, 32);
    UpUp(b, 32, n);
    UpSum(Up(b, n), m, 32);
    UpSum(Up(r, 8), Up(b, 32), n);
    UpSum(q, r', n);
    SumAssoc(Up(r, n + 8), Up(b, n + 32), Up(m, 32));
    SumAssoc(Up(q, n), Up(r', n), Up(m, 32));
    SumAssoc(Up(q, n), q', last);
  }

  /** The register after a message is the remainder by the generator. */
  lemma RegisterIsRemainder(c: bv32, s: seq<bv8>)
    ensures IsRemainder(Sum(Up(Reg(c, 32), 8 * |s|), Up(MessagePoly(s), 32)), Reg(Bytes(c, s), 32))
  {
    hide Reg, MessagePoly, Bytes, Multiple, Sum;
    var q := BytesReduce(c, s);
    RegBelow(Bytes(c, s), 32);
  }

  lemma FullNibble(c: bv32, n: nat)
    requires n >= 4 && c & 15 == 15
    ensures forall e :: e in Nibble(c, n) <==> n - 4 <= e < n
  {
    assert c & 1 == 1 && c & 2 == 2 && c & 4 == 4 && c & 8 == 8;
  }

  /** All of the low `n` bits are ones. */
  ghost predicate Full(c: bv32, n: nat) {
    forall e :: e in Reg(c, n) <==> 0 <= e < n
  }

  lemma FullStep(c: bv32, rest: bv32, n: nat)
    requires c & 15 == 15 && rest == c >> 4 && Full(rest, n)
    ensures Full(c, n + 4)
  {
    hide Reg, Nibble;
    FullNibble(c, n + 4);
    RegNibble(c, rest, n + 4);
  }

  lemma FullNone()
    ensures Full(0, 0)
  {
  }

  lemma OnesFull()
    ensures Full(0xffff_ffff, 32)
  {
    hide Reg, Full;
    FullNone();
    FullStep(0x0000_000f, 0x0000_0000, 0);
    FullStep(0x0000_00ff, 0x0000_000f, 4);
    FullStep(0x0000_0fff, 0x0000_00ff, 8);
    FullStep(0x0000_ffff, 0x0000_0fff, 12);
    FullStep(0x000f_ffff, 0x0000_ffff, 16);
    FullStep(0x00ff_ffff, 0x000f_ffff, 20);
    FullStep(0x0fff_ffff, 0x00ff_ffff, 24);
    FullStep(0xffff_ffff, 0x0fff_ffff, 28);
  }

  ghost function Complement(p: Poly): Poly {
    set e | 0 <= e < 32 && e !in p
  }

  lemma OnesComplement(c: bv32)
    ensures Reg(Xor(c, 0xffff_ffff), 32) == Complement(Reg(c, 32))
  {
    hide Xor;
    RegXor(c, 0xffff_ffff, 32);
    RegBelow(c, 32);
    OnesFull();
  }

  /** CRC-32C: the complement of the checksum is the remainder, by 0x11EDC6F41, of the message 32 places
      up with the complemented starting value added to its first 32 places. */
  lemma CrcIsRemainder(crc: bv32, s: seq<bv8>)
    ensures IsRemainder(Sum(Up(Complement(Reg(crc, 32)), 8 * |s|), Up(MessagePoly(s), 32)),
                        Complement(Reg(Crc(crc, s), 32)))
  {
    hide Reg, MessagePoly, Bytes, Xor, Complement, IsRemainder, Sum, Up;
    var c := Xor(crc, 0xffff_ffff);
    OnesComplement(crc);
    RegisterIsRemainder(c, s);
    OnesComplement(Crc(crc, s));
    XorAssoc(Bytes(c, s), 0xffff_ffff, 0xffff_ffff);
    XorZero(0xffff_ffff);
    XorZero(Bytes(c, s));
  }

  lemma OneByte(c: bv32, b: bv8, r: bv32)
    requires Step(Step(Step(Step(Step(Step(Step(Step(Xor(c, Widen(b)))))))))) == r
    ensures Byte(c, b) == r
  {
    hide Step, Xor, Widen;
    EightSteps(Xor(c, Widen(b)));
  }

  lemma CheckFirst()
    ensures Byte(0xffff_ffff, 0x31) == 0x6f0a_661c
    ensures Byte(0x6f0a_661c, 0x32) == 0x8caa_3b9f
    ensures Byte(0x8caa_3b9f, 0x33) == 0xef84_d04d
    ensures Byte(0xef84_d04d, 0x34) == 0x09c5_0b11
  {
    hide Byte;
    OneByte(0xffff_ffff, 0x31, 0x6f0a_661c);
    OneByte(0x6f0a_661c, 0x32, 0x8caa_3b9f);
    OneByte(0x8caa_3b9f, 0x33, 0xef84_d04d);
    OneByte(0xef84_d04d, 0x34, 0x09c5_0b11);
  }

  lemma CheckLast()
    ensures Byte(0x09c5_0b11, 0x35) == 0xe72e_dcca
    ensures Byte(0xe72e_dcca, 0x36) == 0xbeca_8e79
    ensures Byte(0xbeca_8e79, 0x37) == 0xedbd_6815
    ensures Byte(0xedbd_6815, 0x38) == 0x9f78_7f65
    ensures Byte(0x9f78_7f65, 0x39) == 0x1cf9_6d7c
  {
    hide Byte;
    OneByte(0x09c5_0b11, 0x35, 0xe72e_dcca);
    OneByte(0xe72e_dcca, 0x36, 0xbeca_8e79);
    OneByte(0xbeca_8e79, 0x37, 0xedbd_6815);
    OneByte(0xedbd_6815, 0x38, 0x9f78_7f65);
    OneByte(0x9f78_7f65, 0x39, 0x1cf9_6d7c);
  }

  lemma LastByte(c: bv32, b: bv8)
    ensures Bytes(c, [b]) == Byte(c, b)
  {
    hide Byte;
    assert [b][1..] == [];
  }

  lemma XorOnes()
    ensures Xor(0, 0xffff_ffff) == 0xffff_ffff && Xor(0x1cf9_6d7c, 0xffff_ffff) == 0xe306_9283
  {
  }

  /** The check value of CRC-32C: the nine bytes "123456789". */
  lemma CheckValue()
    ensures Crc(0, [0x31, 0x32, 0x33, 0x34, 0x35, 0x36, 0x37, 0x38, 0x39]) == 0xe306_9283
  {
    hide Byte, Bytes, Xor;
    CheckFirst();
    CheckLast();
    XorOnes();
    var s: seq<bv8> := [0x31, 0x32, 0x33, 0x34, 0x35, 0x36, 0x37, 0x38, 0x39];
    FourthByte(0xffff_ffff, 0x31, 0x32, 0x33, 0x34);
    FourthByte(0x09c5_0b11, 0x35, 0x36, 0x37, 0x38);
    assert s == [0x31, 0x32, 0x33, 0x34] + ([0x35, 0x36, 0x37, 0x38] + [0x39]);
    BytesAppend(0xffff_ffff, [0x31, 0x32, 0x33, 0x34], [0x35, 0x36, 0x37, 0x38] + [0x39]);
    BytesAppend(0x09c5_0b11, [0x35, 0x36, 0x37, 0x38], [0x39]);
    LastByte(0x9f78_7f65, 0x39);
  }
}
