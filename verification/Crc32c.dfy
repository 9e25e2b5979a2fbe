/** CRC-32C of lib/sc/sc_crc32.c. The reference is the bit-at-a-time division of section 12.1 of
    RFC 3720; the three-lane hardware path and the eight-table software path are proved equal to
    it for every buffer, every alignment of its address and every starting value. The bit-vector
    facts sit in one-line lemmas about named operations; everything above them is algebra. */
module Crc32c {

  const POLY: bv32 := 0x82f6_3b78

  // Word operations

  function Xor(a: bv32, b: bv32): bv32 { a ^ b }
  function Half(c: bv32): bv32 { c >> 1 }
  predicate Odd(c: bv32) { c & 1 == 1 }
  function Xor64(a: bv64, b: bv64): bv64 { a ^ b }
  function Double(c: bv32): bv32 { c << 1 }
  function Half64(c: bv64): bv64 { c >> 1 }
  predicate Odd64(c: bv64) { c & 1 == 1 }
  function Wide(c: bv32): bv64 { c as bv64 }
  function Widen(b: bv8): bv32 { b as bv32 }

  // Reference

  /** Divides out one bit. */
  function Step(c: bv32): bv32 {
    if Odd(c) then Xor(Half(c), POLY) else Half(c)
  }

  /** Feeds `n` zero bits. */
  function Steps(c: bv32, n: nat): bv32
    decreases n
  {
    if n == 0 then c else Steps(Step(c), n - 1)
  }

  function Byte(c: bv32, b: bv8): bv32 {
    Steps(Xor(c, Widen(b)), 8)
  }

  function Bytes(c: bv32, s: seq<bv8>): bv32
    decreases |s|
  {
    if s == [] then c else Bytes(Byte(c, s[0]), s[1..])
  }

  /** sc_crc32: the register is complemented before and after. */
  function Crc(crc: bv32, s: seq<bv8>): bv32 {
    Xor(Bytes(Xor(crc, 0xffff_ffff), s), 0xffff_ffff)
  }

  // Bit-vector facts

  lemma XorAssoc(x: bv32, y: bv32, z: bv32)
    ensures Xor(Xor(x, y), z) == Xor(x, Xor(y, z))
  {
    assert (x ^ y) ^ z == x ^ (y ^ z);
  }

  lemma XorComm(x: bv32, y: bv32)
    ensures Xor(x, y) == Xor(y, x)
  {
  }

  lemma XorZero(x: bv32)
    ensures Xor(x, 0) == x && Xor(x, x) == 0
  {
  }

  lemma HalfXor(a: bv32, b: bv32)
    ensures Half(Xor(a, b)) == Xor(Half(a), Half(b))
  {
  }

  lemma OddXor(a: bv32, b: bv32)
    ensures Odd(Xor(a, b)) <==> Odd(a) != Odd(b)
  {
    assert (a ^ b) & 1 == (a & 1) ^ (b & 1);
    assert a & 1 == 1 || a & 1 == 0;
    assert b & 1 == 1 || b & 1 == 0;
  }

  // Algebra of the step

  lemma XorPair(x: bv32, y: bv32, z: bv32)
    ensures Xor(Xor(x, z), Xor(y, z)) == Xor(x, y)
  {
    hide Xor;
    XorAssoc(x, z, Xor(y, z));
    XorComm(y, z);
    XorAssoc(z, z, y);
    XorZero(z);
    XorComm(0, y);
    XorZero(y);
  }

  lemma XorSwap(x: bv32, y: bv32, z: bv32)
    ensures Xor(Xor(x, y), z) == Xor(Xor(x, z), y)
  {
    hide Xor;
    XorAssoc(x, y, z);
    XorComm(y, z);
    XorAssoc(x, z, y);
  }

  lemma StepXor(a: bv32, b: bv32)
    ensures Step(Xor(a, b)) == Xor(Step(a), Step(b))
  {
    hide Xor, Half, Odd;
    HalfXor(a, b);
    OddXor(a, b);
    XorPair(Half(a), Half(b), POLY);
    XorSwap(Half(a), POLY, Half(b));
    XorAssoc(Half(a), Half(b), POLY);
  }

  /** The zero-feeding operator is linear over GF(2). */
  lemma {:induction false} StepsXor(a: bv32, b: bv32, n: nat)
    ensures Steps(Xor(a, b), n) == Xor(Steps(a, n), Steps(b, n))
    decreases n
  {
    hide Xor, Step;
    if n > 0 {
      StepXor(a, b);
      StepsXor(Step(a), Step(b), n - 1);
    }
  }

  lemma {:induction false} StepsAdd(c: bv32, m: nat, n: nat)
    ensures Steps(c, m + n) == Steps(Steps(c, m), n)
    decreases m
  {
    hide Step;
    if m > 0 {
      StepsAdd(Step(c), m - 1, n);
    }
  }

  lemma {:induction false} StepsZero(n: nat)
    ensures Steps(0, n) == 0
  {
    if n > 0 {
      assert Step(0) == 0;
      StepsZero(n - 1);
    }
  }

  // Whole buffers

  lemma {:induction false} BytesAppend(c: bv32, a: seq<bv8>, b: seq<bv8>)
    ensures Bytes(c, a + b) == Bytes(Bytes(c, a), b)
    decreases |a|
  {
    hide Byte;
    if a == [] {
      assert a + b == b;
    } else {
      assert (a + b)[1..] == a[1..] + b;
      BytesAppend(Byte(c, a[0]), a[1..], b);
    }
  }

  lemma ByteSplit(c: bv32, b: bv8)
    ensures Byte(c, b) == Xor(Steps(c, 8), Byte(0, b))
  {
    hide Xor, Steps;
    StepsXor(c, Widen(b), 8);
    XorComm(0, Widen(b));
    XorZero(Widen(b));
  }

  /** A register passes through a buffer as if the buffer were zeros. */
  lemma {:induction false} BytesSplit(c: bv32, s: seq<bv8>)
    ensures Bytes(c, s) == Xor(Steps(c, 8 * |s|), Bytes(0, s))
    decreases |s|
  {
    hide Xor, Step, Byte;
    if s == [] {
      XorZero(c);
    } else {
      hide Steps;
      var rest, n := s[1..], 8 * (|s| - 1);
      var z := Byte(0, s[0]);
      ByteSplit(c, s[0]);
      BytesSplit(Byte(c, s[0]), rest);
      BytesSplit(z, rest);
      StepsXor(Steps(c, 8), z, n);
      StepsAdd(c, 8, n);
      XorAssoc(Steps(c, 8 * |s|), Steps(z, n), Bytes(0, rest));
    }
  }

  /** The checksum of a concatenation is the chained checksum. */
  lemma CrcAppend(crc: bv32, a: seq<bv8>, b: seq<bv8>)
    ensures Crc(crc, a + b) == Crc(Crc(crc, a), b)
  {
    hide Xor, Bytes;
    var c, ones := Xor(crc, 0xffff_ffff), 0xffff_ffff;
    BytesAppend(c, a, b);
    XorAssoc(Bytes(c, a), ones, ones);
    XorZero(ones);
    XorZero(Bytes(c, a));
  }

  /** Three lanes joined by two zero operators are one pass over all of it. */
  lemma ThreeLanes(c: bv32, a: seq<bv8>, b: seq<bv8>, d: seq<bv8>)
    ensures Bytes(c, a + b + d) ==
            Xor(Steps(Xor(Steps(Bytes(c, a), 8 * |b|), Bytes(0, b)), 8 * |d|), Bytes(0, d))
  {
    hide Xor, Bytes, Steps;
    BytesAppend(c, a + b, d);
    BytesAppend(c, a, b);
    BytesSplit(Bytes(c, a), b);
    BytesSplit(Bytes(c, a + b), d);
  }

  // Matrices over GF(2)

  /** The vector with bit `i` set. */
  function Unit(i: nat): bv32 {
    if i == 0 then 1 else Double(Unit(i - 1))
  }

  /** gf2_matrix_times from bit `i` on: the sum of the rows picked by the bits of `vec`. */
  function Times(mat: seq<bv32>, vec: bv32, i: nat): bv32
    requires |mat| == 32 && i <= 32
    decreases 32 - i
  {
    if i == 32 then 0
    else Xor(if Odd(vec) then mat[i] else 0, Times(mat, Half(vec), i + 1))
  }

  /** The rows of `mat` are the images of the unit vectors under `n` zero bits. */
  ghost predicate Feeds(mat: seq<bv32>, n: nat) {
    |mat| == 32 && forall i :: 0 <= i < 32 ==> mat[i] == Steps(Unit(i), n)
  }

  function Shl(x: bv32, i: nat): bv32 {
    if i == 0 then x else Double(Shl(x, i - 1))
  }

  /** The mask of the low `i` bits. */
  function Mask(i: nat): bv32 {
    if i == 0 then 0 else Double(Mask(i - 1)) | 1
  }

  lemma DoubleXor(a: bv32, b: bv32)
    ensures Double(Xor(a, b)) == Xor(Double(a), Double(b))
  {
  }

  lemma DoubleHalf(v: bv32)
    ensures v == Xor(if Odd(v) then 1 else 0, Double(Half(v)))
  {
    assert v & 1 == 1 || v & 1 == 0;
    assert v == (v & 1) ^ ((v >> 1) << 1);
  }

  lemma DoubleMask(y: bv32, m: bv32)
    requires y & m == 0
    ensures Double(y) & (Double(m) | 1) == 0
  {
    assert (y << 1) & ((m << 1) | 1) == (y & m) << 1;
  }

  lemma {:induction false} ShlMasked(x: bv32, i: nat)
    ensures Shl(x, i) & Mask(i) == 0
  {
    if i > 0 {
      ShlMasked(x, i - 1);
      DoubleMask(Shl(x, i - 1), Mask(i - 1));
    }
  }

  lemma ShlOut(x: bv32)
    ensures Shl(x, 32) == 0
  {
    hide Double;
    ShlMasked(x, 32);
    FullMask();
    AllOnes(Shl(x, 32));
  }

  lemma AllOnes(y: bv32)
    requires y & 0xffff_ffff == 0
    ensures y == 0
  {
  }

  lemma FullMask()
    ensures Mask(32) == 0xffff_ffff
  {
    assert Mask(8) == 0xff;
    assert Mask(16) == 0xffff;
    assert Mask(24) == 0xff_ffff;
  }

  lemma {:induction false} ShlXor(a: bv32, b: bv32, i: nat)
    ensures Shl(Xor(a, b), i) == Xor(Shl(a, i), Shl(b, i))
  {
    hide Xor, Double;
    if i > 0 {
      ShlXor(a, b, i - 1);
      DoubleXor(Shl(a, i - 1), Shl(b, i - 1));
    }
  }

  lemma {:induction false} ShlDouble(x: bv32, i: nat)
    ensures Shl(Double(x), i) == Shl(x, i + 1)
  {
    hide Double;
    if i > 0 {
      ShlDouble(x, i - 1);
    }
  }

  lemma {:induction false} ShlOne(i: nat)
    ensures Shl(1, i) == Unit(i) && Shl(0, i) == 0
  {
    if i > 0 {
      ShlOne(i - 1);
    }
  }

  lemma ShlBit(v: bv32, i: nat)
    ensures Shl(v, i) == Xor(if Odd(v) then Unit(i) else 0, Shl(Half(v), i + 1))
  {
    hide Xor, Double, Half, Odd, Shl, Unit;
    DoubleHalf(v);
    ShlXor(if Odd(v) then 1 else 0, Double(Half(v)), i);
    ShlDouble(Half(v), i);
    ShlOne(i);
  }

  /** Multiplying by the matrix of `n` zero bits feeds `n` zero bits. */
  lemma {:induction false} TimesFeeds(mat: seq<bv32>, v: bv32, i: nat, n: nat)
    requires Feeds(mat, n) && i <= 32
    ensures Times(mat, v, i) == Steps(Shl(v, i), n)
    decreases 32 - i
  {
    hide Xor, Step, Shl, Unit, Half, Odd;
    if i == 32 {
      ShlOut(v);
      StepsZero(n);
    } else {
      hide Steps;
      TimesFeeds(mat, Half(v), i + 1, n);
      ShlBit(v, i);
      StepsXor(if Odd(v) then Unit(i) else 0, Shl(Half(v), i + 1), n);
      StepsZero(n);
    }
  }

  lemma TimesIsSteps(mat: seq<bv32>, v: bv32, n: nat)
    requires Feeds(mat, n)
    ensures Times(mat, v, 0) == Steps(v, n)
  {
    TimesFeeds(mat, v, 0, n);
  }

  lemma {:induction false} TimesZero(mat: seq<bv32>, i: nat)
    requires |mat| == 32 && i <= 32
    ensures Times(mat, 0, i) == 0
    decreases 32 - i
  {
    if i < 32 {
      TimesZero(mat, i + 1);
    }
  }

  /** The first row of the one-bit operator is the polynomial, the others shift down. */
  lemma StepUnit(i: nat)
    requires i < 32
    ensures Step(Unit(i)) == if i == 0 then POLY else Unit(i - 1)
  {
    if i > 0 {
      UnitClear(i - 1);
      StepDouble(Unit(i - 1));
    }
  }

  lemma StepDouble(u: bv32)
    requires u <= 0x7fff_ffff
    ensures Step(Double(u)) == u
  {
    hide Odd, Half, Double, Xor;
    HalfDouble(u);
  }

  lemma HalfDouble(u: bv32)
    requires u <= 0x7fff_ffff
    ensures Half(Double(u)) == u && !Odd(Double(u))
  {
  }

  /** What fits with `k` doublings to spare. */
  function Room(k: nat): bv32 {
    if k == 0 then 0x7fff_ffff else Half(Room(k - 1))
  }

  lemma RoomStep(u: bv32, r: bv32)
    requires u <= Half(r) && r <= 0x7fff_ffff
    ensures Double(u) <= r
  {
  }

  lemma {:induction false} RoomBelow(k: nat)
    ensures Room(k) <= 0x7fff_ffff
  {
    if k > 0 {
      RoomBelow(k - 1);
      HalfBelow(Room(k - 1));
    }
  }

  lemma HalfBelow(r: bv32)
    requires r <= 0x7fff_ffff
    ensures Half(r) <= 0x7fff_ffff
  {
  }

  lemma RoomAt30()
    ensures Room(30) == 1
  {
    assert Room(8) == 0x7f_ffff;
    assert Room(16) == 0x7fff;
    assert Room(24) == 0x7f;
  }

  lemma {:induction false} UnitFits(i: nat)
    requires i <= 30
    ensures Unit(i) <= Room(30 - i)
  {
    hide Half, Double;
    if i == 0 {
      RoomAt30();
    } else {
      UnitFits(i - 1);
      RoomBelow(30 - i);
      RoomStep(Unit(i - 1), Room(30 - i));
    }
  }

  lemma UnitClear(i: nat)
    requires i < 31
    ensures Unit(i) <= 0x7fff_ffff
  {
    hide Half, Double;
    UnitFits(i);
    RoomBelow(30 - i);
    BelowTrans(Unit(i), Room(30 - i));
  }

  lemma BelowTrans(u: bv32, r: bv32)
    requires u <= r <= 0x7fff_ffff
    ensures u <= 0x7fff_ffff
  {
  }

  // The 64-bit register of the crc32 instruction and of the sliced tables

  function Step64(x: bv64): bv64 {
    if Odd64(x) then Xor64(Half64(x), Wide(POLY)) else Half64(x)
  }

  function Steps64(x: bv64, n: nat): bv64
    decreases n
  {
    if n == 0 then x else Steps64(Step64(x), n - 1)
  }

  function Shl8(w: bv64): bv64 { w << 8 }
  function Shr8(w: bv64): bv64 { w >> 8 }
  function Low8(w: bv64): bv8 { (w & 0xff) as bv8 }

  /** A little-endian load. */
  function Load(s: seq<bv8>): bv64 {
    if s == [] then 0 else Xor64(Wide(Widen(s[0])), Shl8(Load(s[1..])))
  }

  /** The crc32 instruction on a quadword: the polynomial division of its 64 bits. */
  function CrcQuad(c: bv32, w: bv64): bv64 {
    Steps64(Xor64(Wide(c), w), 64)
  }

  lemma Xor64Assoc(x: bv64, y: bv64, z: bv64)
    ensures Xor64(Xor64(x, y), z) == Xor64(x, Xor64(y, z))
  {
    assert (x ^ y) ^ z == x ^ (y ^ z);
  }

  lemma Xor64Comm(x: bv64, y: bv64)
    ensures Xor64(x, y) == Xor64(y, x)
  {
  }

  lemma Xor64Zero(x: bv64)
    ensures Xor64(x, 0) == x && Xor64(x, x) == 0
  {
  }

  lemma Half64Xor(a: bv64, b: bv64)
    ensures Half64(Xor64(a, b)) == Xor64(Half64(a), Half64(b))
  {
    assert (a ^ b) >> 1 == (a >> 1) ^ (b >> 1);
  }

  lemma Odd64Xor(a: bv64, b: bv64)
    ensures Odd64(Xor64(a, b)) <==> Odd64(a) != Odd64(b)
  {
    assert (a ^ b) & 1 == (a & 1) ^ (b & 1);
    assert a & 1 == 1 || a & 1 == 0;
    assert b & 1 == 1 || b & 1 == 0;
  }

  lemma WideXor(a: bv32, b: bv32)
    ensures Wide(Xor(a, b)) == Xor64(Wide(a), Wide(b))
  {
    assert (a ^ b) as bv64 == (a as bv64) ^ (b as bv64);
  }

  lemma WideHalf(a: bv32)
    ensures Half64(Wide(a)) == Wide(Half(a)) && (Odd64(Wide(a)) <==> Odd(a))
  {
    assert (a as bv64) & 1 == (a & 1) as bv64;
    assert (a as bv64) >> 1 == (a >> 1) as bv64;
    assert a & 1 == 1 || a & 1 == 0;
  }

  lemma Step64Xor(a: bv64, b: bv64)
    ensures Step64(Xor64(a, b)) == Xor64(Step64(a), Step64(b))
  {
    hide Xor64, Half64, Odd64, Wide;
    var p, x, y := Wide(POLY), Half64(a), Half64(b);
    Half64Xor(a, b);
    Odd64Xor(a, b);
    Xor64Assoc(x, p, Xor64(y, p));
    Xor64Assoc(p, y, p);
    Xor64Comm(p, y);
    Xor64Assoc(y, p, p);
    Xor64Zero(p);
    Xor64Zero(y);
    Xor64Assoc(x, p, y);
    Xor64Assoc(x, y, p);
  }

  lemma {:induction false} Steps64Xor(a: bv64, b: bv64, n: nat)
    ensures Steps64(Xor64(a, b), n) == Xor64(Steps64(a, n), Steps64(b, n))
    decreases n
  {
    hide Xor64, Step64;
    if n > 0 {
      Step64Xor(a, b);
      Steps64Xor(Step64(a), Step64(b), n - 1);
    }
  }

  lemma {:induction false} Steps64Add(x: bv64, m: nat, n: nat)
    ensures Steps64(x, m + n) == Steps64(Steps64(x, m), n)
    decreases m
  {
    hide Step64;
    if m > 0 {
      Steps64Add(Step64(x), m - 1, n);
    }
  }

  /** On the low half the two registers agree. */
  lemma {:induction false} StepsWide(c: bv32, n: nat)
    ensures Steps64(Wide(c), n) == Wide(Steps(c, n))
    decreases n
  {
    hide Xor, Xor64, Half, Half64, Odd, Odd64, Wide;
    if n > 0 {
      WideHalf(c);
      WideXor(Half(c), POLY);
      StepsWide(Step(c), n - 1);
    }
  }

  function Double64(w: bv64): bv64 { w << 1 }

  lemma Step64Double(w: bv64)
    requires w <= 0x7fff_ffff_ffff_ffff
    ensures Step64(Double64(w)) == w
  {
    hide Odd64, Half64, Double64, Xor64;
    HalfDouble64(w);
  }

  lemma HalfDouble64(w: bv64)
    requires w <= 0x7fff_ffff_ffff_ffff
    ensures Half64(Double64(w)) == w && !Odd64(Double64(w))
  {
  }

  lemma DoubleFits(w: bv64)
    requires w <= 0xfff_ffff_ffff_ffff
    ensures Double64(w) <= 0x1fff_ffff_ffff_ffff
    ensures Double64(Double64(w)) <= 0x3fff_ffff_ffff_ffff
    ensures Double64(Double64(Double64(w))) <= 0x7fff_ffff_ffff_ffff
  {
  }

  /** Four steps undo a shift by four bits. */
  lemma StepsNibble(w: bv64)
    requires w <= 0xfff_ffff_ffff_ffff
    ensures Steps64(Double64(Double64(Double64(Double64(w)))), 4) == w
  {
    DoubleFits(w);
    hide Step64, Double64;
    var d1 := Double64(w);
    var d2 := Double64(d1);
    var d3 := Double64(d2);
    Below64(w, 0xfff_ffff_ffff_ffff);
    Below64(d1, 0x1fff_ffff_ffff_ffff);
    Below64(d2, 0x3fff_ffff_ffff_ffff);
    Step64Double(w);
    Step64Double(d1);
    Step64Double(d2);
    Step64Double(d3);
    FourSteps(Double64(d3));
  }

  lemma Below64(u: bv64, r: bv64)
    requires u <= r <= 0x7fff_ffff_ffff_ffff
    ensures u <= 0x7fff_ffff_ffff_ffff
  {
  }

  lemma FourSteps(x: bv64)
    ensures Steps64(x, 4) == Step64(Step64(Step64(Step64(x))))
  {
    hide Step64;
    var a := Step64(x);
    var b := Step64(a);
    assert Steps64(x, 4) == Steps64(a, 3) == Steps64(b, 2);
  }

  /** Eight steps undo a shift by a byte. */
  lemma StepsShl8(w: bv64)
    requires w <= 0xff_ffff_ffff_ffff
    ensures Steps64(Shl8(w), 8) == w
  {
    Shl8Doubles(w);
    hide Step64, Double64, Steps64, Shl8;
    var q := Double64(Double64(Double64(Double64(w))));
    StepsNibble(w);
    StepsNibble(q);
    Steps64Add(Shl8(w), 4, 4);
  }

  lemma Shl8Doubles(w: bv64)
    requires w <= 0xff_ffff_ffff_ffff
    ensures w <= 0xfff_ffff_ffff_ffff
    ensures var q := Double64(Double64(Double64(Double64(w))));
            q <= 0xfff_ffff_ffff_ffff && Shl8(w) == Double64(Double64(Double64(Double64(q))))
  {
  }

  /** How much room a little-endian load of `n` bytes takes. */
  predicate Fits(w: bv64, n: nat) {
    match n
    case 0 => w == 0
    case 1 => w <= 0xff
    case 2 => w <= 0xffff
    case 3 => w <= 0xff_ffff
    case 4 => w <= 0xffff_ffff
    case 5 => w <= 0xff_ffff_ffff
    case 6 => w <= 0xffff_ffff_ffff
    case 7 => w <= 0xff_ffff_ffff_ffff
    case _ => true
  }

  lemma {:induction false} LoadFits(s: seq<bv8>)
    requires |s| <= 7
    ensures Fits(Load(s), |s|)
  {
    hide Xor64, Shl8, Wide, Widen;
    if s != [] {
      LoadFits(s[1..]);
      FitsStep(s[0], Load(s[1..]), |s| - 1);
    }
  }

  lemma FitsStep(b: bv8, w: bv64, n: nat)
    requires n < 7 && Fits(w, n)
    ensures Fits(Xor64(Wide(Widen(b)), Shl8(w)), n + 1)
  {
    var v := (b as bv64) ^ (w << 8);
    assert Wide(Widen(b)) == b as bv64;
    match n {
      case 0 => assert v <= 0xff;
      case 1 => assert v <= 0xffff;
      case 2 => assert v <= 0xff_ffff;
      case 3 => assert v <= 0xffff_ffff;
      case 4 => assert v <= 0xff_ffff_ffff;
      case 5 => assert v <= 0xffff_ffff_ffff;
      case 6 => assert v <= 0xff_ffff_ffff_ffff;
    }
  }

  lemma FitsAny(w: bv64, n: nat)
    requires n <= 7 && Fits(w, n)
    ensures w <= 0xff_ffff_ffff_ffff
  {
  }

  /** Dividing a loaded word is feeding its bytes in memory order. */
  lemma {:induction false} LoadBytes(c: bv32, s: seq<bv8>)
    requires |s| <= 8
    ensures Steps64(Xor64(Wide(c), Load(s)), 8 * |s|) == Wide(Bytes(c, s))
    decreases |s|
  {
    hide Xor, Xor64, Step, Step64, Wide, Widen, Shl8;
    if s == [] {
      Xor64Zero(Wide(c));
    } else {
      var w, c' := Load(s[1..]), Byte(c, s[0]);
      LoadFits(s[1..]);
      FitsAny(w, |s| - 1);
      hide Fits, Steps, Steps64, Byte;
      LoadByte(c, s[0], w);
      LoadBytes(c', s[1..]);
      Steps64Add(Xor64(Wide(c), Load(s)), 8, 8 * |s[1..]|);
    }
  }

  lemma LoadByte(c: bv32, b: bv8, w: bv64)
    requires w <= 0xff_ffff_ffff_ffff
    ensures Steps64(Xor64(Wide(c), Xor64(Wide(Widen(b)), Shl8(w))), 8) == Xor64(Wide(Byte(c, b)), w)
  {
    hide Xor, Xor64, Step, Step64, Wide, Widen, Shl8, Steps, Steps64;
    Xor64Assoc(Wide(c), Wide(Widen(b)), Shl8(w));
    WideXor(c, Widen(b));
    Steps64Xor(Wide(Xor(c, Widen(b))), Shl8(w), 8);
    StepsWide(Xor(c, Widen(b)), 8);
    StepsShl8(w);
  }

  /** The crc32 instruction on a loaded quadword consumes its eight bytes. */
  lemma CrcQuadBytes(c: bv32, s: seq<bv8>)
    requires |s| == 8
    ensures CrcQuad(c, Load(s)) == Wide(Bytes(c, s))
  {
    LoadBytes(c, s);
  }

  /** The sum of table entries in crc32_sw_le, from byte `8 - k` of the register on. */
  function Sliced(x: bv64, k: nat): bv32 {
    if k == 0 then 0 else Xor(Steps(Widen(Low8(x)), 8 * k), Sliced(Shr8(x), k - 1))
  }

  lemma SplitLow(x: bv64)
    ensures x == Xor64(Wide(Widen(Low8(x))), Shl8(Shr8(x))) && Shr8(x) <= 0xff_ffff_ffff_ffff
  {
    LowWide(x);
    hide Wide, Widen, Low8;
    SplitRaw(x);
  }

  lemma LowWide(x: bv64)
    ensures Wide(Widen(Low8(x))) == x & 0xff
  {
    assert (((x & 0xff) as bv8) as bv32) as bv64 == x & 0xff;
  }

  lemma SplitRaw(x: bv64)
    ensures x == (x & 0xff) ^ ((x >> 8) << 8) && x >> 8 <= 0xff_ffff_ffff_ffff
  {
  }

  /** Slicing by bytes: each byte divides on its own, and the quotients add up. */
  lemma {:induction false} SlicedIsSteps(x: bv64, k: nat)
    requires k <= 8 && Fits(x, k)
    ensures Steps64(x, 8 * k) == Wide(Sliced(x, k))
    decreases k
  {
    hide Xor, Xor64, Step, Step64, Wide, Widen, Shl8, Shr8, Low8;
    if k == 0 {
      WideZero();
    } else {
      var b, y := Widen(Low8(x)), Shr8(x);
      SplitLow(x);
      FitsDown(x, k);
      hide Fits, Steps, Steps64;
      SlicedIsSteps(y, k - 1);
      Steps64Xor(Wide(b), Shl8(y), 8 * k);
      StepsWide(b, 8 * k);
      Steps64Add(Shl8(y), 8, 8 * (k - 1));
      StepsShl8(y);
      WideXor(Steps(b, 8 * k), Sliced(y, k - 1));
    }
  }

  lemma WideZero()
    ensures Wide(0) == 0
  {
  }

  lemma FitsDown(x: bv64, k: nat)
    requires 0 < k <= 8 && Fits(x, k)
    ensures Fits(Shr8(x), k - 1)
  {
  }

  // Building the zero operators

  /** What is left of a full word after `i` shifts. */
  function Left(i: nat): bv32 {
    if i == 0 then 0xffff_ffff else Half(Left(i - 1))
  }

  predicate Within(v: bv32, i: nat) {
    v <= Left(i)
  }

  lemma WithinAll(v: bv32)
    ensures Within(v, 0)
  {
  }

  lemma WithinHalf(v: bv32, i: nat)
    requires Within(v, i)
    ensures Within(Half(v), i + 1)
  {
    hide Half;
    HalfMonotone(v, Left(i));
  }

  lemma WithinNone(v: bv32, i: nat)
    requires Within(v, i) && i == 32
    ensures v == 0
  {
    hide Half;
    LeftEmpty();
  }

  lemma LeftEmpty()
    ensures Left(32) == 0
  {
    assert Left(8) == 0xff_ffff;
    assert Left(16) == 0xffff;
    assert Left(24) == 0xff;
  }

  lemma HalfMonotone(a: bv32, b: bv32)
    requires a <= b
    ensures Half(a) <= Half(b)
  {
  }

  /** gf2_matrix_times. */
  method MatrixTimes(mat: array<bv32>, vec: bv32) returns (sum: bv32)
    requires mat.Length == 32
    ensures sum == Times(mat[..], vec, 0)
  {
    hide Xor, Half, Odd, Within;
    sum := 0;
    WithinAll(vec);
    var v, i := vec, 0;
    XorZero(Times(mat[..], vec, 0));
    XorComm(0, Times(mat[..], vec, 0));
    while v != 0
      invariant 0 <= i <= 32 && Within(v, i)
      invariant Xor(sum, Times(mat[..], v, i)) == Times(mat[..], vec, 0)
      decreases 32 - i
    {
      if i == 32 {
        WithinNone(v, i);
      }
      XorAssoc(sum, if Odd(v) then mat[i] else 0, Times(mat[..], Half(v), i + 1));
      XorZero(sum);
      if Odd(v) {
        sum := Xor(sum, mat[i]);
      }
      WithinHalf(v, i);
      v := Half(v);
      i := i + 1;
    }
    TimesZero(mat[..], i);
    XorZero(sum);
  }

  /** gf2_matrix_square: squaring the operator of `n` zero bits gives that of `2n`. */
  method MatrixSquare(square: array<bv32>, mat: array<bv32>, ghost n: nat)
    requires square.Length == mat.Length == 32 && square != mat && Feeds(mat[..], n)
    modifies square
    ensures Feeds(square[..], 2 * n)
  {
    hide Times, Steps, Unit;
    for i := 0 to 32
      invariant Feeds(mat[..], n)
      invariant forall j :: 0 <= j < i ==> square[j] == Steps(Unit(j), 2 * n)
    {
      square[i] := MatrixTimes(mat, mat[i]);
      TimesIsSteps(mat[..], mat[i], n);
      StepsAdd(Unit(i), n, n);
    }
  }

  /** The largest power of two not above `len`, and one for zero. */
  function HighBit(len: nat): nat {
    if len <= 1 then 1 else 2 * HighBit(len / 2)
  }

  /** The operator for one zero bit: the polynomial, then the unit vectors. */
  method OneBit(odd: array<bv32>)
    requires odd.Length == 32
    modifies odd
    ensures Feeds(odd[..], 1)
  {
    hide Step, Double;
    var row: bv32 := 1;
    odd[0] := POLY;
    for n := 1 to 32
      invariant odd[0] == POLY && row == Unit(n - 1)
      invariant forall j :: 1 <= j < n ==> odd[j] == Unit(j - 1)
    {
      odd[n] := row;
      row := Double(row);
    }
    forall i | 0 <= i < 32
      ensures odd[..][i] == Steps(Unit(i), 1)
    {
      StepUnit(i);
    }
  }

  /** crc32_zeros_op: the operator for as many zero bytes as the highest bit of `len` says. */
  method ZerosOp(even: array<bv32>, len: nat)
    requires even.Length == 32
    modifies even
    ensures Feeds(even[..], 8 * HighBit(len))
  {
    hide Feeds;
    var odd := new bv32[32];
    OneBit(odd);
    MatrixSquare(even, odd, 1);
    MatrixSquare(odd, even, 2);
    var n := len;
    ghost var e: nat := 4;
    while true
      invariant Feeds(odd[..], e) && n >= 0
      invariant 2 * e * HighBit(n) == 8 * HighBit(len)
      decreases n
    {
      MatrixSquare(even, odd, e);
      HighBitStep(n, e);
      n := n / 2;
      if n == 0 {
        return;
      }
      MatrixSquare(odd, even, 2 * e);
      HighBitStep(n, 2 * e);
      n := n / 2;
      e := 4 * e;
      if n == 0 {
        break;
      }
    }
    ghost var answer := odd[..];
    for i := 0 to 32
      modifies even
      invariant odd[..] == answer && even[..i] == answer[..i]
    {
      even[i] := odd[i];
    }
    assert even[..] == even[..32] == answer;
  }

  lemma HighBitStep(n: nat, e: nat)
    ensures n / 2 == 0 ==> 2 * e * HighBit(n) == 2 * e
    ensures n / 2 != 0 ==> 2 * e * HighBit(n) == 2 * (2 * e) * HighBit(n / 2)
  {
    if n / 2 != 0 {
      FourTimes(e, HighBit(n / 2));
    }
  }

  lemma FourTimes(e: nat, h: nat)
    ensures 2 * e * (2 * h) == 2 * (2 * e) * h
  {
  }

  // The hardware path

  /** Byte `j` of a word, and a byte put at that place. */
  function ByteOf(x: bv32, j: nat): bv8
    requires j < 4
  {
    match j
    case 0 => (x & 0xff) as bv8
    case 1 => ((x >> 8) & 0xff) as bv8
    case 2 => ((x >> 16) & 0xff) as bv8
    case 3 => ((x >> 24) & 0xff) as bv8
  }

  function Place(b: bv8, j: nat): bv32
    requires j < 4
  {
    match j
    case 0 => b as bv32
    case 1 => (b as bv32) << 8
    case 2 => (b as bv32) << 16
    case 3 => (b as bv32) << 24
  }

  lemma FourBytes(x: bv32)
    ensures x == Xor(Xor(Xor(Place(ByteOf(x, 0), 0), Place(ByteOf(x, 1), 1)), Place(ByteOf(x, 2), 2)),
              Place(ByteOf(x, 3), 3))
  {
    PlaceOf(x);
    hide Place, ByteOf;
    FourParts(x);
  }

  lemma PlaceOf(x: bv32)
    ensures Place(ByteOf(x, 0), 0) == x & 0xff
    ensures Place(ByteOf(x, 1), 1) == x & 0xff00
    ensures Place(ByteOf(x, 2), 2) == x & 0xff_0000
    ensures Place(ByteOf(x, 3), 3) == x & 0xff00_0000
  {
    assert ((x & 0xff) as bv8) as bv32 == x & 0xff;
    assert ((((x >> 8) & 0xff) as bv8) as bv32) << 8 == x & 0xff00;
    assert ((((x >> 16) & 0xff) as bv8) as bv32) << 16 == x & 0xff_0000;
    assert ((((x >> 24) & 0xff) as bv8) as bv32) << 24 == x & 0xff00_0000;
  }

  lemma FourParts(x: bv32)
    ensures x == Xor(Xor(Xor(x & 0xff, x & 0xff00), x & 0xff_0000), x & 0xff00_0000)
  {
    assert x == (((x & 0xff) ^ (x & 0xff00)) ^ (x & 0xff_0000)) ^ (x & 0xff00_0000);
  }

  /** Column `k` of the tables: `n` zero bits applied to the byte `k` at each of the four places. */
  ghost predicate ZeroColumn(z: array2<bv32>, k: nat, n: nat)
    requires z.Length0 == 4 && z.Length1 == 256 && k < 256
    reads z
  {
    && z[0, k] == Steps(Place(k as bv8, 0), n) && z[1, k] == Steps(Place(k as bv8, 1), n)
    && z[2, k] == Steps(Place(k as bv8, 2), n) && z[3, k] == Steps(Place(k as bv8, 3), n)
  }

  ghost predicate ZeroTables(z: array2<bv32>, n: nat)
    reads z
  {
    z.Length0 == 4 && z.Length1 == 256 && forall k: nat :: k < 256 ==> ZeroColumn(z, k, n)
  }

  /** crc32_zeros. */
  method Zeros(z: array2<bv32>, len: nat)
    requires z.Length0 == 4 && z.Length1 == 256
    modifies z
    ensures ZeroTables(z, 8 * HighBit(len))
  {
    hide Steps, Place, HighBit, Feeds, Times;
    var op := new bv32[32];
    ZerosOp(op, len);
    ghost var n, ops := 8 * HighBit(len), op[..];
    for k := 0 to 256
      modifies z
      invariant op[..] == ops
      invariant forall i: nat :: i < k ==> ZeroColumn(z, i, n)
    {
      FillColumn(z, op, k, n);
    }
  }

  /** The body of the loop in crc32_zeros. */
  method FillColumn(z: array2<bv32>, op: array<bv32>, k: nat, ghost n: nat)
    requires z.Length0 == 4 && z.Length1 == 256 && k < 256 && op.Length == 32 && Feeds(op[..], n)
    modifies z
    ensures ZeroColumn(z, k, n)
    ensures forall i: nat :: i < 256 && i != k && old(ZeroColumn(z, i, n)) ==> ZeroColumn(z, i, n)
  {
    hide Steps, Place, Feeds, Times;
    var c := k as bv8;
    var t0 := MatrixTimes(op, Place(c, 0));
    var t1 := MatrixTimes(op, Place(c, 1));
    var t2 := MatrixTimes(op, Place(c, 2));
    var t3 := MatrixTimes(op, Place(c, 3));
    TimesIsSteps(op[..], Place(c, 0), n);
    TimesIsSteps(op[..], Place(c, 1), n);
    TimesIsSteps(op[..], Place(c, 2), n);
    TimesIsSteps(op[..], Place(c, 3), n);
    z[0, k], z[1, k], z[2, k], z[3, k] := t0, t1, t2, t3;
  }

  lemma ByteIndex(b: bv8)
    ensures b as nat < 256 && (b as nat) as bv8 == b
  {
  }

  /** crc32_shift: four lookups apply the zero operator to a register. */
  function Shift(z: array2<bv32>, crc: bv32): bv32
    requires z.Length0 == 4 && z.Length1 == 256
    reads z
  {
    Xor(Xor(Xor(z[0, ByteOf(crc, 0) as nat], z[1, ByteOf(crc, 1) as nat]), z[2, ByteOf(crc, 2) as nat]),
        z[3, ByteOf(crc, 3) as nat])
  }

  lemma ShiftIsSteps(z: array2<bv32>, crc: bv32, n: nat)
    requires ZeroTables(z, n)
    ensures Shift(z, crc) == Steps(crc, n)
  {
    hide Xor, Steps, Place, ByteOf;
    var p0, p1, p2, p3 := Place(ByteOf(crc, 0), 0), Place(ByteOf(crc, 1), 1), Place(ByteOf(crc, 2), 2),
        Place(ByteOf(crc, 3), 3);
    FourBytes(crc);
    ByteIndex(ByteOf(crc, 0));
    ByteIndex(ByteOf(crc, 1));
    ByteIndex(ByteOf(crc, 2));
    ByteIndex(ByteOf(crc, 3));
    assert forall j: nat :: j < 4 ==> ZeroColumn(z, ByteOf(crc, j) as nat, n);
    StepsXor(Xor(Xor(p0, p1), p2), p3, n);
    StepsXor(Xor(p0, p1), p2, n);
    StepsXor(p0, p1, n);
  }

  function Narrow(x: bv64): bv32 { (x & 0xffff_ffff) as bv32 }

  lemma NarrowWide(c: bv32)
    ensures Narrow(Wide(c)) == c
  {
  }

  /** One crc32 instruction on the quadword at `i`. */
  function Quad(c: bv32, buf: seq<bv8>, i: nat): bv32
    requires i + 8 <= |buf|
  {
    Narrow(CrcQuad(c, Load(buf[i..i + 8])))
  }

  lemma QuadExtends(c: bv32, buf: seq<bv8>, a: nat, i: nat)
    requires a <= i && i + 8 <= |buf|
    ensures Quad(Bytes(c, buf[a..i]), buf, i) == Bytes(c, buf[a..i + 8])
  {
    hide Narrow, CrcQuad, Load, Bytes;
    var d := Bytes(c, buf[a..i]);
    CrcQuadBytes(d, buf[i..i + 8]);
    NarrowWide(Bytes(d, buf[i..i + 8]));
    BytesAppend(c, buf[a..i], buf[i..i + 8]);
    assert buf[a..i] + buf[i..i + 8] == buf[a..i + 8];
  }

  lemma ByteExtends(c: bv32, buf: seq<bv8>, a: nat, i: nat)
    requires a <= i < |buf|
    ensures Byte(Bytes(c, buf[a..i]), buf[i]) == Bytes(c, buf[a..i + 1])
  {
    hide Byte;
    BytesAppend(c, buf[a..i], [buf[i]]);
    assert buf[a..i] + [buf[i]] == buf[a..i + 1];
    assert Bytes(Byte(Bytes(c, buf[a..i]), buf[i]), []) == Byte(Bytes(c, buf[a..i]), buf[i]);
  }

  /** The three-lane loop of crc32_hw over one block of `3 * block` bytes. */
  method Block(c: bv32, buf: seq<bv8>, next: nat, block: nat, z: array2<bv32>) returns (r: bv32)
    requires block % 8 == 0 && next + 3 * block <= |buf| && ZeroTables(z, 8 * block)
    ensures r == Bytes(c, buf[next..next + 3 * block])
  {
    hide Quad, Bytes, Steps, ZeroColumn, Shift, Xor;
    var crc0, crc1: bv32, crc2: bv32, i := c, 0, 0, 0;
    EmptyBytes(c, buf, next);
    EmptyBytes(0, buf, next + block);
    EmptyBytes(0, buf, next + 2 * block);
    while i < block
      invariant 0 <= i <= block && i % 8 == 0
      invariant crc0 == Bytes(c, buf[next..next + i])
      invariant crc1 == Bytes(0, buf[next + block..next + block + i])
      invariant crc2 == Bytes(0, buf[next + 2 * block..next + 2 * block + i])
    {
      QuadExtends(c, buf, next, next + i);
      QuadExtends(0, buf, next + block, next + block + i);
      QuadExtends(0, buf, next + 2 * block, next + 2 * block + i);
      crc0 := Quad(crc0, buf, next + i);
      crc1 := Quad(crc1, buf, next + block + i);
      crc2 := Quad(crc2, buf, next + 2 * block + i);
      i := i + 8;
    }
    JoinLanes(c, buf, next, block, z);
    crc0 := Xor(Shift(z, crc0), crc1);
    crc0 := Xor(Shift(z, crc0), crc2);
    r := crc0;
  }

  lemma EmptyBytes(c: bv32, buf: seq<bv8>, i: nat)
    requires i <= |buf|
    ensures Bytes(c, buf[i..i]) == c
  {
  }

  lemma JoinLanes(c: bv32, buf: seq<bv8>, next: nat, block: nat, z: array2<bv32>)
    requires next + 3 * block <= |buf| && ZeroTables(z, 8 * block)
    ensures var a, b, d := buf[next..next + block], buf[next + block..next + 2 * block],
              buf[next + 2 * block..next + 3 * block];
            Xor(Shift(z, Xor(Shift(z, Bytes(c, a)), Bytes(0, b))), Bytes(0, d)) == Bytes(c, buf[next..next + 3 * block])
  {
    hide Xor, Bytes, Steps, Shift, ZeroColumn;
    var a, b, d := buf[next..next + block], buf[next + block..next + 2 * block],
        buf[next + 2 * block..next + 3 * block];
    assert a + b + d == buf[next..next + 3 * block];
    ThreeLanes(c, a, b, d);
    ShiftIsSteps(z, Bytes(c, a), 8 * block);
    ShiftIsSteps(z, Xor(Shift(z, Bytes(c, a)), Bytes(0, b)), 8 * block);
  }

  const LONG := 2048
  const SHORT := 256

  /** crc32_init_hw. */
  method InitHardware(long: array2<bv32>, short: array2<bv32>)
    requires long != short && long.Length0 == short.Length0 == 4 && long.Length1 == short.Length1 == 256
    modifies long, short
    ensures ZeroTables(long, 8 * LONG) && ZeroTables(short, 8 * SHORT)
  {
    hide ZeroTables;
    BlockSizes();
    Zeros(long, LONG);
    Zeros(short, SHORT);
  }

  lemma BlockSizes()
    ensures HighBit(LONG) == LONG && HighBit(SHORT) == SHORT
  {
    assert HighBit(16) == 16;
    assert HighBit(128) == 128;
  }

  /** crc32_hw: for a buffer at any address, the bit-at-a-time checksum. */
  method Hardware(crc: bv32, buf: seq<bv8>, addr: nat, long: array2<bv32>, short: array2<bv32>) returns (r: bv32)
    requires ZeroTables(long, 8 * LONG) && ZeroTables(short, 8 * SHORT)
    ensures r == Crc(crc, buf)
  {
    hide Quad, Bytes, Byte, ZeroTables, Xor;
    var c := Xor(crc, 0xffff_ffff);
    var crc0, next, len := c, 0, |buf|;
    EmptyBytes(c, buf, 0);
    while len > 0 && (addr + next) % 8 != 0
      invariant 0 <= next <= next + len == |buf| && crc0 == Bytes(c, buf[0..next])
    {
      ByteExtends(c, buf, 0, next);
      crc0, next, len := Byte(crc0, buf[next]), next + 1, len - 1;
    }
    while len >= LONG * 3
      invariant 0 <= next <= next + len == |buf| && crc0 == Bytes(c, buf[0..next])
    {
      BlockExtends(c, buf, next, next + 3 * LONG);
      crc0 := Block(crc0, buf, next, LONG, long);
      next, len := next + 3 * LONG, len - 3 * LONG;
    }
    while len >= SHORT * 3
      invariant 0 <= next <= next + len == |buf| && crc0 == Bytes(c, buf[0..next])
    {
      BlockExtends(c, buf, next, next + 3 * SHORT);
      crc0 := Block(crc0, buf, next, SHORT, short);
      next, len := next + 3 * SHORT, len - 3 * SHORT;
    }
    var end := next + (len - len % 8);
    while next < end
      invariant 0 <= next <= end && (end - next) % 8 == 0 && end + len % 8 == |buf| && crc0 == Bytes(c, buf[0..next])
    {
      QuadExtends(c, buf, 0, next);
      crc0, next := Quad(crc0, buf, next), next + 8;
    }
    len := len % 8;
    while len > 0
      invariant 0 <= next <= next + len == |buf| && crc0 == Bytes(c, buf[0..next])
    {
      ByteExtends(c, buf, 0, next);
      crc0, next, len := Byte(crc0, buf[next]), next + 1, len - 1;
    }
    assert buf[0..next] == buf;
    r := Xor(crc0, 0xffff_ffff);
  }

  lemma BlockExtends(c: bv32, buf: seq<bv8>, i: nat, e: nat)
    requires i <= e <= |buf|
    ensures Bytes(Bytes(c, buf[0..i]), buf[i..e]) == Bytes(c, buf[0..e])
  {
    BytesAppend(c, buf[0..i], buf[i..e]);
    assert buf[0..i] + buf[i..e] == buf[0..e];
  }

  // The software path

  /** crc32c_table_le: entry `n` of table `k` divides the byte `n` by `8 * (k + 1)` bits. */
  ghost predicate SliceTables(t: array2<bv32>)
    reads t
  {
    && t.Length0 == 8 && t.Length1 == 256
    && forall k: nat, n: nat :: k < 8 && n < 256 ==> t[k, n] == Steps(Widen(n as bv8), 8 * (k + 1))
  }

  function LowByte(x: bv32): bv8 { (x & 0xff) as bv8 }
  function HighBytes(x: bv32): bv32 { x >> 8 }

  /** Eight steps: divide the low byte and shift the rest down. */
  lemma StepsLow(x: bv32)
    ensures Steps(x, 8) == Xor(Steps(Widen(LowByte(x)), 8), HighBytes(x))
  {
    var low, high := Steps(Widen(LowByte(x)), 8), HighBytes(x);
    WideParts(x);
    hide Xor, Xor64, Wide, Widen, LowByte, HighBytes, Shl8, Steps, Steps64;
    Steps64Xor(Wide(Widen(LowByte(x))), Shl8(Wide(high)), 8);
    StepsWide(x, 8);
    StepsWide(Widen(LowByte(x)), 8);
    StepsShl8(Wide(high));
    WideXor(low, high);
    NarrowWide(Steps(x, 8));
    NarrowWide(Xor(low, high));
  }

  lemma WideParts(x: bv32)
    ensures Wide(x) == Xor64(Wide(Widen(LowByte(x))), Shl8(Wide(HighBytes(x))))
    ensures Wide(HighBytes(x)) <= 0xff_ffff_ffff_ffff
  {
    LowByteWide(x);
    hide Widen, LowByte;
    assert x as bv64 == ((x & 0xff) as bv64) ^ (((x >> 8) as bv64) << 8);
  }

  lemma LowByteWide(x: bv32)
    ensures Widen(LowByte(x)) == x & 0xff
  {
  }

  /** The bytes of a word, low byte first. */
  function WordBytes(w: bv32): (s: seq<bv8>)
    ensures |s| == 4
  {
    var w1 := HighBytes(w);
    var w2 := HighBytes(w1);
    [LowByte(w), LowByte(w1), LowByte(w2), LowByte(HighBytes(w2))]
  }

  /** Feeding the low byte of a word: what is left of it goes with the register. */
  lemma ByteOfWord(c: bv32, w: bv32)
    ensures Xor(Byte(c, LowByte(w)), HighBytes(w)) == Steps(Xor(c, w), 8)
  {
    hide Xor, Widen, LowByte, HighBytes, Steps;
    var low := Widen(LowByte(w));
    StepsXor(c, low, 8);
    StepsXor(c, w, 8);
    StepsLow(w);
    XorAssoc(Steps(c, 8), Steps(low, 8), HighBytes(w));
  }

  /** Feeding a word is adding it to the register and dividing out 32 bits. */
  lemma WordIsSteps(c: bv32, w: bv32)
    ensures Bytes(c, WordBytes(w)) == Steps(Xor(c, w), 32)
  {
    NoHighBytes(w);
    hide Xor, LowByte, HighBytes, Steps, Byte;
    var w1 := HighBytes(w);
    var w2 := HighBytes(w1);
    var w3 := HighBytes(w2);
    var c1 := Byte(c, LowByte(w));
    var c2 := Byte(c1, LowByte(w1));
    var c3 := Byte(c2, LowByte(w2));
    var c4 := Byte(c3, LowByte(w3));
    FourthByte(c, LowByte(w), LowByte(w1), LowByte(w2), LowByte(w3));
    ByteOfWord(c, w);
    ByteOfWord(c1, w1);
    ByteOfWord(c2, w2);
    ByteOfWord(c3, w3);
    XorZero(c4);
    var x := Xor(c, w);
    StepsAdd(x, 8, 8);
    StepsAdd(x, 16, 8);
    StepsAdd(x, 24, 8);
  }

  lemma NoHighBytes(w: bv32)
    ensures HighBytes(HighBytes(HighBytes(HighBytes(w)))) == 0
  {
  }

  lemma FourthByte(c: bv32, b0: bv8, b1: bv8, b2: bv8, b3: bv8)
    ensures Bytes(c, [b0, b1, b2, b3]) == Byte(Byte(Byte(Byte(c, b0), b1), b2), b3)
  {
    hide Byte;
    assert [b0, b1, b2, b3][1..] == [b1, b2, b3] && [b1, b2, b3][1..] == [b2, b3];
    assert [b2, b3][1..] == [b3] && [b3][1..] == [];
    var c2 := Byte(Byte(c, b0), b1);
    assert Bytes(c, [b0, b1, b2, b3]) == Bytes(c2, [b2, b3]);
    assert Bytes(c2, [b2, b3]) == Bytes(Byte(Byte(c2, b2), b3), []);
  }

  /** The register that 32 zero bits turn into all ones. */
  const BEFORE_ONES: bv32 := 0x641f_6454

  lemma OnesAhead()
    ensures Steps(BEFORE_ONES, 32) == 0xffff_ffff
  {
    assert Steps(BEFORE_ONES, 8) == 0x96db_52a8 by { EightSteps(BEFORE_ONES); }
    assert Steps(0x96db_52a8, 8) == 0x2804_363b by { EightSteps(0x96db_52a8); }
    assert Steps(0x2804_363b, 8) == 0xa942_e6bc by { EightSteps(0x2804_363b); }
    assert Steps(0xa942_e6bc, 8) == 0xffff_ffff by { EightSteps(0xa942_e6bc); }
    hide Steps;
    StepsAdd(BEFORE_ONES, 8, 8);
    StepsAdd(BEFORE_ONES, 16, 8);
    StepsAdd(BEFORE_ONES, 24, 8);
  }

  /** Four bytes that bring the register to `w` before the last 32 steps. */
  function Tail(s: seq<bv8>, w: bv32): (tail: seq<bv8>)
    ensures |tail| == 4
  {
    WordBytes(Xor(Bytes(Xor(0, 0xffff_ffff), s), w))
  }

  /** Four bytes steer the checksum wherever the last 32 steps lead. */
  lemma TailSteers(s: seq<bv8>, w: bv32)
    ensures Crc(0, s + Tail(s, w)) == Xor(Steps(w, 32), 0xffff_ffff)
  {
    hide Xor, Steps, WordBytes, Bytes;
    var c := Bytes(Xor(0, 0xffff_ffff), s);
    BytesAppend(Xor(0, 0xffff_ffff), s, Tail(s, w));
    WordIsSteps(c, Xor(c, w));
    XorAssoc(c, c, w);
    XorZero(c);
    XorComm(0, w);
    XorZero(w);
  }

  /** Whatever was read so far, four more bytes make the checksum zero. */
  lemma ZeroAhead(s: seq<bv8>)
    ensures Crc(0, s + Tail(s, BEFORE_ONES)) == 0
  {
    hide Xor, Steps, Tail;
    TailSteers(s, BEFORE_ONES);
    OnesAhead();
    XorZero(0xffff_ffff);
  }

  /** And four others all ones. */
  lemma OnesBehind(s: seq<bv8>)
    ensures Crc(0, s + Tail(s, 0)) == 0xffff_ffff
  {
    TailSteers(s, 0);
    StepsZero(32);
    hide Steps, Tail;
  }

  /** The table form of feeding one byte. */
  lemma TableByte(t: array2<bv32>, c: bv32, b: bv8)
    requires SliceTables(t)
    ensures Xor(t[0, LowByte(Xor(c, Widen(b))) as nat], HighBytes(c)) == Byte(c, b)
  {
    var x := Xor(c, Widen(b));
    HighUnchanged(c, b);
    hide Xor, Widen, LowByte, HighBytes, Steps;
    StepsLow(x);
    ByteIndex(LowByte(x));
  }

  lemma HighUnchanged(c: bv32, b: bv8)
    ensures HighBytes(Xor(c, Widen(b))) == HighBytes(c)
  {
  }

  /** crc32_init_sw_le. */
  method InitSoftware(t: array2<bv32>)
    requires t.Length0 == 8 && t.Length1 == 256
    modifies t
    ensures SliceTables(t)
  {
    hide Widen, Step, Xor, LowByte, HighBytes;
    for n := 0 to 256
      invariant forall i: nat :: i < n ==> t[0, i] == Steps(Widen(i as bv8), 8)
    {
      var crc := Widen(n as bv8);
      EightSteps(crc);
      crc := Step(Step(Step(Step(crc))));
      crc := Step(Step(Step(Step(crc))));
      t[0, n] := crc;
    }
    for n := 0 to 256
      invariant forall i: nat :: i < 256 ==> t[0, i] == Steps(Widen(i as bv8), 8)
      invariant forall k: nat, i: nat :: k < 8 && i < n ==> t[k, i] == Steps(Widen(i as bv8), 8 * (k + 1))
    {
      FillSlices(t, n);
    }
  }

  lemma EightSteps(x: bv32)
    ensures Steps(x, 8) == Step(Step(Step(Step(Step(Step(Step(Step(x))))))))
  {
    hide Step;
    var a := Step(Step(x));
    var b := Step(Step(a));
    var c := Step(Step(b));
    assert Steps(x, 8) == Steps(a, 6) == Steps(b, 4) == Steps(c, 2);
  }

  /** The inner loop of crc32_init_sw_le: each table feeds one more zero byte. */
  method FillSlices(t: array2<bv32>, n: nat)
    requires t.Length0 == 8 && t.Length1 == 256 && n < 256
    requires forall i: nat :: i < 256 ==> t[0, i] == Steps(Widen(i as bv8), 8)
    modifies t
    ensures forall k: nat :: k < 8 ==> t[k, n] == Steps(Widen(n as bv8), 8 * (k + 1))
    ensures forall k: nat, i: nat :: k < 8 && i < 256 && (i != n || k == 0) ==> t[k, i] == old(t[k, i])
  {
    hide Widen, Steps, Xor, LowByte, HighBytes;
    var crc := t[0, n];
    for k := 1 to 8
      invariant crc == Steps(Widen(n as bv8), 8 * k)
      invariant forall j: nat :: j < k ==> t[j, n] == Steps(Widen(n as bv8), 8 * (j + 1))
      invariant forall j: nat, i: nat :: j < 8 && i < 256 && (i != n || j == 0) ==> t[j, i] == old(t[j, i])
    {
      StepsLow(crc);
      ByteIndex(LowByte(crc));
      StepsAdd(Widen(n as bv8), 8 * k, 8);
      crc := Xor(t[0, LowByte(crc) as nat], HighBytes(crc));
      t[k, n] := crc;
    }
  }

  /** Byte `j` of the 64-bit register: `(crcw >> 8 * j) & 0xff`. */
  function ByteAt(x: bv64, j: nat): bv8
    requires j < 8
  {
    if j == 0 then Low8(x) else ByteAt(Shr8(x), j - 1)
  }

  /** The lookups of crc32_sw_le for bytes `0..j` of the 64-bit register, added up from the left. */
  function Lookup(t: array2<bv32>, x: bv64, j: nat): bv32
    requires t.Length0 == 8 && t.Length1 == 256 && j < 8
    reads t
  {
    if j == 0 then t[7, ByteAt(x, 0) as nat] else Xor(Lookup(t, x, j - 1), t[7 - j, ByteAt(x, j) as nat])
  }

  function ShrBytes(x: bv64, j: nat): bv64 {
    if j == 0 then x else ShrBytes(Shr8(x), j - 1)
  }

  lemma {:induction false} ShrBytesStep(x: bv64, j: nat)
    requires j < 8
    ensures Low8(ShrBytes(x, j)) == ByteAt(x, j) && Shr8(ShrBytes(x, j)) == ShrBytes(x, j + 1)
    decreases j
  {
    hide Low8, Shr8;
    if j > 0 {
      ShrBytesStep(Shr8(x), j - 1);
    }
  }

  lemma {:induction false} LookupSliced(t: array2<bv32>, x: bv64, j: nat)
    requires SliceTables(t) && j < 8
    ensures Xor(Lookup(t, x, j), Sliced(ShrBytes(x, j + 1), 7 - j)) == Sliced(x, 8)
  {
    hide Xor, Low8, Shr8, Sliced, ByteAt, ShrBytes;
    ShrBytesStep(x, j);
    if j == 0 {
      SlicedAt(t, x, 8);
      ShrBytesZero(x);
    } else {
      LookupSliced(t, x, j - 1);
      SlicedOn(t, Lookup(t, x, j - 1), ShrBytes(x, j), 8 - j);
    }
  }

  lemma ShrBytesZero(x: bv64)
    ensures ShrBytes(x, 0) == x
  {
  }

  lemma SlicedOn(t: array2<bv32>, acc: bv32, x: bv64, k: nat)
    requires SliceTables(t) && 0 < k <= 8
    ensures Xor(acc, Sliced(x, k)) == Xor(Xor(acc, t[k - 1, Low8(x) as nat]), Sliced(Shr8(x), k - 1))
  {
    SlicedAt(t, x, k);
    hide Xor, Low8, Shr8, Sliced;
    XorAssoc(acc, t[k - 1, Low8(x) as nat], Sliced(Shr8(x), k - 1));
  }

  lemma SlicedAt(t: array2<bv32>, x: bv64, k: nat)
    requires SliceTables(t) && 0 < k <= 8
    ensures Sliced(x, k) == Xor(t[k - 1, Low8(x) as nat], Sliced(Shr8(x), k - 1))
  {
    hide Xor, Low8, Shr8, Widen, Steps;
    ByteIndex(Low8(x));
  }

  lemma NoSlices(x: bv64)
    ensures Sliced(x, 0) == 0
  {
  }

  /** One turn of the eight-byte loop. */
  lemma LookupExtends(t: array2<bv32>, c: bv32, buf: seq<bv8>, i: nat)
    requires SliceTables(t) && i + 8 <= |buf|
    ensures Lookup(t, Xor64(Wide(Bytes(c, buf[0..i])), Load(buf[i..i + 8])), 7) == Bytes(c, buf[0..i + 8])
  {
    hide Xor, Xor64, Wide, Load, Bytes, Lookup, Sliced, Steps64;
    var d, w := Bytes(c, buf[0..i]), buf[i..i + 8];
    var x := Xor64(Wide(d), Load(w));
    LookupSliced(t, x, 7);
    NoSlices(ShrBytes(x, 8));
    XorZero(Lookup(t, x, 7));
    SlicedIsSteps(x, 8);
    LoadBytes(d, w);
    NarrowWide(Sliced(x, 8));
    NarrowWide(Bytes(d, w));
    BlockExtends(c, buf, i, i + 8);
  }

  /** crc32_sw_le: for a buffer at any address, the bit-at-a-time checksum. */
  method Software(crc: bv32, buf: seq<bv8>, addr: nat, t: array2<bv32>) returns (r: bv32)
    requires SliceTables(t)
    ensures r == Crc(crc, buf)
  {
    hide Bytes, Byte, Xor, Xor64, Wide, Load, Lookup, LowByte, HighBytes, Widen, Steps;
    ghost var start := Xor(crc, 0xffff_ffff);
    var c, next, len := Xor(crc, 0xffff_ffff), 0, |buf|;
    EmptyBytes(c, buf, 0);
    while len > 0 && (addr + next) % 8 != 0
      invariant 0 <= next <= next + len == |buf| && c == Bytes(start, buf[0..next])
    {
      ByteExtends(start, buf, 0, next);
      TableByte(t, c, buf[next]);
      c := Xor(t[0, LowByte(Xor(c, Widen(buf[next]))) as nat], HighBytes(c));
      next, len := next + 1, len - 1;
    }
    while len >= 8
      invariant 0 <= next <= next + len == |buf| && c == Bytes(start, buf[0..next])
    {
      LookupExtends(t, start, buf, next);
      c := Lookup(t, Xor64(Wide(c), Load(buf[next..next + 8])), 7);
      next, len := next + 8, len - 8;
    }
    while len > 0
      invariant 0 <= next <= next + len == |buf| && c == Bytes(start, buf[0..next])
    {
      ByteExtends(start, buf, 0, next);
      TableByte(t, c, buf[next]);
      c := Xor(t[0, LowByte(Xor(c, Widen(buf[next]))) as nat], HighBytes(c));
      next, len := next + 1, len - 1;
    }
    assert buf[0..next] == buf;
    r := Xor(c, 0xffff_ffff);
  }
}
