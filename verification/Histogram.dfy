/** The bucket arithmetic of the latency histogram (lib/hdr/hdr_histogram.c): a value is kept by the
    position of its highest bits, so that the width of a bucket is a fixed fraction of the value. */
module Histogram {
  import opened Bits
  import opened Basics

  const INT64_MAX := 0x7FFF_FFFF_FFFF_FFFF

  /** `unit` and `half` are the magnitudes: a unit is 2^unit, half a bucket has 2^half cells. */
  datatype Config = Config(lowest: nat, highest: nat, figures: nat, unit: nat, half: nat, buckets: nat, countsLen: nat)

  function Mask(c: Config): nat {
    Scaled(c.unit, Pow2(c.half + 1) - 1)
  }

  /** `x << k`. */
  function Scaled(k: nat, x: nat): (r: nat)
    ensures r == Pow2(k) * x
  {
    if x == 0 then 0 else Pow2(k) * x
  }

  /** get_bucket_index. */
  function BucketIndex(c: Config, v: nat): int {
    BitLength(Or(v, Mask(c))) - c.unit - (c.half + 1)
  }

  /** get_sub_bucket_index. */
  function SubIndex(c: Config, v: nat, bucket: int): nat {
    if bucket + c.unit >= 0 then Shr(v, bucket + c.unit) else 0
  }

  /** counts_index. */
  function CountsIndex(c: Config, bucket: int, sub: nat): int {
    Pow2(c.half) * (bucket + 1) + (sub - Pow2(c.half))
  }

  /** counts_index_for. */
  function CountsIndexFor(c: Config, v: nat): int {
    var b := BucketIndex(c, v);
    CountsIndex(c, b, SubIndex(c, v, b))
  }

  /** value_from_index. */
  function ValueFrom(c: Config, bucket: nat, sub: nat): nat {
    Scaled(bucket + c.unit, sub)
  }

  /** hdr_value_at_index. */
  function ValueAt(c: Config, index: nat): nat {
    var b := Shr(index, c.half) - 1;
    var s := And(index, Pow2(c.half) - 1) + Pow2(c.half);
    if b < 0 then ValueFrom(c, 0, s - Pow2(c.half)) else ValueFrom(c, b, s)
  }

  /** hdr_size_of_equivalent_value_range. */
  function RangeSize(c: Config, v: nat): nat {
    var b := BucketIndex(c, v);
    var adjusted := if SubIndex(c, v, b) >= Pow2(c.half + 1) then b + 1 else b;
    if c.unit + adjusted >= 0 then Pow2(c.unit + adjusted) else 0
  }

  /** A bucket and a cell in it: the lower half of a bucket is covered by the buckets before it. */
  ghost predicate IsCell(c: Config, b: nat, s: nat) {
    s < Pow2(c.half + 1) && (b > 0 ==> s >= Pow2(c.half))
  }

  /** The value lies in the cell. */
  ghost predicate InCell(c: Config, b: nat, s: nat, v: nat) {
    IsCell(c, b, s) && Scaled(b + c.unit, s) <= v < Scaled(b + c.unit, s) + Pow2(b + c.unit)
  }

  lemma MaskLength(c: Config)
    ensures BitLength(Mask(c)) == c.unit + c.half + 1
  {
    hide BitLength;
    var u, m := Pow2(c.unit), Pow2(c.half);
    Pow2Add(c.unit, c.half);
    assert Pow2(c.half + 1) == 2 * m && Pow2(c.unit + c.half + 1) == 2 * Pow2(c.unit + c.half);
    MaskBounds(u, m);
    BitLengthUnique(Mask(c), c.unit + c.half + 1);
  }

  lemma MaskBounds(u: nat, m: nat)
    requires u > 0 && m > 0
    ensures u * m <= u * (2 * m - 1) < 2 * (u * m)
  {
    MulMonotone(u, m, 2 * m - 1);
    Distribute(2 * m, 1, u);
  }

  lemma BucketIs(c: Config, v: nat)
    ensures var l := c.unit + c.half + 1; BucketIndex(c, v) == if BitLength(v) > l then BitLength(v) - l else 0
  {
    hide Or, BitLength, Mask;
    MaskLength(c);
    BitLengthOr(v, Mask(c));
  }

  /** Every value lies in the cell the code computes for it. */
  lemma Located(c: Config, v: nat)
    ensures BucketIndex(c, v) >= 0 && InCell(c, BucketIndex(c, v), SubIndex(c, v, BucketIndex(c, v)), v)
  {
    hide Or, Shr, Mask, BucketIndex;
    BucketIs(c, v);
    var b: nat := BucketIndex(c, v);
    var l := c.half + 1;
    ShrBounds(v, b + c.unit);
    Pow2Add(b + c.unit, l);
    Pow2Add(b + c.unit, c.half);
    Pow2Monotone(BitLength(v), b + c.unit + l);
    ShrLessThan(v, b + c.unit, Pow2(l));
    if b > 0 {
      assert BitLength(v) - 1 == b + c.unit + c.half;
      ShrAtLeast(v, b + c.unit, Pow2(c.half));
    }
  }

  /** And in no other. */
  lemma LocatedOnce(c: Config, b: nat, s: nat, v: nat)
    requires InCell(c, b, s, v)
    ensures BucketIndex(c, v) == b && SubIndex(c, v, BucketIndex(c, v)) == s
  {
    hide Or, Shr, Mask, BucketIndex, Pow2, BitLength, Scaled, IsCell;
    assert b == BucketIndex(c, v) by {
      BucketIs(c, v);
      CellLength(c, b, s, v);
    }
    ShrUnique(v, b + c.unit, s);
  }

  /** A cell fixes how long its values are. */
  lemma CellLength(c: Config, b: nat, s: nat, v: nat)
    requires InCell(c, b, s, v)
    ensures b == 0 ==> BitLength(v) <= c.unit + c.half + 1
    ensures b > 0 ==> BitLength(v) == b + c.unit + c.half + 1
  {
    hide BitLength;
    var w, k := Pow2(b + c.unit), b + c.unit + c.half + 1;
    Pow2Add(b + c.unit, c.half + 1);
    Pow2Add(b + c.unit, c.half);
    assert v < Pow2(k) by {
      MulMonotone(w, s + 1, Pow2(c.half + 1));
      assert w * (s + 1) == w * s + w;
    }
    if b > 0 {
      MulMonotone(w, Pow2(c.half), s);
      BitLengthUnique(v, k);
    } else {
      BitLengthBelow(v, k);
    }
  }

  lemma {:induction false} BitLengthBelow(v: nat, k: nat)
    requires v < Pow2(k)
    ensures BitLength(v) <= k
  {
    if v > 0 {
      BitLengthBelow(v / 2, k - 1);
    }
  }

  // Indexes

  /** The cell an index stands for. */
  lemma IndexCell(c: Config, index: nat) returns (b: nat, s: nat)
    ensures IsCell(c, b, s) && index == Pow2(c.half) * b + s && ValueAt(c, index) == Scaled(b + c.unit, s)
  {
    hide Shr, And, Scaled, Pow2;
    AndMask(index, c.half);
    Pow2Twice(c.half);
    var p, q := Pow2(c.half), Shr(index, c.half);
    if q == 0 {
      b, s := 0, And(index, p - 1);
      assert p * 0 == 0;
    } else {
      b, s := q - 1, And(index, p - 1) + p;
      Distribute(q, 1, p);
    }
  }

  lemma CellOnce(c: Config, b: nat, s: nat, b': nat, s': nat)
    requires IsCell(c, b, s) && IsCell(c, b', s') && Pow2(c.half) * b + s == Pow2(c.half) * b' + s'
    ensures b == b' && s == s'
  {
    if b < b' {
      CellOrder(c, b, s, b', s');
    } else if b' < b {
      CellOrder(c, b', s', b, s);
    }
  }

  lemma CellOrder(c: Config, b: nat, s: nat, b': nat, s': nat)
    requires IsCell(c, b, s) && IsCell(c, b', s') && b < b'
    ensures Pow2(c.half) * b + s < Pow2(c.half) * b' + s'
  {
    var p := Pow2(c.half);
    assert Pow2(c.half + 1) == 2 * p;
    MulMonotone(p, b + 1, b');
    assert p * (b + 1) == p * b + p;
  }

  lemma IndexIs(c: Config, v: nat)
    ensures BucketIndex(c, v) >= 0
    ensures CountsIndexFor(c, v) == Pow2(c.half) * BucketIndex(c, v) + SubIndex(c, v, BucketIndex(c, v))
  {
    hide BucketIndex, SubIndex;
    Located(c, v);
    var p, b := Pow2(c.half), BucketIndex(c, v);
    assert p * (b + 1) == p * b + p;
  }

  /** Round trip on bucket starts: the index of the value an index stands for is that index. */
  lemma IndexOfValue(c: Config, index: nat)
    ensures CountsIndexFor(c, ValueAt(c, index)) == index
  {
    hide BucketIndex, SubIndex, ValueAt, CountsIndexFor, Scaled;
    var b, s := IndexCell(c, index);
    LocatedOnce(c, b, s, ValueAt(c, index));
    IndexIs(c, ValueAt(c, index));
  }

  /** Round trip on values: every value lies in the range that starts at the value of its index, and
      the range has the size the code reports. */
  lemma ValueOfIndex(c: Config, v: nat)
    ensures CountsIndexFor(c, v) >= 0
    ensures ValueAt(c, CountsIndexFor(c, v)) <= v < ValueAt(c, CountsIndexFor(c, v)) + RangeSize(c, v)
  {
    hide BucketIndex, SubIndex, ValueAt, CountsIndexFor, Scaled, Pow2;
    Located(c, v);
    IndexIs(c, v);
    var b: nat := BucketIndex(c, v);
    var s := SubIndex(c, v, b);
    IndexNat(c, b, s);
    var b', s' := IndexCell(c, CountsIndexFor(c, v));
    CellOnce(c, b, s, b', s');
  }

  lemma IndexNat(c: Config, b: nat, s: nat)
    ensures Pow2(c.half) * b + s >= 0
  {
  }

  /** Larger values have larger indexes. */
  lemma IndexMonotone(c: Config, v: nat, w: nat)
    requires v <= w
    ensures CountsIndexFor(c, v) <= CountsIndexFor(c, w)
  {
    hide Shr, BucketIndex, CountsIndexFor, Pow2, Scaled, BitLength, IsCell;
    IndexIs(c, v);
    IndexIs(c, w);
    Located(c, v);
    Located(c, w);
    BucketIs(c, v);
    BucketIs(c, w);
    BitLengthMonotone(v, w);
    var b: nat, b': nat := BucketIndex(c, v), BucketIndex(c, w);
    if b == b' {
      ShrMonotone(v, w, b + c.unit);
    } else {
      CellOrder(c, b, SubIndex(c, v, b), b', SubIndex(c, w, b'));
    }
  }

  // Configuration

  /** 10 to the power of `n`. */
  function Power10(n: nat): (r: nat)
    ensures r > 0
  {
    if n == 0 then 1 else 10 * Power10(n - 1)
  }

  /** buckets_needed_to_cover_value. */
  method BucketsNeeded(value: nat, half: nat, unit: nat) returns (n: nat)
    requires value <= INT64_MAX && unit + half <= 61
    ensures n >= 1 && value < Pow2(unit + half + n) && (n > 1 ==> value >= Pow2(unit + half + n - 1))
  {
    Pow2At63();
    var smallest := Pow2(unit + half + 1);
    n := 1;
    while smallest <= value
      invariant n >= 1 && smallest == Pow2(unit + half + n) && unit + half + n <= 63
      invariant n > 1 ==> value >= Pow2(unit + half + n - 1)
      decreases 63 - n
    {
      if smallest > INT64_MAX / 2 {
        if unit + half + n < 62 {
          Pow2Monotone(unit + half + n, 61);
        }
        return n + 1;
      }
      if unit + half + n >= 62 {
        Pow2Monotone(62, unit + half + n);
      }
      smallest := 2 * smallest;
      n := n + 1;
    }
  }

  lemma Pow2At63()
    ensures Pow2(61) == 0x2000_0000_0000_0000 && Pow2(62) == 0x4000_0000_0000_0000 && Pow2(63) == INT64_MAX + 1
  {
    hide Pow2;
    SmallPowers();
    Pow2Add(8, 8);
    Pow2Add(16, 16);
    assert Pow2(32) == 0x1_0000_0000;
    Pow2Add(32, 16);
    assert Pow2(48) == 0x1_0000_0000_0000;
    Pow2Add(48, 8);
    assert Pow2(56) == 0x100_0000_0000_0000;
    Pow2Add(56, 5);
    Pow2Twice(61);
    Pow2Twice(62);
  }

  lemma SmallPowers()
    ensures Pow2(5) == 32 && Pow2(8) == 0x100
  {
    assert Pow2(3) == 8 && Pow2(6) == 64;
  }

  /** What a configuration must satisfy. */
  ghost predicate Sound(c: Config) {
    && Power10(c.figures) <= Pow2(c.half) && Pow2(c.unit) <= c.lowest < Pow2(c.unit + 1)
    && (c.half == 0 || Pow2(c.half - 1) < Power10(c.figures))
    && c.highest < Pow2(c.unit + c.half + c.buckets) && c.buckets >= 1
    && (c.buckets == 1 || Pow2(c.unit + c.half + c.buckets - 1) <= c.highest)
    && c.countsLen == Pow2(c.half) * (c.buckets + 1)
  }

  /** The exponents: how many bits a unit and half a bucket take. */
  function UnitOf(lowest: nat): nat
    requires lowest >= 1
  {
    BitLength(lowest) - 1
  }

  function HalfOf(figures: nat): nat {
    BitLength(2 * Power10(figures) - 1) - 1
  }

  /** The unit is the largest power of two not above the lowest value, half a bucket the least power of two
      that has the figures. */
  ghost predicate Exponents(lowest: nat, figures: nat, unit: nat, half: nat) {
    && Pow2(unit) <= lowest < Pow2(unit + 1)
    && Power10(figures) <= Pow2(half) && (half == 0 || Pow2(half - 1) < Power10(figures))
  }

  /** Together they take at most 61 bits. */
  ghost predicate Representable(lowest: nat, figures: nat) {
    exists unit: nat, half: nat :: Exponents(lowest, figures, unit, half) && unit + half <= 61
  }

  lemma ExponentsUnique(lowest: nat, figures: nat, u: nat, h: nat, u': nat, h': nat)
    requires Exponents(lowest, figures, u, h) && Exponents(lowest, figures, u', h')
    ensures u == u' && h == h'
  {
    hide Pow2, Power10;
    SameExponent(u, u', lowest);
    LeastExponent(h, h', Power10(figures));
  }

  lemma RepresentableIs(lowest: nat, figures: nat)
    requires lowest >= 1
    ensures Representable(lowest, figures) <==> UnitOf(lowest) + HalfOf(figures) <= 61
    ensures Exponents(lowest, figures, UnitOf(lowest), HalfOf(figures))
  {
    ExponentsHere(lowest, figures);
    hide Exponents, UnitOf, HalfOf;
    if Representable(lowest, figures) {
      var u: nat, h: nat :| Exponents(lowest, figures, u, h) && u + h <= 61;
      ExponentsUnique(lowest, figures, u, h, UnitOf(lowest), HalfOf(figures));
    }
  }

  lemma ExponentsHere(lowest: nat, figures: nat)
    requires lowest >= 1
    ensures BitLength(2 * Power10(figures) - 1) > 0
    ensures Exponents(lowest, figures, UnitOf(lowest), HalfOf(figures))
  {
    hide Pow2, BitLength, Power10;
    HalfEnough(figures);
    UnitIs(lowest);
  }

  lemma UnitIs(lowest: nat)
    requires lowest >= 1
    ensures Pow2(UnitOf(lowest)) <= lowest < Pow2(UnitOf(lowest) + 1)
  {
  }

  lemma SameExponent(a: nat, b: nat, v: nat)
    requires Pow2(a) <= v < Pow2(a + 1) && Pow2(b) <= v < Pow2(b + 1)
    ensures a == b
  {
    if a < b {
      Pow2Monotone(a + 1, b);
    } else if b < a {
      Pow2Monotone(b + 1, a);
    }
  }

  lemma LeastExponent(a: nat, b: nat, v: nat)
    requires v <= Pow2(a) && (a == 0 || Pow2(a - 1) < v) && v <= Pow2(b) && (b == 0 || Pow2(b - 1) < v)
    ensures a == b
  {
    if a < b {
      Pow2Monotone(a, b - 1);
    } else if b < a {
      Pow2Monotone(b, a - 1);
    }
  }

  /** hdr_calculate_bucket_config. */
  method Calculate(lowest: int, highest: int, figures: int) returns (r: Option<Config>)
    requires lowest <= INT64_MAX && highest <= INT64_MAX
    ensures r.Some? <==> 1 <= lowest && 1 <= figures <= 5 && lowest * 2 <= highest && Representable(lowest, figures)
    ensures r.Some? ==>
              Sound(r.value) && r.value.lowest == lowest && r.value.highest == highest && r.value.figures == figures
  {
    hide Pow2, BitLength, Power10, Representable, UnitOf, HalfOf;
    if lowest < 1 || figures < 1 || 5 < figures || lowest * 2 > highest {
      return None;
    }
    ExponentsHere(lowest, figures);
    RepresentableIs(lowest, figures);
    var unit, half := UnitOf(lowest), HalfOf(figures);
    if unit + half > 61 {
      return None;
    }
    var buckets := BucketsNeeded(highest, half, unit);
    r := Some(Config(lowest, highest, figures, unit, half, buckets, Scaled(half, buckets + 1)));
  }

  lemma HalfEnough(figures: nat)
    ensures BitLength(2 * Power10(figures) - 1) > 0 && Power10(figures) <= Pow2(HalfOf(figures))
    ensures HalfOf(figures) == 0 || Pow2(HalfOf(figures) - 1) < Power10(figures)
  {
    var n := BitLength(2 * Power10(figures) - 1);
    assert Pow2(n) == 2 * Pow2(n - 1);
  }

  /** Every trackable value has a cell in the counts array. */
  lemma IndexInRange(c: Config, v: nat)
    requires Sound(c) && v <= c.highest
    ensures 0 <= CountsIndexFor(c, v) < c.countsLen
  {
    hide Pow2, BitLength, Power10, CountsIndexFor, BucketIndex, Shr;
    IndexIs(c, v);
    Located(c, v);
    BucketIs(c, v);
    BitLengthBelow(v, c.unit + c.half + c.buckets);
    var b: nat := BucketIndex(c, v);
    IndexBelow(c, b, SubIndex(c, v, b), c.buckets);
  }

  lemma IndexBelow(c: Config, b: nat, s: nat, n: nat)
    requires s < Pow2(c.half + 1) && b < n
    ensures 0 <= Pow2(c.half) * b + s < Pow2(c.half) * (n + 1)
  {
    var p := Pow2(c.half);
    assert Pow2(c.half + 1) == 2 * p;
    MulMonotone(p, b + 2, n + 1);
    assert p * (b + 2) == p * b + 2 * p;
  }

  /** The promised precision: a value's range is one unit wide, or its width times 10^figures is at
      most the value. */
  lemma Precision(c: Config, v: nat)
    requires Sound(c)
    ensures RangeSize(c, v) == Pow2(c.unit) || RangeSize(c, v) * Power10(c.figures) <= v
    ensures c.figures == 3 ==> RangeSize(c, v) == Pow2(c.unit) || RangeSize(c, v) * 1000 <= v
  {
    hide Pow2, BitLength, Power10, BucketIndex, Shr, Scaled;
    Located(c, v);
    Thousand();
    var b: nat := BucketIndex(c, v);
    if b > 0 {
      var w, s := Pow2(b + c.unit), SubIndex(c, v, b);
      MulMonotone(w, Power10(c.figures), s);
    }
  }

  lemma Thousand()
    ensures Power10(3) == 1000
  {
    assert Power10(1) == 10;
  }

  /** An index covers the values from its own up to the next index's. */
  lemma IndexCovers(c: Config, v: nat, index: nat)
    ensures CountsIndexFor(c, v) == index <==> ValueAt(c, index) <= v < ValueAt(c, index + 1)
  {
    hide CountsIndexFor, ValueAt, RangeSize;
    ValueOfIndex(c, v);
    IndexOfValue(c, index);
    IndexOfValue(c, index + 1);
    if v >= ValueAt(c, index + 1) {
      IndexMonotone(c, ValueAt(c, index + 1), v);
    } else {
      IndexMonotone(c, v, ValueAt(c, index + 1));
    }
    if ValueAt(c, index) <= v {
      IndexMonotone(c, ValueAt(c, index), v);
    }
  }

  /** A call of hdr_record_values that was counted. */
  datatype Sample = Sample(value: nat, count: int)

  /** How much was recorded of the values from `lo` up to but not including `hi`. */
  ghost function Tally(records: seq<Sample>, lo: nat, hi: nat): int {
    if records == [] then 0
    else
      var r := records[|records| - 1];
      Tally(records[..|records| - 1], lo, hi) + if lo <= r.value < hi then r.count else 0
  }

  ghost function Total(records: seq<Sample>): int {
    if records == [] then 0 else Total(records[..|records| - 1]) + records[|records| - 1].count
  }

  /** The least recorded value other than zero, and the largest recorded value. */
  ghost predicate Extremes(records: seq<Sample>, least: nat, most: nat) {
    && (forall r :: r in records ==> r.value <= most && (r.value != 0 ==> least <= r.value))
    && (most == 0 || exists r :: r in records && r.value == most)
    && (least == INT64_MAX || exists r :: r in records && r.value == least != 0)
  }

  lemma TallySnoc(records: seq<Sample>, r: Sample, lo: nat, hi: nat)
    ensures Tally(records + [r], lo, hi) == Tally(records, lo, hi) + if lo <= r.value < hi then r.count else 0
  {
    assert (records + [r])[..|records|] == records;
  }

  lemma TotalSnoc(records: seq<Sample>, r: Sample)
    ensures Total(records + [r]) == Total(records) + r.count
  {
    assert (records + [r])[..|records|] == records;
  }

  lemma ExtremesSnoc(records: seq<Sample>, least: nat, most: nat, r: Sample)
    requires Extremes(records, least, most) && r.value <= INT64_MAX
    ensures Extremes(records + [r],
                     if r.value < least && r.value != 0 then r.value else least,
                     if r.value > most then r.value else most)
  {
    var all := records + [r];
    assert forall x :: x in all <==> x in records || x == r;
  }

  ghost function Sum(s: seq<int>): int {
    if s == [] then 0 else Sum(s[..|s| - 1]) + s[|s| - 1]
  }

  lemma {:induction false} SumUpdate(s: seq<int>, i: nat, x: int)
    requires i < |s|
    ensures Sum(s[i := x]) == Sum(s) - s[i] + x
  {
    var n := |s| - 1;
    if i < n {
      SumUpdate(s[..n], i, x);
      assert s[i := x][..n] == s[..n][i := x];
    } else {
      assert s[i := x][..n] == s[..n];
    }
  }

  lemma {:induction false} SumZeros(s: seq<int>)
    requires forall i :: 0 <= i < |s| ==> s[i] == 0
    ensures Sum(s) == 0
  {
    if s != [] {
      SumZeros(s[..|s| - 1]);
    }
  }

  class Histogram {
    const c: Config
    const counts: array<int>
    var total: int
    var min: nat
    var max: nat
    ghost var records: seq<Sample>

    /** Each count is the tally of the values its index covers. */
    ghost predicate Valid()
      reads this, counts
    {
      && Sound(c) && counts.Length == c.countsLen
      && (forall i :: 0 <= i < counts.Length ==> counts[i] == Tally(records, ValueAt(c, i), ValueAt(c, i + 1)))
      && total == Total(records) == Sum(counts[..]) && Extremes(records, min, max)
    }

    /** hdr_init_preallocated over zeroed counts. */
    constructor (c: Config)
      requires Sound(c)
      ensures Valid() && this.c == c && records == [] && fresh(counts)
    {
      hide ValueAt, Sum;
      this.c := c;
      counts := new int[c.countsLen](i => 0);
      total, min, max, records := 0, INT64_MAX, 0, [];
      new;
      SumZeros(counts[..]);
    }

    /** hdr_record_values. Values up to the highest trackable one are always taken. */
    method Record(value: int, count: int) returns (ok: bool)
      requires Valid() && value <= INT64_MAX
      modifies this, counts
      ensures Valid()
      ensures 0 <= value <= c.highest ==> ok
      ensures ok ==> value >= 0 && records == old(records) + [Sample(value, count)]
      ensures !ok ==> (value < 0 || value > c.highest) && records == old(records)
    {
      hide ValueAt, CountsIndexFor, Tally, Total, Sound, Extremes, Sum;
      if value < 0 {
        return false;
      }
      if value <= c.highest {
        IndexInRange(c, value);
      }
      var index := CountsIndexFor(c, value);
      if index < 0 || c.countsLen <= index {
        return false;
      }
      ghost var r := Sample(value, count);
      ExtremesSnoc(records, min, max, r);
      TotalSnoc(records, r);
      SumUpdate(counts[..], index, counts[index] + count);
      ghost var was := counts[..];
      counts[index] := counts[index] + count;
      assert counts[..] == was[index := was[index] + count];
      forall i | 0 <= i < counts.Length
        ensures counts[i] == Tally(records + [r], ValueAt(c, i), ValueAt(c, i + 1))
      {
        TallySnoc(records, r, ValueAt(c, i), ValueAt(c, i + 1));
        IndexCovers(c, value, i);
      }
      total := total + count;
      min := if value < min && value != 0 then value else min;
      max := if value > max then value else max;
      records := records + [r];
      ok := true;
    }
  }
}
