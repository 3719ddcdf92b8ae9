/** The spatio-temporal indexer: quantised coordinates, keys, and the Morton range planner. */
module Planner {
  import opened Words
  import opened Bytes
  import opened Keys
  import opened Sorting
  import opened Morton

  const NANOS: nat := 1_000_000_000
  const AXIS_SCALE: real := 2097151.0

  /** `max_range` and `epoch_duration`, as the constructor accepts them. */
  datatype Indexer = Indexer(maxRange: real, epochDuration: u32)
  {
    predicate Valid() { maxRange > 0.0 && epochDuration > 0 }
  }

  // -------------------------------------------------------------------------
  // Quantisation, in exact arithmetic
  // -------------------------------------------------------------------------

  function Clamp(v: real, lo: real, hi: real): real
  {
    if v < lo then lo else if v > hi then hi else v
  }

  /** Position of a clamped coordinate on the scale 0 .. 2^21 - 1, before rounding. */
  function Scaled(ix: Indexer, v: real): (s: real)
    requires ix.Valid()
    ensures 0.0 <= s <= AXIS_SCALE
  {
    var n := (Clamp(v, -ix.maxRange, ix.maxRange) + ix.maxRange) / (2.0 * ix.maxRange);
    RatioBounds(Clamp(v, -ix.maxRange, ix.maxRange) + ix.maxRange, 2.0 * ix.maxRange);
    n * AXIS_SCALE
  }

  lemma RatioBounds(a: real, b: real)
    requires 0.0 <= a <= b && b > 0.0
    ensures 0.0 <= a / b <= 1.0
  {
  }

  lemma RatioMono(a: real, b: real, c: real)
    requires a <= b && c > 0.0
    ensures a / c <= b / c
  {
  }

  /** `normalize_coordinate`: `round` on a non-negative value is floor(v + 1/2). */
  function Normalize(ix: Indexer, v: real): (n: u32)
    requires ix.Valid()
    ensures n <= AXIS_MAX
  {
    (Scaled(ix, v) + 0.5).Floor
  }

  /** `denormalize_coordinate`. */
  function Denormalize(ix: Indexer, n: u32): real
  {
    n as real / AXIS_SCALE * 2.0 * ix.maxRange - ix.maxRange
  }

  lemma ScaledMono(ix: Indexer, v: real, w: real)
    requires ix.Valid() && v <= w
    ensures Scaled(ix, v) <= Scaled(ix, w)
  {
    var m := ix.maxRange;
    RatioMono(Clamp(v, -m, m) + m, Clamp(w, -m, m) + m, 2.0 * m);
  }

  lemma NormalizeMono(ix: Indexer, v: real, w: real)
    requires ix.Valid() && v <= w
    ensures Normalize(ix, v) <= Normalize(ix, w)
  {
    ScaledMono(ix, v, w);
  }

  lemma RatioCancel(a: real, t: real, w: real)
    requires w > 0.0 && a == t * w
    ensures a / w == t
  {
  }

  lemma TwiceThrough(t: real, m: real)
    ensures t * 2.0 * m == t * (2.0 * m)
  {
  }

  lemma UnitTimes(t: real, w: real)
    requires 0.0 <= t <= 1.0 && w > 0.0
    ensures 0.0 <= t * w <= w
  {
  }

  /** The point at fraction `t` of the range sits at fraction `t` of the scale. */
  lemma ScaledAt(ix: Indexer, t: real, v: real, w: real)
    requires ix.Valid() && 0.0 <= t <= 1.0 && w == 2.0 * ix.maxRange && v + ix.maxRange == t * w
    ensures Scaled(ix, v) == t * AXIS_SCALE
  {
    UnitTimes(t, w);
    RatioCancel(v + ix.maxRange, t, w);
  }

  /** Quantising a dequantised coordinate gives it back. */
  lemma NormalizeDenormalize(ix: Indexer, n: u32)
    requires ix.Valid() && n <= AXIS_MAX
    ensures Normalize(ix, Denormalize(ix, n)) == n
  {
    hide Scaled;
    RatioBounds(n as real, AXIS_SCALE);
    TwiceThrough(n as real / AXIS_SCALE, ix.maxRange);
    ScaledAt(ix, n as real / AXIS_SCALE, Denormalize(ix, n), 2.0 * ix.maxRange);
    TimesRatio(n as real, AXIS_SCALE);
    Rounded(n, Scaled(ix, Denormalize(ix, n)));
  }

  lemma TimesRatio(a: real, s: real)
    requires s > 0.0
    ensures a / s * s == a
  {
  }

  lemma Rounded(n: nat, v: real)
    requires v == n as real
    ensures (v + 0.5).Floor == n
  {
  }

  /** Half of the distance between two grid points of an axis. */
  function HalfStep(ix: Indexer): real
  {
    ix.maxRange / 2097151.0
  }

  /** The grid points of an axis: the two ends of the range and equal steps between them. */
  lemma GridPoints(ix: Indexer, n: nat)
    requires ix.Valid() && n < 0x1F_FFFF
    ensures Denormalize(ix, 0) == -ix.maxRange && Denormalize(ix, 0x1F_FFFF) == ix.maxRange
    ensures Denormalize(ix, n + 1) - Denormalize(ix, n) == 2.0 * HalfStep(ix)
  {
    DenormalizeIs(ix, 0);
    DenormalizeIs(ix, 0x1F_FFFF);
    DenormalizeIs(ix, n);
    DenormalizeIs(ix, n + 1);
    TimesRatio(ix.maxRange, AXIS_SCALE);
    hide Denormalize;
    StepUp(n as real, HalfStep(ix));
    assert (n + 1) as real == n as real + 1.0;
  }

  lemma StepUp(n: real, h: real)
    ensures (n + 1.0) * (2.0 * h) == n * (2.0 * h) + 2.0 * h
  {
  }

  lemma DenormalizeIs(ix: Indexer, n: u32)
    ensures Denormalize(ix, n) == n as real * (2.0 * HalfStep(ix)) - ix.maxRange
  {
    RatioSwap(n as real, ix.maxRange, AXIS_SCALE);
  }

  lemma RatioSwap(a: real, m: real, s: real)
    requires s > 0.0
    ensures a / s * 2.0 * m == a * (2.0 * (m / s))
  {
    assert a / s * 2.0 * m == a * (2.0 * m) / s;
  }

  /**
   * A coordinate inside the range is quantised to the nearest grid point, the upper one when it is halfway;
   * one outside to the near end.
   */
  lemma NormalizeNearest(ix: Indexer, v: real)
    requires ix.Valid()
    ensures -ix.maxRange <= v <= ix.maxRange ==>
              -HalfStep(ix) <= v - Denormalize(ix, Normalize(ix, v)) < HalfStep(ix)
    ensures v < -ix.maxRange ==> Normalize(ix, v) == 0
    ensures v > ix.maxRange ==> Normalize(ix, v) == 0x1F_FFFF
  {
    hide Scaled, Denormalize, HalfStep;
    HalfPositive(ix);
    ScaledIs(ix, v);
    DenormalizeIs(ix, Normalize(ix, v));
    var h, n := HalfStep(ix), Normalize(ix, v);
    RoundsWithin(Scaled(ix, v), n, h, Scaled(ix, v) * (2.0 * h), n as real * (2.0 * h));
    ScaledEnds(ix, v);
    Rounded(0, 0.0);
    Rounded(0x1F_FFFF, AXIS_SCALE);
  }

  lemma HalfPositive(ix: Indexer)
    requires ix.Valid()
    ensures HalfStep(ix) > 0.0
  {
  }

  lemma RoundsWithin(s: real, n: nat, h: real, a: real, b: real)
    requires n == (s + 0.5).Floor && h > 0.0 && a == s * (2.0 * h) && b == n as real * (2.0 * h)
    ensures -h <= a - b < h
  {
    var d := s - n as real;
    assert a - b == 2.0 * d * h;
    assert (2.0 * d + 1.0) * h >= 0.0;
    assert (1.0 - 2.0 * d) * h > 0.0;
  }

  lemma ScaledEnds(ix: Indexer, v: real)
    requires ix.Valid()
    ensures v < -ix.maxRange ==> Scaled(ix, v) == 0.0
    ensures v > ix.maxRange ==> Scaled(ix, v) == AXIS_SCALE
  {
    RatioCancel(0.0, 0.0, 2.0 * ix.maxRange);
    RatioCancel(2.0 * ix.maxRange, 1.0, 2.0 * ix.maxRange);
  }

  /** The scaled value counts grid steps from the low end of the range. */
  lemma ScaledIs(ix: Indexer, v: real)
    requires ix.Valid()
    ensures Clamp(v, -ix.maxRange, ix.maxRange) + ix.maxRange == Scaled(ix, v) * (2.0 * HalfStep(ix))
  {
  }

  // -------------------------------------------------------------------------
  // Keys
  // -------------------------------------------------------------------------

  /** `generate_key`: the epoch is cut to 32 bits. */
  function GenerateKey(ix: Indexer, x: real, y: real, z: real, secs: u64, nanos: nat): Key
    requires ix.Valid() && nanos < NANOS
  {
    var offset := secs % ix.epochDuration * NANOS + nanos;
    Key(secs / ix.epochDuration % 0x1_0000_0000,
        Encode(Normalize(ix, x), Normalize(ix, y), Normalize(ix, z)),
        offset)
  }

  method GenerateKeyBytes(ix: Indexer, x: real, y: real, z: real, secs: u64, nanos: nat) returns (key: array<u8>)
    requires ix.Valid() && nanos < NANOS
    ensures fresh(key) && key[..] == KeyBytes(GenerateKey(ix, x, y, z, secs, nanos))
  {
    hide Normalize, Encode, ToBe;
    var nx, ny, nz := Normalize(ix, x), Normalize(ix, y), Normalize(ix, z);
    var code := Encode3dMorton(nx, ny, nz);
    var epoch, spatial, offset :=
      ToBe(secs / ix.epochDuration % 0x1_0000_0000, 4), ToBe(code, 8), ToBe(secs % ix.epochDuration * NANOS + nanos, 8);
    key := new u8[20](_ => 0);
    forall i | 0 <= i < 4 { key[i] := epoch[i]; }
    forall i | 4 <= i < 12 { key[i] := spatial[i - 4]; }
    forall i | 12 <= i < 20 { key[i] := offset[i - 12]; }
    assert key[..] == epoch + spatial + offset;
  }

  function TotalNanos(ix: Indexer, k: Key): u64
  {
    (k.epoch * ix.epochDuration * NANOS + k.nano) % 0x1_0000_0000_0000_0000
  }

  /** `decode_key`, times: u64 arithmetic wraps. */
  function Secs(ix: Indexer, k: Key): u64 { TotalNanos(ix, k) / NANOS }

  function SubNanos(ix: Indexer, k: Key): nat { TotalNanos(ix, k) % NANOS }

  /** `decode_key`, position. */
  function Position(ix: Indexer, k: Key): (real, real, real)
  {
    var (x, y, z) := Decode(k.morton);
    (Denormalize(ix, x), Denormalize(ix, y), Denormalize(ix, z))
  }

  /** Neither the epoch field nor the nanosecond total overflows. */
  predicate Untruncated(ix: Indexer, secs: u64, nanos: nat)
    requires ix.Valid()
  {
    secs / ix.epochDuration <= U32_MAX && secs * NANOS + nanos <= U64_MAX
  }

  lemma SplitTime(secs: nat, d: nat, nanos: nat)
    requires d > 0
    ensures secs / d * d * NANOS + (secs % d * NANOS + nanos) == secs * NANOS + nanos
  {
    assert secs == secs / d * d + secs % d;
  }

  lemma LessTime(e: nat, f: nat, d: nat)
    requires e < f && d > 0
    ensures e * d * NANOS < f * d * NANOS
  {
    MulMono(e + 1, f, d);
    Distribute(e, 1, d);
  }

  /** Cutting the epoch to 32 bits loses whole epochs, or nothing. */
  lemma EpochCut(secs: nat, d: nat, nanos: nat)
    requires d > 0
    ensures var total := secs / d % 0x1_0000_0000 * d * NANOS + (secs % d * NANOS + nanos);
            total <= secs * NANOS + nanos && (total == secs * NANOS + nanos <==> secs / d <= U32_MAX)
  {
    var e := secs / d;
    SplitTime(secs, d, nanos);
    if e > U32_MAX { LessTime(e % 0x1_0000_0000, e, d); } else { assert e % 0x1_0000_0000 == e; }
  }

  /** A key keeps its time to the nanosecond exactly when nothing was truncated. */
  lemma TimeRoundTrip(ix: Indexer, x: real, y: real, z: real, secs: u64, nanos: nat)
    requires ix.Valid() && nanos < NANOS
    ensures var k := GenerateKey(ix, x, y, z, secs, nanos);
            Secs(ix, k) == secs && SubNanos(ix, k) == nanos <==> Untruncated(ix, secs, nanos)
  {
    var k := GenerateKey(ix, x, y, z, secs, nanos);
    var total := k.epoch * ix.epochDuration * NANOS + k.nano;
    EpochCut(secs, ix.epochDuration, nanos);
    assert total <= secs * NANOS + nanos && (total == secs * NANOS + nanos <==> secs / ix.epochDuration <= U32_MAX) by {
      hide Encode, Normalize;
    }
    assert TotalNanos(ix, k) == total % 0x1_0000_0000_0000_0000;
    hide GenerateKey, TotalNanos;
    TotalDecides(total, secs, nanos);
  }

  /** The wrapped total decodes to the right time just when it is the right total and did not wrap. */
  lemma TotalDecides(total: nat, secs: nat, nanos: nat)
    requires nanos < NANOS && total <= secs * NANOS + nanos
    ensures var t := total % 0x1_0000_0000_0000_0000;
            t / NANOS == secs && t % NANOS == nanos <==> total == secs * NANOS + nanos <= U64_MAX
  {
    var t := total % 0x1_0000_0000_0000_0000;
    assert t == t / NANOS * NANOS + t % NANOS;
    if t == secs * NANOS + nanos { DivAddMultiple(secs, nanos, NANOS); }
  }

  /** A key decodes to the grid points its code was made of. */
  lemma PositionOfCode(ix: Indexer, k: Key, a: u32, b: u32, c: u32)
    requires a <= AXIS_MAX && b <= AXIS_MAX && c <= AXIS_MAX && k.morton == Encode(a, b, c)
    ensures Position(ix, k) == (Denormalize(ix, a), Denormalize(ix, b), Denormalize(ix, c))
  {
    DecodeEncode(a, b, c);
    hide Encode, Decode, Denormalize;
  }

  /** Where a coordinate ends up: at most half a grid step away, or at the near end of the range. */
  predicate Quantised(ix: Indexer, v: real, w: real)
  {
    if v < -ix.maxRange then w == -ix.maxRange
    else if v > ix.maxRange then w == ix.maxRange
    else -HalfStep(ix) <= v - w < HalfStep(ix)
  }

  lemma QuantisedAxis(ix: Indexer, v: real)
    requires ix.Valid()
    ensures Quantised(ix, v, Denormalize(ix, Normalize(ix, v)))
  {
    hide Normalize, Denormalize, HalfStep;
    NormalizeNearest(ix, v);
    GridPoints(ix, 0);
  }

  /** A keyed point decodes to the grid point nearest to it. */
  lemma PositionRoundTrip(ix: Indexer, x: real, y: real, z: real, secs: u64, nanos: nat)
    requires ix.Valid() && nanos < NANOS
    ensures var p := Position(ix, GenerateKey(ix, x, y, z, secs, nanos));
            Quantised(ix, x, p.0) && Quantised(ix, y, p.1) && Quantised(ix, z, p.2)
  {
    hide Normalize, Denormalize, Encode, Position, Quantised;
    PositionOfCode(ix, GenerateKey(ix, x, y, z, secs, nanos), Normalize(ix, x), Normalize(ix, y), Normalize(ix, z));
    QuantisedAxis(ix, x);
    QuantisedAxis(ix, y);
    QuantisedAxis(ix, z);
  }

  /** Keying the decoded point again gives the same key. */
  lemma RekeyIsStable(ix: Indexer, x: real, y: real, z: real, secs: u64, nanos: nat)
    requires ix.Valid() && nanos < NANOS && Untruncated(ix, secs, nanos)
    ensures var k := GenerateKey(ix, x, y, z, secs, nanos);
            var p := Position(ix, k);
            GenerateKey(ix, p.0, p.1, p.2, Secs(ix, k), SubNanos(ix, k)) == k
  {
    var nx, ny, nz := Normalize(ix, x), Normalize(ix, y), Normalize(ix, z);
    TimeRoundTrip(ix, x, y, z, secs, nanos);
    DecodeEncode(nx, ny, nz);
    NormalizeDenormalize(ix, nx);
    NormalizeDenormalize(ix, ny);
    NormalizeDenormalize(ix, nz);
    hide Encode, Decode, Normalize, Denormalize, TotalNanos;
  }
}
