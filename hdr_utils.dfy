/**
 HDR10 helpers: the SMPTE ST 2084 perceptual quantizer (PQ) that maps linear
 luminance in nits to a display code value in [0, 1] and back, a per-channel
 RGB wrapper around it, and the linear SDR scaling helpers.

 Luminance and code values are `real`. The power function of the C library
 (`powf`) is not expressible here, so every operation that uses it takes it as
 a parameter `pow` of type `Power`: all that is known of it is that, like
 `powf`, it never yields a negative value for a non-negative base. The laws of
 exact exponentiation that the round-trip and monotonicity lemmas need are
 stated separately as predicates and required only by those lemmas.
 */
module HdrUtils {

  // ---------------------------------------------------------------------------
  // Constants of section 5 of SMPTE ST 2084, written as the exact rationals
  // that the single-precision literals of the source denote.
  // ---------------------------------------------------------------------------

  const PqM1: real := 2610.0 / 16384.0   // 0.1593017578125
  const PqM2: real := 2523.0 / 32.0      // 78.84375
  const PqC1: real := 3424.0 / 4096.0    // 0.8359375
  const PqC2: real := 2413.0 / 128.0     // 18.8515625
  const PqC3: real := 2392.0 / 128.0     // 18.6875

  /** The luminance that PQ code 1.0 stands for. */
  const PqMaxNits: real := 10000.0

  /** The SDR white level the linear helpers assume when none is given. */
  const DefaultSdrWhiteNits: real := 80.0

  /**
   A stand-in for `powf(base, exponent)`. Its only built-in property is the
   one every caller here relies on: a non-negative base never gives a
   negative result.
   */
  type Power = f: (real, real) -> real | forall x: real, a: real :: x >= 0.0 ==> f(x, a) >= 0.0
    witness (x: real, a: real) => if x >= 0.0 then x else 0.0

  // ---------------------------------------------------------------------------
  // Laws of exact exponentiation, used only as hypotheses of lemmas.
  // ---------------------------------------------------------------------------

  /** A positive base gives a positive power. */
  ghost predicate PositiveOnPositive(pow: Power) {
    forall x: real, a: real :: x > 0.0 ==> pow(x, a) > 0.0
  }

  /** Raising to a and then to 1/a gives the base back, for a positive base. */
  ghost predicate Invertible(pow: Power) {
    forall x: real, a: real, b: real :: x > 0.0 && a * b == 1.0 ==> pow(pow(x, a), b) == x
  }

  /** For a positive exponent, a larger base never gives a smaller power. */
  ghost predicate MonotoneInBase(pow: Power) {
    forall x: real, y: real, a: real :: 0.0 <= x <= y && a > 0.0 ==> pow(x, a) <= pow(y, a)
  }

  /** One raised to any exponent is one. */
  ghost predicate OneIsFixed(pow: Power) {
    forall a: real :: pow(1.0, a) == 1.0
  }

  function Max(x: real, y: real): (r: real) {
    if x >= y then x else y
  }

  // ---------------------------------------------------------------------------
  // The transfer function.
  // ---------------------------------------------------------------------------

  /**
   Encodes a luminance in nits as a PQ code value. A non-positive luminance
   short-circuits to code 0 before any power is taken, so the result then does
   not depend on `pow` at all.
   */
  function NitsToPQ(pow: Power, nits: real): (code: real)
    ensures code >= 0.0
    ensures nits <= 0.0 ==> code == 0.0
  {
    var y := nits / PqMaxNits;
    if y <= 0.0 then 0.0
    else
      var yPow := pow(y, PqM1);
      var numerator := PqC1 + PqC2 * yPow;
      var denominator := 1.0 + PqC3 * yPow;
      pow(numerator / denominator, PqM2)
  }

  /**
   Decodes a PQ code value to a luminance in nits. A non-positive code gives
   0, and so does a code whose denominator C2 - C3 * code^(1/M2) is not
   positive; the numerator is clamped at 0, so the result is never negative.
   */
  function PQToNits(pow: Power, code: real): (nits: real)
    ensures nits >= 0.0
    ensures code <= 0.0 ==> nits == 0.0
    ensures code > 0.0 && PqC2 - PqC3 * pow(code, 1.0 / PqM2) <= 0.0 ==> nits == 0.0
  {
    if code <= 0.0 then 0.0
    else
      var codePow := pow(code, 1.0 / PqM2);
      var numerator := Max(codePow - PqC1, 0.0);
      var denominator := PqC2 - PqC3 * codePow;
      if denominator <= 0.0 then 0.0
      else pow(numerator / denominator, 1.0 / PqM1) * PqMaxNits
  }

  // ---------------------------------------------------------------------------
  // Algebra of the rational step of the curve.
  // ---------------------------------------------------------------------------

  /** The rational map of the encoder, (C1 + C2 * l) / (1 + C3 * l). */
  function EncodeRatio(l: real): (q: real)
    requires l >= 0.0
  {
    (PqC1 + PqC2 * l) / (1.0 + PqC3 * l)
  }

  /** The decoder's rational map undoes the encoder's, with a positive denominator. */
  lemma EncodeRatioInverts(l: real)
    requires l >= 0.0
    ensures EncodeRatio(l) >= PqC1
    ensures PqC2 - PqC3 * EncodeRatio(l) > 0.0
    ensures (EncodeRatio(l) - PqC1) / (PqC2 - PqC3 * EncodeRatio(l)) == l
  {
    var d := 1.0 + PqC3 * l;
    var q := EncodeRatio(l);
    assert q * d == PqC1 + PqC2 * l;
    assert (q - PqC1) * d == (PqC2 - PqC1 * PqC3) * l;
    assert (PqC2 - PqC3 * q) * d == PqC2 - PqC1 * PqC3;
    assert q - PqC1 == l * (PqC2 - PqC3 * q);
  }

  /** The encoder's rational map undoes the decoder's, for s strictly between C1 and C2 / C3. */
  lemma DecodeRatioInverts(s: real)
    requires PqC1 < s && PqC2 - PqC3 * s > 0.0
    ensures (s - PqC1) / (PqC2 - PqC3 * s) > 0.0
    ensures EncodeRatio((s - PqC1) / (PqC2 - PqC3 * s)) == s
  {
    var den := PqC2 - PqC3 * s;
    var l := (s - PqC1) / den;
    assert l * den == s - PqC1;
    assert (PqC1 + PqC2 * l) * den == s * (PqC2 - PqC1 * PqC3);
    assert (1.0 + PqC3 * l) * den == PqC2 - PqC1 * PqC3;
    assert PqC1 + PqC2 * l == s * (1.0 + PqC3 * l);
  }

  /** Comparing two quotients with positive denominators by cross-multiplying. */
  lemma QuotientsCompare(x1: real, d1: real, x2: real, d2: real)
    requires d1 > 0.0 && d2 > 0.0
    requires x1 * d2 <= x2 * d1
    ensures x1 / d1 <= x2 / d2
  {
    var q1, q2 := x1 / d1, x2 / d2;
    assert q1 * d1 == x1 && q2 * d2 == x2;
    assert q1 * (d1 * d2) <= q2 * (d1 * d2);
  }

  /** The encoder's rational map is non-decreasing. */
  lemma EncodeRatioMonotone(a: real, b: real)
    requires 0.0 <= a <= b
    ensures EncodeRatio(a) <= EncodeRatio(b)
  {
    var da, db := 1.0 + PqC3 * a, 1.0 + PqC3 * b;
    var na, nb := PqC1 + PqC2 * a, PqC1 + PqC2 * b;
    assert nb * da - na * db == (PqC2 - PqC1 * PqC3) * (b - a);
    QuotientsCompare(na, da, nb, db);
  }

  // ---------------------------------------------------------------------------
  // Properties of the curve under the laws of exact exponentiation.
  // ---------------------------------------------------------------------------

  /** Decoding the code of a non-negative luminance gives that luminance back. */
  lemma DecodeEncode(pow: Power, nits: real)
    requires PositiveOnPositive(pow) && Invertible(pow)
    requires nits >= 0.0
    ensures PQToNits(pow, NitsToPQ(pow, nits)) == nits
  {
    if nits > 0.0 {
      var y := nits / PqMaxNits;
      var yPow := pow(y, PqM1);
      assert yPow > 0.0;
      EncodeRatioInverts(yPow);
      var q := EncodeRatio(yPow);
      var code := pow(q, PqM2);
      assert code > 0.0;
      assert NitsToPQ(pow, nits) == code;
      assert PqM2 * (1.0 / PqM2) == 1.0;
      assert pow(code, 1.0 / PqM2) == q;
      assert Max(q - PqC1, 0.0) == q - PqC1;
      assert (1.0 / PqM1) * PqM1 == 1.0;
      assert pow(yPow, 1.0 / PqM1) == y;
    }
  }

  /**
   Encoding the luminance of a code gives that code back, for every code
   whose 1/M2-th power lies strictly between C1 and C2 / C3 (the codes that
   decode to a positive luminance).
   */
  lemma EncodeDecode(pow: Power, code: real)
    requires PositiveOnPositive(pow) && Invertible(pow)
    requires code > 0.0
    requires PqC1 < pow(code, 1.0 / PqM2) && PqC2 - PqC3 * pow(code, 1.0 / PqM2) > 0.0
    ensures NitsToPQ(pow, PQToNits(pow, code)) == code
  {
    var s := pow(code, 1.0 / PqM2);
    DecodeRatioInverts(s);
    var l := (s - PqC1) / (PqC2 - PqC3 * s);
    assert Max(s - PqC1, 0.0) == s - PqC1;
    var y := pow(l, 1.0 / PqM1);
    assert y > 0.0;
    var nits := y * PqMaxNits;
    assert PQToNits(pow, code) == nits;
    assert nits / PqMaxNits == y;
    assert (1.0 / PqM1) * PqM1 == 1.0;
    assert pow(y, PqM1) == l;
    assert (1.0 / PqM2) * PqM2 == 1.0;
    assert pow(s, PqM2) == code;
  }

  /** The reference maximum of 10000 nits encodes to code 1 exactly. */
  lemma EncodePeak(pow: Power)
    requires OneIsFixed(pow)
    ensures NitsToPQ(pow, PqMaxNits) == 1.0
  {
    assert pow(1.0, PqM1) == 1.0;
    assert EncodeRatio(1.0) == 1.0;
    assert pow(1.0, PqM2) == 1.0;
  }

  /** More light never encodes to a smaller code. */
  lemma EncodeMonotone(pow: Power, n1: real, n2: real)
    requires MonotoneInBase(pow)
    requires n1 <= n2
    ensures NitsToPQ(pow, n1) <= NitsToPQ(pow, n2)
  {
    if n1 > 0.0 {
      var y1, y2 := n1 / PqMaxNits, n2 / PqMaxNits;
      assert pow(y1, PqM1) <= pow(y2, PqM1);
      EncodeRatioMonotone(pow(y1, PqM1), pow(y2, PqM1));
      EncodeRatioInverts(pow(y1, PqM1));
      assert pow(EncodeRatio(pow(y1, PqM1)), PqM2) <= pow(EncodeRatio(pow(y2, PqM1)), PqM2);
    }
  }

  /** Every luminance in PQ's domain [0, 10000] encodes to a code in [0, 1]. */
  lemma EncodeInUnitInterval(pow: Power, nits: real)
    requires MonotoneInBase(pow) && OneIsFixed(pow)
    requires 0.0 <= nits <= PqMaxNits
    ensures 0.0 <= NitsToPQ(pow, nits) <= 1.0
  {
    EncodeMonotone(pow, nits, PqMaxNits);
    EncodePeak(pow);
  }

  // ---------------------------------------------------------------------------
  // RGB triples in nits.
  // ---------------------------------------------------------------------------

  /** Three independent luminance channels; the datatype constructor takes (red, green, blue). */
  datatype RgbNits = RgbNits(r: real, g: real, b: real) {

    /** Encodes each channel on its own. */
    function ToPQ(pow: Power): (pq: (real, real, real))
      ensures pq.0 == NitsToPQ(pow, r) && pq.1 == NitsToPQ(pow, g) && pq.2 == NitsToPQ(pow, b)
      ensures pq.0 >= 0.0 && pq.1 >= 0.0 && pq.2 >= 0.0
    {
      (NitsToPQ(pow, r), NitsToPQ(pow, g), NitsToPQ(pow, b))
    }

    /** The gray of the given luminance. */
    static function FromGray(nits: real): (c: RgbNits)
      ensures c.r == nits && c.g == nits && c.b == nits
    {
      RgbNits(nits, nits, nits)
    }

    /** The argument-less constructor: all channels 0. */
    static function Default(): (c: RgbNits)
      ensures c.r == 0.0 && c.g == 0.0 && c.b == 0.0
    {
      RgbNits(0.0, 0.0, 0.0)
    }

    static function White100Nits(): (c: RgbNits)
      ensures c == FromGray(100.0)
    {
      RgbNits(100.0, 100.0, 100.0)
    }

    /** The SDR reference white level inside an HDR signal. */
    static function White203Nits(): (c: RgbNits)
      ensures c == FromGray(203.0)
    {
      RgbNits(203.0, 203.0, 203.0)
    }

    static function White1000Nits(): (c: RgbNits)
      ensures c == FromGray(1000.0)
    {
      RgbNits(1000.0, 1000.0, 1000.0)
    }

    static function Black(): (c: RgbNits)
      ensures c == FromGray(0.0) && c == Default()
    {
      RgbNits(0.0, 0.0, 0.0)
    }
  }

  /** Each output channel of ToPQ depends on its own input channel and on nothing else. */
  lemma ToPQChannelsIndependent(pow: Power, c: RgbNits, d: RgbNits)
    ensures c.r == d.r ==> c.ToPQ(pow).0 == d.ToPQ(pow).0
    ensures c.g == d.g ==> c.ToPQ(pow).1 == d.ToPQ(pow).1
    ensures c.b == d.b ==> c.ToPQ(pow).2 == d.ToPQ(pow).2
  {
  }

  /** Black encodes to code 0 on every channel, whatever the power function. */
  lemma BlackEncodesToZero(pow: Power)
    ensures RgbNits.Black().ToPQ(pow) == (0.0, 0.0, 0.0)
  {
  }

  /** A gray encodes to three equal codes. */
  lemma GrayEncodesToGray(pow: Power, nits: real)
    ensures var pq := RgbNits.FromGray(nits).ToPQ(pow); pq.0 == pq.1 == pq.2 == NitsToPQ(pow, nits)
  {
  }

  // ---------------------------------------------------------------------------
  // Linear SDR helpers.
  // ---------------------------------------------------------------------------

  /** The result of a single-precision division: finite, or one of the IEEE 754 special values. */
  datatype Quotient = Finite(value: real) | PositiveInfinity | NegativeInfinity | NotANumber

  /** Scales an SDR signal (1.0 = SDR white) to nits; linear, not PQ. */
  function SDRToNits(sdr: real, sdrWhiteNits: real := DefaultSdrWhiteNits): (nits: real)
    ensures sdrWhiteNits > 0.0 && sdr >= 0.0 ==> nits >= 0.0
    ensures sdr == 1.0 ==> nits == sdrWhiteNits
  {
    sdr * sdrWhiteNits
  }

  /**
   Scales nits back to an SDR signal. Dividing by an SDR white of 0 gives the
   IEEE 754 result of x / +0: an infinity of the sign of x, or NaN for 0 / 0.
   */
  function NitsToSDR(nits: real, sdrWhiteNits: real := DefaultSdrWhiteNits): (sdr: Quotient)
    ensures sdrWhiteNits != 0.0 ==> sdr.Finite? && sdr.value * sdrWhiteNits == nits
    ensures sdrWhiteNits == 0.0 ==> !sdr.Finite? && (sdr.NotANumber? <==> nits == 0.0)
    ensures sdrWhiteNits == 0.0 && nits > 0.0 ==> sdr == PositiveInfinity
    ensures sdrWhiteNits == 0.0 && nits < 0.0 ==> sdr == NegativeInfinity
  {
    if sdrWhiteNits == 0.0 then
      if nits > 0.0 then PositiveInfinity
      else if nits < 0.0 then NegativeInfinity
      else NotANumber
    else Finite(nits / sdrWhiteNits)
  }

  /** Back to SDR after scaling to nits gives the SDR value back, for every non-zero white level. */
  lemma SdrRoundTrip(sdr: real, sdrWhiteNits: real)
    requires sdrWhiteNits != 0.0
    ensures NitsToSDR(SDRToNits(sdr, sdrWhiteNits), sdrWhiteNits) == Finite(sdr)
  {
  }

  /** Back to nits after scaling to SDR gives the luminance back, for every non-zero white level. */
  lemma NitsRoundTrip(nits: real, sdrWhiteNits: real)
    requires sdrWhiteNits != 0.0
    ensures SDRToNits(NitsToSDR(nits, sdrWhiteNits).value, sdrWhiteNits) == nits
  {
  }

  /** With the default white level, SDR 1.0 is 80 nits and 80 nits is SDR 1.0. */
  lemma SdrDefaultWhite()
    ensures SDRToNits(1.0) == 80.0 && NitsToSDR(80.0) == Finite(1.0)
  {
  }
}
