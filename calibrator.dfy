/**
 The calibrator program's own logic: negotiating the HDR10 output colour space
 with the display pipeline and filling the HDR10 static metadata from the
 target peak brightness, and the per-poll keyboard adjustment of that target.

 The program's globals `g_hdrEnabled` and `g_maxNits` become the fields of one
 `Calibrator` object. The display pipeline is a collaborator: what its calls
 answer is an input (`PipelineResponses`), and the calls the program makes are
 recorded, in order, in the field `pipelineCalls`.

 The target brightness is a float in the program. Starting at 1000 and moving
 in steps of 10 between the clamps 80 and 10000, it only ever holds multiples
 of 10 no larger than 10010, all exact in single precision, as are their
 products with 10000 and their halves; so it is modelled as an `int`.
 */
module HdrCalibrator {

  type U16 = x: int | 0 <= x < 0x1_0000
  type U32 = x: int | 0 <= x < 0x1_0000_0000

  /** A Windows HRESULT: negative means failure. */
  type HResult = x: int | -0x8000_0000 <= x < 0x8000_0000

  predicate Succeeded(hr: HResult) {
    hr >= 0
  }

  // ---------------------------------------------------------------------------
  // Target peak brightness.
  // ---------------------------------------------------------------------------

  const InitialMaxNits: int := 1000
  const LowestMaxNits: int := 80
  const HighestMaxNits: int := 10000
  const NitsStep: int := 10

  /** The values the target brightness can take while the program runs. */
  predicate Reachable(nits: int) {
    LowestMaxNits <= nits <= HighestMaxNits && nits % NitsStep == 0
  }

  // ---------------------------------------------------------------------------
  // HDR10 static metadata.
  // ---------------------------------------------------------------------------

  /** A CIE 1931 (x, y) chromaticity in units of 0.00002. */
  datatype Chromaticity = Chromaticity(x: U16, y: U16)

  /** The HDR10 static metadata record handed to the display pipeline. */
  datatype Hdr10Metadata = Hdr10Metadata(
    redPrimary: Chromaticity,
    greenPrimary: Chromaticity,
    bluePrimary: Chromaticity,
    whitePoint: Chromaticity,
    maxMasteringLuminance: U32,      // in units of 0.0001 nits
    minMasteringLuminance: U32,      // in units of 0.0001 nits
    maxContentLightLevel: U16,       // in nits
    maxFrameAverageLightLevel: U16)  // in nits

  const RedPrimary: Chromaticity := Chromaticity(34000, 16000)
  const GreenPrimary: Chromaticity := Chromaticity(13250, 34500)
  const BluePrimary: Chromaticity := Chromaticity(7500, 3000)
  const WhitePoint: Chromaticity := Chromaticity(15635, 16450)

  /** Luminance units of the metadata per nit. */
  const MasteringUnitsPerNit: int := 10000

  /**
   The targets for which the single-precision metadata fill is exact: nits,
   nits * 10000 (at most 10^8, whose odd part stays below 2^24) and nits / 2
   are all represented exactly, and every field fits its unsigned type.
   */
  predicate MetadataExact(nits: int) {
    0 <= nits <= HighestMaxNits
  }

  /**
   The metadata derived from a target peak brightness: fixed DCI-P3 primaries
   and D65-like white point, a minimum of 0.0001 nits, a mastering maximum and
   a content light level that both stand for the target, and a frame-average
   level of half the content light level, rounded down.
   */
  function MetadataFor(nits: int): (m: Hdr10Metadata)
    requires MetadataExact(nits)
    ensures m.redPrimary == RedPrimary && m.greenPrimary == GreenPrimary
    ensures m.bluePrimary == BluePrimary && m.whitePoint == WhitePoint
    ensures m.minMasteringLuminance == 1
    ensures m.maxContentLightLevel == nits
    ensures m.maxMasteringLuminance == m.maxContentLightLevel * MasteringUnitsPerNit
    ensures 2 * m.maxFrameAverageLightLevel <= m.maxContentLightLevel <= 2 * m.maxFrameAverageLightLevel + 1
    ensures nits > 0 ==> m.minMasteringLuminance < m.maxMasteringLuminance
  {
    Hdr10Metadata(
      RedPrimary, GreenPrimary, BluePrimary, WhitePoint,
      nits * MasteringUnitsPerNit, 1, nits, nits / 2)
  }

  /** At the initial target of 1000 nits the metadata carries 10_000_000, 1000 and 500. */
  lemma InitialMetadata()
    ensures MetadataFor(InitialMaxNits).maxMasteringLuminance == 10_000_000
    ensures MetadataFor(InitialMaxNits).maxContentLightLevel == 1000
    ensures MetadataFor(InitialMaxNits).maxFrameAverageLightLevel == 500
  {
  }

  /** Every target the program can reach has exactly computed metadata. */
  lemma ReachableHasMetadata(nits: int)
    requires Reachable(nits)
    ensures MetadataExact(nits)
    ensures MetadataFor(nits).maxMasteringLuminance <= 100_000_000
  {
  }

  // ---------------------------------------------------------------------------
  // The display pipeline as seen by the negotiation.
  // ---------------------------------------------------------------------------

  /** Full-range RGB, ST 2084 (PQ) transfer, BT.2020 primaries: the HDR10 colour space. */
  const ColorSpaceRgbFullG2084NoneP2020: int := 12
  /** The support flag meaning "can present in this colour space". */
  const ColorSpaceSupportFlagPresent: bv32 := 1
  /** The metadata kind for HDR10 static metadata. */
  const MetadataTypeHdr10: int := 1

  /** A call the program makes on the swap chain. */
  datatype PipelineCall =
    | QuerySwapChain4
    | CheckColorSpaceSupport(colorSpace: int)
    | SetColorSpace1(colorSpace: int)
    | SetHdrMetaData(kind: int, metadata: Hdr10Metadata, hdrEnabledAtCall: bool)  // with the program's HDR flag at the time of the call

  /** What the swap chain answers to each call of the negotiation. */
  datatype PipelineResponses = PipelineResponses(
    querySwapChain4: HResult,
    checkColorSpaceSupport: HResult,
    supportFlags: bv32,
    setColorSpace1: HResult,
    setHdrMetaData: HResult)

  /** The metadata records among some pipeline calls, in the order they were submitted. */
  function Submissions(calls: seq<PipelineCall>): (records: seq<Hdr10Metadata>)
  {
    if calls == [] then []
    else
      var rest := Submissions(calls[1..]);
      if calls[0].SetHdrMetaData? then [calls[0].metadata] + rest else rest
  }

  /** The submissions of a longer log are those of its two parts, in order. */
  lemma {:induction false} SubmissionsAppend(a: seq<PipelineCall>, b: seq<PipelineCall>)
    ensures Submissions(a + b) == Submissions(a) + Submissions(b)
    decreases |a|
  {
    if a != [] {
      assert (a + b)[0] == a[0];
      assert (a + b)[1..] == a[1..] + b;
      SubmissionsAppend(a[1..], b);
      var head := if a[0].SetHdrMetaData? then [a[0].metadata] else [];
      assert Submissions(a + b) == head + Submissions(a[1..] + b);
      assert Submissions(a) == head + Submissions(a[1..]);
      assert head + (Submissions(a[1..]) + Submissions(b)) == (head + Submissions(a[1..])) + Submissions(b);
    } else {
      assert a + b == b;
    }
  }

  /** Logging one more call adds its record, if it is a submission, and nothing else. */
  lemma SubmissionsSnoc(a: seq<PipelineCall>, c: PipelineCall)
    ensures Submissions(a + [c]) == Submissions(a) + (if c.SetHdrMetaData? then [c.metadata] else [])
  {
    SubmissionsAppend(a, [c]);
    assert [c][1..] == [];
  }

  // ---------------------------------------------------------------------------
  // Keyboard.
  // ---------------------------------------------------------------------------

  /** The 256-byte keyboard state of one poll, indexed by key scan code. */
  type KeyState = s: seq<bv8> | |s| == 256 witness seq(256, i => 0 as bv8)

  const DikMinus: int := 0x0C
  const DikEquals: int := 0x0D
  /** The bit of a key's state byte that says the key is held down. */
  const KeyDownBit: bv8 := 0x80

  predicate Held(keys: KeyState, key: int)
    requires 0 <= key < 256
  {
    keys[key] & KeyDownBit != 0
  }

  /** One read of the keyboard: no device, a failed read, or a key state. */
  datatype KeyboardPoll = NoKeyboard | KeyboardReadFailed | KeyboardRead(keys: KeyState)
  /** One read of the mouse; its state is never used. */
  datatype MousePoll = NoMouse | MouseReadFailed | MouseRead
  datatype Device = Keyboard | Mouse

  /**
   The target after one key state: "=" raises it by 10, capped at 10000, and
   then "-" lowers it by 10, floored at 80.
   */
  function AdjustNits(nits: int, keys: KeyState): (r: int)
    ensures Reachable(nits) ==> Reachable(r)
    ensures LowestMaxNits <= nits <= HighestMaxNits ==> LowestMaxNits <= r <= HighestMaxNits
    ensures LowestMaxNits <= nits <= HighestMaxNits ==> nits - NitsStep <= r <= nits + NitsStep
    ensures !Held(keys, DikEquals) && !Held(keys, DikMinus) ==> r == nits
  {
    var raised := if Held(keys, DikEquals) then Min(nits + NitsStep, HighestMaxNits) else nits;
    if Held(keys, DikMinus) then Max(raised - NitsStep, LowestMaxNits) else raised
  }

  function Min(x: int, y: int): (r: int) {
    if x <= y then x else y
  }

  function Max(x: int, y: int): (r: int) {
    if x >= y then x else y
  }

  /** The target after one poll: only a successful keyboard read can change it. */
  function PollNits(nits: int, keyboard: KeyboardPoll): (r: int)
  {
    if keyboard.KeyboardRead? then AdjustNits(nits, keyboard.keys) else nits
  }

  /** The target after a run of polls, oldest first. */
  function AfterPolls(nits: int, polls: seq<KeyboardPoll>): (r: int)
    decreases |polls|
  {
    if polls == [] then nits else AfterPolls(PollNits(nits, polls[0]), polls[1..])
  }

  /** Holding only "=" raises the target by 10, capped at 10000. */
  lemma RaiseKey(nits: int, keys: KeyState)
    requires Held(keys, DikEquals) && !Held(keys, DikMinus)
    ensures AdjustNits(nits, keys) == Min(nits + NitsStep, HighestMaxNits)
    ensures nits < HighestMaxNits ==> AdjustNits(nits, keys) > nits
  {
  }

  /** Holding only "-" lowers the target by 10, floored at 80. */
  lemma LowerKey(nits: int, keys: KeyState)
    requires !Held(keys, DikEquals) && Held(keys, DikMinus)
    ensures AdjustNits(nits, keys) == Max(nits - NitsStep, LowestMaxNits)
    ensures nits > LowestMaxNits ==> AdjustNits(nits, keys) < nits
  {
  }

  /**
   Holding both keys leaves an in-range target where it is, except near the
   top: the raise is capped first and the lower then applies, so every
   target above 9990 (for a reachable one, 10000 itself) becomes 9990.
   */
  lemma BothKeys(nits: int, keys: KeyState)
    requires Held(keys, DikEquals) && Held(keys, DikMinus)
    requires LowestMaxNits <= nits <= HighestMaxNits
    ensures AdjustNits(nits, keys) == if nits > HighestMaxNits - NitsStep then HighestMaxNits - NitsStep else nits
    ensures Reachable(nits) ==> AdjustNits(nits, keys) == if nits == HighestMaxNits then HighestMaxNits - NitsStep else nits
  {
  }

  /** However many polls, with whatever key states, a reachable target stays reachable. */
  lemma {:induction false} PollsStayReachable(nits: int, polls: seq<KeyboardPoll>)
    requires Reachable(nits)
    ensures Reachable(AfterPolls(nits, polls))
    decreases |polls|
  {
    if polls != [] {
      PollsStayReachable(PollNits(nits, polls[0]), polls[1..]);
    }
  }

  /** Polls without a successful keyboard read never change the target. */
  lemma {:induction false} FailedPollsKeepNits(nits: int, polls: seq<KeyboardPoll>)
    requires forall i :: 0 <= i < |polls| ==> !polls[i].KeyboardRead?
    ensures AfterPolls(nits, polls) == nits
    decreases |polls|
  {
    if polls != [] {
      FailedPollsKeepNits(nits, polls[1..]);
    }
  }

  // ---------------------------------------------------------------------------
  // The program state.
  // ---------------------------------------------------------------------------

  class Calibrator {
    var hdrEnabled: bool
    var maxNits: int
    /** Every call made on the swap chain, oldest first. */
    var pipelineCalls: seq<PipelineCall>

    ghost predicate Valid()
      reads this
    {
      Reachable(maxNits)
    }

    /** The program's start: HDR off, target 1000 nits, nothing sent to the pipeline. */
    constructor ()
      ensures Valid()
      ensures !hdrEnabled && maxNits == InitialMaxNits && pipelineCalls == []
    {
      hdrEnabled := false;
      maxNits := InitialMaxNits;
      pipelineCalls := [];
    }

    /**
     Switches the output to HDR10 when the swap chain offers the DXGI 1.6
     interface, can present in the HDR10 colour space and accepts the switch;
     then marks HDR as enabled and submits the metadata for the current target
     once. The answer to the submission is ignored.
     */
    method InitHDR(responses: PipelineResponses) returns (ok: bool)
      requires Valid()
      modifies this
      ensures ok <==> Succeeded(responses.querySwapChain4)
                      && Succeeded(responses.checkColorSpaceSupport)
                      && responses.supportFlags & ColorSpaceSupportFlagPresent != 0
                      && Succeeded(responses.setColorSpace1)
      ensures hdrEnabled == (old(hdrEnabled) || ok)
      ensures Valid() && maxNits == old(maxNits)
      ensures !Succeeded(responses.querySwapChain4) ==>
                pipelineCalls == old(pipelineCalls) + [QuerySwapChain4]
      ensures Succeeded(responses.querySwapChain4) && !ok ==>
                pipelineCalls == old(pipelineCalls) + [QuerySwapChain4, CheckColorSpaceSupport(ColorSpaceRgbFullG2084NoneP2020)]
                                 + (if Succeeded(responses.checkColorSpaceSupport)
                                       && responses.supportFlags & ColorSpaceSupportFlagPresent != 0
                                    then [SetColorSpace1(ColorSpaceRgbFullG2084NoneP2020)] else [])
      ensures ok ==>
                pipelineCalls == old(pipelineCalls) + [QuerySwapChain4,
                                                      CheckColorSpaceSupport(ColorSpaceRgbFullG2084NoneP2020),
                                                      SetColorSpace1(ColorSpaceRgbFullG2084NoneP2020),
                                                      SetHdrMetaData(MetadataTypeHdr10, MetadataFor(maxNits), true)]
      ensures ok ==> pipelineCalls[|pipelineCalls| - 1].SetHdrMetaData? && pipelineCalls[|pipelineCalls| - 1].hdrEnabledAtCall
      ensures Submissions(pipelineCalls) == Submissions(old(pipelineCalls)) + (if ok then [MetadataFor(maxNits)] else [])
    {
      SubmissionsSnoc(pipelineCalls, QuerySwapChain4);
      pipelineCalls := pipelineCalls + [QuerySwapChain4];
      ok := false;
      if Succeeded(responses.querySwapChain4) {
        SubmissionsSnoc(pipelineCalls, CheckColorSpaceSupport(ColorSpaceRgbFullG2084NoneP2020));
        pipelineCalls := pipelineCalls + [CheckColorSpaceSupport(ColorSpaceRgbFullG2084NoneP2020)];
        if Succeeded(responses.checkColorSpaceSupport)
           && responses.supportFlags & ColorSpaceSupportFlagPresent != 0
        {
          SubmissionsSnoc(pipelineCalls, SetColorSpace1(ColorSpaceRgbFullG2084NoneP2020));
          pipelineCalls := pipelineCalls + [SetColorSpace1(ColorSpaceRgbFullG2084NoneP2020)];
          if Succeeded(responses.setColorSpace1) {
            hdrEnabled := true;
            var metadata := MetadataFor(maxNits);
            SubmissionsSnoc(pipelineCalls, SetHdrMetaData(MetadataTypeHdr10, metadata, hdrEnabled));
            pipelineCalls := pipelineCalls + [SetHdrMetaData(MetadataTypeHdr10, metadata, hdrEnabled)];
            ok := true;
          }
        }
      }
    }

    /**
     One input poll. A successful keyboard read applies the "=" and "-" keys
     to the target; a failed read asks for the keyboard to be reacquired and
     leaves the target alone. The mouse is read, and reacquired when the read
     fails, but its state changes nothing.
     */
    method UpdateInput(keyboard: KeyboardPoll, mouse: MousePoll) returns (reacquire: seq<Device>)
      modifies this
      ensures maxNits == PollNits(old(maxNits), keyboard)
      ensures old(Valid()) ==> Valid()
      ensures hdrEnabled == old(hdrEnabled) && pipelineCalls == old(pipelineCalls)
      ensures reacquire == (if keyboard.KeyboardReadFailed? then [Keyboard] else [])
                           + (if mouse.MouseReadFailed? then [Mouse] else [])
    {
      reacquire := [];
      match keyboard {
        case NoKeyboard =>
        case KeyboardReadFailed =>
          reacquire := reacquire + [Keyboard];
        case KeyboardRead(keys) =>
          if keys[DikEquals] & KeyDownBit != 0 {
            maxNits := maxNits + NitsStep;
            if maxNits > HighestMaxNits {
              maxNits := HighestMaxNits;
            }
          }
          if keys[DikMinus] & KeyDownBit != 0 {
            maxNits := maxNits - NitsStep;
            if maxNits < LowestMaxNits {
              maxNits := LowestMaxNits;
            }
          }
      }
      if mouse.MouseReadFailed? {
        reacquire := reacquire + [Mouse];
      }
    }
  }
}
