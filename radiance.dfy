/**
 * The radiance part of the sky-model dataset: its records, the reader's
 * specification as a pure parse of the file from a start position, and the
 * properties of that parse (derived metadata, configuration counts, where
 * the reader stops).
 *
 * The file holds, in order: the visibility grid, the albedo grid, the
 * altitude grid, the elevation grid (each an `int` count and that many
 * doubles), the channel count, start and width, the rank, the sun, zenith
 * and emphasis breaks (each a count and doubles), and then one coefficient
 * block per configuration.
 */
module Radiance {
  import opened Wrappers
  import opened Bits
  import opened Ieee
  import opened Stream
  import opened Visibility
  import opened Half
  import opened Coefficients

  /** The reader's early returns, in the order it checks them. */
  datatype RadianceError =
    | InvalidAltitudeCount
    | InvalidElevationCount
    | InvalidChannelCount
    | InvalidChannelStart
    | InvalidChannelWidth
    | InvalidRank
    | InvalidSunBreaksCount
    | InvalidZenithBreaksCount
    | InvalidEmphBreaksCount

  /** `FRadianceMetadata`. */
  datatype RadianceMetadata = RadianceMetadata(
    rank: int,
    sunOffset: int,
    sunStride: int,
    sunBreaks: seq<F64>,
    zenithOffset: int,
    zenithStride: int,
    zenithBreaks: seq<F64>,
    emphOffset: int,
    emphBreaks: seq<F64>,
    totalCoefsSingleConfig: int,
    totalCoefsAllConfigs: int)

  /** `FRadianceData`. */
  datatype RadianceData = RadianceData(
    visibilitiesRad: seq<F64>,
    albedosRad: seq<F64>,
    altitudesRad: seq<F64>,
    elevationsRad: seq<F64>,
    channels: int,
    channelStart: F64,
    channelWidth: F64,
    metadataRad: RadianceMetadata,
    dataRad: seq<F64>)

  const INT64_MAX: int := 0x7FFF_FFFF_FFFF_FFFF

  /**
   * The field just read, ending at `at`, is the one `error` rejects: a count
   * below its minimum, a negative channel start or a channel width that is
   * not positive.
   */
  predicate Offending(bytes: seq<u8>, error: RadianceError, at: nat) {
    match error
    case InvalidAltitudeCount | InvalidElevationCount | InvalidChannelCount | InvalidRank =>
      4 <= at <= |bytes| && I32At(bytes, at - 4) < 1
    case InvalidSunBreaksCount | InvalidZenithBreaksCount | InvalidEmphBreaksCount =>
      4 <= at <= |bytes| && I32At(bytes, at - 4) < 2
    case InvalidChannelStart =>
      8 <= at <= |bytes| && Less(U64At(bytes, at - 8), F64_ZERO)
    case InvalidChannelWidth =>
      8 <= at <= |bytes| && LessEq(U64At(bytes, at - 8), F64_ZERO)
  }

  /** The grids and channel description, read up to the channel width. */
  datatype Header = Header(
    visibilitiesInFile: seq<F64>,
    selection: VisibilitySelection,
    albedos: seq<F64>,
    altitudes: seq<F64>,
    elevations: seq<F64>,
    channels: int,
    channelStart: F64,
    channelWidth: F64,
    next: nat)

  /** An `int` count and that many doubles, as read into a `TArray<double>`. */
  function ReadArray(bytes: seq<u8>, p: nat): (r: Result<Field<seq<F64>>, Halt<RadianceError>>)
    ensures r.Success? ==> p + 4 <= r.value.next <= |bytes| && InInt32(|r.value.value|)
    ensures r.Failure? ==> r.error == Unsupported
  {
    var count :- I32Field(bytes, p);
    F64sField(bytes, count.next, count.value)
  }

  /**
   * An `int` count, rejected with `error` right after it is read when it is
   * below `minimum`, and then that many doubles.
   */
  function ReadCheckedArray(bytes: seq<u8>, p: nat, minimum: int, error: RadianceError)
    : (r: Result<Field<seq<F64>>, Halt<RadianceError>>)
    ensures r.Success? ==> p + 4 <= r.value.next <= |bytes| && minimum <= |r.value.value| && InInt32(|r.value.value|)
    ensures r.Failure? && r.error.Rejected? ==>
      r.error == Rejected(error, p + 4) && p + 4 <= |bytes| && I32At(bytes, p) < minimum
  {
    var count :- I32Field(bytes, p);
    var _ :- Check(count.value >= minimum, error, count.next);
    F64sField(bytes, count.next, count.value)
  }

  /** The channel count, start and width, as `(Channels, ChannelStart, ChannelWidth)`. */
  function ReadChannels(bytes: seq<u8>, p: nat): (r: Result<Field<(int, F64, F64)>, Halt<RadianceError>>)
    ensures r.Success? ==> r.value.next == p + 20 <= |bytes|
    ensures r.Success? ==> var (channels, start, width) := r.value.value;
      1 <= channels && !Less(start, F64_ZERO) && !LessEq(width, F64_ZERO)
    ensures r.Failure? && r.error.Rejected? ==> p < r.error.at <= |bytes| && Offending(bytes, r.error.error, r.error.at)
    ensures r.Failure? && r.error.Rejected? ==>
      r.error.error in {InvalidChannelCount, InvalidChannelStart, InvalidChannelWidth}
  {
    var channels :- ReadPositiveInt(bytes, p, InvalidChannelCount);
    var start :- F64Field(bytes, channels.next);
    var _ :- Check(!Less(start.value, F64_ZERO), InvalidChannelStart, start.next);
    var width :- F64Field(bytes, start.next);
    var _ :- Check(!LessEq(width.value, F64_ZERO), InvalidChannelWidth, width.next);
    Success(Field((channels.value, start.value, width.value), width.next))
  }

  /** The grids, each read with its count, the visibility window chosen from the first, and the channels. */
  function ReadHeader(bytes: seq<u8>, p: nat, v: F64): (r: Result<Header, Halt<RadianceError>>)
    ensures r.Success? ==> r.value.channels >= 1 && |r.value.altitudes| >= 1 && |r.value.elevations| >= 1
    ensures r.Success? ==> r.value.selection == SelectVisibility(v, r.value.visibilitiesInFile)
    ensures r.Success? ==> !Less(r.value.channelStart, F64_ZERO) && !LessEq(r.value.channelWidth, F64_ZERO)
    ensures r.Success? ==> p < r.value.next <= |bytes|
    ensures r.Failure? && r.error.Rejected? ==> p < r.error.at <= |bytes| && Offending(bytes, r.error.error, r.error.at)
    ensures r.Failure? && r.error.Rejected? ==>
      r.error.error in {InvalidAltitudeCount, InvalidElevationCount, InvalidChannelCount, InvalidChannelStart, InvalidChannelWidth}
  {
    var vis :- ReadArray(bytes, p);
    var albs :- ReadArray(bytes, vis.next);
    var alts :- ReadCheckedArray(bytes, albs.next, 1, InvalidAltitudeCount);
    var elevs :- ReadCheckedArray(bytes, alts.next, 1, InvalidElevationCount);
    var band :- ReadChannels(bytes, elevs.next);
    var (channels, start, width) := band.value;
    Success(Header(vis.value, SelectVisibility(v, vis.value), albs.value, alts.value, elevs.value,
                   channels, start, width, band.next))
  }

  /** `TotalConfigs`, `SkippedConfigsBegin` and `SkippedConfigsEnd`. */
  datatype ConfigCounts = ConfigCounts(total: nat, skippedBegin: nat, skippedEnd: nat)

  /**
   * The three configuration counts: the channel, elevation, altitude and
   * albedo counts multiplied, left to right, by the kept, the skipped and
   * the remaining visibilities. Each partial `int` product must fit.
   */
  function CountConfigs(h: Header): (r: Result<ConfigCounts, Halt<RadianceError>>)
    requires h.channels >= 1
    requires h.selection.skipped + |h.selection.retained| <= |h.visibilitiesInFile|
    ensures r.Failure? ==> r.error == Unsupported
  {
    var channels: nat := h.channels;
    var e := channels * |h.elevations|;
    var _ :- Handled(InInt32(e));
    var ea := e * |h.altitudes|;
    var _ :- Handled(InInt32(ea));
    var eaa := ea * |h.albedos|;
    var _ :- Handled(InInt32(eaa));
    var sel := h.selection;
    var total := eaa * |sel.retained|;
    var _ :- Handled(InInt32(total));
    var begin := eaa * sel.skipped;
    var _ :- Handled(InInt32(begin));
    var end := eaa * (|h.visibilitiesInFile| - sel.skipped - |sel.retained|);
    var _ :- Handled(InInt32(end));
    MulNat(eaa, |sel.retained|);
    MulNat(eaa, sel.skipped);
    MulNat(eaa, |h.visibilitiesInFile| - sel.skipped - |sel.retained|);
    Success(ConfigCounts(total, begin, end))
  }

  /** The rank and the three break arrays. */
  datatype Breaks = Breaks(rank: int, sun: seq<F64>, zenith: seq<F64>, emph: seq<F64>, next: nat)

  /** Reads the rank and the breaks from `p`, each count checked right after it is read. */
  function ReadBreaks(bytes: seq<u8>, p: nat): (r: Result<Breaks, Halt<RadianceError>>)
    ensures r.Success? ==> r.value.rank >= 1 && |r.value.sun| >= 2 && |r.value.zenith| >= 2 && |r.value.emph| >= 2
    ensures r.Success? ==> InInt32(r.value.rank) && InInt32(|r.value.sun|) && InInt32(|r.value.zenith|) && InInt32(|r.value.emph|)
    ensures r.Success? ==> p < r.value.next <= |bytes|
    ensures r.Failure? && r.error.Rejected? ==> p < r.error.at <= |bytes| && Offending(bytes, r.error.error, r.error.at)
    ensures r.Failure? && r.error.Rejected? ==>
      r.error.error in {InvalidRank, InvalidSunBreaksCount, InvalidZenithBreaksCount, InvalidEmphBreaksCount}
  {
    var rank :- ReadPositiveInt(bytes, p, InvalidRank);
    var sun :- ReadCheckedArray(bytes, rank.next, 2, InvalidSunBreaksCount);
    var zenith :- ReadCheckedArray(bytes, sun.next, 2, InvalidZenithBreaksCount);
    var emph :- ReadCheckedArray(bytes, zenith.next, 2, InvalidEmphBreaksCount);
    Success(Breaks(rank.value, sun.value, zenith.value, emph.value, emph.next))
  }

  /** The coefficient block shape the breaks describe. */
  function Shape(b: Breaks): BlockShape
    requires b.rank >= 0
  {
    BlockShape(b.rank, |b.sun|, |b.zenith|, |b.emph|)
  }

  /**
   * The offsets and strides into one configuration's coefficients and the
   * two totals, each an `int` that must fit.
   */
  function DeriveMetadata(b: Breaks, totalConfigs: nat): (r: Result<RadianceMetadata, Halt<RadianceError>>)
    requires b.rank >= 1
    ensures r.Failure? ==> r.error == Unsupported
  {
    var sunOffset := 0;
    var sunStride := |b.sun| + |b.zenith|;
    var _ :- Handled(InInt32(sunStride));
    var zenithOffset := sunOffset + |b.sun|;
    var emphOffset := sunOffset + b.rank * sunStride;
    var _ :- Handled(InInt32(emphOffset));
    var single := emphOffset + |b.emph|;
    var _ :- Handled(InInt32(single));
    var all := single * totalConfigs;
    var _ :- Handled(InInt32(all));
    Success(RadianceMetadata(b.rank, sunOffset, sunStride, b.sun, zenithOffset, sunStride, b.zenith,
                             emphOffset, b.emph, single, all))
  }

  /**
   * `OneConfigByteCount`: the term and emphasis sizes computed in 64-bit
   * `size_t` arithmetic, then stored in an `int64`.
   */
  function OneConfigByteCount(b: Breaks): int
    requires b.rank >= 1
  {
    var size := (((|b.sun| + |b.zenith|) * 2 + 8) * b.rank + |b.emph| * 2) % 0x1_0000_0000_0000_0000;
    if size <= INT64_MAX then size else size - 0x1_0000_0000_0000_0000
  }

  /**
   * Once the derived metadata fits an `int`, the `size_t` arithmetic of
   * `OneConfigByteCount` cannot wrap: it is the byte size of one
   * configuration, two bytes per coefficient and eight per term's zenith scale.
   */
  lemma OneConfigByteCountExact(b: Breaks, totalConfigs: nat)
    requires b.rank >= 1 && InInt32(b.rank) && InInt32(|b.emph|)
    requires DeriveMetadata(b, totalConfigs).Success?
    ensures OneConfigByteCount(b) == ConfigBytes(Shape(b))
    ensures OneConfigByteCount(b) == 2 * DeriveMetadata(b, totalConfigs).value.totalCoefsSingleConfig + 8 * b.rank
  {
    var s := Shape(b);
    var stride := |b.sun| + |b.zenith|;
    assert b.rank * stride <= INT32_MAX;
    assert ((stride * 2 + 8) * b.rank) == 2 * (b.rank * stride) + 8 * b.rank;
    assert s.rank * TermBytes(s) == (stride * 2 + 8) * b.rank;
    ConfigBytesCount(s);
  }

  /**
   * The position the reader seeks to before decoding: the current position
   * plus `OneConfigByteCount * SkippedConfigsBegin`, in `int64`.
   */
  function SkipTarget(p: nat, oneConfig: nat, skipped: nat): (r: Result<nat, Halt<RadianceError>>)
    ensures r.Success? ==> r.value == p + oneConfig * skipped <= INT64_MAX
    ensures r.Failure? ==> r.error == Unsupported
  {
    var skip := oneConfig * skipped;
    var _ :- Handled(skip <= INT64_MAX);
    var target := p + skip;
    var _ :- Handled(target <= INT64_MAX);
    Success(target)
  }

  /** Everything the reader knows before its decode loop, and where that loop starts. */
  datatype Plan = Plan(header: Header, counts: ConfigCounts, breaks: Breaks, meta: RadianceMetadata, dataStart: nat)

  /**
   * A plan the reader can decode: its breaks passed their checks, its
   * metadata is the one derived from them and the kept configurations lie
   * within the file.
   */
  predicate ValidPlan(bytes: seq<u8>, plan: Plan) {
    var b := plan.breaks;
    var m := plan.meta;
    && b.rank >= 1
    && var s := Shape(b);
    && m.rank == b.rank && m.sunBreaks == b.sun && m.zenithBreaks == b.zenith && m.emphBreaks == b.emph
    && m.sunOffset == 0 && m.zenithOffset == s.nSun
    && m.sunStride == Stride(s) && m.zenithStride == Stride(s)
    && m.emphOffset == s.rank * Stride(s)
    && m.totalCoefsSingleConfig == ConfigCoefCount(s)
    && m.totalCoefsAllConfigs == plan.counts.total * ConfigCoefCount(s)
    && plan.dataStart + plan.counts.total * ConfigBytes(s) <= |bytes|
  }

  /** The shape of a plan's coefficient blocks. */
  function PlanShape(plan: Plan): BlockShape
    requires plan.breaks.rank >= 0
  {
    Shape(plan.breaks)
  }

  /**
   * The reader up to its decode loop: the header, the configuration counts,
   * the breaks, the metadata and the seek past the skipped configurations.
   * The kept configurations must lie within the file.
   */
  function PlanRead(bytes: seq<u8>, p: nat, v: F64): (r: Result<Plan, Halt<RadianceError>>)
    ensures r.Success? ==> ValidPlan(bytes, r.value)
    ensures r.Success? ==> r.value.header.selection == SelectVisibility(v, r.value.header.visibilitiesInFile)
    ensures r.Success? ==> OneConfigByteCount(r.value.breaks) == ConfigBytes(PlanShape(r.value))
    ensures r.Success? ==>
      r.value.dataStart == r.value.breaks.next + ConfigBytes(PlanShape(r.value)) * r.value.counts.skippedBegin
    ensures r.Failure? && r.error.Rejected? ==> p < r.error.at <= |bytes| && Offending(bytes, r.error.error, r.error.at)
  {
    var h :- ReadHeader(bytes, p, v);
    var counts :- CountConfigs(h);
    var b :- ReadBreaks(bytes, h.next);
    var meta :- DeriveMetadata(b, counts.total);
    MetadataLayout(b, counts.total);
    OneConfigByteCountExact(b, counts.total);
    var q :- SkipTarget(b.next, OneConfigByteCount(b), counts.skippedBegin);
    var _ :- Handled(q + counts.total * ConfigBytes(Shape(b)) <= |bytes|);
    Success(Plan(h, counts, b, meta, q))
  }

  /**
   * The decode loop of a plan: the record filled with the header, the
   * metadata and the coefficients of the kept configurations, and the
   * position after the last of them.
   */
  function Decode(bytes: seq<u8>, plan: Plan, divide: (F64, F64) -> F64): Field<RadianceData>
    requires ValidPlan(bytes, plan)
  {
    var h := plan.header;
    var n := plan.counts.total;
    var s := PlanShape(plan);
    MulNat(n, ConfigBytes(s));
    var data := RadianceData(h.selection.retained, h.albedos, h.altitudes, h.elevations,
                             h.channels, h.channelStart, h.channelWidth, plan.meta,
                             AllCoefs(bytes, plan.dataStart, s, n, divide));
    Field(data, plan.dataStart + n * ConfigBytes(s))
  }

  /**
   * `ReadRadianceFile` from position `p`: the record it fills and the
   * position it leaves the handle at, or the early return it takes. The
   * coefficients of the kept configurations are decoded; the skipped ones
   * before them are jumped over and those after them are not read.
   */
  function ReadRadiance(bytes: seq<u8>, p: nat, v: F64, divide: (F64, F64) -> F64)
    : (r: Result<Field<RadianceData>, Halt<RadianceError>>)
    ensures r.Failure? && r.error.Rejected? ==> p < r.error.at <= |bytes| && Offending(bytes, r.error.error, r.error.at)
  {
    var plan :- PlanRead(bytes, p, v);
    Success(Decode(bytes, plan, divide))
  }

  /**
   * The skipped, kept and remaining configurations partition all those of
   * the file's visibility grid; with no albedo there are none of any kind.
   */
  lemma ConfigCountsPartition(h: Header)
    requires h.channels >= 1
    requires h.selection.skipped + |h.selection.retained| <= |h.visibilitiesInFile|
    requires CountConfigs(h).Success?
    ensures var c := CountConfigs(h).value;
      c.skippedBegin + c.total + c.skippedEnd
      == h.channels * |h.elevations| * |h.altitudes| * |h.albedos| * |h.visibilitiesInFile|
    ensures |h.albedos| == 0 ==> CountConfigs(h).value == ConfigCounts(0, 0, 0)
  {
    var eaa := h.channels * |h.elevations| * |h.altitudes| * |h.albedos|;
    var sel := h.selection;
    var rest := |h.visibilitiesInFile| - sel.skipped - |sel.retained|;
    assert eaa * sel.skipped + eaa * |sel.retained| + eaa * rest == eaa * (sel.skipped + |sel.retained| + rest);
  }

  /**
   * The derived metadata describes the coefficient layout: sun values
   * first in each term, zenith values after them, one stride per term, the
   * emphasis values after the `rank` terms, and `TotalCoefsAllConfigs`
   * configurations' worth of values in all.
   */
  lemma MetadataLayout(b: Breaks, n: nat)
    requires b.rank >= 1 && DeriveMetadata(b, n).Success?
    ensures var m := DeriveMetadata(b, n).value; var s := Shape(b);
      && m.rank == s.rank && m.sunBreaks == b.sun && m.zenithBreaks == b.zenith && m.emphBreaks == b.emph
      && m.sunOffset == 0 && m.zenithOffset == s.nSun
      && m.sunStride == Stride(s) && m.zenithStride == Stride(s)
      && m.emphOffset == s.rank * Stride(s)
      && m.totalCoefsSingleConfig == ConfigCoefCount(s)
      && m.totalCoefsAllConfigs == n * ConfigCoefCount(s)
      && InInt32(m.totalCoefsAllConfigs)
  {
  }

  /** A rank-2 dataset with 4 sun, 3 zenith and 5 emphasis breaks. */
  lemma MetadataExample(sun: seq<F64>, zenith: seq<F64>, emph: seq<F64>)
    requires |sun| == 4 && |zenith| == 3 && |emph| == 5
    ensures var b := Breaks(2, sun, zenith, emph, 0);
      && DeriveMetadata(b, 10) == Success(RadianceMetadata(2, 0, 7, sun, 4, 7, zenith, 14, emph, 19, 190))
      && OneConfigByteCount(b) == 54
  {
  }

  /**
   * The decode loop fills `DataRad` with `TotalCoefsAllConfigs` values and
   * consumes exactly `OneConfigByteCount` bytes (`ConfigBytes`) per kept
   * configuration.
   */
  lemma DecodeShape(bytes: seq<u8>, plan: Plan, divide: (F64, F64) -> F64)
    requires ValidPlan(bytes, plan)
    ensures var r := Decode(bytes, plan, divide);
      && r.value.metadataRad == plan.meta
      && |r.value.dataRad| == plan.meta.totalCoefsAllConfigs
      && plan.meta.totalCoefsAllConfigs == plan.counts.total * plan.meta.totalCoefsSingleConfig
      && r.next == plan.dataStart + plan.counts.total * ConfigBytes(PlanShape(plan))
  {
    AllCoefsLength(bytes, plan.dataStart, PlanShape(plan), plan.counts.total, divide);
  }

  /**
   * Sun word k of term t of kept configuration c lands, widened, at
   * `c * TotalCoefsSingleConfig + t * SunStride + SunOffset + k`; the
   * configuration starts `c * OneConfigByteCount` bytes into the decoded data
   * and the term `t * TermBytes` bytes into the configuration.
   */
  lemma SunCoefficient(bytes: seq<u8>, plan: Plan, divide: (F64, F64) -> F64,
                       c: nat, t: nat, k: nat, config: nat, term: nat, i: nat)
    requires ValidPlan(bytes, plan)
    requires var m := plan.meta;
      && c < plan.counts.total && t < m.rank && k < |m.sunBreaks|
      && config == plan.dataStart + c * ConfigBytes(PlanShape(plan))
      && term == config + t * TermBytes(PlanShape(plan))
      && i == c * m.totalCoefsSingleConfig + t * m.sunStride + m.sunOffset + k
    ensures var data := Decode(bytes, plan, divide).value.dataRad;
      i < |data| && term + 2 * k + 2 <= |bytes| && data[i] == WidenHalf(U16At(bytes, term + 2 * k))
  {
    var s := PlanShape(plan);
    SunCoefAt(bytes, plan.dataStart, s, plan.counts.total, divide, c, t, k, config, term, t * Stride(s) + k, i);
  }

  /**
   * Zenith word k of term t of kept configuration c lands, widened and
   * divided by the term's zenith scale, at
   * `c * TotalCoefsSingleConfig + t * ZenithStride + ZenithOffset + k`.
   */
  lemma ZenithCoefficient(bytes: seq<u8>, plan: Plan, divide: (F64, F64) -> F64,
                          c: nat, t: nat, k: nat, config: nat, term: nat, i: nat)
    requires ValidPlan(bytes, plan)
    requires var m := plan.meta;
      && c < plan.counts.total && t < m.rank && k < |m.zenithBreaks|
      && config == plan.dataStart + c * ConfigBytes(PlanShape(plan))
      && term == config + t * TermBytes(PlanShape(plan))
      && i == c * m.totalCoefsSingleConfig + t * m.zenithStride + m.zenithOffset + k
    ensures var data := Decode(bytes, plan, divide).value.dataRad;
      var sun := |plan.meta.sunBreaks|;
      i < |data| && term + 2 * sun + 2 * k + 10 <= |bytes|
      && data[i] == divide(WidenHalf(U16At(bytes, term + 2 * sun + 8 + 2 * k)), U64At(bytes, term + 2 * sun))
  {
    var s := PlanShape(plan);
    ZenithCoefAt(bytes, plan.dataStart, s, plan.counts.total, divide, c, t, k, config, term,
                 t * Stride(s) + s.nSun + k, i);
  }

  /**
   * Emphasis word k of kept configuration c lands, widened and undivided, at
   * `c * TotalCoefsSingleConfig + EmphOffset + k`; it is stored after the
   * configuration's `rank` terms.
   */
  lemma EmphCoefficient(bytes: seq<u8>, plan: Plan, divide: (F64, F64) -> F64,
                        c: nat, k: nat, config: nat, word: nat, i: nat)
    requires ValidPlan(bytes, plan)
    requires var m := plan.meta;
      && c < plan.counts.total && k < |m.emphBreaks|
      && config == plan.dataStart + c * ConfigBytes(PlanShape(plan))
      && word == config + m.rank * TermBytes(PlanShape(plan)) + 2 * k
      && i == c * m.totalCoefsSingleConfig + m.emphOffset + k
    ensures var data := Decode(bytes, plan, divide).value.dataRad;
      i < |data| && word + 2 <= |bytes| && data[i] == WidenHalf(U16At(bytes, word))
  {
    var s := PlanShape(plan);
    MulNat(s.rank, Stride(s));
    EmphCoefAt(bytes, plan.dataStart, s, plan.counts.total, divide, c, k, config, word, s.rank * Stride(s) + k, i);
  }
}
