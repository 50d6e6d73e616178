/**
 * `ReadRadianceFile`: the reader itself, advancing a file handle field by
 * field, returning at the first failed check, and decoding the kept
 * configurations into a preallocated `DataRad` array at a running offset.
 */
module RadianceReader {
  import opened Wrappers
  import opened Bits
  import opened Ieee
  import opened Half
  import opened Stream
  import opened Visibility
  import opened Coefficients
  import opened Radiance

  /** `Read` of an `int` count, `SetNum` and one `Read` of that many doubles. */
  method ReadArrayFrom(handle: FileHandle) returns (xs: seq<F64>)
    requires ReadArray(handle.bytes, handle.pos).Success?
    modifies handle
    ensures ReadArray(handle.bytes, old(handle.pos)) == Success(Field(xs, handle.pos))
  {
    var count := handle.ReadI32();
    xs := handle.ReadF64s(count);
  }

  /** The same with the count checked against `minimum` right after it is read. */
  method ReadCheckedArrayFrom(handle: FileHandle, minimum: int, error: RadianceError)
    returns (r: Result<seq<F64>, RadianceError>)
    requires ReadCheckedArray(handle.bytes, handle.pos, minimum, error) != Failure(Unsupported)
    modifies handle
    ensures Follows(ReadCheckedArray(handle.bytes, old(handle.pos), minimum, error), r, handle.pos)
  {
    var count := handle.ReadI32();
    if count < minimum {
      return Failure(error);
    }
    var xs := handle.ReadF64s(count);
    r := Success(xs);
  }

  /** The channel count, start and width, each checked right after it is read. */
  method ReadChannelsFrom(handle: FileHandle) returns (r: Result<(int, F64, F64), RadianceError>)
    requires ReadChannels(handle.bytes, handle.pos) != Failure(Unsupported)
    modifies handle
    ensures Follows(ReadChannels(handle.bytes, old(handle.pos)), r, handle.pos)
  {
    var channels :- ReadPositiveIntFrom(handle, InvalidChannelCount);
    var channelStart := handle.ReadF64Bits();
    if Less(channelStart, F64_ZERO) {
      return Failure(InvalidChannelStart);
    }
    var channelWidth := handle.ReadF64Bits();
    if LessEq(channelWidth, F64_ZERO) {
      return Failure(InvalidChannelWidth);
    }
    r := Success((channels, channelStart, channelWidth));
  }

  /** The grids, the visibility window and the channel fields. */
  method ReadHeaderFields(handle: FileHandle, v: F64) returns (r: Result<Header, RadianceError>)
    requires ReadHeader(handle.bytes, handle.pos, v) != Failure(Unsupported)
    modifies handle
    ensures var spec := ReadHeader(handle.bytes, old(handle.pos), v);
      && (spec.Success? ==> r == Success(spec.value) && handle.pos == spec.value.next)
      && (spec.Failure? ==> spec.error.Rejected? && r == Failure(spec.error.error) && handle.pos == spec.error.at)
  {
    var visibilitiesInFile := ReadArrayFrom(handle);
    var selection := SelectVisibilities(v, visibilitiesInFile);
    var albedos := ReadArrayFrom(handle);
    var altitudes :- ReadCheckedArrayFrom(handle, 1, InvalidAltitudeCount);
    var elevations :- ReadCheckedArrayFrom(handle, 1, InvalidElevationCount);
    var band :- ReadChannelsFrom(handle);
    var (channels, channelStart, channelWidth) := band;
    r := Success(Header(visibilitiesInFile, selection, albedos, altitudes, elevations,
                        channels, channelStart, channelWidth, handle.pos));
  }

  /** The rank and the sun, zenith and emphasis breaks. */
  method ReadBreakFields(handle: FileHandle) returns (r: Result<Breaks, RadianceError>)
    requires ReadBreaks(handle.bytes, handle.pos) != Failure(Unsupported)
    modifies handle
    ensures var spec := ReadBreaks(handle.bytes, old(handle.pos));
      && (spec.Success? ==> r == Success(spec.value) && handle.pos == spec.value.next)
      && (spec.Failure? ==> spec.error.Rejected? && r == Failure(spec.error.error) && handle.pos == spec.error.at)
  {
    var rank :- ReadPositiveIntFrom(handle, InvalidRank);
    var sunBreaks :- ReadCheckedArrayFrom(handle, 2, InvalidSunBreaksCount);
    var zenithBreaks :- ReadCheckedArrayFrom(handle, 2, InvalidZenithBreaksCount);
    var emphBreaks :- ReadCheckedArrayFrom(handle, 2, InvalidEmphBreaksCount);
    r := Success(Breaks(rank, sunBreaks, zenithBreaks, emphBreaks, handle.pos));
  }

  /**
   * What one decode loop stores: `DoubleFromHalf` of each word, divided by
   * the zenith scale when there is one.
   */
  function Stored(words: seq<u16>, scale: Option<F64>, divide: (F64, F64) -> F64): (xs: seq<F64>)
    ensures |xs| == |words|
  {
    seq(|words|, k requires 0 <= k < |words| => StoredValue(words[k], scale, divide))
  }

  /** One stored value. */
  function StoredValue(word: u16, scale: Option<F64>, divide: (F64, F64) -> F64): F64 {
    match scale
    case None => WidenHalf(word)
    case Some(z) => divide(WidenHalf(word), z)
  }

  /** The sun and emphasis loops store the widened halves of the words just read. */
  lemma StoredHalves(bytes: seq<u8>, p: nat, n: nat, divide: (F64, F64) -> F64)
    requires p + 2 * n <= |bytes|
    ensures Stored(U16sAt(bytes, p, n), None, divide) == HalvesAt(bytes, p, n)
  {
  }

  /** The zenith loop stores the widened halves of the words just read, divided by the scale. */
  lemma StoredScaledHalves(bytes: seq<u8>, p: nat, n: nat, scale: F64, divide: (F64, F64) -> F64)
    requires p + 2 * n <= |bytes|
    ensures Stored(U16sAt(bytes, p, n), Some(scale), divide) == ScaledHalvesAt(bytes, p, n, scale, divide)
  {
  }

  /** Appending in two steps is appending the two parts at once. */
  lemma AppendAssoc(a: seq<F64>, b: seq<F64>, c: seq<F64>)
    ensures (a + b) + c == a + (b + c)
  {
  }

  /** A term's values are what the sun loop and then the zenith loop store from its words. */
  lemma TermCoefsStored(bytes: seq<u8>, p: nat, s: BlockShape, divide: (F64, F64) -> F64)
    requires p + TermBytes(s) <= |bytes|
    ensures TermCoefs(bytes, p, s, divide)
      == Stored(U16sAt(bytes, p, s.nSun), None, divide)
       + Stored(U16sAt(bytes, p + 2 * s.nSun + 8, s.nZenith), Some(U64At(bytes, p + 2 * s.nSun)), divide)
  {
    var sun := HalvesAt(bytes, p, s.nSun);
    var scale := U64At(bytes, p + 2 * s.nSun);
    var zenith := ScaledHalvesAt(bytes, p + 2 * s.nSun + 8, s.nZenith, scale, divide);
    assert TermCoefs(bytes, p, s, divide) == sun + zenith;
    assert Stored(U16sAt(bytes, p, s.nSun), None, divide) == sun by {
      StoredHalves(bytes, p, s.nSun, divide);
    }
    assert Stored(U16sAt(bytes, p + 2 * s.nSun + 8, s.nZenith), Some(scale), divide) == zenith by {
      StoredScaledHalves(bytes, p + 2 * s.nSun + 8, s.nZenith, scale, divide);
    }
  }

  /** A configuration's values are its terms, then what the emphasis loop stores from its words. */
  lemma ConfigCoefsStored(bytes: seq<u8>, q: nat, s: BlockShape, divide: (F64, F64) -> F64)
    requires q + ConfigBytes(s) <= |bytes|
    ensures q + s.rank * TermBytes(s) + 2 * s.nEmph <= |bytes|
    ensures ConfigCoefs(bytes, q, s, divide)
      == Flatten(TermBlocks(bytes, q, s, s.rank, divide)) + Stored(U16sAt(bytes, q + s.rank * TermBytes(s), s.nEmph), None, divide)
  {
    MulNat(s.rank, TermBytes(s));
    StoredHalves(bytes, q + s.rank * TermBytes(s), s.nEmph, divide);
  }

  /**
   * The copy loops: each word widened from half precision and stored at the
   * next free element, divided by `scale` when one is given (the zenith loop).
   */
  method StoreHalves(dataRad: array<F64>, offset: nat, words: seq<u16>, scale: Option<F64>, divide: (F64, F64) -> F64)
    returns (next: nat)
    requires offset + |words| <= dataRad.Length
    modifies dataRad
    ensures next == offset + |words|
    ensures dataRad[..next] == old(dataRad[..offset]) + Stored(words, scale, divide)
    ensures dataRad[next..] == old(dataRad[next..])
  {
    ghost var before := dataRad[..offset];
    ghost var after := dataRad[offset + |words|..];
    next := offset;
    for i := 0 to |words|
      invariant next == offset + i
      invariant dataRad[..next] == before + Stored(words, scale, divide)[..i]
      invariant dataRad[offset + |words|..] == after
    {
      var x := DoubleFromHalf(words[i]);
      if scale.Some? {
        x := divide(x, scale.value);
      }
      dataRad[next] := x;
      assert dataRad[..next + 1] == dataRad[..next] + [x];
      assert Stored(words, scale, divide)[..i + 1] == Stored(words, scale, divide)[..i] + [x];
      next := next + 1;
    }
  }

  /** One term: its sun words, its zenith scale and its zenith words, read and stored. */
  method DecodeTerm(handle: FileHandle, dataRad: array<F64>, offset: nat, s: BlockShape, divide: (F64, F64) -> F64)
    returns (next: nat)
    requires handle.pos + TermBytes(s) <= |handle.bytes| && offset + Stride(s) <= dataRad.Length
    modifies handle, dataRad
    ensures handle.pos == old(handle.pos) + TermBytes(s) && next == offset + Stride(s)
    ensures dataRad[..next] == old(dataRad[..offset]) + TermCoefs(handle.bytes, old(handle.pos), s, divide)
    ensures dataRad[next..] == old(dataRad[next..])
  {
    ghost var p := handle.pos;
    ghost var before := dataRad[..offset];
    var sunWords := handle.ReadU16s(s.nSun);
    ghost var sun := Stored(sunWords, None, divide);
    var middle := StoreHalves(dataRad, offset, sunWords, None, divide);
    ghost var withSun := dataRad[..middle];
    assert withSun == before + sun;
    var zenithScale := handle.ReadF64Bits();
    var zenithWords := handle.ReadU16s(s.nZenith);
    ghost var zenith := Stored(zenithWords, Some(zenithScale), divide);
    next := StoreHalves(dataRad, middle, zenithWords, Some(zenithScale), divide);
    assert dataRad[..next] == withSun + zenith;
    AppendAssoc(before, sun, zenith);
    assert sun + zenith == TermCoefs(handle.bytes, p, s, divide) by {
      TermCoefsStored(handle.bytes, p, s, divide);
    }
  }

  /** The rank loop of one configuration: the terms one after another. */
  method DecodeTerms(handle: FileHandle, dataRad: array<F64>, offset: nat, s: BlockShape, divide: (F64, F64) -> F64)
    returns (next: nat)
    requires handle.pos + s.rank * TermBytes(s) <= |handle.bytes| && offset + s.rank * Stride(s) <= dataRad.Length
    modifies handle, dataRad
    ensures handle.pos == old(handle.pos) + s.rank * TermBytes(s) && next == offset + s.rank * Stride(s)
    ensures dataRad[..next] == old(dataRad[..offset]) + Flatten(TermBlocks(handle.bytes, old(handle.pos), s, s.rank, divide))
    ensures dataRad[next..] == old(dataRad[next..])
  {
    ghost var q := handle.pos;
    ghost var bytes := handle.bytes;
    ghost var before := dataRad[..offset];
    ghost var after := dataRad[offset + s.rank * Stride(s)..];
    MulNat(s.rank, TermBytes(s));
    MulNat(s.rank, Stride(s));
    next := offset;
    for r := 0 to s.rank
      invariant handle.pos == q + r * TermBytes(s) && next == offset + r * Stride(s)
      invariant r * TermBytes(s) <= s.rank * TermBytes(s) && r * Stride(s) <= s.rank * Stride(s)
      invariant dataRad[..next] == before + Flatten(TermBlocks(bytes, q, s, r, divide))
      invariant dataRad[offset + s.rank * Stride(s)..] == after
    {
      ghost var terms := Flatten(TermBlocks(bytes, q, s, r, divide));
      assert handle.pos + TermBytes(s) <= |bytes| && (r + 1) * TermBytes(s) <= s.rank * TermBytes(s)
        && (r + 1) * TermBytes(s) == r * TermBytes(s) + TermBytes(s)
        && Flatten(TermBlocks(bytes, q, s, r + 1, divide)) == terms + TermCoefs(bytes, handle.pos, s, divide) by {
        TermsSnoc(bytes, q, s, r, divide, handle.pos);
        MulSucc(r, TermBytes(s));
        MulLe(r + 1, s.rank, TermBytes(s));
      }
      assert next + Stride(s) <= offset + s.rank * Stride(s) && (r + 1) * Stride(s) <= s.rank * Stride(s)
        && (r + 1) * Stride(s) == r * Stride(s) + Stride(s) by {
        MulSucc(r, Stride(s));
        MulLe(r + 1, s.rank, Stride(s));
      }
      ghost var term := TermCoefs(bytes, handle.pos, s, divide);
      next := DecodeTerm(handle, dataRad, next, s, divide);
      AppendAssoc(before, terms, term);
    }
  }

  /** One configuration: `rank` terms, then the emphasis words. */
  method DecodeConfig(handle: FileHandle, dataRad: array<F64>, offset: nat, s: BlockShape, divide: (F64, F64) -> F64)
    returns (next: nat)
    requires handle.pos + ConfigBytes(s) <= |handle.bytes| && offset + ConfigCoefCount(s) <= dataRad.Length
    modifies handle, dataRad
    ensures handle.pos == old(handle.pos) + ConfigBytes(s) && next == offset + ConfigCoefCount(s)
    ensures dataRad[..next] == old(dataRad[..offset]) + ConfigCoefs(handle.bytes, old(handle.pos), s, divide)
    ensures dataRad[next..] == old(dataRad[next..])
  {
    ghost var q := handle.pos;
    ghost var bytes := handle.bytes;
    ghost var before := dataRad[..offset];
    MulNat(s.rank, TermBytes(s));
    MulNat(s.rank, Stride(s));
    next := DecodeTerms(handle, dataRad, offset, s, divide);
    var emphWords := handle.ReadU16s(s.nEmph);
    ghost var terms := Flatten(TermBlocks(bytes, q, s, s.rank, divide));
    next := StoreHalves(dataRad, next, emphWords, None, divide);
    AppendAssoc(before, terms, Stored(emphWords, None, divide));
    ConfigCoefsStored(bytes, q, s, divide);
  }

  /** The configuration loop: the `n` kept configurations into `DataRad` from its start. */
  method DecodeConfigurations(handle: FileHandle, dataRad: array<F64>, n: nat, s: BlockShape, divide: (F64, F64) -> F64)
    returns (next: nat)
    requires handle.pos + n * ConfigBytes(s) <= |handle.bytes| && n * ConfigCoefCount(s) <= dataRad.Length
    modifies handle, dataRad
    ensures handle.pos == old(handle.pos) + n * ConfigBytes(s) && next == n * ConfigCoefCount(s)
    ensures dataRad[..next] == AllCoefs(handle.bytes, old(handle.pos), s, n, divide)
    ensures dataRad[next..] == old(dataRad[next..])
  {
    ghost var q := handle.pos;
    ghost var bytes := handle.bytes;
    ghost var after := dataRad[n * ConfigCoefCount(s)..];
    MulNat(n, ConfigBytes(s));
    MulNat(n, ConfigCoefCount(s));
    next := 0;
    for c := 0 to n
      invariant handle.pos == q + c * ConfigBytes(s) && next == c * ConfigCoefCount(s)
      invariant c * ConfigBytes(s) <= n * ConfigBytes(s) && c * ConfigCoefCount(s) <= n * ConfigCoefCount(s)
      invariant dataRad[..next] == AllCoefs(bytes, q, s, c, divide)
      invariant dataRad[n * ConfigCoefCount(s)..] == after
    {
      assert handle.pos + ConfigBytes(s) <= |bytes| && (c + 1) * ConfigBytes(s) <= n * ConfigBytes(s)
        && (c + 1) * ConfigBytes(s) == c * ConfigBytes(s) + ConfigBytes(s)
        && AllCoefs(bytes, q, s, c + 1, divide) == AllCoefs(bytes, q, s, c, divide) + ConfigCoefs(bytes, handle.pos, s, divide) by {
        ConfigsSnoc(bytes, q, s, c, n, divide, handle.pos);
        MulSucc(c, ConfigBytes(s));
        MulLe(c + 1, n, ConfigBytes(s));
      }
      assert next + ConfigCoefCount(s) <= n * ConfigCoefCount(s) && (c + 1) * ConfigCoefCount(s) <= n * ConfigCoefCount(s)
        && (c + 1) * ConfigCoefCount(s) == c * ConfigCoefCount(s) + ConfigCoefCount(s) by {
        MulSucc(c, ConfigCoefCount(s));
        MulLe(c + 1, n, ConfigCoefCount(s));
      }
      next := DecodeConfig(handle, dataRad, next, s, divide);
    }
  }

  /**
   * The reader up to its decode loop: the header and break fields, the
   * configuration counts and metadata computed from them, and the seek from
   * `Tell()` past the skipped configurations.
   */
  method PlanFrom(handle: FileHandle, v: F64) returns (r: Result<Plan, RadianceError>)
    requires PlanRead(handle.bytes, handle.pos, v) != Failure(Unsupported)
    modifies handle
    ensures var spec := PlanRead(handle.bytes, old(handle.pos), v);
      && (spec.Success? ==> r == Success(spec.value) && handle.pos == spec.value.dataStart)
      && (spec.Failure? ==> spec.error.Rejected? && r == Failure(spec.error.error) && handle.pos == spec.error.at)
  {
    var h :- ReadHeaderFields(handle, v);
    var counts := CountConfigs(h).value;
    var b :- ReadBreakFields(handle);
    var meta := DeriveMetadata(b, counts.total).value;
    OneConfigByteCountExact(b, counts.total);
    var oneConfig: nat := OneConfigByteCount(b);
    var here := handle.Tell();
    var target := SkipTarget(here, oneConfig, counts.skippedBegin).value;
    handle.Seek(target);
    r := Success(Plan(h, counts, b, meta, target));
  }

  /**
   * `ReadRadianceFile`: the record and the handle's final position its
   * specification gives, or the error of the first check that fails, with
   * the handle just past the offending field.
   */
  method ReadRadianceFile(handle: FileHandle, singleVisibility: F64, divide: (F64, F64) -> F64)
    returns (result: Result<RadianceData, RadianceError>)
    requires ReadRadiance(handle.bytes, handle.pos, singleVisibility, divide) != Failure(Unsupported)
    modifies handle
    ensures Follows(ReadRadiance(handle.bytes, old(handle.pos), singleVisibility, divide), result, handle.pos)
  {
    var plan :- PlanFrom(handle, singleVisibility);
    var s := PlanShape(plan);
    var n := plan.counts.total;
    assert plan.meta.totalCoefsAllConfigs == n * ConfigCoefCount(s) >= 0 by {
      MulNat(n, ConfigCoefCount(s));
    }
    var dataRad := new F64[plan.meta.totalCoefsAllConfigs];
    var next := DecodeConfigurations(handle, dataRad, n, s, divide);
    assert dataRad[..] == dataRad[..next];
    var h := plan.header;
    result := Success(RadianceData(h.selection.retained, h.albedos, h.altitudes, h.elevations,
                                   h.channels, h.channelStart, h.channelWidth, plan.meta, dataRad[..]));
  }
}
