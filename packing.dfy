/**
 * `FShaderPackedData` and the step of `ReadDatFileFromContentFolder` that
 * assembles it from the decoded radiance data: the layout metadata is copied,
 * every array's length is recorded, the axis and break arrays become
 * `DoublePacked` pairs and the coefficients one flat stream of 32-bit words.
 */
module Packing {
  import opened Wrappers
  import opened Bits
  import opened Ieee
  import opened Stream
  import opened Repack
  import opened Radiance
  import RadianceReader

  /** `FShaderPackedData`. */
  datatype ShaderPackedData = ShaderPackedData(
    rank: int,
    sunOffset: int,
    sunStride: int,
    zenithOffset: int,
    zenithStride: int,
    emphOffset: int,
    totalCoefsSingleConfig: int,
    totalCoefsAllConfigs: int,
    sunBreaksSize: int,
    zenithBreaksSize: int,
    emphBreaksSize: int,
    visibilitiesRadSize: int,
    albedosRadSize: int,
    altitudesRadSize: int,
    elevationsRadSize: int,
    dataRadSize: int,
    sunBreaks: seq<DoublePacked>,
    zenithBreaks: seq<DoublePacked>,
    emphBreaks: seq<DoublePacked>,
    visibilitiesRad: seq<DoublePacked>,
    albedosRad: seq<DoublePacked>,
    altitudesRad: seq<DoublePacked>,
    elevationsRad: seq<DoublePacked>,
    dataRad: seq<u32>)

  /** The default visibility 23.8 of DatProcessor.h:189 and DataProcessorActor.h:17. */
  const DEFAULT_VISIBILITY: F64 := 0x4037_CCCC_CCCC_CCCD   // 23.8

  /** The layout metadata of `packed` is that of `meta`, field for field. */
  predicate CarriesMetadata(packed: ShaderPackedData, meta: RadianceMetadata) {
    packed.rank == meta.rank
    && packed.sunOffset == meta.sunOffset && packed.sunStride == meta.sunStride
    && packed.zenithOffset == meta.zenithOffset && packed.zenithStride == meta.zenithStride
    && packed.emphOffset == meta.emphOffset
    && packed.totalCoefsSingleConfig == meta.totalCoefsSingleConfig
    && packed.totalCoefsAllConfigs == meta.totalCoefsAllConfigs
  }

  /** Every `...Size` field of `packed` is the length of the array of `data` it describes. */
  predicate RecordsSizes(packed: ShaderPackedData, data: RadianceData) {
    packed.sunBreaksSize == |data.metadataRad.sunBreaks|
    && packed.zenithBreaksSize == |data.metadataRad.zenithBreaks|
    && packed.emphBreaksSize == |data.metadataRad.emphBreaks|
    && packed.visibilitiesRadSize == |data.visibilitiesRad|
    && packed.albedosRadSize == |data.albedosRad|
    && packed.altitudesRadSize == |data.altitudesRad|
    && packed.elevationsRadSize == |data.elevationsRad|
    && packed.dataRadSize == |packed.dataRad|
  }

  /** Every packed array reads back as the double array of `data` it was made from. */
  predicate Unpacks(packed: ShaderPackedData, data: RadianceData) {
    JoinAll(packed.sunBreaks) == data.metadataRad.sunBreaks
    && JoinAll(packed.zenithBreaks) == data.metadataRad.zenithBreaks
    && JoinAll(packed.emphBreaks) == data.metadataRad.emphBreaks
    && JoinAll(packed.visibilitiesRad) == data.visibilitiesRad
    && JoinAll(packed.albedosRad) == data.albedosRad
    && JoinAll(packed.altitudesRad) == data.altitudesRad
    && JoinAll(packed.elevationsRad) == data.elevationsRad
    && |packed.dataRad| % 2 == 0 && JoinWords(packed.dataRad) == data.dataRad
  }

  /** `packed` is the shader record of `data`. */
  predicate Packs(packed: ShaderPackedData, data: RadianceData) {
    CarriesMetadata(packed, data.metadataRad) && RecordsSizes(packed, data) && Unpacks(packed, data)
  }

  /**
   * Each packed array has the length of its source, `DataRadSize` is twice
   * the number of coefficients, and word `2i`/`2i+1` of the stream is the
   * low/high half of coefficient `i`.
   */
  lemma PackedLayout(packed: ShaderPackedData, data: RadianceData)
    requires Packs(packed, data)
    ensures |packed.sunBreaks| == packed.sunBreaksSize && |packed.zenithBreaks| == packed.zenithBreaksSize
    ensures |packed.emphBreaks| == packed.emphBreaksSize && |packed.visibilitiesRad| == packed.visibilitiesRadSize
    ensures |packed.albedosRad| == packed.albedosRadSize && |packed.altitudesRad| == packed.altitudesRadSize
    ensures |packed.elevationsRad| == packed.elevationsRadSize
    ensures packed.dataRadSize == 2 * |data.dataRad|
    ensures forall i :: 0 <= i < |data.dataRad| ==>
      packed.dataRad[2 * i] == data.dataRad[i] % WORD && packed.dataRad[2 * i + 1] == data.dataRad[i] / WORD
  {
    forall i | 0 <= i < |data.dataRad|
      ensures packed.dataRad[2 * i] == data.dataRad[i] % WORD && packed.dataRad[2 * i + 1] == data.dataRad[i] / WORD
    {
      assert Join(DoublePacked(packed.dataRad[2 * i], packed.dataRad[2 * i + 1])) == data.dataRad[i];
    }
  }

  /** The shader record is determined by the radiance data. */
  lemma PacksUnique(packed: ShaderPackedData, other: ShaderPackedData, data: RadianceData)
    requires Packs(packed, data) && Packs(other, data)
    ensures packed == other
  {
    JoinAllInjective(packed.sunBreaks, other.sunBreaks);
    JoinAllInjective(packed.zenithBreaks, other.zenithBreaks);
    JoinAllInjective(packed.emphBreaks, other.emphBreaks);
    JoinAllInjective(packed.visibilitiesRad, other.visibilitiesRad);
    JoinAllInjective(packed.albedosRad, other.albedosRad);
    JoinAllInjective(packed.altitudesRad, other.altitudesRad);
    JoinAllInjective(packed.elevationsRad, other.elevationsRad);
    JoinWordsInjective(packed.dataRad, other.dataRad);
  }

  /**
   * The packing step: copies the metadata, records the sizes, splits the
   * axis and break arrays into pairs and the coefficients into a flat stream.
   */
  method PackShaderData(data: RadianceData) returns (packed: ShaderPackedData)
    ensures Packs(packed, data)
    ensures packed.dataRadSize == 2 * |data.dataRad|
  {
    var meta := data.metadataRad;
    var albedos := ConvertDoublesToUint32s(data.albedosRad);
    var altitudes := ConvertDoublesToUint32s(data.altitudesRad);
    var elevations := ConvertDoublesToUint32s(data.elevationsRad);
    var visibilities := ConvertDoublesToUint32s(data.visibilitiesRad);
    var sunBreaks := ConvertDoublesToUint32s(meta.sunBreaks);
    var zenithBreaks := ConvertDoublesToUint32s(meta.zenithBreaks);
    var emphBreaks := ConvertDoublesToUint32s(meta.emphBreaks);
    var dataRad := ConvertDoublesToFUint32s(data.dataRad);
    JoinAllSplitAll(data.albedosRad);
    JoinAllSplitAll(data.altitudesRad);
    JoinAllSplitAll(data.elevationsRad);
    JoinAllSplitAll(data.visibilitiesRad);
    JoinAllSplitAll(meta.sunBreaks);
    JoinAllSplitAll(meta.zenithBreaks);
    JoinAllSplitAll(meta.emphBreaks);
    JoinWordsInterleave(data.dataRad);
    packed := ShaderPackedData(
      meta.rank, meta.sunOffset, meta.sunStride, meta.zenithOffset, meta.zenithStride,
      meta.emphOffset, meta.totalCoefsSingleConfig, meta.totalCoefsAllConfigs,
      |meta.sunBreaks|, |meta.zenithBreaks|, |meta.emphBreaks|,
      |data.visibilitiesRad|, |data.albedosRad|, |data.altitudesRad|, |data.elevationsRad|,
      |dataRad|,
      sunBreaks, zenithBreaks, emphBreaks, visibilities, albedos, altitudes, elevations, dataRad);
  }

  /**
   * `ReadDatFileFromContentFolder` from the point the dataset is open: reads
   * the radiance section and packs it. The reader's early returns give no
   * shader record.
   */
  method ReadDatFileFromContentFolder(handle: FileHandle, singleVisibility: F64, divide: (F64, F64) -> F64)
    returns (sky: Result<RadianceData, RadianceError>, packed: Option<ShaderPackedData>)
    requires ReadRadiance(handle.bytes, handle.pos, singleVisibility, divide) != Failure(Unsupported)
    modifies handle
    ensures Follows(ReadRadiance(handle.bytes, old(handle.pos), singleVisibility, divide), sky, handle.pos)
    ensures packed.Some? <==> sky.Success?
    ensures sky.Success? ==> Packs(packed.value, sky.value)
  {
    sky := RadianceReader.ReadRadianceFile(handle, singleVisibility, divide);
    if sky.Failure? {
      return sky, None;
    }
    var shader := PackShaderData(sky.value);
    packed := Some(shader);
  }
}
