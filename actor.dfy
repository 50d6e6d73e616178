/**
 * `ADataProcessor`, the actor that owns the packed dataset and the control
 * record. Its reader and converters are the library's own (Radiance,
 * RadianceReader, Repack, Half); what is its own is the state it keeps and
 * `SetVariable`, which broadcasts only when the control record changes.
 * The broadcast is modelled by a counter of the times it fired.
 */
module Actor {
  import opened Wrappers
  import opened Ieee
  import opened Stream
  import opened Radiance
  import opened Packing
  import opened Control
  import opened Visibility

  /** The visibility the actor's constructor asks the reader for. */
  const CONSTRUCTOR_VISIBILITY: F64 := F64_ZERO

  class DataProcessor {
    var shaderControlData: ShaderControlData
    var shaderPackedData: Option<ShaderPackedData>
    var broadcasts: nat

    /** The constructor loads the dataset, asking for visibility 0; the control record keeps its defaults. */
    constructor (dataset: FileHandle, divide: (F64, F64) -> F64)
      requires ReadRadiance(dataset.bytes, dataset.pos, CONSTRUCTOR_VISIBILITY, divide) != Failure(Unsupported)
      modifies dataset
      ensures shaderControlData == DEFAULT_CONTROL && broadcasts == 0
      ensures var spec := ReadRadiance(dataset.bytes, old(dataset.pos), CONSTRUCTOR_VISIBILITY, divide);
        match spec
        case Success(f) => shaderPackedData.Some? && Packs(shaderPackedData.value, f.value) && dataset.pos == f.next
        case Failure(_) => shaderPackedData == None
    {
      shaderControlData := DEFAULT_CONTROL;
      broadcasts := 0;
      shaderPackedData := None;
      new;
      ReadDatFileFromContentFolder(dataset, CONSTRUCTOR_VISIBILITY, divide);
    }

    /**
     * The actor's `ReadDatFileFromContentFolder`: the library's reading and
     * packing, kept in `shaderPackedData`.
     */
    method ReadDatFileFromContentFolder(handle: FileHandle, singleVisibility: F64, divide: (F64, F64) -> F64)
      requires ReadRadiance(handle.bytes, handle.pos, singleVisibility, divide) != Failure(Unsupported)
      modifies this, handle
      ensures var spec := ReadRadiance(handle.bytes, old(handle.pos), singleVisibility, divide);
        match spec
        case Success(f) => shaderPackedData.Some? && Packs(shaderPackedData.value, f.value) && handle.pos == f.next
        case Failure(_) => shaderPackedData == None
      ensures shaderControlData == old(shaderControlData) && broadcasts == old(broadcasts)
    {
      var sky, packed := Packing.ReadDatFileFromContentFolder(handle, singleVisibility, divide);
      shaderPackedData := packed;
    }

    /**
     * `SetVariable`: builds the requested record and, when it compares
     * unequal to the stored one, stores it and broadcasts once.
     */
    method SetVariable(solarElevation: F32, solarAzimuth: F32, albedo: F32, visibility: F32)
      modifies this
      ensures var request := Requested(solarElevation, solarAzimuth, albedo, visibility);
        shaderControlData == NextControl(old(shaderControlData), request)
        && broadcasts == old(broadcasts) + Broadcasts(old(shaderControlData), request)
      ensures shaderPackedData == old(shaderPackedData)
    {
      var newData := Requested(solarElevation, solarAzimuth, albedo, visibility);
      if ControlNotEq(newData, shaderControlData) {
        shaderControlData := newData;
        broadcasts := broadcasts + 1;
      }
    }
  }

  /**
   * The actor keeps its record between reads. A second read with the default
   * visibility after the constructor's read (visibility 0, the whole grid
   * kept) leaves more visibilities in the record than the grid has.
   */
  lemma DefaultRereadOverrunsGrid(axis: seq<F64>)
    requires |axis| >= 2
    ensures var first := SelectVisibility(CONSTRUCTOR_VISIBILITY, axis).retained;
      |KeptVisibilitiesAsWritten(first, DEFAULT_VISIBILITY, axis)| > |axis|
  {
    assert OrderKey(DEFAULT_VISIBILITY) > OrderKey(F64_ZERO);
    RereadOverrunsGrid(DEFAULT_VISIBILITY, axis);
  }
}
