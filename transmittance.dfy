/**
 * `ReadTransmittanceFile`: the transmittance section of the dataset, read
 * from a file handle that may be missing.
 *
 * Four `int` counts are read and checked in turn (`DDim`, `ADim`, the
 * visibility count and the altitude count, each at least 1); the rank is
 * read unchecked. Then come the altitudes and the visibilities as floats,
 * each widened to a double, and the two coefficient arrays `DataTransU`
 * (`DDim * ADim * RankTrans * altitudes` floats) and `DataTransV`
 * (`visibilities * RankTrans * Channels * altitudes` floats), kept as floats.
 */
module Transmittance {
  import opened Wrappers
  import opened Bits
  import opened Ieee
  import opened Stream

  /** The early returns of the reader, in the order it can take them. */
  datatype TransmittanceError =
    | InvalidFileHandle
    | InvalidDDim
    | InvalidADim
    | InvalidVisibilitiesCount
    | InvalidAltitudesCount

  /** `FTransmittanceData`. */
  datatype TransmittanceData = TransmittanceData(
    dDim: int,
    aDim: int,
    rankTrans: int,
    altitudesTrans: seq<F64>,
    visibilitiesTrans: seq<F64>,
    dataTransU: seq<F32>,
    dataTransV: seq<F32>)

  /** Which of the four checked counts an error reports, numbered from 0 in file order. */
  function CountIndex(e: TransmittanceError): (k: nat)
    requires e != InvalidFileHandle
    ensures k < 4
  {
    match e
    case InvalidDDim => 0
    case InvalidADim => 1
    case InvalidVisibilitiesCount => 2
    case InvalidAltitudesCount => 3
  }

  /** The floats `xs`, each widened to a double by `widen`. */
  function Widened(xs: seq<F32>, widen: F32 -> F64): (ys: seq<F64>)
    ensures |ys| == |xs|
    ensures forall i :: 0 <= i < |xs| ==> ys[i] == widen(xs[i])
  {
    seq(|xs|, i requires 0 <= i < |xs| => widen(xs[i]))
  }

  /** A product the source computes in `int32`; leaving that range is not handled. */
  function Product32<E>(a: int, b: int): (r: Result<int, Halt<E>>)
    ensures r.Success? <==> InInt32(a * b)
    ensures r.Success? ==> r.value == a * b
    ensures r.Failure? ==> r.error == Unsupported
  {
    if InInt32(a * b) then Success(a * b) else Failure(Unsupported)
  }

  /** `totalCoefsU`: `DDim * ADim * RankTrans * altitudes`, each partial product in `int32`. */
  function CoefCountU(dDim: int, aDim: int, rank: int, altitudes: int): (r: Result<int, Halt<TransmittanceError>>)
    ensures r.Success? ==> r.value == dDim * aDim * rank * altitudes && InInt32(r.value)
    ensures r.Failure? ==> r.error == Unsupported
  {
    var da :- Product32(dDim, aDim);
    var dar :- Product32(da, rank);
    Product32(dar, altitudes)
  }

  /** `totalCoefsV`: `visibilities * RankTrans * Channels * altitudes`, each partial product in `int32`. */
  function CoefCountV(visibilities: int, rank: int, channels: int, altitudes: int): (r: Result<int, Halt<TransmittanceError>>)
    ensures r.Success? ==> r.value == visibilities * rank * channels * altitudes && InInt32(r.value)
    ensures r.Failure? ==> r.error == Unsupported
  {
    var vr :- Product32(visibilities, rank);
    var vrc :- Product32(vr, channels);
    Product32(vrc, altitudes)
  }

  /** The four checked counts and the rank, as they follow one another from `p`. */
  datatype Counts = Counts(dDim: int, aDim: int, visibilities: int, altitudes: int, rank: int, next: nat)

  function ReadCounts(bytes: seq<u8>, p: nat): (r: Result<Counts, Halt<TransmittanceError>>)
    ensures r.Success? ==> r.value.next == p + 20 <= |bytes|
    ensures r.Success? ==> 1 <= r.value.dDim && 1 <= r.value.aDim && 1 <= r.value.visibilities && 1 <= r.value.altitudes
    ensures r.Success? ==> r.value == Counts(I32At(bytes, p), I32At(bytes, p + 4), I32At(bytes, p + 8),
                                            I32At(bytes, p + 12), I32At(bytes, p + 16), p + 20)
  {
    var d :- ReadPositiveInt(bytes, p, InvalidDDim);
    var a :- ReadPositiveInt(bytes, d.next, InvalidADim);
    var v :- ReadPositiveInt(bytes, a.next, InvalidVisibilitiesCount);
    var h :- ReadPositiveInt(bytes, v.next, InvalidAltitudesCount);
    var rank :- I32Field(bytes, h.next);
    Success(Counts(d.value, a.value, v.value, h.value, rank.value, rank.next))
  }

  /**
   * `ReadTransmittanceFile` on an open handle at `p`, for `channels`
   * channels: the record it fills and the position it leaves the handle
   * at, or the early return it takes.
   */
  function ReadTransmittance(bytes: seq<u8>, p: nat, channels: int, widen: F32 -> F64)
    : (r: Result<Field<TransmittanceData>, Halt<TransmittanceError>>)
    ensures r.Success? ==> var t := r.value.value;
      && t.dDim >= 1 && t.aDim >= 1 && |t.altitudesTrans| >= 1 && |t.visibilitiesTrans| >= 1
      && |t.dataTransU| == t.dDim * t.aDim * t.rankTrans * |t.altitudesTrans|
      && |t.dataTransV| == |t.visibilitiesTrans| * t.rankTrans * channels * |t.altitudesTrans|
      && r.value.next == p + 20 + 4 * (|t.altitudesTrans| + |t.visibilitiesTrans| + |t.dataTransU| + |t.dataTransV|)
      && r.value.next <= |bytes|
    ensures ReadCounts(bytes, p).Failure? ==> r == Failure(ReadCounts(bytes, p).error)
    ensures r.Failure? && r.error.Rejected? ==> ReadCounts(bytes, p) == Failure(r.error)
  {
    var c :- ReadCounts(bytes, p);
    var altitudes :- F32sField(bytes, c.next, c.altitudes);
    var visibilities :- F32sField(bytes, altitudes.next, c.visibilities);
    var u :- CoefCountU(c.dDim, c.aDim, c.rank, c.altitudes);
    var v :- CoefCountV(c.visibilities, c.rank, channels, c.altitudes);
    var dataU :- F32sField(bytes, visibilities.next, u);
    var dataV :- F32sField(bytes, dataU.next, v);
    Success(Field(TransmittanceData(c.dDim, c.aDim, c.rank, Widened(altitudes.value, widen),
                                    Widened(visibilities.value, widen), dataU.value, dataV.value),
                  dataV.next))
  }

  /** The count reader's early return names the first count below 1, just past it. */
  lemma CountsRejection(bytes: seq<u8>, p: nat)
    requires ReadCounts(bytes, p).Failure? && ReadCounts(bytes, p).error.Rejected?
    ensures var Rejected(e, at) := ReadCounts(bytes, p).error;
      && e != InvalidFileHandle
      && at == p + 4 * CountIndex(e) + 4 <= |bytes|
      && I32At(bytes, at - 4) < 1
      && forall k :: 0 <= k < CountIndex(e) ==> I32At(bytes, p + 4 * k) >= 1
  {
    var Rejected(e, at) := ReadCounts(bytes, p).error;
    if e == InvalidDDim {
      assert ReadPositiveInt(bytes, p, InvalidDDim).Failure?;
    } else {
      assert I32At(bytes, p + 4 * 0) >= 1;
      if e == InvalidADim {
        assert ReadPositiveInt(bytes, p + 4, InvalidADim).Failure?;
      } else {
        assert I32At(bytes, p + 4 * 1) >= 1;
        if e == InvalidVisibilitiesCount {
          assert ReadPositiveInt(bytes, p + 8, InvalidVisibilitiesCount).Failure?;
        } else {
          assert I32At(bytes, p + 4 * 2) >= 1;
        }
      }
    }
  }

  /**
   * An early return reports the first of the four counts that is below 1,
   * and leaves the handle just past it; the counts before it all passed.
   */
  lemma RejectionIsFirstBadCount(bytes: seq<u8>, p: nat, channels: int, widen: F32 -> F64)
    requires ReadTransmittance(bytes, p, channels, widen).Failure?
    requires ReadTransmittance(bytes, p, channels, widen).error.Rejected?
    ensures var Rejected(e, at) := ReadTransmittance(bytes, p, channels, widen).error;
      && e != InvalidFileHandle
      && at == p + 4 * CountIndex(e) + 4 <= |bytes|
      && I32At(bytes, at - 4) < 1
      && forall k :: 0 <= k < CountIndex(e) ==> I32At(bytes, p + 4 * k) >= 1
  {
    CountsRejection(bytes, p);
  }

  /** The count reader rejects the first count below 1. */
  lemma CountsRejectFirstBad(bytes: seq<u8>, p: nat, k: nat)
    requires k < 4 && p + 4 * k + 4 <= |bytes|
    requires I32At(bytes, p + 4 * k) < 1
    requires forall j :: 0 <= j < k ==> I32At(bytes, p + 4 * j) >= 1
    ensures var r := ReadCounts(bytes, p);
      && r.Failure? && r.error.Rejected? && r.error.at == p + 4 * k + 4 && CountIndex(r.error.error) == k
  {
    if k == 0 {
      assert ReadPositiveInt(bytes, p, InvalidDDim).Failure?;
    } else {
      assert I32At(bytes, p + 4 * 0) >= 1;
      if k == 1 {
        assert ReadPositiveInt(bytes, p + 4, InvalidADim).Failure?;
      } else {
        assert I32At(bytes, p + 4 * 1) >= 1;
        if k == 2 {
          assert ReadPositiveInt(bytes, p + 8, InvalidVisibilitiesCount).Failure?;
        } else {
          assert I32At(bytes, p + 4 * 2) >= 1;
          assert ReadPositiveInt(bytes, p + 12, InvalidAltitudesCount).Failure?;
        }
      }
    }
  }

  /**
   * The converse: when the four counts fit the file and are below 1 at
   * field `k` and nowhere before, the reader rejects that field.
   */
  lemma FirstBadCountIsRejected(bytes: seq<u8>, p: nat, channels: int, widen: F32 -> F64, k: nat)
    requires k < 4 && p + 4 * k + 4 <= |bytes|
    requires I32At(bytes, p + 4 * k) < 1
    requires forall j :: 0 <= j < k ==> I32At(bytes, p + 4 * j) >= 1
    ensures var r := ReadTransmittance(bytes, p, channels, widen);
      && r.Failure? && r.error.Rejected? && r.error.at == p + 4 * k + 4 && CountIndex(r.error.error) == k
  {
    CountsRejectFirstBad(bytes, p, k);
  }

  /**
   * With all four counts at least 1, a rank of at least 0, products that
   * fit an `int32` and a file long enough, the reader succeeds; it then
   * widens exactly the altitude and visibility floats found after the
   * counts and keeps the coefficient floats as they are stored.
   */
  lemma ReadsWellFormedSection(bytes: seq<u8>, p: nat, channels: int, widen: F32 -> F64,
                               dDim: nat, aDim: nat, visibilities: nat, altitudes: nat, rank: nat, u: nat, v: nat)
    requires p + 20 <= |bytes|
    requires dDim == I32At(bytes, p) && aDim == I32At(bytes, p + 4) && visibilities == I32At(bytes, p + 8)
    requires altitudes == I32At(bytes, p + 12) && rank == I32At(bytes, p + 16)
    requires dDim >= 1 && aDim >= 1 && visibilities >= 1 && altitudes >= 1
    requires CoefCountU(dDim, aDim, rank, altitudes) == Success(u)
    requires CoefCountV(visibilities, rank, channels, altitudes) == Success(v)
    requires p + 20 + 4 * (altitudes + visibilities + u + v) <= |bytes|
    ensures var r := ReadTransmittance(bytes, p, channels, widen);
      && r.Success?
      && r.value.value.altitudesTrans == Widened(F32sAt(bytes, p + 20, altitudes), widen)
      && r.value.value.visibilitiesTrans == Widened(F32sAt(bytes, p + 20 + 4 * altitudes, visibilities), widen)
      && r.value.value.dataTransU == F32sAt(bytes, p + 20 + 4 * (altitudes + visibilities), u)
      && r.value.value.dataTransV == F32sAt(bytes, p + 20 + 4 * (altitudes + visibilities + u), v)
      && r.value.value.rankTrans == rank
  {
  }

  /** The widening loop: each float of `temp` stored as a double in a fresh array. */
  method WidenFloats(temp: seq<F32>, widen: F32 -> F64) returns (xs: seq<F64>)
    ensures xs == Widened(temp, widen)
  {
    var out := new F64[|temp|];
    for i := 0 to |temp|
      invariant out[..i] == Widened(temp[..i], widen)
    {
      out[i] := widen(temp[i]);
      assert temp[..i + 1] == temp[..i] + [temp[i]];
    }
    assert temp[..|temp|] == temp;
    xs := out[..];
  }

  /** The four checked counts and the rank from the handle. */
  method ReadCountsFrom(handle: FileHandle) returns (r: Result<Counts, TransmittanceError>)
    requires ReadCounts(handle.bytes, handle.pos) != Failure(Unsupported)
    modifies handle
    ensures var spec := ReadCounts(handle.bytes, old(handle.pos));
      && (spec.Success? ==> r == Success(spec.value) && handle.pos == spec.value.next)
      && (spec.Failure? ==> spec.error.Rejected? && r == Failure(spec.error.error) && handle.pos == spec.error.at)
  {
    var dDim :- ReadPositiveIntFrom(handle, InvalidDDim);
    var aDim :- ReadPositiveIntFrom(handle, InvalidADim);
    var visibilitiesCount :- ReadPositiveIntFrom(handle, InvalidVisibilitiesCount);
    var altitudesCount :- ReadPositiveIntFrom(handle, InvalidAltitudesCount);
    var rankTrans := handle.ReadI32();
    r := Success(Counts(dDim, aDim, visibilitiesCount, altitudesCount, rankTrans, handle.pos));
  }

  /**
   * `ReadTransmittanceFile`: a missing handle is reported before anything
   * is read; otherwise the record and final position of the specification,
   * or its early return with the handle just past the offending count.
   */
  method ReadTransmittanceFile(handle: FileHandle?, channels: int, widen: F32 -> F64)
    returns (result: Result<TransmittanceData, TransmittanceError>)
    requires handle != null ==> ReadTransmittance(handle.bytes, handle.pos, channels, widen) != Failure(Unsupported)
    modifies handle
    ensures handle == null ==> result == Failure(InvalidFileHandle)
    ensures handle != null ==> Follows(ReadTransmittance(handle.bytes, old(handle.pos), channels, widen), result, handle.pos)
  {
    if handle == null {
      return Failure(InvalidFileHandle);
    }
    var c :- ReadCountsFrom(handle);
    var temp := handle.ReadF32s(c.altitudes);
    var altitudesTrans := WidenFloats(temp, widen);
    temp := handle.ReadF32s(c.visibilities);
    var visibilitiesTrans := WidenFloats(temp, widen);
    var totalCoefsU := c.dDim * c.aDim * c.rank * |altitudesTrans|;
    var totalCoefsV := |visibilitiesTrans| * c.rank * channels * |altitudesTrans|;
    var dataTransU := handle.ReadF32s(totalCoefsU);
    var dataTransV := handle.ReadF32s(totalCoefsV);
    result := Success(TransmittanceData(c.dDim, c.aDim, c.rank, altitudesTrans, visibilitiesTrans, dataTransU, dataTransV));
  }
}
