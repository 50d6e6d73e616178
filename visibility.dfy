/**
 * Choice of the visibility window: which visibility grid points of the file
 * are kept, and how many leading ones are skipped. With a positive request v
 * strictly inside the grid, the two points bracketing v are kept.
 */
module Visibility {
  import opened Bits
  import opened Ieee

  /** The kept grid points and the number of grid points before them. */
  datatype VisibilitySelection = VisibilitySelection(retained: seq<F64>, skipped: nat)

  /**
   * The scan `while (v >= axis[i]) ++i;` started at i: the first index j >= i
   * where `v >= axis[j]` fails. The caller guarantees the failure at the last
   * index.
   */
  function ScanFrom(v: F64, axis: seq<F64>, i: nat): (j: nat)
    requires i < |axis| && !GreaterEq(v, axis[|axis| - 1])
    ensures i <= j < |axis|
    ensures !GreaterEq(v, axis[j])
    ensures forall k :: i <= k < j ==> GreaterEq(v, axis[k])
    decreases |axis| - i
  {
    if !GreaterEq(v, axis[i]) then i else ScanFrom(v, axis, i + 1)
  }

  /**
   * The selection policy. The bracketing scan starts at index 1: index 0 is
   * already known to lie below v whenever v and axis[0] are numbers.
   */
  function SelectVisibility(v: F64, axis: seq<F64>): (s: VisibilitySelection)
    ensures s.skipped + |s.retained| <= |axis|
    ensures s.retained == axis[s.skipped..s.skipped + |s.retained|]
  {
    var n := |axis|;
    if LessEq(v, F64_ZERO) || n <= 1 then VisibilitySelection(axis, 0)
    else if LessEq(v, axis[0]) then VisibilitySelection([axis[0]], 0)
    else if GreaterEq(v, axis[n - 1]) then VisibilitySelection([axis[n - 1]], n - 1)
    else
      var i := ScanFrom(v, axis, 1);
      VisibilitySelection([axis[i - 1], axis[i]], i - 1)
  }

  /** The loop of the source, with the scan started at 1. */
  method SelectVisibilities(v: F64, axis: seq<F64>) returns (s: VisibilitySelection)
    ensures s == SelectVisibility(v, axis)
  {
    var n := |axis|;
    if LessEq(v, F64_ZERO) || n <= 1 {
      s := VisibilitySelection(axis, 0);
    } else if LessEq(v, axis[0]) {
      s := VisibilitySelection([axis[0]], 0);
    } else if GreaterEq(v, axis[n - 1]) {
      s := VisibilitySelection([axis[n - 1]], n - 1);
    } else {
      var visIdx := 1;
      while GreaterEq(v, axis[visIdx])
        invariant 1 <= visIdx < n
        invariant ScanFrom(v, axis, visIdx) == ScanFrom(v, axis, 1)
        decreases n - visIdx
      {
        visIdx := visIdx + 1;
      }
      s := VisibilitySelection([axis[visIdx - 1], axis[visIdx]], visIdx - 1);
    }
  }

  /** A request at or below zero, or a grid of at most one point, keeps the whole grid. */
  lemma SelectWholeAxis(v: F64, axis: seq<F64>)
    requires LessEq(v, F64_ZERO) || |axis| <= 1
    ensures SelectVisibility(v, axis) == VisibilitySelection(axis, 0)
  {
  }

  /** A request at or below the first grid point keeps only that point. */
  lemma SelectBelowFirst(v: F64, axis: seq<F64>)
    requires |axis| >= 2 && !LessEq(v, F64_ZERO) && LessEq(v, axis[0])
    ensures SelectVisibility(v, axis) == VisibilitySelection([axis[0]], 0)
  {
  }

  /** A request at or above the last grid point (and above the first) keeps only the last point. */
  lemma SelectAboveLast(v: F64, axis: seq<F64>)
    requires |axis| >= 2 && !LessEq(v, F64_ZERO) && !LessEq(v, axis[0])
    requires GreaterEq(v, axis[|axis| - 1])
    ensures SelectVisibility(v, axis) == VisibilitySelection([axis[|axis| - 1]], |axis| - 1)
  {
  }

  /**
   * A positive request strictly between the first and the last grid point is
   * bracketed by the first grid point above it and the one before, and every
   * grid point before the upper one lies at or below it. The grid need not be
   * sorted.
   */
  lemma SelectBrackets(v: F64, axis: seq<F64>)
    requires |axis| >= 2 && !IsNaN64(v) && !IsNaN64(axis[0]) && !IsNaN64(axis[|axis| - 1])
    requires Less(F64_ZERO, v) && Less(axis[0], v) && Less(v, axis[|axis| - 1])
    ensures var s := SelectVisibility(v, axis);
      var i := s.skipped + 1;
      1 <= i <= |axis| - 1 && s.retained == [axis[i - 1], axis[i]] &&
      (forall j :: 0 <= j < i ==> LessEq(axis[j], v)) &&
      !GreaterEq(v, axis[i]) && (!IsNaN64(axis[i]) ==> Less(v, axis[i]))
  {
    NotGreaterEqIsLess(v, axis[|axis| - 1]);
  }

  /** The grid 10, 20, 30 with requests 0, 5, 35, 15 and 25. */
  lemma SelectExamples()
    ensures var axis := [0x4024_0000_0000_0000, 0x4034_0000_0000_0000, 0x403E_0000_0000_0000];
      SelectVisibility(0, axis) == VisibilitySelection(axis, 0) &&
      SelectVisibility(0x4014_0000_0000_0000, axis) == VisibilitySelection([axis[0]], 0) &&
      SelectVisibility(0x4041_8000_0000_0000, axis) == VisibilitySelection([axis[2]], 2) &&
      SelectVisibility(0x402E_0000_0000_0000, axis) == VisibilitySelection([axis[0], axis[1]], 0) &&
      SelectVisibility(0x4039_0000_0000_0000, axis) == VisibilitySelection([axis[1], axis[2]], 1)
  {
    var axis: seq<F64> := [0x4024_0000_0000_0000, 0x4034_0000_0000_0000, 0x403E_0000_0000_0000];
    assert ScanFrom(0x402E_0000_0000_0000, axis, 1) == 1;
    assert ScanFrom(0x4039_0000_0000_0000, axis, 2) == 2;
  }

  /** The scan as the source writes it, starting at index 0; the source then reads axis[j-1]. */
  function ScanAsWritten(v: F64, axis: seq<F64>): (j: nat)
    requires |axis| >= 2 && !GreaterEq(v, axis[|axis| - 1])
    ensures j < |axis| && !GreaterEq(v, axis[j])
    ensures forall k :: 0 <= k < j ==> GreaterEq(v, axis[k])
  {
    ScanFrom(v, axis, 0)
  }

  /** The quiet NaN pattern. */
  const NAN: F64 := 0x7FF8_0000_0000_0000

  /**
   * A NaN request passes the three guards (every comparison with NaN is
   * false) and stops the scan started at 0 at index 0, so the source reads
   * the grid point at index -1.
   */
  lemma NaNRequestReadsBeforeGrid(axis: seq<F64>)
    requires |axis| >= 2
    ensures IsNaN64(NAN)
    ensures !LessEq(NAN, F64_ZERO) && !LessEq(NAN, axis[0]) && !GreaterEq(NAN, axis[|axis| - 1])
    ensures ScanAsWritten(NAN, axis) - 1 == -1
  {
  }

  /** Whenever v and axis[0] are numbers that reach the scan, both starting points give the same index. */
  lemma ScanStartAgrees(v: F64, axis: seq<F64>)
    requires |axis| >= 2 && !GreaterEq(v, axis[|axis| - 1])
    requires !IsNaN64(v) && !IsNaN64(axis[0]) && !LessEq(v, axis[0])
    ensures ScanAsWritten(v, axis) == ScanFrom(v, axis, 1) >= 1
  {
  }
  /**
   * A NaN at the first grid point lets every numeric request above zero and
   * below the last point through the three guards, and the scan started at 0
   * stops at index 0 at once, so the source reads the grid point at index -1;
   * the scan started at 1 does not.  Request 5 on the grid NaN, 10 is one.
   */
  lemma NaNFirstPointReadsBeforeGrid(v: F64, axis: seq<F64>)
    requires |axis| >= 2 && IsNaN64(axis[0])
    requires !LessEq(v, F64_ZERO) && !GreaterEq(v, axis[|axis| - 1])
    ensures !LessEq(v, axis[0])
    ensures ScanAsWritten(v, axis) - 1 == -1
    ensures ScanFrom(v, axis, 1) >= 1
  {
  }

  /**
   * `Result.VisibilitiesRad` after the selection as the reader writes it,
   * when the record already held `kept` on entry: the whole-grid branch
   * assigns the grid, the other branches append the kept points to what is
   * there. Into an empty record it is the selection.
   */
  function KeptVisibilitiesAsWritten(kept: seq<F64>, v: F64, axis: seq<F64>): (r: seq<F64>)
    ensures kept == [] ==> r == SelectVisibility(v, axis).retained
    ensures |r| >= |SelectVisibility(v, axis).retained|
  {
    if LessEq(v, F64_ZERO) || |axis| <= 1 then axis else kept + SelectVisibility(v, axis).retained
  }

  /**
   * Reading a second time into the record of a first read that kept the
   * whole grid (as a request of 0 does), with a positive request, leaves
   * more visibilities in the record than the grid has, so the configuration
   * count built on it is too large and the number of configurations left
   * after the kept ones is negative.
   */
  lemma RereadOverrunsGrid(v: F64, axis: seq<F64>)
    requires |axis| >= 2 && !LessEq(v, F64_ZERO)
    ensures var first := SelectVisibility(F64_ZERO, axis).retained;
      var second := KeptVisibilitiesAsWritten(first, v, axis);
      && first == axis
      && |second| > |axis|
      && |axis| - SelectVisibility(v, axis).skipped - |second| < 0
  {
    SelectWholeAxis(F64_ZERO, axis);
    assert |SelectVisibility(v, axis).retained| >= 1;
  }
}
