/**
 * `FShaderControlData`: the record of viewing parameters the renderer is
 * driven with, its field-by-field comparison, and the change detection
 * `SetVariable` performs on it.
 *
 * The float fields are bit patterns; their comparison is the C++ `==` on
 * floats, so a NaN field makes a record unequal even to itself and the two
 * zeros compare equal.
 */
module Control {
  import opened Bits
  import opened Ieee

  datatype ShaderControlData = ShaderControlData(
    resolution: int,
    solarElevation: F32,
    solarAzimuth: F32,
    albedo: F32,
    visibility: F32,
    altitude: F32)

  const FLOAT_ZERO: F32 := 0

  /** The default initialisers: 1024, -4.2f, 180.0f, 0.5f, 131.8f, 0.0f. */
  const DEFAULT_CONTROL: ShaderControlData :=
    ShaderControlData(1024, 0xC086_6666, 0x4334_0000, 0x3F00_0000, 0x4303_CCCD, FLOAT_ZERO)

  /**
   * `operator==`: the resolutions are equal and every float field compares
   * equal.  Records compare equal exactly when they hold no NaN and every
   * float field is the same pattern or both are zeros (of either sign); a
   * NaN-free record compares equal to itself.
   */
  function ControlEq(a: ShaderControlData, b: ShaderControlData): (r: bool)
    ensures r <==> (NoNaN(a) && NoNaN(b) && a.resolution == b.resolution
                    && (a.solarElevation == b.solarElevation || (a.solarElevation % SIGN32 == 0 && b.solarElevation % SIGN32 == 0))
                    && (a.solarAzimuth == b.solarAzimuth || (a.solarAzimuth % SIGN32 == 0 && b.solarAzimuth % SIGN32 == 0))
                    && (a.albedo == b.albedo || (a.albedo % SIGN32 == 0 && b.albedo % SIGN32 == 0))
                    && (a.visibility == b.visibility || (a.visibility % SIGN32 == 0 && b.visibility % SIGN32 == 0))
                    && (a.altitude == b.altitude || (a.altitude % SIGN32 == 0 && b.altitude % SIGN32 == 0)))
    ensures a == b && NoNaN(a) ==> r
  {
    a.resolution == b.resolution
    && FloatEq(a.solarElevation, b.solarElevation)
    && FloatEq(a.solarAzimuth, b.solarAzimuth)
    && FloatEq(a.albedo, b.albedo)
    && FloatEq(a.visibility, b.visibility)
    && FloatEq(a.altitude, b.altitude)
  }

  /**
   * `operator!=`: the negation of `operator==`.  A NaN field on either side
   * makes two records differ, and a NaN-free record never differs from itself.
   */
  function ControlNotEq(a: ShaderControlData, b: ShaderControlData): (r: bool)
    ensures !NoNaN(a) || !NoNaN(b) || a.resolution != b.resolution ==> r
    ensures a == b && NoNaN(a) ==> !r
  {
    !ControlEq(a, b)
  }

  /** No float field of the record is a NaN. */
  predicate NoNaN(d: ShaderControlData) {
    !IsNaN32(d.solarElevation) && !IsNaN32(d.solarAzimuth) && !IsNaN32(d.albedo)
    && !IsNaN32(d.visibility) && !IsNaN32(d.altitude)
  }

  /** The record `SetVariable` builds: altitude 0 and resolution 1024, the other four from its arguments. */
  function Requested(solarElevation: F32, solarAzimuth: F32, albedo: F32, visibility: F32): (d: ShaderControlData)
    ensures d.resolution == 1024 && d.altitude == FLOAT_ZERO
    ensures !IsNaN32(d.altitude)
  {
    ShaderControlData(1024, solarElevation, solarAzimuth, albedo, visibility, FLOAT_ZERO)
  }

  /** The stored record after `SetVariable` asked for `request`: replaced exactly when it differs. */
  function NextControl(current: ShaderControlData, request: ShaderControlData): ShaderControlData {
    if ControlNotEq(request, current) then request else current
  }

  /** The number of broadcasts `SetVariable` fires: one when the record differs, none otherwise. */
  function Broadcasts(current: ShaderControlData, request: ShaderControlData): nat {
    if ControlNotEq(request, current) then 1 else 0
  }

  /** The significand of a normal binary32 pattern, with its hidden bit. */
  function Significand32(x: F32): nat {
    FRAC32 + x % FRAC32
  }

  /** The biased exponent field of a binary32 pattern. */
  function Exponent32(x: F32): nat {
    (x / FRAC32) % 0x100
  }

  /**
   * Each default float pattern is the binary32 value nearest to its
   * initialiser: -4.2f = -m·2^-21 and 131.8f = m·2^-16 within half a unit
   * of the last place, 180.0f = m·2^-16 and 0.5f = 2^-1 exactly, and 0.0f
   * the positive zero.
   */
  lemma DefaultControlValues()
    ensures DEFAULT_CONTROL.resolution == 1024
    ensures var x := DEFAULT_CONTROL.solarElevation;
      x >= SIGN32 && Exponent32(x) == 127 + 2
      && -5 <= 10 * Significand32(x) - 42 * 0x20_0000 <= 5
    ensures var x := DEFAULT_CONTROL.solarAzimuth;
      x < SIGN32 && Exponent32(x) == 127 + 7 && Significand32(x) == 180 * 0x1_0000
    ensures var x := DEFAULT_CONTROL.albedo;
      x < SIGN32 && Exponent32(x) == 127 - 1 && Significand32(x) == FRAC32
    ensures var x := DEFAULT_CONTROL.visibility;
      x < SIGN32 && Exponent32(x) == 127 + 7
      && -5 <= 10 * Significand32(x) - 1318 * 0x1_0000 <= 5
    ensures DEFAULT_CONTROL.altitude == 0
  {
  }

  /** The default record has no NaN field, so it compares equal to itself. */
  lemma DefaultControlWellFormed()
    ensures NoNaN(DEFAULT_CONTROL)
    ensures ControlEq(DEFAULT_CONTROL, DEFAULT_CONTROL)
  {
    assert (0xC086_6666 / FRAC32) % 0x100 == 0x81;
    assert (0x4334_0000 / FRAC32) % 0x100 == 0x86;
    assert (0x3F00_0000 / FRAC32) % 0x100 == 0x7E;
    assert (0x4303_CCCD / FRAC32) % 0x100 == 0x86;
    FloatEqReflexive(DEFAULT_CONTROL.solarElevation);
    FloatEqReflexive(DEFAULT_CONTROL.solarAzimuth);
    FloatEqReflexive(DEFAULT_CONTROL.albedo);
    FloatEqReflexive(DEFAULT_CONTROL.visibility);
    FloatEqReflexive(DEFAULT_CONTROL.altitude);
  }

  /** The two zeros compare equal; 1.0f and -1.0f do not. */
  lemma ControlEqSignExamples()
    ensures ControlEq(DEFAULT_CONTROL, DEFAULT_CONTROL.(altitude := SIGN32))
    ensures !ControlEq(DEFAULT_CONTROL.(albedo := 0x3F80_0000), DEFAULT_CONTROL.(albedo := 0xBF80_0000))
  {
    DefaultControlWellFormed();
  }

  /** A record compares equal to itself exactly when none of its floats is a NaN. */
  lemma ControlEqReflexive(d: ShaderControlData)
    ensures ControlEq(d, d) <==> NoNaN(d)
  {
    FloatEqReflexive(d.solarElevation);
    FloatEqReflexive(d.solarAzimuth);
    FloatEqReflexive(d.albedo);
    FloatEqReflexive(d.visibility);
    FloatEqReflexive(d.altitude);
  }

  lemma ControlEqSymmetric(a: ShaderControlData, b: ShaderControlData)
    ensures ControlEq(a, b) <==> ControlEq(b, a)
  {
  }

  lemma ControlEqTransitive(a: ShaderControlData, b: ShaderControlData, c: ShaderControlData)
    requires ControlEq(a, b) && ControlEq(b, c)
    ensures ControlEq(a, c)
  {
  }

  /**
   * Equal records compare equal when they hold no NaN; records that compare
   * equal are equal once no float field is a zero of either sign.
   */
  lemma ControlEqIsEquality(a: ShaderControlData, b: ShaderControlData)
    requires NoNaN(a) && NoNaN(b)
    requires a.solarElevation % SIGN32 != 0 && a.solarAzimuth % SIGN32 != 0 && a.albedo % SIGN32 != 0
    requires a.visibility % SIGN32 != 0 && a.altitude % SIGN32 != 0
    ensures ControlEq(a, b) <==> a == b
  {
    FloatEqIsBitEquality(a.solarElevation, b.solarElevation);
    FloatEqIsBitEquality(a.solarAzimuth, b.solarAzimuth);
    FloatEqIsBitEquality(a.albedo, b.albedo);
    FloatEqIsBitEquality(a.visibility, b.visibility);
    FloatEqIsBitEquality(a.altitude, b.altitude);
  }

  /** After `SetVariable`, the stored record compares equal to the request, unless the request holds a NaN. */
  lemma NextControlMatchesRequest(current: ShaderControlData, request: ShaderControlData)
    requires NoNaN(request)
    ensures ControlEq(NextControl(current, request), request)
  {
    if ControlNotEq(request, current) {
      ControlEqReflexive(request);
    } else {
      ControlEqSymmetric(request, current);
    }
  }

  /** Idempotence: asking for the same record a second time changes nothing and broadcasts nothing. */
  lemma SetVariableIdempotent(current: ShaderControlData, request: ShaderControlData)
    requires NoNaN(request)
    ensures Broadcasts(NextControl(current, request), request) == 0
    ensures NextControl(NextControl(current, request), request) == NextControl(current, request)
  {
    NextControlMatchesRequest(current, request);
    ControlEqSymmetric(NextControl(current, request), request);
  }

  /** A request holding a NaN differs from every record, so it always replaces the stored one and broadcasts. */
  lemma NaNRequestAlwaysBroadcasts(current: ShaderControlData, request: ShaderControlData)
    requires !NoNaN(request)
    ensures Broadcasts(current, request) == 1 && NextControl(current, request) == request
  {
  }

  /** Only the sign of a zero can differ between the stored record and an equal request left in place. */
  lemma KeptRecordAgreesWithRequest(current: ShaderControlData, request: ShaderControlData)
    requires Broadcasts(current, request) == 0
    ensures NextControl(current, request) == current
    ensures current.resolution == request.resolution
    ensures (current.solarElevation == request.solarElevation || (current.solarElevation % SIGN32 == 0 && request.solarElevation % SIGN32 == 0))
    ensures (current.solarAzimuth == request.solarAzimuth || (current.solarAzimuth % SIGN32 == 0 && request.solarAzimuth % SIGN32 == 0))
    ensures (current.albedo == request.albedo || (current.albedo % SIGN32 == 0 && request.albedo % SIGN32 == 0))
    ensures (current.visibility == request.visibility || (current.visibility % SIGN32 == 0 && request.visibility % SIGN32 == 0))
    ensures (current.altitude == request.altitude || (current.altitude % SIGN32 == 0 && request.altitude % SIGN32 == 0))
  {
  }
}
