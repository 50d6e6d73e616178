/**
 * The order of the radiance reader's early returns. The reader checks nine
 * fields, one after another, each right after it is read: the altitude,
 * elevation and channel counts, the channel start and width, the rank and
 * the sun, zenith and emphasis break counts. It returns at the first field
 * that fails and reads nothing after it.
 */
module Validation {
  import opened Wrappers
  import opened Bits
  import opened Ieee
  import opened Stream
  import opened Radiance

  /** The checks in the order the reader makes them. */
  const CHECKS: seq<RadianceError> := [
    InvalidAltitudeCount, InvalidElevationCount, InvalidChannelCount,
    InvalidChannelStart, InvalidChannelWidth,
    InvalidRank, InvalidSunBreaksCount, InvalidZenithBreaksCount, InvalidEmphBreaksCount]

  /** The place of a check in that order. */
  function CheckIndex(e: RadianceError): (k: nat)
    ensures k < |CHECKS| && CHECKS[k] == e
  {
    match e
    case InvalidAltitudeCount => 0
    case InvalidElevationCount => 1
    case InvalidChannelCount => 2
    case InvalidChannelStart => 3
    case InvalidChannelWidth => 4
    case InvalidRank => 5
    case InvalidSunBreaksCount => 6
    case InvalidZenithBreaksCount => 7
    case InvalidEmphBreaksCount => 8
  }

  /** The byte width of the field check `k` looks at: a double for the channel start and width, an `int` otherwise. */
  function FieldWidth(k: nat): nat {
    if k == 3 || k == 4 then 8 else 4
  }

  /** Where a read that succeeds ends, or why it fails. */
  function NextOf<T>(r: Result<Field<T>, Halt<RadianceError>>): (s: Result<nat, Halt<RadianceError>>)
    ensures s.Success? <==> r.Success?
    ensures r.Success? ==> s.value == r.value.next
    ensures r.Failure? ==> s.error == r.error
  {
    if r.Success? then Success(r.value.next) else Failure(r.error)
  }

  /** The end of `count` doubles starting at `q`, when they fit in the file. */
  function SpanEnd(bytes: seq<u8>, q: nat, count: int): (r: Result<nat, Halt<RadianceError>>)
    ensures r.Success? ==> r.value == q + 8 * count
  {
    if 0 <= count && q + 8 * count <= |bytes| then Success(q + 8 * count) else Failure(Unsupported)
  }

  /** Where an array of doubles with its `int` count at `q` ends; the positions `ReadArray` goes through. */
  function ArraySpan(bytes: seq<u8>, q: nat): (r: Result<nat, Halt<RadianceError>>)
    ensures r.Failure? ==> r.error == Unsupported
  {
    var count :- I32Field(bytes, q);
    SpanEnd(bytes, count.next, count.value)
  }

  /** The same for a count checked against `minimum`; the positions `ReadCheckedArray` goes through. */
  function CountedSpan(bytes: seq<u8>, q: nat, minimum: int, error: RadianceError): (r: Result<nat, Halt<RadianceError>>)
  {
    var count :- I32Field(bytes, q);
    var _ :- Check(count.value >= minimum, error, count.next);
    SpanEnd(bytes, count.next, count.value)
  }

  /** `ArraySpan` follows `ReadArray`: the same failure, or the same end. */
  lemma ArraySpanReads(bytes: seq<u8>, q: nat)
    ensures ArraySpan(bytes, q) == NextOf(ReadArray(bytes, q))
  {
  }

  /** `CountedSpan` follows `ReadCheckedArray`: the same failure, or the same end. */
  lemma CountedSpanReads(bytes: seq<u8>, q: nat, minimum: int, error: RadianceError)
    ensures CountedSpan(bytes, q, minimum, error) == NextOf(ReadCheckedArray(bytes, q, minimum, error))
  {
  }

  /**
   * Where the field of check `k` starts, provided every read before it stays
   * within the file and every earlier check passed: after the visibility and
   * albedo arrays for the first check, and otherwise where the previous
   * check's field and the data it counts end. At `k == |CHECKS|` it is where
   * the emphasis breaks end.
   */
  function CheckedFieldAt(bytes: seq<u8>, p: nat, k: nat): (r: Result<nat, Halt<RadianceError>>)
    requires k <= |CHECKS|
    decreases k
  {
    if k == 0 then
      var vis :- ArraySpan(bytes, p);
      ArraySpan(bytes, vis)
    else
      var q :- CheckedFieldAt(bytes, p, k - 1);
      StepField(bytes, q, k - 1)
  }

  /** Reads the field of check `k` at `q` with the data it counts, checks it, and says where the next field starts. */
  function StepField(bytes: seq<u8>, q: nat, k: nat): (r: Result<nat, Halt<RadianceError>>)
    requires k < |CHECKS|
  {
    if k == 0 then CountedSpan(bytes, q, 1, InvalidAltitudeCount)
    else if k == 1 then CountedSpan(bytes, q, 1, InvalidElevationCount)
    else if k == 2 then
      var channels :- ReadPositiveInt(bytes, q, InvalidChannelCount); Success(channels.next)
    else if k == 3 then
      var start :- F64Field(bytes, q);
      var _ :- Check(!Less(start.value, F64_ZERO), InvalidChannelStart, start.next);
      Success(start.next)
    else if k == 4 then
      var width :- F64Field(bytes, q);
      var _ :- Check(!LessEq(width.value, F64_ZERO), InvalidChannelWidth, width.next);
      Success(width.next)
    else if k == 5 then
      var rank :- ReadPositiveInt(bytes, q, InvalidRank); Success(rank.next)
    else if k == 6 then CountedSpan(bytes, q, 2, InvalidSunBreaksCount)
    else if k == 7 then CountedSpan(bytes, q, 2, InvalidZenithBreaksCount)
    else CountedSpan(bytes, q, 2, InvalidEmphBreaksCount)
  }

  /** Check `k` is reached and its field passes. */
  predicate Passes(bytes: seq<u8>, p: nat, k: nat)
    requires k < |CHECKS|
  {
    && CheckedFieldAt(bytes, p, k).Success?
    && var at := CheckedFieldAt(bytes, p, k).value + FieldWidth(k);
    && at <= |bytes| && !Offending(bytes, CHECKS[k], at)
  }

  /** A step that succeeds read a field that passes its check, and the next field starts after it. */
  lemma StepFieldPasses(bytes: seq<u8>, q: nat, k: nat)
    requires k < |CHECKS| && StepField(bytes, q, k).Success?
    ensures q + FieldWidth(k) <= StepField(bytes, q, k).value
    ensures q + FieldWidth(k) <= |bytes| && !Offending(bytes, CHECKS[k], q + FieldWidth(k))
  {
    if k == 0 {
      assert CountedSpan(bytes, q, 1, InvalidAltitudeCount).Success?;
    } else if k == 1 {
      assert CountedSpan(bytes, q, 1, InvalidElevationCount).Success?;
    } else if k == 2 {
      assert ReadPositiveInt(bytes, q, InvalidChannelCount).Success?;
    } else if k == 3 || k == 4 {
      assert F64Field<RadianceError>(bytes, q).Success?;
    } else if k == 5 {
      assert ReadPositiveInt(bytes, q, InvalidRank).Success?;
    } else if k == 6 {
      assert CountedSpan(bytes, q, 2, InvalidSunBreaksCount).Success?;
    } else if k == 7 {
      assert CountedSpan(bytes, q, 2, InvalidZenithBreaksCount).Success?;
    } else {
      assert CountedSpan(bytes, q, 2, InvalidEmphBreaksCount).Success?;
    }
  }

  /** A step that fails with a rejection rejects check `k`'s field. */
  lemma StepFieldRejects(bytes: seq<u8>, q: nat, k: nat)
    requires k < |CHECKS| && StepField(bytes, q, k).Failure? && StepField(bytes, q, k).error.Rejected?
    ensures StepField(bytes, q, k).error == Rejected(CHECKS[k], q + FieldWidth(k))
  {
    if k == 0 {
      assert CountedSpan(bytes, q, 1, InvalidAltitudeCount).Failure?;
    } else if k == 1 {
      assert CountedSpan(bytes, q, 1, InvalidElevationCount).Failure?;
    } else if k == 2 {
      assert ReadPositiveInt(bytes, q, InvalidChannelCount).Failure?;
    } else if k == 5 {
      assert ReadPositiveInt(bytes, q, InvalidRank).Failure?;
    } else if k == 6 {
      assert CountedSpan(bytes, q, 2, InvalidSunBreaksCount).Failure?;
    } else if k == 7 {
      assert CountedSpan(bytes, q, 2, InvalidZenithBreaksCount).Failure?;
    } else if k == 8 {
      assert CountedSpan(bytes, q, 2, InvalidEmphBreaksCount).Failure?;
    }
  }

  /** A field check `k` refuses makes the step that reads it reject, just after the field. */
  lemma OffendingStepRejects(bytes: seq<u8>, q: nat, k: nat)
    requires k < |CHECKS| && Offending(bytes, CHECKS[k], q + FieldWidth(k))
    ensures StepField(bytes, q, k) == Failure(Rejected(CHECKS[k], q + FieldWidth(k)))
  {
    if k == 0 {
      assert CountedSpan(bytes, q, 1, InvalidAltitudeCount).Failure?;
    } else if k == 1 {
      assert CountedSpan(bytes, q, 1, InvalidElevationCount).Failure?;
    } else if k == 2 {
      assert ReadPositiveInt(bytes, q, InvalidChannelCount).Failure?;
    } else if k == 5 {
      assert ReadPositiveInt(bytes, q, InvalidRank).Failure?;
    } else if k == 6 {
      assert CountedSpan(bytes, q, 2, InvalidSunBreaksCount).Failure?;
    } else if k == 7 {
      assert CountedSpan(bytes, q, 2, InvalidZenithBreaksCount).Failure?;
    } else if k == 8 {
      assert CountedSpan(bytes, q, 2, InvalidEmphBreaksCount).Failure?;
    }
  }

  /**
   * What one step of the walk, from `prev` (where check `k`'s field starts)
   * to `cur` (where the next one starts), says about the order of the
   * checks: a failure before the field is passed on; a step from a reached
   * field that succeeds passed check `k` and moved past the field; one that
   * rejects was rejected by check `k` just after the field; and a refused
   * field is rejected there.
   */
  predicate StepOrder(bytes: seq<u8>, k: nat, prev: Result<nat, Halt<RadianceError>>, cur: Result<nat, Halt<RadianceError>>)
    requires k < |CHECKS|
  {
    && (prev.Failure? ==> cur == Failure(prev.error))
    && (prev.Success? ==>
      var at := prev.value + FieldWidth(k);
      && (cur.Success? ==> at <= cur.value && at <= |bytes| && !Offending(bytes, CHECKS[k], at))
      && (cur.Failure? && cur.error.Rejected? ==> cur.error == Rejected(CHECKS[k], at))
      && (Offending(bytes, CHECKS[k], at) ==> cur == Failure(Rejected(CHECKS[k], at))))
  }

  /** A step from a reached field keeps the order of the checks. */
  lemma StepFieldOrder(bytes: seq<u8>, q: nat, k: nat)
    requires k < |CHECKS|
    ensures StepOrder(bytes, k, Success(q), StepField(bytes, q, k))
  {
    var cur := StepField(bytes, q, k);
    if cur.Success? {
      StepFieldPasses(bytes, q, k);
    } else if cur.error.Rejected? {
      StepFieldRejects(bytes, q, k);
    }
    if Offending(bytes, CHECKS[k], q + FieldWidth(k)) {
      OffendingStepRejects(bytes, q, k);
    }
  }

  /** Each step of the walk keeps the order of the checks. */
  lemma StepInOrder(bytes: seq<u8>, p: nat, k: nat)
    requires k < |CHECKS|
    ensures StepOrder(bytes, k, CheckedFieldAt(bytes, p, k), CheckedFieldAt(bytes, p, k + 1))
  {
    var prev := CheckedFieldAt(bytes, p, k);
    if prev.Success? {
      StepFieldOrder(bytes, prev.value, k);
    }
  }

  /** From a reached field, the walk takes one step. */
  lemma WalkStep(bytes: seq<u8>, p: nat, k: nat, q: nat)
    requires k < |CHECKS| && CheckedFieldAt(bytes, p, k) == Success(q)
    ensures CheckedFieldAt(bytes, p, k + 1) == StepField(bytes, q, k)
  {
  }

  /** The walk from `p` as a sequence: where each check's field starts, then where the breaks end. */
  function Walk(bytes: seq<u8>, p: nat): (w: seq<Result<nat, Halt<RadianceError>>>)
    ensures |w| == |CHECKS| + 1
    ensures forall k :: 0 <= k < |w| ==> w[k] == CheckedFieldAt(bytes, p, k)
  {
    seq(|CHECKS| + 1, k requires 0 <= k <= |CHECKS| => CheckedFieldAt(bytes, p, k))
  }

  /** A sequence of positions, one per check and one for the end, that no check rejects before the first field and whose every step keeps the order. */
  predicate Chained(bytes: seq<u8>, w: seq<Result<nat, Halt<RadianceError>>>) {
    && |w| == |CHECKS| + 1
    && !(w[0].Failure? && w[0].error.Rejected?)
    && forall k :: 0 <= k < |CHECKS| ==> StepOrder(bytes, k, w[k], w[k + 1])
  }

  /** The walk is a chain. */
  lemma WalkChained(bytes: seq<u8>, p: nat)
    ensures Chained(bytes, Walk(bytes, p))
  {
    var w := Walk(bytes, p);
    forall k | 0 <= k < |CHECKS|
      ensures StepOrder(bytes, k, w[k], w[k + 1])
    {
      StepInOrder(bytes, p, k);
    }
  }

  /** In a chain, reaching position `k` means every earlier check was reached and passed, each field before the next. */
  lemma {:induction false} ChainPasses(bytes: seq<u8>, w: seq<Result<nat, Halt<RadianceError>>>, k: nat, j: nat)
    requires Chained(bytes, w) && j < k < |w| && w[k].Success?
    ensures w[j].Success?
    ensures var at := w[j].value + FieldWidth(j);
      at <= w[k].value && at <= |bytes| && !Offending(bytes, CHECKS[j], at)
    decreases k - j
  {
    assert StepOrder(bytes, k - 1, w[k - 1], w[k]);
    if j < k - 1 {
      ChainPasses(bytes, w, k - 1, j);
    }
  }

  /** In a chain, a position rejected at `at` by check `e` was rejected by its first failing check `k`, just after that check's field. */
  lemma {:induction false} ChainRejection(bytes: seq<u8>, w: seq<Result<nat, Halt<RadianceError>>>, n: nat, e: RadianceError, at: nat)
    returns (k: nat)
    requires Chained(bytes, w) && n < |w| && w[n] == Failure(Rejected(e, at))
    ensures k < n && e == CHECKS[k] && w[k] == Success(at - FieldWidth(k))
  {
    assert StepOrder(bytes, n - 1, w[n - 1], w[n]);
    if w[n - 1].Failure? {
      k := ChainRejection(bytes, w, n - 1, e, at);
    } else {
      k := n - 1;
    }
  }

  /** In a chain, a check that is reached and refuses its field rejects every later position, just after that field. */
  lemma {:induction false} ChainRejects(bytes: seq<u8>, w: seq<Result<nat, Halt<RadianceError>>>, k: nat, q: nat, n: nat)
    requires Chained(bytes, w) && k < n < |w| && w[k] == Success(q)
    requires Offending(bytes, CHECKS[k], q + FieldWidth(k))
    ensures w[n] == Failure(Rejected(CHECKS[k], q + FieldWidth(k)))
    decreases n
  {
    assert StepOrder(bytes, n - 1, w[n - 1], w[n]);
    if n > k + 1 {
      ChainRejects(bytes, w, k, q, n - 1);
    }
  }

  /** The place of the check at position `k` is `k`. */
  lemma CheckIndexOf(k: nat)
    requires k < |CHECKS|
    ensures CheckIndex(CHECKS[k]) == k
  {
  }

  /** Reaching check `k` means every earlier check was reached and passed, each field before the next. */
  lemma EarlierChecksPass(bytes: seq<u8>, p: nat, k: nat, j: nat)
    requires j < k <= |CHECKS| && CheckedFieldAt(bytes, p, k).Success?
    ensures Passes(bytes, p, j)
    ensures CheckedFieldAt(bytes, p, j).value + FieldWidth(j) <= CheckedFieldAt(bytes, p, k).value
  {
    WalkChained(bytes, p);
    ChainPasses(bytes, Walk(bytes, p), k, j);
  }

  /** A walk rejected at `at` by check `e` was rejected by its first failing check, just after its field, with every earlier check passed. */
  lemma WalkFirstFailing(bytes: seq<u8>, p: nat, n: nat, e: RadianceError, at: nat)
    requires n <= |CHECKS| && CheckedFieldAt(bytes, p, n) == Failure(Rejected(e, at))
    ensures var k := CheckIndex(e);
      && CheckedFieldAt(bytes, p, k).Success?
      && at == CheckedFieldAt(bytes, p, k).value + FieldWidth(k)
      && forall j :: 0 <= j < k ==> Passes(bytes, p, j)
  {
    WalkChained(bytes, p);
    var k := ChainRejection(bytes, Walk(bytes, p), n, e, at);
    CheckIndexOf(k);
    forall j | 0 <= j < k
      ensures Passes(bytes, p, j)
    {
      EarlierChecksPass(bytes, p, k, j);
    }
  }

  /** A check that is reached and refuses its field rejects the walk from there on, just after that field. */
  lemma WalkRefused(bytes: seq<u8>, p: nat, k: nat, q: nat, n: nat)
    requires k < n <= |CHECKS| && CheckedFieldAt(bytes, p, k) == Success(q)
    requires Offending(bytes, CHECKS[k], q + FieldWidth(k))
    ensures CheckedFieldAt(bytes, p, n) == Failure(Rejected(CHECKS[k], q + FieldWidth(k)))
  {
    WalkChained(bytes, p);
    ChainRejects(bytes, Walk(bytes, p), k, q, n);
  }

  /** The header parser fails exactly where the walk up to the rank fails, and ends where the rank's field starts. */
  lemma HeaderWalk(bytes: seq<u8>, p: nat, v: F64)
    ensures var h := ReadHeader(bytes, p, v);
      CheckedFieldAt(bytes, p, 5) == if h.Success? then Success(h.value.next) else Failure(h.error)
  {
    var vis := ReadArray(bytes, p);
    ArraySpanReads(bytes, p);
    if vis.Success? {
      var albs := ReadArray(bytes, vis.value.next);
      ArraySpanReads(bytes, vis.value.next);
      if albs.Success? {
        var alts := ReadCheckedArray(bytes, albs.value.next, 1, InvalidAltitudeCount);
        CountedSpanReads(bytes, albs.value.next, 1, InvalidAltitudeCount);
        WalkStep(bytes, p, 0, albs.value.next);
        if alts.Success? {
          var elevs := ReadCheckedArray(bytes, alts.value.next, 1, InvalidElevationCount);
          CountedSpanReads(bytes, alts.value.next, 1, InvalidElevationCount);
          WalkStep(bytes, p, 1, alts.value.next);
          if elevs.Success? {
            ChannelWalk(bytes, p, elevs.value.next);
          }
        }
      }
    }
  }

  /** `HeaderWalk` for the channel fields, which start at `q`. */
  lemma ChannelWalk(bytes: seq<u8>, p: nat, q: nat)
    requires CheckedFieldAt(bytes, p, 2) == Success(q)
    ensures CheckedFieldAt(bytes, p, 5) == NextOf(ReadChannels(bytes, q))
  {
    var channels := ReadPositiveInt(bytes, q, InvalidChannelCount);
    WalkStep(bytes, p, 2, q);
    if channels.Success? {
      var start := F64Field<RadianceError>(bytes, channels.value.next);
      WalkStep(bytes, p, 3, channels.value.next);
      if start.Success? && !Less(start.value.value, F64_ZERO) {
        WalkStep(bytes, p, 4, start.value.next);
      }
    }
  }

  /** From the rank at `q` on, the breaks parser fails exactly where the walk fails, and ends where the walk ends. */
  lemma BreaksWalk(bytes: seq<u8>, p: nat, q: nat)
    requires CheckedFieldAt(bytes, p, 5) == Success(q)
    ensures var b := ReadBreaks(bytes, q);
      CheckedFieldAt(bytes, p, |CHECKS|) == if b.Success? then Success(b.value.next) else Failure(b.error)
  {
    var rank := ReadPositiveInt(bytes, q, InvalidRank);
    WalkStep(bytes, p, 5, q);
    if rank.Success? {
      var sun := ReadCheckedArray(bytes, rank.value.next, 2, InvalidSunBreaksCount);
      CountedSpanReads(bytes, rank.value.next, 2, InvalidSunBreaksCount);
      WalkStep(bytes, p, 6, rank.value.next);
      if sun.Success? {
        PlaneBreaksWalk(bytes, p, sun.value.next);
      }
    }
  }

  /** `BreaksWalk` for the zenith and emphasis breaks, which start at `q`. */
  lemma PlaneBreaksWalk(bytes: seq<u8>, p: nat, q: nat)
    requires CheckedFieldAt(bytes, p, 7) == Success(q)
    ensures var zenith := ReadCheckedArray(bytes, q, 2, InvalidZenithBreaksCount);
      CheckedFieldAt(bytes, p, |CHECKS|) ==
        if zenith.Failure? then Failure(zenith.error)
        else NextOf(ReadCheckedArray(bytes, zenith.value.next, 2, InvalidEmphBreaksCount))
  {
    var zenith := ReadCheckedArray(bytes, q, 2, InvalidZenithBreaksCount);
    CountedSpanReads(bytes, q, 2, InvalidZenithBreaksCount);
    WalkStep(bytes, p, 7, q);
    if zenith.Success? {
      CountedSpanReads(bytes, zenith.value.next, 2, InvalidEmphBreaksCount);
      WalkStep(bytes, p, 8, zenith.value.next);
    }
  }

  /** A rejection of the whole read is the header's, or, after a complete header whose configurations fit, the breaks'. */
  lemma RejectionStage(bytes: seq<u8>, p: nat, v: F64, divide: (F64, F64) -> F64)
    requires ReadRadiance(bytes, p, v, divide).Failure? && ReadRadiance(bytes, p, v, divide).error.Rejected?
    ensures var e := ReadRadiance(bytes, p, v, divide).error;
      var h := ReadHeader(bytes, p, v);
      || h == Failure(e)
      || (h.Success? && CountConfigs(h.value).Success? && ReadBreaks(bytes, h.value.next) == Failure(e))
  {
    var h := ReadHeader(bytes, p, v);
    if h.Success? {
      var counts := CountConfigs(h.value);
      if counts.Success? {
        var b := ReadBreaks(bytes, h.value.next);
        if b.Success? {
          LateStagesUnsupported(bytes, p, v);
        }
      }
    }
  }

  /** Once the header, the configuration counts and the breaks are read, the read can only fail as unsupported. */
  lemma LateStagesUnsupported(bytes: seq<u8>, p: nat, v: F64)
    requires ReadHeader(bytes, p, v).Success? && CountConfigs(ReadHeader(bytes, p, v).value).Success?
    requires ReadBreaks(bytes, ReadHeader(bytes, p, v).value.next).Success?
    ensures PlanRead(bytes, p, v).Failure? ==> PlanRead(bytes, p, v).error == Unsupported
  {
    var counts := CountConfigs(ReadHeader(bytes, p, v).value).value;
    var b := ReadBreaks(bytes, ReadHeader(bytes, p, v).value.next).value;
    var meta := DeriveMetadata(b, counts.total);
    if meta.Success? {
      MetadataLayout(b, counts.total);
      OneConfigByteCountExact(b, counts.total);
      var q := SkipTarget(b.next, OneConfigByteCount(b), counts.skippedBegin);
    }
  }

  /** A header that fails ends the whole read with its error. */
  lemma HeaderFailureReturns(bytes: seq<u8>, p: nat, v: F64, divide: (F64, F64) -> F64, e: Halt<RadianceError>)
    requires ReadHeader(bytes, p, v) == Failure(e)
    ensures ReadRadiance(bytes, p, v, divide) == Failure(e)
  {
    assert PlanRead(bytes, p, v) == Failure(e);
  }

  /** After a complete header whose configurations fit, breaks that fail end the whole read with their error. */
  lemma BreaksFailureReturns(bytes: seq<u8>, p: nat, v: F64, divide: (F64, F64) -> F64, e: Halt<RadianceError>)
    requires ReadHeader(bytes, p, v).Success? && CountConfigs(ReadHeader(bytes, p, v).value).Success?
    requires ReadBreaks(bytes, ReadHeader(bytes, p, v).value.next) == Failure(e)
    ensures ReadRadiance(bytes, p, v, divide) == Failure(e)
  {
    assert PlanRead(bytes, p, v) == Failure(e);
  }

  /** A rejection of the whole read is a rejection of the walk, up to the rank or to the end of the breaks. */
  lemma WalkRejected(bytes: seq<u8>, p: nat, v: F64, divide: (F64, F64) -> F64)
    requires ReadRadiance(bytes, p, v, divide).Failure? && ReadRadiance(bytes, p, v, divide).error.Rejected?
    ensures var e := ReadRadiance(bytes, p, v, divide).error;
      CheckedFieldAt(bytes, p, 5) == Failure(e) || CheckedFieldAt(bytes, p, |CHECKS|) == Failure(e)
  {
    RejectionStage(bytes, p, v, divide);
    HeaderWalk(bytes, p, v);
    var h := ReadHeader(bytes, p, v);
    if h.Success? {
      BreaksWalk(bytes, p, h.value.next);
    }
  }

  /**
   * A read the reader rejects was rejected by its first failing check: that
   * check was reached, its field lies just before the reported position and
   * holds a refused value, and every earlier check was reached and passed.
   */
  lemma RejectionIsFirstFailingCheck(bytes: seq<u8>, p: nat, v: F64, divide: (F64, F64) -> F64)
    requires ReadRadiance(bytes, p, v, divide).Failure? && ReadRadiance(bytes, p, v, divide).error.Rejected?
    ensures var Rejected(e, at) := ReadRadiance(bytes, p, v, divide).error;
      var k := CheckIndex(e);
      && CheckedFieldAt(bytes, p, k).Success?
      && at == CheckedFieldAt(bytes, p, k).value + FieldWidth(k)
      && Offending(bytes, e, at)
      && forall j :: 0 <= j < k ==> Passes(bytes, p, j)
  {
    var Rejected(e, at) := ReadRadiance(bytes, p, v, divide).error;
    WalkRejected(bytes, p, v, divide);
    if CheckedFieldAt(bytes, p, 5) == Failure(Rejected(e, at)) {
      WalkFirstFailing(bytes, p, 5, e, at);
    } else {
      WalkFirstFailing(bytes, p, |CHECKS|, e, at);
    }
  }

  /**
   * The converse: when check `k` is reached and its field holds a refused
   * value, the read is rejected by that check just after the field. For a
   * break check the header's configuration counts must fit in an `int`; when
   * they do not, the read returns on that overflow before any break is read.
   */
  lemma FirstFailingCheckIsRejected(bytes: seq<u8>, p: nat, v: F64, divide: (F64, F64) -> F64, k: nat, q: nat)
    requires k < |CHECKS| && CheckedFieldAt(bytes, p, k) == Success(q)
    requires Offending(bytes, CHECKS[k], q + FieldWidth(k))
    requires 5 <= k && ReadHeader(bytes, p, v).Success? ==> CountConfigs(ReadHeader(bytes, p, v).value).Success?
    ensures ReadRadiance(bytes, p, v, divide) == Failure(Rejected(CHECKS[k], q + FieldWidth(k)))
  {
    HeaderWalk(bytes, p, v);
    if k < 5 {
      WalkRefused(bytes, p, k, q, 5);
      HeaderFailureReturns(bytes, p, v, divide, ReadHeader(bytes, p, v).error);
    } else {
      if k > 5 {
        EarlierChecksPass(bytes, p, k, 5);
      }
      var h := ReadHeader(bytes, p, v).value;
      WalkRefused(bytes, p, k, q, |CHECKS|);
      BreaksWalk(bytes, p, h.next);
      BreaksFailureReturns(bytes, p, v, divide, ReadBreaks(bytes, h.next).error);
    }
  }
}
