/**
 * The file handle the readers advance, and the pure field readers their
 * specifications are written with.
 *
 * The readers never look at how many bytes a read returned, so a short file
 * is not an error they report: reading past the end, like building an array
 * of negative size or overflowing a 32-bit product, is outside what the
 * code handles, and the specifications call it `Unsupported`.
 */
module Stream {
  import opened Bits
  import opened Ieee
  import opened Wrappers

  /** Why a specification stops: an input the code does not handle, or one of its own early returns. */
  datatype Halt<+E> = Unsupported | Rejected(error: E, at: nat)

  /** A value read at some position, and the position just after it. */
  datatype Field<+T> = Field(value: T, next: nat)

  /** `n` consecutive little-endian doubles starting at `p`. */
  function F64sAt(bytes: seq<u8>, p: nat, n: nat): (xs: seq<F64>)
    requires p + 8 * n <= |bytes|
    ensures |xs| == n
  {
    seq(n, i requires 0 <= i < n => U64At(bytes, p + 8 * i))
  }

  /** `n` consecutive little-endian floats starting at `p`. */
  function F32sAt(bytes: seq<u8>, p: nat, n: nat): (xs: seq<F32>)
    requires p + 4 * n <= |bytes|
    ensures |xs| == n
  {
    seq(n, i requires 0 <= i < n => U32At(bytes, p + 4 * i))
  }

  /** `n` consecutive little-endian 16-bit words starting at `p`. */
  function U16sAt(bytes: seq<u8>, p: nat, n: nat): (xs: seq<u16>)
    requires p + 2 * n <= |bytes|
    ensures |xs| == n
  {
    seq(n, i requires 0 <= i < n => U16At(bytes, p + 2 * i))
  }

  /** An `int` field. */
  function I32Field<E>(bytes: seq<u8>, p: nat): (r: Result<Field<int>, Halt<E>>)
    ensures r.Success? <==> p + 4 <= |bytes|
    ensures r.Success? ==> r.value.next == p + 4 && InInt32(r.value.value)
  {
    if p + 4 <= |bytes| then Success(Field(I32At(bytes, p), p + 4)) else Failure(Unsupported)
  }

  /** A `double` field, as its bit pattern. */
  function F64Field<E>(bytes: seq<u8>, p: nat): (r: Result<Field<F64>, Halt<E>>)
    ensures r.Success? <==> p + 8 <= |bytes|
    ensures r.Success? ==> r.value.next == p + 8
  {
    if p + 8 <= |bytes| then Success(Field(U64At(bytes, p), p + 8)) else Failure(Unsupported)
  }

  /**
   * A `TArray<double>` sized with `SetNum(count)` and filled by one read of
   * `8 * count` bytes; a negative count is not handled by `SetNum`.
   */
  function F64sField<E>(bytes: seq<u8>, p: nat, count: int): (r: Result<Field<seq<F64>>, Halt<E>>)
    ensures r.Success? <==> 0 <= count && p + 8 * count <= |bytes|
    ensures r.Success? ==> |r.value.value| == count && r.value.next == p + 8 * count
  {
    if 0 <= count && p + 8 * count <= |bytes| then Success(Field(F64sAt(bytes, p, count), p + 8 * count))
    else Failure(Unsupported)
  }

  /** The same for a `TArray<float>`. */
  function F32sField<E>(bytes: seq<u8>, p: nat, count: int): (r: Result<Field<seq<F32>>, Halt<E>>)
    ensures r.Success? <==> 0 <= count && p + 4 * count <= |bytes|
    ensures r.Success? ==> |r.value.value| == count && r.value.next == p + 4 * count
  {
    if 0 <= count && p + 4 * count <= |bytes| then Success(Field(F32sAt(bytes, p, count), p + 4 * count))
    else Failure(Unsupported)
  }

  /** An early return of the reader when `ok` fails, at the current position. */
  function Check<E>(ok: bool, error: E, at: nat): (r: Result<(), Halt<E>>)
    ensures r.Success? <==> ok
    ensures !ok ==> r.error == Rejected(error, at)
  {
    if ok then Success(()) else Failure(Rejected(error, at))
  }

  /** A precondition of the code that the input does not meet. */
  function Handled<E>(ok: bool): (r: Result<(), Halt<E>>)
    ensures r.Success? <==> ok
    ensures !ok ==> r.error == Unsupported
  {
    if ok then Success(()) else Failure(Unsupported)
  }

  /** An `int` field, rejected with `error` right after it is read when it is below 1. */
  function ReadPositiveInt<E>(bytes: seq<u8>, p: nat, error: E): (r: Result<Field<int>, Halt<E>>)
    ensures r.Success? ==> r.value.next == p + 4 <= |bytes| && 1 <= r.value.value && InInt32(r.value.value)
    ensures r.Failure? && r.error.Rejected? ==>
      r.error == Rejected(error, p + 4) && p + 4 <= |bytes| && I32At(bytes, p) < 1
  {
    var x :- I32Field(bytes, p);
    var _ :- Check(x.value >= 1, error, x.next);
    Success(x)
  }

  /**
   * A reader's outcome `r` and final position `pos` agree with its
   * specification `spec`: the value and the position after it, or the early
   * return and the position it was taken at. No reader runs on an input its
   * specification calls `Unsupported`.
   */
  predicate Follows<T(==), E(==)>(spec: Result<Field<T>, Halt<E>>, r: Result<T, E>, pos: nat) {
    match spec
    case Success(f) => r == Success(f.value) && pos == f.next
    case Failure(Rejected(e, at)) => r == Failure(e) && pos == at
    case Failure(Unsupported) => false
  }

  /** An open file: its contents and the read position. */
  class FileHandle {
    const bytes: seq<u8>
    var pos: nat

    constructor (contents: seq<u8>)
      ensures bytes == contents && pos == 0
    {
      bytes := contents;
      pos := 0;
    }

    method Tell() returns (p: nat)
      ensures p == pos
    {
      p := pos;
    }

    method Seek(newPos: nat)
      modifies this
      ensures pos == newPos
    {
      pos := newPos;
    }

    /** Four bytes into an `int`. */
    method ReadI32() returns (x: int)
      requires pos + 4 <= |bytes|
      modifies this
      ensures x == I32At(bytes, old(pos)) && pos == old(pos) + 4
    {
      x := I32At(bytes, pos);
      pos := pos + 4;
    }

    /** Eight bytes into a `double`. */
    method ReadF64Bits() returns (x: F64)
      requires pos + 8 <= |bytes|
      modifies this
      ensures x == U64At(bytes, old(pos)) && pos == old(pos) + 8
    {
      x := U64At(bytes, pos);
      pos := pos + 8;
    }

    /** One read of `8 * n` bytes into an array of `n` doubles. */
    method ReadF64s(n: nat) returns (xs: seq<F64>)
      requires pos + 8 * n <= |bytes|
      modifies this
      ensures xs == F64sAt(bytes, old(pos), n) && pos == old(pos) + 8 * n
    {
      xs := F64sAt(bytes, pos, n);
      pos := pos + 8 * n;
    }

    /** One read of `4 * n` bytes into an array of `n` floats. */
    method ReadF32s(n: nat) returns (xs: seq<F32>)
      requires pos + 4 * n <= |bytes|
      modifies this
      ensures xs == F32sAt(bytes, old(pos), n) && pos == old(pos) + 4 * n
    {
      xs := F32sAt(bytes, pos, n);
      pos := pos + 4 * n;
    }

    /** One read of `2 * n` bytes into an array of `n` 16-bit words. */
    method ReadU16s(n: nat) returns (xs: seq<u16>)
      requires pos + 2 * n <= |bytes|
      modifies this
      ensures xs == U16sAt(bytes, old(pos), n) && pos == old(pos) + 2 * n
    {
      xs := U16sAt(bytes, pos, n);
      pos := pos + 2 * n;
    }
  }

  /** An `int` field checked to be at least 1 right after it is read. */
  method ReadPositiveIntFrom<E(==)>(handle: FileHandle, error: E) returns (r: Result<int, E>)
    requires ReadPositiveInt(handle.bytes, handle.pos, error) != Failure(Unsupported)
    modifies handle
    ensures Follows(ReadPositiveInt(handle.bytes, old(handle.pos), error), r, handle.pos)
  {
    var x := handle.ReadI32();
    if x < 1 {
      return Failure(error);
    }
    r := Success(x);
  }
}
