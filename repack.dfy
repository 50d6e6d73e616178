/**
 * The repacker: each 64-bit double pattern is cut into its low and high
 * 32-bit words, either as a sequence of `DoublePacked` pairs or as one flat
 * interleaved word stream (the layout the coefficient buffer is uploaded in).
 */
module Repack {
  import opened Bits
  import opened Ieee

  /** `DoublePacked`: the low word first, then the high word. */
  datatype DoublePacked = DoublePacked(low: u32, high: u32)

  /** The double pattern a pair stands for: `High << 32 | Low`. */
  function Join(p: DoublePacked): (bits: F64)
    ensures bits % WORD == p.low && bits / WORD == p.high
  {
    MulLe(p.high, WORD - 1, WORD);
    DivModUnique(p.high * WORD + p.low, WORD, p.high, p.low);
    p.high * WORD + p.low
  }

  /** Bits 0-31 and bits 32-63 of a double pattern. */
  function Split(bits: F64): (p: DoublePacked)
    ensures Join(p) == bits
  {
    DoublePacked(bits % WORD, bits / WORD)
  }

  lemma SplitJoin(p: DoublePacked)
    ensures Split(Join(p)) == p
  {
  }

  /** The pair sequence for a double array, one pair per element, in order. */
  function SplitAll(doubles: seq<F64>): (ps: seq<DoublePacked>)
    ensures |ps| == |doubles|
    ensures forall i :: 0 <= i < |ps| ==> Join(ps[i]) == doubles[i]
  {
    seq(|doubles|, i requires 0 <= i < |doubles| => Split(doubles[i]))
  }

  /** Undoes `SplitAll`. */
  function JoinAll(ps: seq<DoublePacked>): (doubles: seq<F64>)
    ensures |doubles| == |ps|
  {
    seq(|ps|, i requires 0 <= i < |ps| => Join(ps[i]))
  }

  lemma JoinAllSplitAll(doubles: seq<F64>)
    ensures JoinAll(SplitAll(doubles)) == doubles
  {
  }

  lemma SplitAllJoinAll(ps: seq<DoublePacked>)
    ensures SplitAll(JoinAll(ps)) == ps
  {
    forall i | 0 <= i < |ps|
      ensures SplitAll(JoinAll(ps))[i] == ps[i]
    {
      SplitJoin(ps[i]);
    }
  }

  /** The flat stream of a pair sequence: low, high, low, high, ... */
  function Interleave(ps: seq<DoublePacked>): (words: seq<u32>) {
    if ps == [] then []
    else Interleave(ps[..|ps| - 1]) + [ps[|ps| - 1].low, ps[|ps| - 1].high]
  }

  lemma {:induction false} InterleaveAt(ps: seq<DoublePacked>)
    ensures |Interleave(ps)| == 2 * |ps|
    ensures forall i :: 0 <= i < |ps| ==>
      Interleave(ps)[2 * i] == ps[i].low && Interleave(ps)[2 * i + 1] == ps[i].high
  {
    if ps != [] {
      InterleaveAt(ps[..|ps| - 1]);
    }
  }

  /** Reads a flat stream back as doubles: word 2i is the low and word 2i+1 the high half of double i. */
  function JoinWords(words: seq<u32>): (doubles: seq<F64>)
    requires |words| % 2 == 0
    ensures |doubles| == |words| / 2
  {
    seq(|words| / 2, i requires 0 <= i < |words| / 2 => Join(DoublePacked(words[2 * i], words[2 * i + 1])))
  }

  /** The flat stream loses nothing: reading it back gives the doubles. */
  lemma JoinWordsInterleave(doubles: seq<F64>)
    ensures |Interleave(SplitAll(doubles))| % 2 == 0
    ensures JoinWords(Interleave(SplitAll(doubles))) == doubles
  {
    var ps := SplitAll(doubles);
    InterleaveAt(ps);
    var back := JoinWords(Interleave(ps));
    forall i | 0 <= i < |doubles|
      ensures back[i] == doubles[i]
    {
      assert DoublePacked(Interleave(ps)[2 * i], Interleave(ps)[2 * i + 1]) == ps[i];
    }
  }

  /** Two pair sequences that stand for the same doubles are the same sequence. */
  lemma JoinAllInjective(ps: seq<DoublePacked>, qs: seq<DoublePacked>)
    requires JoinAll(ps) == JoinAll(qs)
    ensures ps == qs
  {
    SplitAllJoinAll(ps);
    SplitAllJoinAll(qs);
  }

  /** Two flat streams that read back as the same doubles are the same stream. */
  lemma JoinWordsInjective(words: seq<u32>, others: seq<u32>)
    requires |words| % 2 == 0 && |others| == |words|
    requires JoinWords(words) == JoinWords(others)
    ensures words == others
  {
    forall k | 0 <= k < |words|
      ensures words[k] == others[k]
    {
      var i := k / 2;
      assert k == 2 * i || k == 2 * i + 1;
      var p, q := DoublePacked(words[2 * i], words[2 * i + 1]), DoublePacked(others[2 * i], others[2 * i + 1]);
      assert Join(p) == JoinWords(words)[i] && Join(q) == JoinWords(others)[i];
      SplitJoin(p);
      SplitJoin(q);
    }
  }

  /** The flat stream is the pair sequence with each pair spelt out. */
  lemma {:induction false} InterleaveFlattens(ps: seq<DoublePacked>, i: nat)
    requires i < |ps|
    ensures |Interleave(ps)| == 2 * |ps|
    ensures Interleave(ps)[2 * i..2 * i + 2] == [ps[i].low, ps[i].high]
  {
    InterleaveAt(ps);
  }

  /**
   * `ConvertDoublesToUint32s`: appends one pair per double, masking the low
   * and the shifted high word to 32 bits.
   */
  method ConvertDoublesToUint32s(doubleArray: seq<F64>) returns (uintArray: seq<DoublePacked>)
    ensures |uintArray| == |doubleArray|
    ensures forall i :: 0 <= i < |doubleArray| ==>
      uintArray[i].low == doubleArray[i] % WORD && uintArray[i].high == doubleArray[i] / WORD
    ensures uintArray == SplitAll(doubleArray)
  {
    uintArray := [];
    var k := 0;
    while k < |doubleArray|
      invariant k <= |doubleArray|
      invariant uintArray == SplitAll(doubleArray[..k])
    {
      var doubleBits := doubleArray[k];
      var tmp := DoublePacked(doubleBits % WORD, (doubleBits / WORD) % WORD);
      uintArray := uintArray + [tmp];
      k := k + 1;
      assert doubleArray[..k] == doubleArray[..k - 1] + [doubleBits];
    }
    assert doubleArray[..k] == doubleArray;
  }

  /**
   * `ConvertDoublesToFUint32s`: appends the low word, then the high word, of
   * each double to one flat stream.
   */
  method ConvertDoublesToFUint32s(doubleArray: seq<F64>) returns (uintArray: seq<u32>)
    ensures |uintArray| == 2 * |doubleArray|
    ensures forall i :: 0 <= i < |doubleArray| ==>
      uintArray[2 * i] == doubleArray[i] % WORD && uintArray[2 * i + 1] == doubleArray[i] / WORD
    ensures uintArray == Interleave(SplitAll(doubleArray))
  {
    uintArray := [];
    var k := 0;
    while k < |doubleArray|
      invariant k <= |doubleArray|
      invariant uintArray == Interleave(SplitAll(doubleArray[..k]))
    {
      var doubleBits := doubleArray[k];
      assert SplitAll(doubleArray[..k + 1])[..k] == SplitAll(doubleArray[..k]);
      uintArray := uintArray + [doubleBits % WORD, (doubleBits / WORD) % WORD];
      k := k + 1;
    }
    assert doubleArray[..k] == doubleArray;
    InterleaveAt(SplitAll(doubleArray));
  }
}
