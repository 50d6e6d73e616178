/**
 * Layout of the radiance coefficient blocks in the file and in `DataRad`.
 *
 * In the file, one configuration is `rank` terms followed by the emphasis
 * words; a term is its sun words (16-bit halves), a zenith scale (a double)
 * and its zenith words. In `DataRad`, a configuration is the widened sun
 * values of each term followed by its zenith values divided by that term's
 * scale, and then the widened emphasis values.
 */
module Coefficients {
  import opened Bits
  import opened Ieee
  import opened Half

  /** The counts that fix one configuration's layout. */
  datatype BlockShape = BlockShape(rank: nat, nSun: nat, nZenith: nat, nEmph: nat)

  /** Coefficients per term: `SunStride`, which is also `ZenithStride`. */
  function Stride(s: BlockShape): nat {
    s.nSun + s.nZenith
  }

  /** Bytes per term: sun words, the zenith scale and zenith words. */
  function TermBytes(s: BlockShape): nat {
    2 * (s.nSun + s.nZenith) + 8
  }

  /** `OneConfigByteCount`: `rank` terms, then two bytes per emphasis word. */
  function ConfigBytes(s: BlockShape): nat {
    s.rank * TermBytes(s) + 2 * s.nEmph
  }

  /** `TotalCoefsSingleConfig`. */
  function ConfigCoefCount(s: BlockShape): nat {
    s.rank * Stride(s) + s.nEmph
  }

  lemma MulSucc(a: nat, b: nat)
    ensures (a + 1) * b == a * b + b
  {
  }

  /** A block of `n` items of size `size` at `q` ends within `limit` if the whole run of `m >= n` blocks does. */
  lemma PrefixFits(q: nat, n: nat, m: nat, size: nat, limit: nat)
    requires n <= m && q + m * size <= limit
    ensures q + n * size <= limit
  {
    MulLe(n, m, size);
  }

  /** The `n` halves at `p`, each widened. */
  function HalvesAt(bytes: seq<u8>, p: nat, n: nat): (r: seq<F64>)
    requires p + 2 * n <= |bytes|
    ensures |r| == n
    ensures forall k :: 0 <= k < n ==> r[k] == WidenHalf(U16At(bytes, p + 2 * k))
  {
    if n == 0 then [] else HalvesAt(bytes, p, n - 1) + [WidenHalf(U16At(bytes, p + 2 * (n - 1)))]
  }

  /** The `n` halves at `p`, each widened and divided by `scale`. */
  function ScaledHalvesAt(bytes: seq<u8>, p: nat, n: nat, scale: F64, divide: (F64, F64) -> F64): (r: seq<F64>)
    requires p + 2 * n <= |bytes|
    ensures |r| == n
    ensures forall k :: 0 <= k < n ==> r[k] == divide(WidenHalf(U16At(bytes, p + 2 * k)), scale)
  {
    if n == 0 then []
    else ScaledHalvesAt(bytes, p, n - 1, scale, divide) + [divide(WidenHalf(U16At(bytes, p + 2 * (n - 1))), scale)]
  }

  /** The coefficients of the term stored at `q`. */
  function TermCoefs(bytes: seq<u8>, q: nat, s: BlockShape, divide: (F64, F64) -> F64): (r: seq<F64>)
    requires q + TermBytes(s) <= |bytes|
    ensures |r| == Stride(s)
  {
    HalvesAt(bytes, q, s.nSun)
    + ScaledHalvesAt(bytes, q + 2 * s.nSun + 8, s.nZenith, U64At(bytes, q + 2 * s.nSun), divide)
  }

  /** Blocks laid end to end. */
  function Flatten(blocks: seq<seq<F64>>): (r: seq<F64>) {
    if blocks == [] then [] else Flatten(blocks[..|blocks| - 1]) + blocks[|blocks| - 1]
  }

  /** Position t of a run of r blocks of `size` bytes at q ends inside the run. */
  lemma BlockFits(q: nat, t: nat, r: nat, size: nat, limit: nat)
    requires t < r && q + r * size <= limit
    ensures q + t * size + size <= limit
  {
    MulSucc(t, size);
    PrefixFits(q, t + 1, r, size, limit);
  }

  /** The first `r` terms of the configuration stored at `q`, one block each. */
  function TermBlocks(bytes: seq<u8>, q: nat, s: BlockShape, r: nat, divide: (F64, F64) -> F64): (bs: seq<seq<F64>>)
    requires q + r * TermBytes(s) <= |bytes|
    ensures |bs| == r
    ensures forall t :: 0 <= t < r ==> |bs[t]| == Stride(s)
  {
    seq(r, t requires 0 <= t < r =>
      BlockFits(q, t, r, TermBytes(s), |bytes|);
      TermCoefs(bytes, q + t * TermBytes(s), s, divide))
  }

  /** The coefficients of the configuration stored at `q`: its terms, then its emphasis values. */
  function ConfigCoefs(bytes: seq<u8>, q: nat, s: BlockShape, divide: (F64, F64) -> F64): (cs: seq<F64>)
    requires q + ConfigBytes(s) <= |bytes|
  {
    Flatten(TermBlocks(bytes, q, s, s.rank, divide)) + HalvesAt(bytes, q + s.rank * TermBytes(s), s.nEmph)
  }

  /** The first `n` configurations stored from `q` on, one block each. */
  function ConfigBlocks(bytes: seq<u8>, q: nat, s: BlockShape, n: nat, divide: (F64, F64) -> F64): (bs: seq<seq<F64>>)
    requires q + n * ConfigBytes(s) <= |bytes|
    ensures |bs| == n
  {
    seq(n, c requires 0 <= c < n =>
      BlockFits(q, c, n, ConfigBytes(s), |bytes|);
      ConfigCoefs(bytes, q + c * ConfigBytes(s), s, divide))
  }

  /** The coefficients of the `n` configurations stored from `q` on: `DataRad` after the decode loop. */
  function AllCoefs(bytes: seq<u8>, q: nat, s: BlockShape, n: nat, divide: (F64, F64) -> F64): (cs: seq<F64>)
    requires q + n * ConfigBytes(s) <= |bytes|
  {
    Flatten(ConfigBlocks(bytes, q, s, n, divide))
  }

  /** `OneConfigByteCount` is two bytes per coefficient plus one 8-byte scale per term. */
  lemma ConfigBytesCount(s: BlockShape)
    ensures ConfigBytes(s) == 2 * ConfigCoefCount(s) + 8 * s.rank
  {
  }

  /** A term's sun values are its widened sun words, undivided. */
  lemma TermSunAt(bytes: seq<u8>, q: nat, s: BlockShape, divide: (F64, F64) -> F64, k: nat)
    requires q + TermBytes(s) <= |bytes| && k < s.nSun
    ensures TermCoefs(bytes, q, s, divide)[k] == WidenHalf(U16At(bytes, q + 2 * k))
  {
  }

  /** A term's zenith values follow its sun values and are divided by the scale stored after the sun words. */
  lemma TermZenithAt(bytes: seq<u8>, q: nat, s: BlockShape, divide: (F64, F64) -> F64, k: nat)
    requires q + TermBytes(s) <= |bytes| && k < s.nZenith
    ensures TermCoefs(bytes, q, s, divide)[s.nSun + k]
      == divide(WidenHalf(U16At(bytes, q + 2 * s.nSun + 8 + 2 * k)), U64At(bytes, q + 2 * s.nSun))
  {
    var sun := HalvesAt(bytes, q, s.nSun);
    var zenith := ScaledHalvesAt(bytes, q + 2 * s.nSun + 8, s.nZenith, U64At(bytes, q + 2 * s.nSun), divide);
    assert TermCoefs(bytes, q, s, divide) == sun + zenith;
    assert (sun + zenith)[s.nSun + k] == zenith[k];
  }

  /** Index arithmetic of a run of equal-sized blocks, where block t of r holds positions t*n .. t*n+n-1. */
  lemma BlockIndex(t: nat, r: nat, n: nat, j: nat)
    requires t < r && j < n
    ensures (r - 1) * n + n == r * n
    ensures t < r - 1 ==> t * n + j < (r - 1) * n
    ensures t == r - 1 ==> t * n + j - (r - 1) * n == j
  {
    MulSucc(r - 1, n);
    if t < r - 1 {
      MulSucc(t, n);
      MulLe(t + 1, r - 1, n);
    }
  }

  /** Blocks of n values each, laid end to end, take n values per block. */
  lemma {:induction false} FlattenLength(blocks: seq<seq<F64>>, n: nat)
    requires forall t :: 0 <= t < |blocks| ==> |blocks[t]| == n
    ensures |Flatten(blocks)| == |blocks| * n
  {
    if blocks != [] {
      FlattenLength(blocks[..|blocks| - 1], n);
      MulSucc(|blocks| - 1, n);
    }
  }

  /** Value j of block t sits at `t * n + j`. */
  lemma {:induction false} FlattenAt(blocks: seq<seq<F64>>, n: nat, t: nat, j: nat)
    requires forall k :: 0 <= k < |blocks| ==> |blocks[k]| == n
    requires t < |blocks| && j < n
    ensures |Flatten(blocks)| == |blocks| * n && t * n + j < |blocks| * n
    ensures Flatten(blocks)[t * n + j] == blocks[t][j]
  {
    FlattenLength(blocks, n);
    var r := |blocks|;
    var prev := blocks[..r - 1];
    FlattenLength(prev, n);
    BlockIndex(t, r, n, j);
    if t < r - 1 {
      FlattenAt(prev, n, t, j);
    }
  }

  /** Appending one block appends its values. */
  lemma FlattenSnoc(blocks: seq<seq<F64>>, b: seq<F64>)
    ensures Flatten(blocks + [b]) == Flatten(blocks) + b
  {
    assert (blocks + [b])[..|blocks|] == blocks;
  }

  /** Each configuration holds `TotalCoefsSingleConfig` values. */
  lemma ConfigCoefsLength(bytes: seq<u8>, q: nat, s: BlockShape, divide: (F64, F64) -> F64)
    requires q + ConfigBytes(s) <= |bytes|
    ensures |ConfigCoefs(bytes, q, s, divide)| == ConfigCoefCount(s)
  {
    FlattenLength(TermBlocks(bytes, q, s, s.rank, divide), Stride(s));
  }

  /** The decode loop produces `TotalCoefsAllConfigs` values. */
  lemma AllCoefsLength(bytes: seq<u8>, q: nat, s: BlockShape, n: nat, divide: (F64, F64) -> F64)
    requires q + n * ConfigBytes(s) <= |bytes|
    ensures |AllCoefs(bytes, q, s, n, divide)| == n * ConfigCoefCount(s)
  {
    var bs := ConfigBlocks(bytes, q, s, n, divide);
    forall c | 0 <= c < n
      ensures |bs[c]| == ConfigCoefCount(s)
    {
      BlockFits(q, c, n, ConfigBytes(s), |bytes|);
      ConfigCoefsLength(bytes, q + c * ConfigBytes(s), s, divide);
    }
    FlattenLength(bs, ConfigCoefCount(s));
  }

  /** Non-negative factors give a non-negative product. */
  lemma MulNat(a: nat, b: nat)
    ensures a * b >= 0
  {
  }

  /**
   * Configuration c's values start at `i = c * TotalCoefsSingleConfig` and it
   * is stored at `p = q + c * OneConfigByteCount`.
   */
  lemma ConfigAt(bytes: seq<u8>, q: nat, s: BlockShape, n: nat, divide: (F64, F64) -> F64,
                 c: nat, j: nat, i: nat, p: nat)
    requires q + n * ConfigBytes(s) <= |bytes| && c < n && j < ConfigCoefCount(s)
    requires i == c * ConfigCoefCount(s) + j && p == q + c * ConfigBytes(s)
    ensures p + ConfigBytes(s) <= |bytes| && |ConfigCoefs(bytes, p, s, divide)| == ConfigCoefCount(s)
    ensures i < |AllCoefs(bytes, q, s, n, divide)|
    ensures AllCoefs(bytes, q, s, n, divide)[i] == ConfigCoefs(bytes, p, s, divide)[j]
  {
    var bs := ConfigBlocks(bytes, q, s, n, divide);
    forall k | 0 <= k < n
      ensures |bs[k]| == ConfigCoefCount(s)
    {
      BlockFits(q, k, n, ConfigBytes(s), |bytes|);
      ConfigCoefsLength(bytes, q + k * ConfigBytes(s), s, divide);
    }
    FlattenAt(bs, ConfigCoefCount(s), c, j);
    BlockFits(q, c, n, ConfigBytes(s), |bytes|);
    ConfigCoefsLength(bytes, p, s, divide);
    MulSucc(c, ConfigCoefCount(s));
    MulLe(c + 1, n, ConfigCoefCount(s));
  }

  /** Term t's values start at `i = t * SunStride` within its configuration; it is stored at `p = q + t * TermBytes`. */
  lemma TermAt(bytes: seq<u8>, q: nat, s: BlockShape, divide: (F64, F64) -> F64, t: nat, j: nat, i: nat, p: nat)
    requires q + ConfigBytes(s) <= |bytes| && t < s.rank && j < Stride(s)
    requires i == t * Stride(s) + j && p == q + t * TermBytes(s)
    ensures p + TermBytes(s) <= |bytes|
    ensures i < s.rank * Stride(s) && i < |ConfigCoefs(bytes, q, s, divide)|
    ensures ConfigCoefs(bytes, q, s, divide)[i] == TermCoefs(bytes, p, s, divide)[j]
  {
    MulNat(s.rank, TermBytes(s));
    var bs := TermBlocks(bytes, q, s, s.rank, divide);
    assert p + TermBytes(s) <= |bytes| && bs[t] == TermCoefs(bytes, p, s, divide) by {
      BlockFits(q, t, s.rank, TermBytes(s), |bytes|);
    }
    assert i < s.rank * Stride(s) by {
      MulSucc(t, Stride(s));
      MulLe(t + 1, s.rank, Stride(s));
    }
    var terms := Flatten(bs);
    assert |terms| == s.rank * Stride(s) && terms[i] == bs[t][j] by {
      FlattenAt(bs, Stride(s), t, j);
    }
    var emph := HalvesAt(bytes, q + s.rank * TermBytes(s), s.nEmph);
    assert ConfigCoefs(bytes, q, s, divide) == terms + emph;
    assert (terms + emph)[i] == terms[i];
  }

  /** The emphasis values follow the terms, at `i = EmphOffset + k`, undivided; the word is at `p`. */
  lemma EmphAt(bytes: seq<u8>, q: nat, s: BlockShape, divide: (F64, F64) -> F64, k: nat, i: nat, p: nat)
    requires q + ConfigBytes(s) <= |bytes| && k < s.nEmph
    requires i == s.rank * Stride(s) + k && p == q + s.rank * TermBytes(s) + 2 * k
    ensures p + 2 <= |bytes| && i < |ConfigCoefs(bytes, q, s, divide)|
    ensures ConfigCoefs(bytes, q, s, divide)[i] == WidenHalf(U16At(bytes, p))
  {
    MulNat(s.rank, TermBytes(s));
    var bs := TermBlocks(bytes, q, s, s.rank, divide);
    FlattenLength(bs, Stride(s));
    var terms := Flatten(bs);
    var emph := HalvesAt(bytes, q + s.rank * TermBytes(s), s.nEmph);
    assert ConfigCoefs(bytes, q, s, divide) == terms + emph;
    assert (terms + emph)[i] == emph[k];
  }

  /**
   * Sun word k of term t of configuration c is widened into `DataRad[i]`,
   * `i = c*T + t*SunStride + k` with T = `TotalCoefsSingleConfig`. The
   * configuration is stored at byte `config`, the term at byte `term`.
   */
  lemma SunCoefAt(bytes: seq<u8>, q: nat, s: BlockShape, n: nat, divide: (F64, F64) -> F64,
                  c: nat, t: nat, k: nat, config: nat, term: nat, j: nat, i: nat)
    requires q + n * ConfigBytes(s) <= |bytes| && c < n && t < s.rank && k < s.nSun
    requires config == q + c * ConfigBytes(s) && term == config + t * TermBytes(s)
    requires j == t * Stride(s) + k && i == c * ConfigCoefCount(s) + j
    ensures i < |AllCoefs(bytes, q, s, n, divide)| && term + 2 * k + 2 <= |bytes|
    ensures AllCoefs(bytes, q, s, n, divide)[i] == WidenHalf(U16At(bytes, term + 2 * k))
  {
    BlockFits(q, c, n, ConfigBytes(s), |bytes|);
    TermAt(bytes, config, s, divide, t, k, j, term);
    ConfigAt(bytes, q, s, n, divide, c, j, i, config);
    TermSunAt(bytes, term, s, divide, k);
  }

  /**
   * Zenith word k of term t of configuration c is widened and divided by
   * that term's zenith scale into `DataRad[i]`,
   * `i = c*T + t*SunStride + ZenithOffset + k`.
   */
  lemma ZenithCoefAt(bytes: seq<u8>, q: nat, s: BlockShape, n: nat, divide: (F64, F64) -> F64,
                     c: nat, t: nat, k: nat, config: nat, term: nat, j: nat, i: nat)
    requires q + n * ConfigBytes(s) <= |bytes| && c < n && t < s.rank && k < s.nZenith
    requires config == q + c * ConfigBytes(s) && term == config + t * TermBytes(s)
    requires j == t * Stride(s) + s.nSun + k && i == c * ConfigCoefCount(s) + j
    ensures i < |AllCoefs(bytes, q, s, n, divide)| && term + TermBytes(s) <= |bytes|
    ensures AllCoefs(bytes, q, s, n, divide)[i]
      == divide(WidenHalf(U16At(bytes, term + 2 * s.nSun + 8 + 2 * k)), U64At(bytes, term + 2 * s.nSun))
  {
    BlockFits(q, c, n, ConfigBytes(s), |bytes|);
    TermAt(bytes, config, s, divide, t, s.nSun + k, j, term);
    ConfigAt(bytes, q, s, n, divide, c, j, i, config);
    TermZenithAt(bytes, term, s, divide, k);
  }

  /** Emphasis word k of configuration c is widened into `DataRad[i]`, `i = c*T + EmphOffset + k`. */
  lemma EmphCoefAt(bytes: seq<u8>, q: nat, s: BlockShape, n: nat, divide: (F64, F64) -> F64,
                   c: nat, k: nat, config: nat, word: nat, j: nat, i: nat)
    requires q + n * ConfigBytes(s) <= |bytes| && c < n && k < s.nEmph
    requires config == q + c * ConfigBytes(s) && word == config + s.rank * TermBytes(s) + 2 * k
    requires j == s.rank * Stride(s) + k && i == c * ConfigCoefCount(s) + j
    ensures i < |AllCoefs(bytes, q, s, n, divide)| && word + 2 <= |bytes|
    ensures AllCoefs(bytes, q, s, n, divide)[i] == WidenHalf(U16At(bytes, word))
  {
    MulNat(s.rank, TermBytes(s));
    MulNat(s.rank, Stride(s));
    ConfigAt(bytes, q, s, n, divide, c, j, i, config);
    EmphAt(bytes, config, s, divide, k, j, word);
  }

  /** The decode loop over terms: one more term appends that term's values. */
  lemma TermsSnoc(bytes: seq<u8>, q: nat, s: BlockShape, r: nat, divide: (F64, F64) -> F64, p: nat)
    requires r < s.rank && q + s.rank * TermBytes(s) <= |bytes| && p == q + r * TermBytes(s)
    ensures q + r * TermBytes(s) <= |bytes| && q + (r + 1) * TermBytes(s) <= |bytes| && p + TermBytes(s) <= |bytes|
    ensures Flatten(TermBlocks(bytes, q, s, r + 1, divide))
      == Flatten(TermBlocks(bytes, q, s, r, divide)) + TermCoefs(bytes, p, s, divide)
  {
    PrefixFits(q, r, s.rank, TermBytes(s), |bytes|);
    PrefixFits(q, r + 1, s.rank, TermBytes(s), |bytes|);
    BlockFits(q, r, s.rank, TermBytes(s), |bytes|);
    var bs := TermBlocks(bytes, q, s, r + 1, divide);
    assert bs[..r] == TermBlocks(bytes, q, s, r, divide);
  }

  /** The decode loop over configurations: one more configuration appends its values. */
  lemma ConfigsSnoc(bytes: seq<u8>, q: nat, s: BlockShape, c: nat, n: nat, divide: (F64, F64) -> F64, p: nat)
    requires c < n && q + n * ConfigBytes(s) <= |bytes| && p == q + c * ConfigBytes(s)
    ensures q + c * ConfigBytes(s) <= |bytes| && q + (c + 1) * ConfigBytes(s) <= |bytes| && p + ConfigBytes(s) <= |bytes|
    ensures AllCoefs(bytes, q, s, c + 1, divide) == AllCoefs(bytes, q, s, c, divide) + ConfigCoefs(bytes, p, s, divide)
  {
    PrefixFits(q, c, n, ConfigBytes(s), |bytes|);
    PrefixFits(q, c + 1, n, ConfigBytes(s), |bytes|);
    BlockFits(q, c, n, ConfigBytes(s), |bytes|);
    var bs := ConfigBlocks(bytes, q, s, c + 1, divide);
    assert bs[..c] == ConfigBlocks(bytes, q, s, c, divide);
  }
}
