/** gen_codes of gzip.c: from code lengths to the canonical codes, bit-reversed
    so that sending them least significant bit first transmits them most
    significant bit first. */
module GenCodes {
  import opened Bits
  import opened Limits
  import opened Canonical
  import BitSink

  /** bl_count holds the number of codes of each length. */
  ghost predicate Tallies(blCount: seq<nat>, lens: seq<nat>)
  {
    |blCount| == MAX_BITS + 1 && forall b :: 0 <= b <= MAX_BITS ==> blCount[b] == Used(lens, b)
  }

  /** Lengths with room for all their codes. */
  ghost predicate Codable(lens: seq<nat>)
  {
    Bounded(lens, MAX_BITS) && Kraft(lens, MAX_BITS, |lens|) <= Pow2(MAX_BITS)
  }

  /** code, sent least significant bit first on lens[s] bits, is the code of symbol s. */
  ghost predicate Codes(code: nat, lens: seq<nat>, s: nat)
    requires s < |lens|
  {
    code < Pow2(lens[s]) && Lsb(code, lens[s]) == CodeBits(lens, s)
  }

  lemma FirstFits(lens: seq<nat>, b: nat)
    requires Codable(lens) && 1 <= b <= MAX_BITS
    ensures First(lens, b) <= 0x8000
  {
    CodesFit(lens, MAX_BITS, b);
    Pow2Mono(b, MAX_BITS);
    Pow2Values();
  }

  /** The first code of each length; 16 bits are enough. */
  method NextCodes(blCount: array<ush>, ghost lens: seq<nat>) returns (nextCode: array<ush>)
    requires blCount.Length == MAX_BITS + 1 && Tallies(blCount[..], lens) && Codable(lens)
    ensures fresh(nextCode) && nextCode.Length == MAX_BITS + 1
    ensures forall b :: 1 <= b <= MAX_BITS ==> nextCode[b] == First(lens, b)
  {
    nextCode := new ush[MAX_BITS + 1](_ => 0);
    var code: nat := 0;
    for bits := 1 to MAX_BITS + 1
      invariant code == First(lens, bits - 1)
      invariant forall b :: 1 <= b < bits ==> nextCode[b] == First(lens, b)
    {
      FirstFits(lens, bits);
      assert blCount[bits - 1] == blCount[..][bits - 1] == Used(lens, bits - 1);
      code := (code + blCount[bits - 1]) * 2;
      nextCode[bits] := code;
    }
  }

  method GenCodes(fc: array<ush>, dl: array<ush>, blCount: array<ush>, maxCode: nat)
    requires fc != dl && fc != blCount
    requires maxCode < fc.Length && maxCode < dl.Length
    requires blCount.Length == MAX_BITS + 1 && Tallies(blCount[..], dl[..maxCode + 1])
    requires Codable(dl[..maxCode + 1])
    modifies fc
    ensures forall n :: 0 <= n <= maxCode && dl[n] > 0 ==> Codes(fc[n], dl[..maxCode + 1], n)
    ensures forall n :: 0 <= n < fc.Length && (n > maxCode || dl[n] == 0) ==> fc[n] == old(fc[n])
  {
    hide Lsb, Msb, CodeBits, First, Kraft, Pow2;
    ghost var lens: seq<nat> := dl[..maxCode + 1];
    var nextCode := NextCodes(blCount, lens);
    for n := 0 to maxCode + 1
      invariant dl[..maxCode + 1] == lens
      invariant forall b :: 1 <= b <= MAX_BITS ==> nextCode[b] == First(lens, b) + Count(lens, b, n)
      invariant forall m :: 0 <= m < n && lens[m] > 0 ==> Codes(fc[m], lens, m)
      invariant forall m :: 0 <= m < fc.Length && (m >= n || lens[m] == 0) ==> fc[m] == old(fc[m])
    {
      var len := dl[n];
      assert len == lens[n] <= MAX_BITS;
      if len == 0 { continue; }
      CodeFits(lens, MAX_BITS, n);
      Pow2Mono(len, MAX_BITS);
      Pow2Values();
      var c := nextCode[len];
      assert c == CodeValue(lens, n);
      nextCode[len] := c + 1;
      var r := BitSink.BiReverse(c, len);
      ReversedCodes(r, lens, n);
      fc[n] := r;
    }
  }

  lemma ReversedCodes(r: nat, lens: seq<nat>, n: nat)
    requires n < |lens|
    requires r < Pow2(lens[n]) && Lsb(r, lens[n]) == Msb(CodeValue(lens, n), lens[n])
    ensures Codes(r, lens, n)
  {
  }
}
