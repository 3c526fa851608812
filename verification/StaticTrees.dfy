/** The static trees that ct_init of gzip.c constructs: the fixed codes of section
    3.2.6 of RFC 1951. */
module StaticTrees {
  import opened Bits
  import opened Limits
  import opened Canonical
  import opened Inflate
  import opened TreeSender
  import GenCodes
  import BitSink

  lemma {:induction false} FixedCounts(b: nat, n: nat)
    requires n <= 288
    ensures b == 7 ==> Count(FixedLengths(), b, n) == if n <= 256 then 0 else if n <= 280 then n - 256 else 24
    ensures b == 8 ==> Count(FixedLengths(), b, n) == if n <= 144 then n else if n <= 280 then 144 else n - 136
    ensures b == 9 ==> Count(FixedLengths(), b, n) == if n <= 144 then 0 else if n <= 256 then n - 144 else 112
    ensures b < 7 || b > 9 ==> Count(FixedLengths(), b, n) == 0
  {
    if n > 0 { FixedCounts(b, n - 1); }
  }

  lemma {:induction false} FixedKraft(n: nat)
    requires n <= 288
    ensures Bounded(FixedLengths(), MAX_BITS)
    ensures Kraft(FixedLengths(), MAX_BITS, n) ==
            if n <= 144 then 128 * n else if n <= 256 then 18432 + 64 * (n - 144)
            else if n <= 280 then 25600 + 256 * (n - 256) else 31744 + 128 * (n - 280)
  {
    if n > 0 {
      FixedKraft(n - 1);
      assert Pow2(6) == 64 && Pow2(7) == 128 && Pow2(8) == 256;
    }
  }

  /** The fixed literal/length code fills the code space exactly. */
  lemma FixedDecodable()
    ensures Decodable(FixedLengths(), 15) && GenCodes.Codable(FixedLengths())
  {
    hide Kraft, Pow2;
    FixedKraft(288);
    Pow2Values();
  }

  lemma {:induction false} FixedDistKraft(n: nat)
    requires n <= 32
    ensures Bounded(FixedDistances(), MAX_BITS) && Kraft(FixedDistances(), MAX_BITS, n) == 1024 * n
  {
    if n > 0 {
      FixedDistKraft(n - 1);
      assert Pow2(10) == 1024;
    }
  }

  lemma FixedDistDecodable()
    ensures Decodable(FixedDistances(), 15)
  {
    hide Kraft, Pow2;
    FixedDistKraft(32);
    Pow2Values();
  }

  lemma {:induction false} FiveCount(b: nat, n: nat)
    requires n <= 32
    ensures Count(FixedDistances(), b, n) == if b == 5 then n else 0
  {
    if n > 0 { FiveCount(b, n - 1); }
  }

  lemma {:induction false} FiveFirst(b: nat)
    requires b <= 5
    ensures First(FixedDistances(), b) == 0
  {
    if b > 0 {
      FiveFirst(b - 1);
      FiveCount(b - 1, 32);
    }
  }

  /** The fixed distance codes are the symbols themselves, in five bits. */
  lemma FixedDistCode(n: nat)
    requires n < 32
    ensures CodeValue(FixedDistances(), n) == n
  {
    hide First, Count;
    FiveFirst(5);
    FiveCount(5, n);
  }

  method InitLiteral() returns (t: CodeTree)
    ensures t.len == FixedLengths() && |t.code| == 288 && Ready(t, FixedLengths())
  {
    hide Kraft, Pow2, Count, GenCodes.Codes;
    var fc := new ush[288](_ => 0);
    var dl := new ush[288](_ => 0);
    var blCount := new ush[MAX_BITS + 1](_ => 0);
    FillLengths(dl, blCount);
    ghost var lens: seq<nat> := FixedLengths();
    forall b | 0 <= b <= MAX_BITS ensures blCount[b] == Used(lens, b) { FixedCounts(b, 288); }
    FixedDecodable();
    assert dl[..288] == dl[..] == lens;
    GenCodes.GenCodes(fc, dl, blCount, 287);
    t := CodeTree(fc[..], dl[..]);
  }

  method FillLengths(dl: array<ush>, blCount: array<ush>)
    requires dl != blCount && dl.Length == 288 && blCount.Length == MAX_BITS + 1
    requires forall b :: 0 <= b <= MAX_BITS ==> blCount[b] == 0
    modifies dl, blCount
    ensures dl[..] == FixedLengths()
    ensures forall b :: 0 <= b <= MAX_BITS ==>
      blCount[b] == if b == 7 then 24 else if b == 8 then 152 else if b == 9 then 112 else 0
  {
    var n := 0;
    n := FillRun(dl, blCount, n, 143, 8);
    n := FillRun(dl, blCount, n, 255, 9);
    n := FillRun(dl, blCount, n, 279, 7);
    n := FillRun(dl, blCount, n, 287, 8);
  }

  /** The symbols from n0 to last get length len, and are counted. */
  method FillRun(dl: array<ush>, blCount: array<ush>, n0: nat, last: nat, len: nat) returns (n: nat)
    requires dl != blCount && dl.Length == 288 && blCount.Length == MAX_BITS + 1 && n0 <= last < 288 && len <= MAX_BITS
    requires blCount[len] < 1000
    modifies dl, blCount
    ensures n == last + 1
    ensures forall i :: 0 <= i < 288 ==> dl[i] == if n0 <= i <= last then len else old(dl[i])
    ensures forall b :: 0 <= b <= MAX_BITS ==> blCount[b] == old(blCount[b]) + if b == len then last + 1 - n0 else 0
  {
    n := n0;
    while n <= last
      invariant n0 <= n <= last + 1
      invariant forall i :: 0 <= i < 288 ==> dl[i] == if n0 <= i < n then len else old(dl[i])
      invariant forall b :: 0 <= b <= MAX_BITS ==> blCount[b] == old(blCount[b]) + if b == len then n - n0 else 0
    {
      dl[n] := len;
      n := n + 1;
      blCount[len] := blCount[len] + 1;
    }
  }

  method InitDistance() returns (t: CodeTree)
    ensures |t.len| == |t.code| == 30 && (forall n :: 0 <= n < 30 ==> t.len[n] == 5) && Ready(t, FixedDistances())
  {
    hide Pow2, Msb, Lsb, First, Count;
    var fc := new ush[30](_ => 0);
    var dl := new ush[30](_ => 0);
    ghost var lens: seq<nat> := FixedDistances();
    for n := 0 to 30
      invariant forall i :: 0 <= i < n ==> dl[i] == 5 && GenCodes.Codes(fc[i], lens, i)
    {
      dl[n] := 5;
      Pow2Values();
      var r := BitSink.BiReverse(n, 5);
      FixedDistCode(n);
      fc[n] := r;
    }
    t := CodeTree(fc[..], dl[..]);
  }
}
