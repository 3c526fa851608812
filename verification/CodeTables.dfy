/** The tables that ct_init of gzip.c fills: from match lengths and distances to the
    length and distance codes of section 3.2.5 of RFC 1951. */
module CodeTables {
  import opened Bits
  import opened Limits
  import opened Inflate

  /** Length 3 + lc is sent as code 257 + code, with lc - base in the extra bits. */
  ghost predicate LengthOk(lc: nat, code: nat, base: nat)
  {
    code < LENGTH_CODES &&
    if LENGTH_EXTRA[code] == 0 then LENGTH_BASE[code] == lc + 3
    else base <= lc && lc - base < Pow2(LENGTH_EXTRA[code]) && LENGTH_BASE[code] == base + 3
  }

  /** Distance 1 + dist is sent as code, with dist - base in the extra bits. */
  ghost predicate DistOk(dist: nat, code: nat, base: nat)
  {
    code < D_CODES && base <= dist && dist - base < Pow2(DIST_EXTRA[code]) && DIST_BASE[code] == base + 1
  }

  lemma LengthBases(c: nat)
    requires c < 27
    ensures LENGTH_BASE[c + 1] == LENGTH_BASE[c] + Pow2(LENGTH_EXTRA[c])
  {
  }

  lemma DistBasesLow(c: nat)
    requires c < 15
    ensures DIST_BASE[c + 1] == DIST_BASE[c] + Pow2(DIST_EXTRA[c])
  {
  }

  lemma Pow2Upper(n: nat)
    requires 7 <= n <= 13
    ensures Pow2(n) == if n == 7 then 128 else if n == 8 then 256 else if n == 9 then 512 else if n == 10 then 1024
                       else if n == 11 then 2048 else if n == 12 then 4096 else 8192
    ensures Pow2(n) == 128 * Pow2(n - 7)
  {
    Pow2Values();
    if n > 7 { Pow2Upper(n - 1); }
  }

  lemma DistBasesHigh(c: nat)
    requires 15 <= c < 29
    ensures DIST_BASE[c + 1] == DIST_BASE[c] + Pow2(DIST_EXTRA[c])
  {
    hide Pow2;
    if c == 15 { Pow2Six(); } else { Pow2Upper(DIST_EXTRA[c]); }
  }

  lemma Pow2Six()
    ensures Pow2(6) == 64
  {
  }

  lemma DistBases(c: nat)
    requires c < 29
    ensures DIST_BASE[c + 1] == DIST_BASE[c] + Pow2(DIST_EXTRA[c])
  {
    hide Pow2;
    if c < 15 { DistBasesLow(c); } else { DistBasesHigh(c); }
  }

  class Tables {
    const lengthCode: array<byte>   // the code for a match of length 3 + index
    const distCode: array<byte>     // codes of distances 1 to 256, then of longer ones by their upper bits
    const baseLength: array<nat>    // per code, the least length - 3 it stands for
    const baseDist: array<nat>      // per code, the least distance - 1 it stands for

    ghost predicate Shape()
    {
      lengthCode.Length == 256 && distCode.Length == 512 && baseLength.Length == LENGTH_CODES &&
        baseDist.Length == D_CODES &&
      lengthCode != distCode && baseLength != baseDist
    }

    ghost predicate Valid()
      reads lengthCode, distCode, baseLength, baseDist
    {
      Shape() &&
      (forall lc :: 0 <= lc < 256 ==>
        lengthCode[lc] < LENGTH_CODES && LengthOk(lc, lengthCode[lc], baseLength[lengthCode[lc]])) &&
      (forall i :: 0 <= i < 256 ==> DistEntry(i, distCode[i], baseDist[..])) &&
      (forall i :: 258 <= i < 512 ==> HighEntry(i, distCode[i], baseDist[..]))
    }

    /** D_CODE of gzip.c: the code of distance 1 + dist. */
    function DCode(dist: nat): (code: nat)
      reads lengthCode, distCode, baseLength, baseDist
      requires Valid() && dist < 0x8000
      ensures code < D_CODES && DistOk(dist, code, baseDist[code])
    {
      if dist < 256 then
        assert DistEntry(dist, distCode[dist], baseDist[..]);
        distCode[dist]
      else
        assert HighEntry(256 + dist / 128, distCode[256 + dist / 128], baseDist[..]);
        HighDist(dist, distCode[256 + dist / 128], baseDist[..]);
        distCode[256 + dist / 128]
    }

    constructor ()
      ensures Valid() && fresh(lengthCode) && fresh(distCode) && fresh(baseLength) && fresh(baseDist)
      ensures lengthCode[255] == LENGTH_CODES - 1
    {
      lengthCode := new byte[256](_ => 0);
      distCode := new byte[512](_ => 0);
      baseLength := new nat[LENGTH_CODES](_ => 0);
      baseDist := new nat[D_CODES](_ => 0);
      new;
      InitLengths();
      InitShortDistances();
      InitLongDistances();
    }

    /** Every match length then has the one code whose range holds it; 258 has the code without extra bits. */
    method InitLengths()
      requires Shape()
      modifies lengthCode, baseLength
      ensures forall lc :: 0 <= lc < 256 ==>
        lengthCode[lc] < LENGTH_CODES && LengthOk(lc, lengthCode[lc], baseLength[lengthCode[lc]])
      ensures lengthCode[255] == LENGTH_CODES - 1
    {
      hide Pow2;
      var length := 0;
      var code := 0;
      while code < LENGTH_CODES - 1
        invariant 0 <= code <= 28 && length == (if code == 28 then 256 else LENGTH_BASE[code] - 3)
        invariant forall lc :: 0 <= lc < length ==>
          lengthCode[lc] < code && LengthOk(lc, lengthCode[lc], baseLength[lengthCode[lc]])
      {
        baseLength[code] := length;
        var size := Pow2(LENGTH_EXTRA[code]);
        LengthRoom(code);
        ghost var start := length;
        for n := 0 to size
          invariant length == start + n && baseLength[code] == start
          invariant forall lc :: 0 <= lc < length ==>
            lengthCode[lc] <= code && LengthOk(lc, lengthCode[lc], baseLength[lengthCode[lc]])
        {
          EntryOk(code, start, length, size);
          lengthCode[length] := code;
          length := length + 1;
        }
        code := code + 1;
      }
      // length 258 has a code of its own, without extra bits
      lengthCode[length - 1] := code;
    }

    /** Every distance up to 256 then has the code whose range holds it. */
    method InitShortDistances()
      requires Shape()
      modifies distCode, baseDist
      ensures forall i :: 0 <= i < 256 ==> distCode[i] < 16 && DistEntry(i, distCode[i], baseDist[..])
    {
      hide Pow2, DistEntry;
      var dist := 0;
      for code := 0 to 16
        invariant dist == DIST_BASE[code] - 1
        invariant forall i :: 0 <= i < dist ==> distCode[i] < code && DistEntry(i, distCode[i], baseDist[..])
      {
        ghost var before := baseDist[..];
        baseDist[code] := dist;
        var size := Pow2(DIST_EXTRA[code]);
        DistRoom(code);
        ghost var start := dist;
        KeepEntries(distCode[..], dist, code, before, baseDist[..]);
        for n := 0 to size
          invariant dist == start + n && baseDist[..] == before[code := start]
          invariant forall i :: 0 <= i < dist ==> distCode[i] <= code && DistEntry(i, distCode[i], baseDist[..])
        {
          ShortEntryOk(dist, code, start, baseDist[..], size);
          distCode[dist] := code;
          dist := dist + 1;
        }
      }
    }

    /** Long distances, divided by 128. */
    method InitLongDistances()
      requires Shape()
      requires forall i :: 0 <= i < 256 ==> distCode[i] < 16 && DistEntry(i, distCode[i], baseDist[..])
      modifies distCode, baseDist
      ensures forall i :: 0 <= i < 256 ==> DistEntry(i, distCode[i], baseDist[..])
      ensures forall i :: 258 <= i < 512 ==> HighEntry(i, distCode[i], baseDist[..])
    {
      hide Pow2, DistEntry, HighEntry;
      ghost var low := distCode[..256];
      var dist := 2;
      for code := 16 to D_CODES
        invariant 2 <= dist && 128 * dist == (if code == D_CODES then 32768 else DIST_BASE[code] - 1)
        invariant distCode[..256] == low
        invariant forall i :: 0 <= i < 256 ==> low[i] < 16 && DistEntry(i, low[i], baseDist[..])
        invariant forall i :: 258 <= i < 256 + dist ==> distCode[i] < code && HighEntry(i, distCode[i], baseDist[..])
      {
        ghost var before := baseDist[..];
        baseDist[code] := 128 * dist;
        var size := Pow2(DIST_EXTRA[code] - 7);
        HighRoom(code);
        ghost var start := dist;
        KeepEntries(low, 256, code, before, baseDist[..]);
        KeepHigh(distCode[..], dist, code, before, baseDist[..]);
        for n := 0 to size
          invariant dist == start + n && baseDist[..] == before[code := 128 * start]
          invariant distCode[..256] == low
          invariant forall i :: 258 <= i < 256 + dist ==> distCode[i] <= code && HighEntry(i, distCode[i], baseDist[..])
        {
          HighEntryOk(dist, code, start, baseDist[..], size);
          distCode[256 + dist] := code;
          dist := dist + 1;
        }
      }
      assert forall i :: 0 <= i < 256 ==> distCode[i] == low[i];
    }
  }

  lemma ShortEntryOk(dist: nat, code: nat, start: nat, base: seq<nat>, size: nat)
    requires |base| == D_CODES && code < 16 && base[code] == start == DIST_BASE[code] - 1
    requires start <= dist < start + size && Pow2(DIST_EXTRA[code]) == size
    ensures DistEntry(dist, code, base)
  {
  }

  lemma HighEntryOk(dist: nat, code: nat, start: nat, base: seq<nat>, size: nat)
    requires |base| == D_CODES && 16 <= code < D_CODES && base[code] == 128 * start == DIST_BASE[code] - 1
    requires start <= dist < start + size && Pow2(DIST_EXTRA[code]) == 128 * size
    ensures HighEntry(256 + dist, code, base)
  {
  }

  ghost predicate DistEntry(dist: nat, code: nat, base: seq<nat>)
  {
    |base| == D_CODES && code < D_CODES && DistOk(dist, code, base[code])
  }

  /** All 128 distances with top bits i - 256 belong to code. */
  ghost predicate HighEntry(i: nat, code: nat, base: seq<nat>)
  {
    |base| == D_CODES && 16 <= code < D_CODES && base[code] <= 128 * (i - 256) &&
    128 * (i - 256) + 127 - base[code] < Pow2(DIST_EXTRA[code]) && DIST_BASE[code] == base[code] + 1
  }

  lemma HighDist(dist: nat, code: nat, base: seq<nat>)
    requires HighEntry(256 + dist / 128, code, base)
    ensures DistEntry(dist, code, base)
  {
  }

  lemma LengthRoom(code: nat)
    requires code < 28
    ensures LENGTH_BASE[code] - 3 + Pow2(LENGTH_EXTRA[code]) == if code == 27 then 256 else LENGTH_BASE[code + 1] - 3
    ensures LENGTH_BASE[code] >= 3 && (LENGTH_EXTRA[code] == 0 ==> Pow2(LENGTH_EXTRA[code]) == 1)
    ensures LENGTH_BASE[code] - 3 + Pow2(LENGTH_EXTRA[code]) <= 256
  {
    if code < 27 { LengthBases(code); } else { Pow2Values(); }
  }

  lemma EntryOk(code: nat, start: nat, length: nat, size: nat)
    requires code < 28 && start == LENGTH_BASE[code] - 3 && size == Pow2(LENGTH_EXTRA[code]) &&
      start <= length < start + size
    ensures LengthOk(length, code, start)
  {
    LengthRoom(code);
  }

  lemma DistRoom(code: nat)
    requires code < 16
    ensures DIST_BASE[code] >= 1 && DIST_BASE[code] - 1 + Pow2(DIST_EXTRA[code]) == DIST_BASE[code + 1] - 1 <= 256
  {
    hide Pow2;
    DistBases(code);
  }

  lemma HighRoom(code: nat)
    requires 16 <= code < D_CODES
    ensures DIST_EXTRA[code] >= 7 && Pow2(DIST_EXTRA[code]) == 128 * Pow2(DIST_EXTRA[code] - 7)
    ensures DIST_BASE[code] - 1 + Pow2(DIST_EXTRA[code]) ==
      (if code == D_CODES - 1 then 32768 else DIST_BASE[code + 1] - 1)
    ensures DIST_BASE[code] - 1 + Pow2(DIST_EXTRA[code]) <= 32768
  {
    hide Pow2;
    Pow2Upper(DIST_EXTRA[code]);
    if code < 29 { DistBases(code); }
  }

  lemma KeepEntries(codes: seq<nat>, n: nat, code: nat, base: seq<nat>, base': seq<nat>)
    requires n <= |codes| && |base| == |base'| == D_CODES && code < D_CODES
    requires forall c :: 0 <= c < D_CODES && c != code ==> base'[c] == base[c]
    requires forall i :: 0 <= i < n ==> codes[i] < code && DistEntry(i, codes[i], base)
    ensures forall i :: 0 <= i < n ==> DistEntry(i, codes[i], base')
  {
  }

  lemma KeepHigh(codes: seq<nat>, n: nat, code: nat, base: seq<nat>, base': seq<nat>)
    requires |codes| == 512 && n <= 256 && |base| == |base'| == D_CODES && code < D_CODES
    requires forall c :: 0 <= c < D_CODES && c != code ==> base'[c] == base[c]
    requires forall i :: 258 <= i < 256 + n ==> codes[i] < code && HighEntry(i, codes[i], base)
    ensures forall i :: 258 <= i < 256 + n ==> HighEntry(i, codes[i], base')
  {
  }
}
