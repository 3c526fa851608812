/** The token buffers of gzip.c: literals and lengths in one, distances in another,
    and one flag bit per token to tell them apart. */
module TokenBuffer {
  import opened Bits
  import opened Limits
  import opened Inflate
  import opened Tokens

  /** The number of matches among the first n items. */
  ghost function Matches(items: seq<Item>, n: nat): (m: nat)
    requires n <= |items|
    ensures m <= n
  {
    if n == 0 then 0 else Matches(items, n - 1) + if items[n - 1].Match? then 1 else 0
  }

  /** The flags of n items from start on, first item in the lowest bit. */
  ghost function FlagByte(items: seq<Item>, start: nat, n: nat): (f: nat)
    requires start + n <= |items|
    ensures f < Pow2(n)
    decreases n
  {
    if n == 0 then 0 else (if items[start].Match? then 1 else 0) + 2 * FlagByte(items, start + 1, n - 1)
  }

  lemma {:induction false} FlagByteGrow(items: seq<Item>, start: nat, n: nat)
    requires start + n < |items|
    ensures FlagByte(items, start, n + 1) == FlagByte(items, start, n) + if items[start + n].Match? then Pow2(n) else 0
    decreases n
  {
    if n > 0 { FlagByteGrow(items, start + 1, n - 1); }
  }

  lemma {:induction false} FlagBytePush(items: seq<Item>, item: Item, start: nat, n: nat)
    requires start + n <= |items|
    ensures FlagByte(items + [item], start, n) == FlagByte(items, start, n)
    decreases n
  {
    if n > 0 { FlagBytePush(items, item, start + 1, n - 1); }
  }

  lemma {:induction false} MatchesPush(items: seq<Item>, item: Item, n: nat)
    requires n <= |items|
    ensures Matches(items + [item], n) == Matches(items, n)
  {
    if n > 0 { MatchesPush(items, item, n - 1); }
  }

  lemma {:induction false} MatchesMono(items: seq<Item>, m: nat, n: nat)
    requires m <= n <= |items|
    ensures Matches(items, m) <= Matches(items, n)
    ensures m < n && items[m].Match? ==> Matches(items, m) < Matches(items, n)
    decreases n
  {
    if m < n { MatchesMono(items, m, n - 1); }
  }

  /** l_buf entry: the literal, or the match length - MIN_MATCH. */
  ghost function LitLen(item: Item): (c: int)
  {
    if item.Literal? then item.b else if item.Match? then item.len - MIN_MATCH else 0
  }

  /** The three buffers represent items; the flags of the last, incomplete byte are in flags. */
  ghost predicate Represents(items: seq<Item>, lBuf: seq<byte>, dBuf: seq<ush>, flagBuf: seq<byte>)
  {
    |lBuf| == LIT_BUFSIZE && |dBuf| == DIST_BUFSIZE && |flagBuf| == LIT_BUFSIZE / 8 && |items| < LIT_BUFSIZE &&
      ItemsOk(items) &&
    (forall i :: 0 <= i < |items| ==> lBuf[i] == LitLen(items[i])) &&
    (forall i :: 0 <= i < |items| && items[i].Match? ==> dBuf[Matches(items, i)] == items[i].dist - 1) &&
    (forall k :: 0 <= k < |items| / 8 ==> flagBuf[k] == FlagByte(items, 8 * k, 8))
  }

  lemma RepresentsPush(items: seq<Item>, item: Item, lBuf: seq<byte>, dBuf: seq<ush>, flagBuf: seq<byte>,
                       lBuf': seq<byte>, dBuf': seq<ush>, flagBuf': seq<byte>)
    requires Represents(items, lBuf, dBuf, flagBuf) && ItemOk(item) && |items| + 1 < LIT_BUFSIZE
    requires lBuf' == lBuf[|items| := LitLen(item)]
    requires item.Match? ==> dBuf' == dBuf[Matches(items, |items|) := item.dist - 1]
    requires !item.Match? ==> dBuf' == dBuf
    requires (|items| + 1) % 8 == 0 ==>
      flagBuf' == flagBuf[|items| / 8 := FlagByte(items + [item], 8 * (|items| / 8), 8)]
    requires (|items| + 1) % 8 != 0 ==> flagBuf' == flagBuf
    ensures Represents(items + [item], lBuf', dBuf', flagBuf')
  {
    hide FlagByte, Matches;
    var items' := items + [item];
    MatchesPush(items, item, |items|);
    forall i | 0 <= i < |items'| && items'[i].Match? ensures dBuf'[Matches(items', i)] == items'[i].dist - 1 {
      MatchesPush(items, item, i);
      if i < |items| { MatchesMono(items, i, |items|); }
    }
    forall k | 0 <= k < |items'| / 8 ensures flagBuf'[k] == FlagByte(items', 8 * k, 8) {
      if k < |items| / 8 { FlagBytePush(items, item, 8 * k, 8); }
    }
  }

  class Buffer {
    const lBuf: array<byte>
    const dBuf: array<ush>
    const flagBuf: array<byte>
    var lastLit: nat      // tokens stored
    var lastDist: nat     // matches among them
    var lastFlags: nat    // full flag bytes stored
    var flags: nat        // flags of the tokens after the last full byte
    var flagBit: nat      // the flag of the next token
    ghost var items: seq<Item>

    ghost predicate Valid()
      reads this, lBuf, dBuf, flagBuf
    {
      lBuf != flagBuf && Represents(items, lBuf[..], dBuf[..], flagBuf[..]) &&
      lastLit == |items| && lastDist == Matches(items, |items|) && lastFlags == |items| / 8 &&
      flagBit == Pow2(|items| % 8) && flags == FlagByte(items, 8 * (|items| / 8), |items| % 8)
    }

    constructor ()
      ensures Valid() && items == [] && fresh(lBuf) && fresh(dBuf) && fresh(flagBuf)
    {
      lBuf := new byte[LIT_BUFSIZE](_ => 0);
      dBuf := new ush[DIST_BUFSIZE](_ => 0);
      flagBuf := new byte[LIT_BUFSIZE / 8](_ => 0);
      lastLit, lastDist, lastFlags, flags, flagBit := 0, 0, 0, 0, 1;
      items := [];
    }

    /** Start a new block (part of init_block). */
    method Clear()
      requires Valid()
      modifies this
      ensures Valid() && items == []
    {
      hide FlagByte;
      lastLit, lastDist, lastFlags, flags, flagBit := 0, 0, 0, 0, 1;
      items := [];
      NoFlags();
    }

    /** Save one token (the buffer part of ct_tally); dist is 0 for a literal. */
    method Push(dist: nat, lc: byte)
      requires Valid() && lastLit + 1 < LIT_BUFSIZE && dist <= 0x8000
      modifies this, lBuf, dBuf, flagBuf
      ensures Valid()
      ensures items == old(items) + [if dist == 0 then Literal(lc) else Match(lc + MIN_MATCH, dist)]
    {
      hide FlagByte, Matches, Represents, Pow2, BitOr;
      ghost var item := if dist == 0 then Literal(lc) else Match(lc + MIN_MATCH, dist);
      ghost var its, r := items, lastLit % 8;
      Shape(items, lBuf[..], dBuf[..], flagBuf[..]);
      ghost var l, d, f := lBuf[..], dBuf[..], flagBuf[..];
      FlagBits(its, item, flags);
      lBuf[lastLit] := lc;
      lastLit := lastLit + 1;
      if dist != 0 {
        dBuf[lastDist] := dist - 1;
        lastDist := lastDist + 1;
        flags := BitOr(flags, flagBit);
      }
      flagBit := flagBit * 2;
      items := its + [item];
      MatchesPushed(its, item);
      if lastLit % 8 == 0 {
        flagBuf[lastFlags] := flags;
        lastFlags := lastFlags + 1;
        flags := 0;
        flagBit := 1;
      }
      RepresentsPush(its, item, l, d, f, lBuf[..], dBuf[..], flagBuf[..]);
      NewFlags(items);
      assert lastLit == |items| && lastDist == Matches(items, |items|) && lastFlags == |items| / 8;
    }
  }

  lemma NoFlags()
    ensures FlagByte([], 0, 0) == 0 && Pow2(0) == 1
  {
  }

  lemma Shape(items: seq<Item>, lBuf: seq<byte>, dBuf: seq<ush>, flagBuf: seq<byte>)
    requires Represents(items, lBuf, dBuf, flagBuf)
    ensures |lBuf| == LIT_BUFSIZE && |dBuf| == DIST_BUFSIZE && |flagBuf| == LIT_BUFSIZE / 8
    ensures Matches(items, |items|) <= |items| < LIT_BUFSIZE && ItemsOk(items)
  {
  }

  lemma MatchesPushed(items: seq<Item>, item: Item)
    ensures Matches(items + [item], |items| + 1) == Matches(items, |items|) + if item.Match? then 1 else 0
  {
    MatchesPush(items, item, |items|);
  }

  lemma NewFlags(items: seq<Item>)
    ensures |items| % 8 == 0 ==> FlagByte(items, 8 * (|items| / 8), |items| % 8) == 0 && Pow2(|items| % 8) == 1
    ensures |items| % 8 != 0 ==> Pow2(|items| % 8) == 2 * Pow2(|items| % 8 - 1)
  {
  }

  /** Setting the current flag bit adds the flag of the new item. */
  lemma FlagBits(items: seq<Item>, item: Item, flags: nat)
    requires flags == FlagByte(items, 8 * (|items| / 8), |items| % 8)
    ensures var f := if item.Match? then BitOr(flags, Pow2(|items| % 8)) else flags;
            f == FlagByte(items + [item], 8 * (|items| / 8), |items| % 8 + 1) < 256
  {
    var start, n := 8 * (|items| / 8), |items| % 8;
    FlagBytePush(items, item, start, n);
    FlagByteGrow(items + [item], start, n);
    BitOrShl(flags, 1, n);
    ShlOne(n);
    Pow2Mono(n + 1, 8);
    Pow2Values();
  }

  lemma {:induction false} ShlOne(n: nat)
    ensures Shl(1, n) == Pow2(n)
  {
    if n > 0 { ShlOne(n - 1); }
  }
}
