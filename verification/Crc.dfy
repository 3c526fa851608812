/** crc32.c of libbb and updcrc of gzip.c: the table-driven CRC-32, against polynomial
    division one bit at a time (section 8 of RFC 1952). */
module Crc {
  import opened Bits

  const POLYNOMIAL: nat := 0xedb88320

  type Word = x: int | 0 <= x < 0x1_0000_0000

  // ---- algebra of "exclusive or" ----

  lemma {:induction false} XorComm(a: nat, b: nat)
    ensures BitXor(a, b) == BitXor(b, a)
    decreases a
  {
    if a != 0 && b != 0 { XorComm(a / 2, b / 2); }
  }

  lemma {:induction false} XorAssoc(a: nat, b: nat, c: nat)
    ensures BitXor(BitXor(a, b), c) == BitXor(a, BitXor(b, c))
    decreases a + b + c
  {
    hide BitXor;
    BitXorStep(a, b);
    BitXorStep(b, c);
    var x, y := BitXor(BitXor(a, b), c), BitXor(a, BitXor(b, c));
    BitXorStep(BitXor(a, b), c);
    BitXorStep(a, BitXor(b, c));
    if a + b + c > 0 {
      XorAssoc(a / 2, b / 2, c / 2);
      SameHalves(x, y);
    } else {
      ZeroXor(0);
    }
  }

  lemma SameHalves(x: nat, y: nat)
    requires x / 2 == y / 2 && x % 2 == y % 2
    ensures x == y
  {
  }

  lemma {:induction false} XorSelf(a: nat)
    ensures BitXor(a, a) == 0
    decreases a
  {
    if a != 0 { XorSelf(a / 2); }
  }

  lemma {:induction false} XorSmall(a: nat, b: nat, k: nat)
    requires a < Pow2(k) && b < Pow2(k)
    ensures BitXor(a, b) < Pow2(k)
    decreases k
  {
    if k > 0 { XorSmall(a / 2, b / 2, k - 1); }
  }

  lemma Pow32()
    ensures Pow2(32) == 0x1_0000_0000 && Pow2(8) == 256 && Pow2(24) == 0x100_0000
  {
    assert Pow2(8) == 256;
    assert Pow2(16) == 256 * Pow2(8);
    assert Pow2(24) == 256 * Pow2(16);
    assert Pow2(32) == 256 * Pow2(24);
  }

  /** "Exclusive or" of 32-bit values. */
  function Xor32(a: Word, b: Word): (r: Word)
  {
    Pow32();
    XorSmall(a, b, 32);
    BitXor(a, b)
  }

  // ---- division by the polynomial ----

  /** One bit of the division. */
  function BitStep(c: Word): (r: Word)
  {
    if c % 2 == 1 then Xor32(c / 2, POLYNOMIAL) else c / 2
  }

  function BitSteps(c: Word, n: nat): (r: Word)
    decreases n
  {
    if n == 0 then c else BitSteps(BitStep(c), n - 1)
  }

  /** Section 8 of RFC 1952, without the complements: feed one byte, then a whole string. */
  function FeedByte(c: Word, b: byte): (r: Word)
  {
    BitSteps(Xor32(c, b), 8)
  }

  function Feed(c: Word, bs: seq<byte>): (r: Word)
    decreases |bs|
  {
    if bs == [] then c else FeedByte(Feed(c, bs[..|bs| - 1]), bs[|bs| - 1])
  }

  lemma {:induction false} FeedConcat(c: Word, a: seq<byte>, b: seq<byte>)
    ensures Feed(c, a + b) == Feed(Feed(c, a), b)
    decreases |b|
  {
    if b == [] {
      assert a + b == a;
    } else {
      assert (a + b)[..|a + b| - 1] == a + b[..|b| - 1];
      FeedConcat(c, a, b[..|b| - 1]);
    }
  }

  // ---- the table ----

  /** A step distributes over "exclusive or". */
  lemma StepLinear(a: Word, b: Word)
    ensures BitStep(Xor32(a, b)) == Xor32(BitStep(a), BitStep(b))
  {
    hide BitXor;
    BitXorStep(a, b);
    var p, a', b' := POLYNOMIAL, a / 2, b / 2;
    if a % 2 == 1 && b % 2 == 1 {
      // (a' ^ p) ^ (b' ^ p) == a' ^ b'
      XorComm(b', p);
      XorAssoc(BitXor(a', p), p, b');
      XorAssoc(a', p, p);
      XorSelf(p);
      XorComm(a', 0);
      ZeroXor(a');
    } else if a % 2 == 1 {
      XorAssoc(a', p, b');
      XorComm(p, b');
      XorAssoc(a', b', p);
    } else if b % 2 == 1 {
      XorAssoc(a', b', p);
    }
  }

  lemma ZeroXor(a: nat)
    ensures BitXor(0, a) == a
  {
  }

  lemma {:induction false} StepsLinear(a: Word, b: Word, n: nat)
    ensures BitSteps(Xor32(a, b), n) == Xor32(BitSteps(a, n), BitSteps(b, n))
    decreases n
  {
    if n > 0 {
      StepLinear(a, b);
      StepsLinear(BitStep(a), BitStep(b), n - 1);
    }
  }

  /** Zero bits at the low end are shifted out without touching the rest. */
  lemma {:induction false} StepsShift(a: Word, n: nat)
    requires Low(a, n) == 0
    ensures BitSteps(a, n) == Shr(a, n)
    decreases n
  {
    if n > 0 { StepsShift(a / 2, n - 1); }
  }

  /** A number is its low bits "exclusive or" the others. */
  lemma {:induction false} LowHigh(a: nat, k: nat)
    ensures Low(a, k) <= a && Low(a - Low(a, k), k) == 0 && BitXor(Low(a, k), a - Low(a, k)) == a
    ensures Shr(a - Low(a, k), k) == Shr(a, k)
    decreases k
  {
    hide BitXor;
    if k > 0 {
      LowHigh(a / 2, k - 1);
      var l, l' := Low(a, k), Low(a / 2, k - 1);
      var d := a - l;
      assert d == 2 * (a / 2 - l');
      assert d / 2 == a / 2 - l' && d % 2 == 0 && l / 2 == l' && l % 2 == a % 2;
      BitXorStep(l, d);
      SameHalves(BitXor(l, d), a);
    } else {
      ZeroXor(a);
    }
  }

  /** The table lookup of crc32_block_endian0 does eight steps at once. */
  lemma TableStep(x: Word)
    requires Shr(x, 8) < 0x1_0000_0000
    ensures Xor32(BitSteps(Low(x, 8), 8), Shr(x, 8)) == BitSteps(x, 8)
  {
    hide BitSteps, Low, Shr, BitXor;
    Pow32();
    LowHigh(x, 8);
    var l := Low(x, 8);
    StepsLinear(l, x - l, 8);
    StepsShift(x - l, 8);
  }

  lemma {:induction false} XorParts(c: nat, b: nat, k: nat)
    requires b < Pow2(k)
    ensures Low(BitXor(c, b), k) == BitXor(Low(c, k), b) && Shr(BitXor(c, b), k) == Shr(c, k)
    decreases k
  {
    BitXorStep(c, b);
    if k > 0 {
      XorParts(c / 2, b / 2, k - 1);
      var l := Low(c, k);
      BitXorStep(l, b);
      var x := BitXor(l, b);
      assert l / 2 == Low(c / 2, k - 1) && l % 2 == c % 2;
      assert Low(BitXor(c, b), k) % 2 == x % 2 && Low(BitXor(c, b), k) / 2 == x / 2;
    }
  }

  /** crc32_filltable(NULL, 0). */
  method FillTable() returns (table: array<Word>)
    ensures fresh(table) && table.Length == 256 && forall i: byte :: table[i] == BitSteps(i, 8)
  {
    table := new Word[256](_ => 0);
    for i := 0 to 256
      invariant forall k: byte :: k < i ==> table[k] == BitSteps(k, 8)
    {
      var c: Word := i;
      for j := 0 to 8
        invariant BitSteps(i, 8) == BitSteps(c, 8 - j)
      {
        c := if c % 2 == 1 then Xor32(c / 2, POLYNOMIAL) else c / 2;
      }
      table[i] := c;
    }
  }

  /** crc32_block_endian0 on n bytes of buf from at on. */
  method UpdateCrc(val: Word, buf: array<byte>, at: nat, n: nat, table: array<Word>) returns (r: Word)
    requires at + n <= buf.Length && table.Length == 256 && forall i: byte :: table[i] == BitSteps(i, 8)
    ensures r == Feed(val, buf[at..at + n])
  {
    hide BitSteps, BitXor, Low, Shr;
    r := val;
    var i := 0;
    while i < n
      invariant 0 <= i <= n && r == Feed(val, buf[at..at + i])
    {
      ghost var b := buf[at + i];
      Index(r, b);
      r := Xor32(table[BitXor(Low(r, 8), buf[at + i])], Shr(r, 8));
      i := i + 1;
      assert buf[at..at + i] == buf[at..at + i - 1] + [b];
    }
  }

  lemma Index(c: Word, b: byte)
    ensures BitXor(Low(c, 8), b) < 256 && Shr(c, 8) < 0x1_0000_0000
    ensures Xor32(BitSteps(BitXor(Low(c, 8), b), 8), Shr(c, 8)) == FeedByte(c, b)
  {
    hide BitSteps, BitXor, Low, Shr;
    Pow32();
    XorSmall(Low(c, 8), b, 8);
    XorParts(c, b, 8);
    ShrSmall(c, 8, 24);
    TableStep(Xor32(c, b));
  }
}
