/** Numbers as bit strings: the vocabulary shared by the bit packer, the code
    generator, the window hash and the specification inflater. */
module Bits {

  type byte = x: int | 0 <= x < 256
  type ush = x: int | 0 <= x < 0x10000

  /** A C string without its terminator. */
  type CString = s: seq<byte> | 0 !in s

  datatype Option<+T> = None | Some(value: T) {
    predicate IsFailure() { None? }
    function PropagateFailure<U>(): Option<U> requires None? { None }
    function Extract(): T requires Some? { value }
  }

  function Pow2(n: nat): (p: nat)
    ensures p >= 1
  {
    if n == 0 then 1 else 2 * Pow2(n - 1)
  }

  lemma {:induction false} Pow2Mono(m: nat, n: nat)
    requires m <= n
    ensures Pow2(m) <= Pow2(n)
  {
    if m < n { Pow2Mono(m, n - 1); }
  }

  lemma Pow2Values()
    ensures Pow2(3) == 8 && Pow2(4) == 16 && Pow2(5) == 32 && Pow2(7) == 128 && Pow2(8) == 256
    ensures Pow2(13) == 8192 && Pow2(15) == 0x8000 && Pow2(16) == 0x10000
  {
    assert Pow2(8) == 256;
    assert Pow2(13) == 32 * Pow2(8);
  }

  // ---- C's shifts and masks on unsigned values ----

  /** v << k, without a width. */
  function Shl(v: nat, k: nat): (r: nat)
  {
    if k == 0 then v else 2 * Shl(v, k - 1)
  }

  /** v >> k. */
  function Shr(v: nat, k: nat): (r: nat)
  {
    if k == 0 then v else Shr(v / 2, k - 1)
  }

  /** v & ((1 << k) - 1): the k low-order bits. */
  function Low(v: nat, k: nat): (r: nat)
    ensures r < Pow2(k)
  {
    if k == 0 then 0 else v % 2 + 2 * Low(v / 2, k - 1)
  }

  /** v | w. */
  function BitOr(v: nat, w: nat): (r: nat)
  {
    if v == 0 then w
    else if w == 0 then v
    else (if v % 2 == 1 || w % 2 == 1 then 1 else 0) + 2 * BitOr(v / 2, w / 2)
  }

  /** v ^ w. */
  function BitXor(v: nat, w: nat): (r: nat)
  {
    if v == 0 then w
    else if w == 0 then v
    else (v % 2 + w % 2) % 2 + 2 * BitXor(v / 2, w / 2)
  }

  lemma {:induction false} LowSmall(v: nat, k: nat)
    requires v < Pow2(k)
    ensures Low(v, k) == v
  {
    if k > 0 { LowSmall(v / 2, k - 1); }
  }

  lemma {:induction false} ShrSmall(v: nat, k: nat, m: nat)
    requires v < Pow2(k + m)
    ensures Shr(v, k) < Pow2(m)
  {
    if k > 0 { ShrSmall(v / 2, k - 1, m); }
  }

  lemma {:induction false} ShlSmall(v: nat, k: nat, m: nat)
    requires v < Pow2(m)
    ensures Shl(v, k) < Pow2(k + m)
  {
    if k > 0 { ShlSmall(v, k - 1, m); }
  }

  /** Two numbers laid side by side: a below bit k, b from bit k on. */
  lemma {:induction false} BitOrShl(a: nat, b: nat, k: nat)
    requires a < Pow2(k)
    ensures BitOr(a, Shl(b, k)) == a + Shl(b, k)
    decreases k
  {
    if k > 0 { BitOrShl(a / 2, b, k - 1); }
  }

  lemma BitXorStep(v: nat, w: nat)
    ensures BitXor(v, w) % 2 == (v % 2 + w % 2) % 2
    ensures BitXor(v, w) / 2 == BitXor(v / 2, w / 2)
  {
    if v == 0 {
      assert BitXor(0, w / 2) == w / 2;
    } else if w == 0 {
      assert BitXor(v / 2, 0) == v / 2;
    } else {
      var b, h := (v % 2 + w % 2) % 2, BitXor(v / 2, w / 2);
      assert BitXor(v, w) == b + 2 * h;
    }
  }

  /** Low-order bits of an "exclusive or" depend on low-order bits only. */
  lemma {:induction false} BitXorLow(v: nat, v': nat, w: nat, k: nat)
    requires Low(v, k) == Low(v', k)
    ensures Low(BitXor(v, w), k) == Low(BitXor(v', w), k)
    decreases k
  {
    hide BitXor;
    if k > 0 {
      BitXorStep(v, w); BitXorStep(v', w);
      BitXorLow(v / 2, v' / 2, w / 2, k - 1);
    }
  }

  /** "Exclusive or" with a fixed value is injective on k-bit values, already in the low k bits. */
  lemma {:induction false} BitXorCancel(v: nat, a: nat, b: nat, k: nat)
    requires a < Pow2(k) && b < Pow2(k)
    requires Low(BitXor(v, a), k) == Low(BitXor(v, b), k)
    ensures a == b
    decreases k
  {
    hide BitXor;
    if k > 0 {
      BitXorStep(v, a); BitXorStep(v, b);
      BitXorCancel(v / 2, a / 2, b / 2, k - 1);
    }
  }

  lemma {:induction false} LowLow(v: nat, k: nat, m: nat)
    requires k <= m
    ensures Low(Low(v, m), k) == Low(v, k)
    decreases k
  {
    if k > 0 { LowLow(v / 2, k - 1, m - 1); }
  }

  // ---- bit strings ----

  /** The n low-order bits of v, least significant bit first. */
  function Lsb(v: nat, n: nat): (b: seq<bool>)
    ensures |b| == n
  {
    if n == 0 then [] else [v % 2 == 1] + Lsb(v / 2, n - 1)
  }

  /** The n low-order bits of v, most significant bit first. */
  function Msb(v: nat, n: nat): (b: seq<bool>)
    ensures |b| == n
  {
    if n == 0 then [] else Msb(v / 2, n - 1) + [v % 2 == 1]
  }

  /** The number spelled by bits, least significant bit first. */
  function LsbValue(b: seq<bool>): (v: nat)
  {
    if b == [] then 0 else (if b[0] then 1 else 0) + 2 * LsbValue(b[1..])
  }

  lemma {:induction false} LsbRoundTrip(v: nat, n: nat)
    requires v < Pow2(n)
    ensures LsbValue(Lsb(v, n)) == v
  {
    if n > 0 {
      LsbRoundTrip(v / 2, n - 1);
      assert Lsb(v, n)[1..] == Lsb(v / 2, n - 1);
    }
  }

  /** Splitting a number at bit k splits its spelling at index k. */
  lemma {:induction false} LsbSplit(v: nat, k: nat, m: nat)
    ensures Lsb(v, k + m) == Lsb(v, k) + Lsb(Shr(v, k), m)
  {
    if k == 0 {
      assert Lsb(v, m) == [] + Lsb(v, m);
    } else {
      LsbSplit(v / 2, k - 1, m);
      var s, t := Lsb(v / 2, k - 1), Lsb(Shr(v, k), m);
      assert [v % 2 == 1] + (s + t) == ([v % 2 == 1] + s) + t;
    }
  }

  lemma {:induction false} LsbConcat(a: nat, b: nat, k: nat, m: nat)
    requires a < Pow2(k)
    ensures Lsb(a + Shl(b, k), k + m) == Lsb(a, k) + Lsb(b, m)
    decreases k
  {
    if k == 0 {
      assert Lsb(b, m) == [] + Lsb(b, m);
    } else {
      LsbConcat(a / 2, b, k - 1, m);
      var v := a + Shl(b, k);
      assert v % 2 == a % 2 && v / 2 == a / 2 + Shl(b, k - 1);
      var s, t := Lsb(a / 2, k - 1), Lsb(b, m);
      assert [a % 2 == 1] + (s + t) == ([a % 2 == 1] + s) + t;
    }
  }

  lemma {:induction false} LsbLow(v: nat, k: nat)
    ensures Lsb(Low(v, k), k) == Lsb(v, k)
  {
    if k > 0 { LsbLow(v / 2, k - 1); }
  }

  /** The bits of a byte string, each byte least significant bit first. */
  function ByteBits(bs: seq<byte>): (b: seq<bool>)
    ensures |b| == 8 * |bs|
  {
    if bs == [] then [] else ByteBits(bs[..|bs| - 1]) + Lsb(bs[|bs| - 1], 8)
  }

  lemma ByteBitsPush(bs: seq<byte>, c: byte)
    ensures ByteBits(bs + [c]) == ByteBits(bs) + Lsb(c, 8)
  {
    assert (bs + [c])[..|bs|] == bs;
  }

  lemma {:induction false} ByteBitsConcat(a: seq<byte>, b: seq<byte>)
    ensures ByteBits(a + b) == ByteBits(a) + ByteBits(b)
  {
    if b == [] {
      assert a + b == a;
    } else {
      var b', c := b[..|b| - 1], b[|b| - 1];
      ByteBitsConcat(a, b');
      calc {
        ByteBits(a + b);
        { assert a + b == (a + b') + [c]; ByteBitsPush(a + b', c); }
        ByteBits(a + b') + Lsb(c, 8);
        ByteBits(a) + (ByteBits(b') + Lsb(c, 8));
        ByteBits(a) + ByteBits(b);
      }
    }
  }

  /** x occurs in the bit stream at position pos. */
  predicate At(bits: seq<bool>, pos: nat, x: seq<bool>)
  {
    pos + |x| <= |bits| && bits[pos..pos + |x|] == x
  }

  lemma SeqSum(a: seq<bool>, b: seq<bool>, c: seq<bool>)
    ensures (a + b) + c == a + (b + c)
  {
  }

  lemma AtSplit(bits: seq<bool>, pos: nat, x: seq<bool>, y: seq<bool>)
    requires At(bits, pos, x + y)
    ensures At(bits, pos, x) && At(bits, pos + |x|, y)
  {
    var s := bits[pos..pos + |x + y|];
    assert x == (x + y)[..|x|] == s[..|x|] == bits[pos..pos + |x|];
    assert y == (x + y)[|x|..] == s[|x|..] == bits[pos + |x|..pos + |x| + |y|];
  }

}
