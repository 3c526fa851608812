/** The rolling hash of gzip.c: three input bytes mixed into 13 bits. */
module Hash {
  import opened Bits
  import opened Limits

  const HASH_BITS: nat := 13
  const H_SHIFT: nat := 5

  /** UPDATE_HASH. */
  function Update(h: nat, c: byte): (r: nat)
    ensures r < HASH_SIZE
  {
    Pow2Values();
    Low(BitXor(Shl(h, H_SHIFT), c), HASH_BITS)
  }

  /** The hash of three bytes. */
  function Hash3(a: byte, b: byte, c: byte): (r: nat)
    ensures r < HASH_SIZE
  {
    Update(Update(Update(0, a), b), c)
  }

  lemma {:induction false} ShlLow(v: nat, w: nat, k: nat, s: nat)
    requires Low(v, k) == Low(w, k)
    ensures Low(Shl(v, s), k + s) == Low(Shl(w, s), k + s)
    decreases s
  {
    if s > 0 { ShlLow(v, w, k, s - 1); }
  }

  /** Hashes that agree in their k low bits agree in k + 5 of them after one more byte. */
  lemma UpdateAgrees(h: nat, h': nat, c: byte, k: nat)
    requires Low(h, k) == Low(h', k) && k + H_SHIFT <= HASH_BITS
    ensures Low(Update(h, c), k + H_SHIFT) == Low(Update(h', c), k + H_SHIFT)
  {
    hide Low, Shl, BitXor;
    var v, v', m := Shl(h, H_SHIFT), Shl(h', H_SHIFT), k + H_SHIFT;
    ShlLow(h, h', k, H_SHIFT);
    BitXorLow(v, v', c, m);
    LowLow(BitXor(v, c), m, HASH_BITS);
    LowLow(BitXor(v', c), m, HASH_BITS);
  }

  /** Only the last three bytes matter. */
  lemma Forgets(h: nat, a: byte, b: byte, c: byte)
    ensures Update(Update(Update(h, a), b), c) == Hash3(a, b, c)
  {
    hide Low, Update;
    var h1, g1 := Update(h, a), Update(0, a);
    NoBits(h, 0);
    UpdateAgrees(h, 0, a, 0);
    var h2, g2 := Update(h1, b), Update(g1, b);
    UpdateAgrees(h1, g1, b, 5);
    LowLow(h2, 8, 10);
    LowLow(g2, 8, 10);
    UpdateAgrees(h2, g2, c, 8);
    Pow2Values();
    LowSmall(Update(h2, c), 13);
    LowSmall(Update(g2, c), 13);
  }

  lemma NoBits(h: nat, g: nat)
    ensures Low(h, 0) == Low(g, 0)
  {
  }

  /** The hash of the next three bytes comes from the hash of these. */
  lemma Rolls(a: byte, b: byte, c: byte, d: byte)
    ensures Update(Hash3(a, b, c), d) == Hash3(b, c, d)
  {
    hide Update;
    Forgets(Update(0, a), b, c, d);
  }

  /** Equal hashes and equal first two bytes: the third byte is equal too. */
  lemma ThirdByte(a: byte, b: byte, c: byte, c': byte)
    requires Hash3(a, b, c) == Hash3(a, b, c')
    ensures c == c'
  {
    hide Low, Shl, BitXor;
    Pow2Values();
    BitXorCancel(Shl(Update(Update(0, a), b), H_SHIFT), c, c', HASH_BITS);
  }
}
