/** lzo_adler32 of lzop.c: Adler-32 in wrapping 32-bit arithmetic, reduced once for every
    5552 bytes, against section 8.2 of RFC 1950, which reduces after every byte. */
module Adler {
  import opened Bits

  const BASE: nat := 65521
  const NMAX: nat := 5552
  const WRAP: nat := 0x1_0000_0000

  datatype Sums = Sums(s1: nat, s2: nat)

  /** One byte, without reduction. */
  function Add(s: Sums, b: byte): (r: Sums)
  {
    Sums(s.s1 + b, s.s2 + s.s1 + b)
  }

  /** One byte, reduced as in section 8.2 of RFC 1950. */
  function AddMod(s: Sums, b: byte): (r: Sums)
  {
    Sums((s.s1 + b) % BASE, (s.s2 + (s.s1 + b) % BASE) % BASE)
  }

  /** One byte in 32-bit arithmetic. */
  function AddWrap(s: Sums, b: byte): (r: Sums)
  {
    var s1 := (s.s1 + b) % WRAP;
    Sums(s1, (s.s2 + s1) % WRAP)
  }

  /** All bytes, with each kind of step. */
  function Plain(s: Sums, bs: seq<byte>): (r: Sums)
  {
    if bs == [] then s else Add(Plain(s, bs[..|bs| - 1]), bs[|bs| - 1])
  }

  function Reduced(s: Sums, bs: seq<byte>): (r: Sums)
  {
    if bs == [] then s else AddMod(Reduced(s, bs[..|bs| - 1]), bs[|bs| - 1])
  }

  function Wrapped(s: Sums, bs: seq<byte>): (r: Sums)
  {
    if bs == [] then s else AddWrap(Wrapped(s, bs[..|bs| - 1]), bs[|bs| - 1])
  }

  function Mod(s: Sums): (r: Sums)
  {
    Sums(s.s1 % BASE, s.s2 % BASE)
  }

  // ---- no overflow within NMAX bytes ----

  /** The largest second sum after n bytes: n(n+1)/2 times 255, and n+1 times the first value. */
  function Most(n: nat, start: nat): (m: nat)
  {
    if n == 0 then start else Most(n - 1, start) + start + 255 * n
  }

  lemma {:induction false} MostClosed(n: nat, start: nat)
    ensures 2 * Most(n, start) == 2 * (n + 1) * start + 255 * n * (n + 1)
  {
    if n > 0 {
      MostClosed(n - 1, start);
      assert 2 * n * start + 2 * start == 2 * (n + 1) * start;
      assert 255 * (n - 1) * n + 2 * 255 * n == 255 * n * (n + 1);
    }
  }

  lemma {:induction false} MostMono(m: nat, n: nat, start: nat)
    requires m <= n
    ensures Most(m, start) <= Most(n, start)
  {
    if m < n { MostMono(m, n - 1, start); }
  }

  lemma {:induction false} Bounded(s: Sums, bs: seq<byte>)
    requires s.s1 <= 0xffff && s.s2 <= 0xffff
    ensures Plain(s, bs).s1 <= 0xffff + 255 * |bs| && Plain(s, bs).s2 <= Most(|bs|, 0xffff)
    decreases |bs|
  {
    if bs != [] { Bounded(s, bs[..|bs| - 1]); }
  }

  /** Up to NMAX bytes no 32-bit addition wraps, from any two 16-bit sums. */
  lemma {:induction false} NoOverflow(s: Sums, bs: seq<byte>)
    requires s.s1 <= 0xffff && s.s2 <= 0xffff && |bs| <= NMAX
    ensures Wrapped(s, bs) == Plain(s, bs)
    decreases |bs|
  {
    hide Most, Plain, Wrapped;
    if bs != [] {
      NoOverflow(s, bs[..|bs| - 1]);
      Bounded(s, bs);
      MostMono(|bs|, NMAX, 0xffff);
      MostFits();
      PlainLast(s, bs);
      WrapLast(s, bs);
    } else {
      NothingAdded(s);
    }
  }

  /** 255 * 5552 * 5553 / 2 + 5553 * 65535 is below 2^32. */
  lemma MostFits()
    ensures Most(NMAX, 0xffff) < WRAP
  {
    hide Most;
    MostClosed(NMAX, 0xffff);
  }

  lemma PlainLast(s: Sums, bs: seq<byte>)
    requires bs != []
    ensures Plain(s, bs) == Add(Plain(s, bs[..|bs| - 1]), bs[|bs| - 1])
  {
  }

  lemma NothingAdded(s: Sums)
    ensures Plain(s, []) == s && Wrapped(s, []) == s
  {
  }

  // ---- reducing late is reducing early ----

  lemma {:induction false} ReduceLate(s: Sums, bs: seq<byte>)
    requires bs != []
    ensures Reduced(s, bs) == Mod(Plain(s, bs))
    decreases |bs|
  {
    var bs', b := bs[..|bs| - 1], bs[|bs| - 1];
    if bs' != [] {
      ReduceLate(s, bs');
      var p := Plain(s, bs');
      AddMods(p.s1, b);
      AddMods2(p.s2, p.s1 + b);
    } else {
      AddMods2(s.s2, s.s1 + b);
      AddTwice(s.s2, s.s1 + b);
    }
  }

  lemma AddMods(a: nat, b: nat)
    ensures (a % BASE + b) % BASE == (a + b) % BASE
  {
    var q := a / BASE;
    assert a + b == a % BASE + b + BASE * q;
    Multiple(a % BASE + b, q);
  }

  lemma AddMods2(a: nat, b: nat)
    ensures (a % BASE + b % BASE) % BASE == (a + b) % BASE
  {
    AddMods(a, b % BASE);
    AddMods(b, a);
    assert b % BASE + a == a + b % BASE && b + a == a + b;
  }

  lemma AddTwice(a: nat, b: nat)
    ensures (a + b % BASE) % BASE == (a + b) % BASE
  {
    AddMods(b, a);
    assert b % BASE + a == a + b % BASE && b + a == a + b;
  }

  lemma {:induction false} Multiple(x: nat, q: nat)
    ensures (x + BASE * q) % BASE == x % BASE
    decreases q
  {
    if q > 0 {
      Multiple(x, q - 1);
      var y := x + BASE * (q - 1);
      assert x + BASE * q == y + BASE;
      assert (y + BASE) % BASE == y % BASE;
    }
  }

  lemma {:induction false} ReducedConcat(s: Sums, a: seq<byte>, b: seq<byte>)
    ensures Reduced(s, a + b) == Reduced(Reduced(s, a), b)
    decreases |b|
  {
    if b == [] {
      assert a + b == a;
    } else {
      assert (a + b)[..|a + b| - 1] == a + b[..|b| - 1];
      ReducedConcat(s, a, b[..|b| - 1]);
    }
  }

  // ---- NMAX is as large as it can be ----

  function Full(n: nat): (bs: seq<byte>)
    ensures |bs| == n
  {
    if n == 0 then [] else Full(n - 1) + [255]
  }

  lemma {:induction false} FullSums(n: nat, start: nat)
    ensures Plain(Sums(start, start), Full(n)) == Sums(start + 255 * n, Most(n, start))
  {
    if n > 0 {
      FullSums(n - 1, start);
      assert Full(n)[..n - 1] == Full(n - 1);
    }
  }

  /** With one byte more between two reductions, the largest reduced sums and the largest bytes give a wrong result. */
  lemma NmaxIsLargest()
    ensures Mod(Wrapped(Sums(BASE - 1, BASE - 1), Full(NMAX + 1))) != Reduced(Sums(BASE - 1, BASE - 1), Full(NMAX + 1))
  {
    hide Full, Plain, Reduced, Wrapped, Most;
    var s, bs, bs' := Sums(BASE - 1, BASE - 1), Full(NMAX + 1), Full(NMAX);
    FullLast(NMAX + 1);
    FullSums(NMAX, BASE - 1);
    FullSums(NMAX + 1, BASE - 1);
    MostClosed(NMAX, BASE - 1);
    MostClosed(NMAX + 1, BASE - 1);
    NoOverflow(s, bs');
    ReduceLate(s, bs);
    WrapLast(s, bs);
    var v := Plain(s, bs).s2;
    assert v == 4296171735;
    assert Wrapped(s, bs).s2 == v - WRAP;
  }

  lemma FullLast(n: nat)
    requires n > 0
    ensures Full(n)[..n - 1] == Full(n - 1) && Full(n)[n - 1] == 255
  {
  }

  lemma WrapLast(s: Sums, bs: seq<byte>)
    requires bs != []
    ensures Wrapped(s, bs) == AddWrap(Wrapped(s, bs[..|bs| - 1]), bs[|bs| - 1])
  {
  }

  // ---- the checksum ----

  function Unpack(adler: nat): (s: Sums)
  {
    Sums(adler % 0x10000, adler / 0x10000 % 0x10000)
  }

  function Pack(s: Sums): (adler: nat)
  {
    s.s2 * 0x10000 + s.s1
  }

  /** Section 8.2 of RFC 1950, continued from a given value. */
  function Checksum(adler: nat, bs: seq<byte>): (r: nat)
  {
    Pack(Reduced(Unpack(adler), bs))
  }

  lemma {:induction false} ReducedSmall(s: Sums, bs: seq<byte>)
    requires s.s1 <= 0xffff && s.s2 <= 0xffff
    ensures Reduced(s, bs).s1 <= 0xffff && Reduced(s, bs).s2 <= 0xffff
    decreases |bs|
  {
    if bs != [] { ReducedSmall(s, bs[..|bs| - 1]); }
  }

  /** Checksumming in pieces is checksumming the whole. */
  lemma ChecksumConcat(adler: nat, a: seq<byte>, b: seq<byte>)
    requires adler < WRAP
    ensures Checksum(Checksum(adler, a), b) == Checksum(adler, a + b)
  {
    hide Reduced;
    var s := Unpack(adler);
    ReducedSmall(s, a);
    ReducedConcat(s, a, b);
    Repack(Reduced(s, a));
  }

  lemma Repack(s: Sums)
    requires s.s1 <= 0xffff && s.s2 <= 0xffff
    ensures Unpack(Pack(s)) == s
  {
  }

  /** One round: k bytes in 32-bit arithmetic, then one reduction. */
  method Round(s: Sums, buf: array<byte>, at: nat, k: nat) returns (r: Sums)
    requires s.s1 <= 0xffff && s.s2 <= 0xffff && 1 <= k <= NMAX && at + k <= buf.Length
    ensures r == Reduced(s, buf[at..at + k])
  {
    var s1: nat, s2: nat := s.s1, s.s2;
    var i := 0;
    while i < k
      invariant 0 <= i <= k && Sums(s1, s2) == Wrapped(s, buf[at..at + i])
    {
      assert buf[at..at + i + 1][..i] == buf[at..at + i];
      s1 := (s1 + buf[at + i]) % WRAP;
      s2 := (s2 + s1) % WRAP;
      i := i + 1;
    }
    NoOverflow(s, buf[at..at + k]);
    ReduceLate(s, buf[at..at + k]);
    r := Sums(s1 % BASE, s2 % BASE);
  }

  /** lzo_adler32. */
  method Adler32(adler: nat, buf: array?<byte>, len: nat) returns (r: nat)
    requires adler < WRAP && (buf != null ==> len <= buf.Length)
    ensures buf == null ==> r == 1
    ensures buf != null ==> r == Checksum(adler, buf[..len])
  {
    hide Reduced;
    var s := Unpack(adler);
    if buf == null { return 1; }
    var done := 0;
    NoBytes(s);
    assert buf[..0] == [];
    while done < len
      invariant 0 <= done <= len && s == Reduced(Unpack(adler), buf[..done]) && s.s1 <= 0xffff && s.s2 <= 0xffff
    {
      var k := if len - done < NMAX then len - done else NMAX;
      ReducedConcat(Unpack(adler), buf[..done], buf[done..done + k]);
      assert buf[..done] + buf[done..done + k] == buf[..done + k];
      s := Round(s, buf, done, k);
      done := done + k;
      ReducedSmall(Unpack(adler), buf[..done]);
    }
    r := Pack(s);
  }

  lemma NoBytes(s: Sums)
    ensures Reduced(s, []) == s
  {
  }
}
