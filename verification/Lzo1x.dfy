/** The LZO1X stream format, as the loops of lzop.c read it: a specification decoder. */
module Lzo1x {
  import opened Bits
  import Inflate

  /** What precedes the next instruction: a match without literals after it (or nothing), a
      literal run, or a match followed by one to three literals. */
  datatype Mode = AfterMatch | AfterRun | AfterShort

  datatype Conf = Conf(pos: nat, mode: Mode, out: seq<byte>)

  /** An instruction whose bytes end at p: literals copied from p on, or a match followed by k literals from p on. */
  datatype Instr = Run(p: nat, n: nat) | Match(p: nat, len: nat, dist: nat, k: nat) | Stop(p: nat)

  datatype Outcome = Next(conf: Conf) | Done(pos: nat)

  /** A length continued in the following bytes: 255 for every zero byte, then the first other one. */
  function Extended(s: seq<byte>, pos: nat, t: nat): (r: Option<(nat, nat)>)
    ensures r.Some? ==> pos < r.value.1 <= |s| && r.value.0 > t
    decreases |s| - pos
  {
    if pos >= |s| then None
    else if s[pos] == 0 then Extended(s, pos + 1, t + 255)
    else Some((t + s[pos], pos + 1))
  }

  function Length(s: seq<byte>, pos: nat, t: nat, base: nat): (r: Option<(nat, nat)>)
    ensures r.Some? ==> pos <= r.value.1 <= |s| && r.value.0 >= 1
  {
    if t == 0 then Extended(s, pos, base) else if pos <= |s| then Some((t, pos)) else None
  }

  /** A match whose last two bytes end at p; the low bits of the first of the two count the literals after it. */
  function Ends(s: seq<byte>, p: nat, len: nat, dist: nat): (r: Option<Instr>)
    requires 2 <= p <= |s|
  {
    var k := s[p - 2] % 4;
    if p + k <= |s| then Some(Match(p, len, dist, k)) else None
  }

  function FarMatch(s: seq<byte>, pos: nat, t: nat): (r: Option<Instr>)
    requires pos < |s| && 16 <= t < 64
  {
    var (l, p) :- if t >= 32 then Length(s, pos + 1, t % 32, 31) else Length(s, pos + 1, t % 8, 7);
    if p + 2 > |s| then None else
    var lo: nat, hi: nat := s[p], s[p + 1];
    var d: nat := lo / 4 + 64 * hi;
    if t >= 32 then Ends(s, p + 2, l + 2, d + 1)
    else
      var far: nat := d + (if t / 8 % 2 == 1 then 0x4000 else 0);
      if far == 0 then Some(Stop(p + 2)) else Ends(s, p + 2, l + 2, far + 0x4000)
  }

  /** The instruction at pos. */
  function Parse(s: seq<byte>, pos: nat, mode: Mode): (r: Option<Instr>)
    ensures r.Some? && r.value.Match? ==>
      pos + 2 <= r.value.p && r.value.p + r.value.k <= |s| && r.value.k == s[r.value.p - 2] % 4
    ensures r.Some? && r.value.Run? ==> pos < r.value.p && r.value.n >= 4 && r.value.p + r.value.n <= |s|
    ensures r.Some? && r.value.Stop? ==> pos < r.value.p <= |s|
  {
    if pos >= |s| then None else
    var t: nat := s[pos];
    if t < 16 && mode == AfterMatch then
      var (l, p) :- Length(s, pos + 1, t, 15);
      if p + l + 3 <= |s| then Some(Run(p, l + 3)) else None
    else if t < 64 && t >= 16 then FarMatch(s, pos, t)
    else if pos + 2 > |s| then None
    else
      var b: nat := s[pos + 1];
      if t >= 64 then Ends(s, pos + 2, t / 32 + 1, 1 + t / 4 % 8 + 8 * b)
      else if mode == AfterRun then Ends(s, pos + 2, 3, 1 + 0x800 + t / 4 + 4 * b)
      else Ends(s, pos + 2, 2, 1 + t / 4 + 4 * b)
  }

  function Follow(s: seq<byte>, out: seq<byte>, i: Instr): (r: Option<Outcome>)
    requires i.Run? ==> i.p + i.n <= |s|
    requires i.Match? ==> i.p + i.k <= |s|
  {
    match i
    case Run(p, n) => Some(Next(Conf(p + n, AfterRun, out + s[p..p + n])))
    case Match(p, len, dist, k) =>
      if 1 <= dist <= |out|
      then
        var mode := if k == 0 then AfterMatch else AfterShort;
        Some(Next(Conf(p + k, mode, Inflate.Copy(out, dist, len) + s[p..p + k])))
      else None
    case Stop(p) => Some(Done(p))
  }

  function Step(s: seq<byte>, c: Conf): (r: Option<Outcome>)
    ensures r.Some? && r.value.Next? ==> c.pos < r.value.conf.pos <= |s|
  {
    var i :- Parse(s, c.pos, c.mode);
    Follow(s, c.out, i)
  }

  /** The output and the end of the stream. */
  function Steps(s: seq<byte>, c: Conf): (r: Option<(seq<byte>, nat)>)
    decreases |s| - c.pos
  {
    var o :- Step(s, c);
    match o
    case Done(p) => Some((c.out, p))
    case Next(c') => Steps(s, c')
  }

  /** The first byte of a stream may stand for a short or long first run of literals. */
  function Start(s: seq<byte>): (r: Option<Conf>)
  {
    if s == [] then None
    else if s[0] <= 17 then Some(Conf(0, AfterMatch, []))
    else
      var n := s[0] - 17;
      if 1 + n > |s| then None
      else Some(Conf(1 + n, if n < 4 then AfterShort else AfterRun, s[1..1 + n]))
  }

  function Decode(s: seq<byte>): (r: Option<(seq<byte>, nat)>)
  {
    var c :- Start(s);
    Steps(s, c)
  }
}
