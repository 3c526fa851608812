/** lzo1x_optimize of lzop.c: decode a block and rewrite, in place, matches that cost as
    much as the literals they stand for. */
module LzoOptimize {
  import opened Bits
  import opened Lzo1x
  import opened LzoRewrite
  import Inflate

  // ---- where the rewriter stands ----

  /** The instruction at k ends at ip, litp is the byte with its literal count lit, and out is the output after it. */
  ghost predicate Owns(s: seq<byte>, k: Conf, litp: nat, lit: nat, ip: nat, out: seq<byte>)
  {
    var i := Parse(s, k.pos, k.mode);
    i.Some? &&
    if lit > 3
    then i.value.Run? && k.mode == AfterMatch && k.pos == litp && i.value.n == lit && ip == i.value.p + lit &&
      out == k.out + s[i.value.p..ip]
    else i.value.Match? && i.value.p == litp + 2 && i.value.k == lit && ip == litp + 2 + lit &&
         1 <= i.value.dist <= |k.out| && out == Inflate.Copy(k.out, i.value.dist, i.value.len) + s[litp + 2..ip]
  }

  function ModeOf(lit: nat): (m: Mode)
  {
    if lit > 3 then AfterRun else if lit == 0 then AfterMatch else AfterShort
  }

  /** The rewritten stream decodes to out when it gets to ip; litp is negative as long as there is no instruction to
      refer to. */
  ghost predicate Marked(s: seq<byte>, k: Conf, litp: int, lit: nat, ip: nat, mode: Mode, out: seq<byte>)
  {
    if litp < 0 then Reaches(s, Conf(ip, mode, out))
    else Reaches(s, k) && Owns(s, k, litp, lit, ip, out) && (ModeOf(lit) == mode || (ip < |s| && s[ip] >= 16))
  }

  lemma OwnsStep(s: seq<byte>, k: Conf, litp: nat, lit: nat, ip: nat, out: seq<byte>)
    requires Owns(s, k, litp, lit, ip, out)
    ensures Step(s, k) == Some(Next(Conf(ip, ModeOf(lit), out)))
  {
    hide Parse;
  }

  lemma MarkedReaches(s: seq<byte>, k: Conf, litp: int, lit: nat, ip: nat, mode: Mode, out: seq<byte>)
    requires Marked(s, k, litp, lit, ip, mode, out)
    ensures Reaches(s, Conf(ip, if litp < 0 then mode else ModeOf(lit), out))
  {
    hide Reaches, Owns;
    if litp >= 0 {
      OwnsStep(s, k, litp, lit, ip, out);
      ReachesNext(s, k);
    }
  }

  /** The rewritten stream decodes as the original one goes on from ip. */
  lemma MarkedDecodes(s: seq<byte>, s0: seq<byte>, k: Conf, litp: int, lit: nat, ip: nat, mode: Mode, out: seq<byte>)
    requires Marked(s, k, litp, lit, ip, mode, out) && AgreeFrom(s0, s, ip)
    ensures Decode(s) == Steps(s0, Conf(ip, mode, out))
  {
    hide Owns, Decode, Steps;
    MarkedReaches(s, k, litp, lit, ip, mode, out);
    var m := if litp < 0 then mode else ModeOf(lit);
    assert Agree(s, s, ip);
    AnyMode(s, ip, m, mode, out);
    StepsFrom(s0, s, Conf(ip, mode, out));
  }

  /** Decoding the original stream gets to c and goes on to its end. */
  ghost predicate Tracks(s0: seq<byte>, c: Conf)
  {
    Decode(s0).Some? && Decode(s0) == Steps(s0, c)
  }

  lemma {:induction false} OutputGrows(s: seq<byte>, c: Conf)
    requires Steps(s, c).Some?
    ensures |c.out| <= |Steps(s, c).value.0|
    decreases |s| - c.pos
  {
    hide Parse, Inflate.Copy;
    var i := Parse(s, c.pos, c.mode).value;
    var o := Step(s, c).value;
    if o.Next? {
      if i.Match? { CopyExtends(c.out, i.dist, i.len); }
      OutputGrows(s, o.conf);
    }
  }

  /** One instruction of the original stream. */
  lemma TracksStep(s0: seq<byte>, c: Conf)
    requires Tracks(s0, c)
    ensures c.pos < |s0| && Step(s0, c).Some? && Parse(s0, c.pos, c.mode).Some?
    ensures Step(s0, c).value.Next? ==>
      Tracks(s0, Step(s0, c).value.conf) && |Step(s0, c).value.conf.out| <= |Decode(s0).value.0|
    ensures Step(s0, c).value.Done? ==> Decode(s0).value == (c.out, Step(s0, c).value.pos)
    ensures |c.out| <= |Decode(s0).value.0|
  {
    hide Parse, Follow, Decode;
    OutputGrows(s0, c);
    if Step(s0, c).value.Next? { OutputGrows(s0, Step(s0, c).value.conf); }
    ParseInside(s0, c.pos, c.mode);
  }

  lemma ParseInside(s: seq<byte>, pos: nat, mode: Mode)
    requires Parse(s, pos, mode).Some?
    ensures pos < |s|
  {
  }

  // ---- the rewrites keep the mark ----

  /** A match is never the first thing in a stream. */
  lemma NotFirst(s: seq<byte>, k: Conf, litp: nat, lit: nat, ip: nat, out: seq<byte>)
    requires Reaches(s, k) && Owns(s, k, litp, lit, ip, out) && lit <= 3
    ensures k.pos <= litp && (k.pos == 0 ==> litp >= 1)
  {
    hide Decode;
  }

  lemma Rebuilt(s: seq<byte>, s': seq<byte>, k: Conf, litp: nat)
    requires Reaches(s, k) && Agree(s, s', litp) && k.pos <= litp && (k.pos == 0 ==> litp >= 1)
    ensures Reaches(s', k)
  {
    hide Reaches;
    AgreeSlice(s, s', litp, k.pos, litp);
    if k.pos == 0 { AgreeAt(s, s', litp, 0); FirstByte(s, k); }
    ReachesStill(s, s', k);
  }

  lemma FirstByte(s: seq<byte>, k: Conf)
    requires Reaches(s, k) && k.pos == 0
    ensures s != [] && s[0] <= 17
  {
  }

  /** m1_a and m3_a: literals after a match, before another match. */
  lemma ShortRewrite(s: seq<byte>, s': seq<byte>, k: Conf, litp: nat, lit: nat, ip0: nat, mode: Mode, out: seq<byte>,
                     mlen: nat, mdist: nat)
    requires Marked(s, k, litp, lit, ip0, mode, out) && lit + mlen == 3 && 1 <= mdist <= |out|
    requires ip0 + mlen < |s| && s[ip0 + mlen] >= 16
    requires Agree(s, s', litp) && s'[litp] == s[litp] / 4 * 4 + 3 && litp + 2 <= ip0 &&
      s'[litp + 1..ip0] == s[litp + 1..ip0]
    requires s'[ip0..ip0 + mlen] == Copied(out, mdist, mlen) && AgreeFrom(s, s', ip0 + mlen)
    ensures Marked(s', k, litp, 3, ip0 + mlen, AfterMatch, Inflate.Copy(out, mdist, mlen))
  {
    hide Reaches, Parse, Agree, AgreeFrom, Inflate.Copy;
    var i, p := Parse(s, k.pos, k.mode).value, litp + 2;
    AgreeLength(s, s', litp);
    NotFirst(s, k, litp, lit, ip0, out);
    Rebuilt(s, s', k, litp);
    FromAt(s, s', ip0 + mlen, ip0 + mlen);
    assert s'[p - 1] == s'[litp + 1..ip0][0] && s[p - 1] == s[litp + 1..ip0][0];
    assert s'[p..p + lit] == s'[litp + 1..ip0][1..] && s[p..p + lit] == s[litp + 1..ip0][1..];
    assert s'[p..p + 3] == s'[p..p + lit] + s'[ip0..ip0 + mlen];
    AbsorbShort(s, s', k, i.len, i.dist, lit, p, mlen, mdist);
    TrailingChange(s, s', k.pos, k.mode, 3);
  }

  /** m1_b and m3_b: at most three literals after a match, then a match, then a run. */
  lemma RunRewrite(s: seq<byte>, s': seq<byte>, k: Conf, litp: nat, lit: nat, ip0: nat, mode: Mode, out: seq<byte>,
                   mlen: nat, mdist: nat, t: nat)
    returns (k': Conf)
    requires Marked(s, k, litp, lit, ip0, mode, out) && lit <= 3 && 1 <= mdist <= |out| && 1 <= t && 1 <= mlen &&
      lit + mlen + t < 16
    requires ip0 + mlen + t + 4 <= |s| && s[ip0 + mlen] == t
    requires Agree(s, s', litp) && litp + 2 <= ip0 && s'[litp] == s[litp] / 4 * 4 && s'[litp + 1] == s[litp + 1]
    requires s'[litp + 2] == lit + mlen + t &&
      s'[litp + 3..ip0 + mlen + 1] == s[litp + 2..ip0] + Copied(out, mdist, mlen)
    requires AgreeFrom(s, s', ip0 + mlen + 1)
    ensures Marked(s', k', litp + 2, lit + mlen + t + 3, ip0 + mlen + t + 4, AfterRun,
                   Inflate.Copy(out, mdist, mlen) + s[ip0 + mlen + 1..ip0 + mlen + t + 4])
  {
    hide Reaches, Parse, Agree, AgreeFrom, Inflate.Copy, Step;
    var i, p := Parse(s, k.pos, k.mode).value, litp + 2;
    AgreeLength(s, s', litp);
    NotFirst(s, k, litp, lit, ip0, out);
    Rebuilt(s, s', k, litp);
    AbsorbRun(s, s', k, i.len, i.dist, lit, p, mlen, mdist, t);
    k' := Conf(p, AfterMatch, Inflate.Copy(k.out, i.dist, i.len));
    ReachesNext(s', k);
    OwnsRun(s', k', lit + mlen + t, Inflate.Copy(out, mdist, mlen) + s[ip0 + mlen + 1..ip0 + mlen + t + 4]);
  }

  /** A short run read by one step is owned by its first byte. */
  lemma OwnsRun(s: seq<byte>, k: Conf, t: nat, out: seq<byte>)
    requires k.mode == AfterMatch && 1 <= t < 16 && k.pos + t + 4 <= |s| && s[k.pos] == t
    requires Step(s, k) == Some(Next(Conf(k.pos + t + 4, AfterRun, out)))
    ensures Owns(s, k, k.pos, t + 3, k.pos + t + 4, out)
  {
  }

  /** m2: between two runs. */
  lemma BetweenRewrite(s: seq<byte>, s': seq<byte>, k: Conf, litp: nat, lit: nat, ip0: nat, mode: Mode, out: seq<byte>,
                       mdist: nat, t: nat)
    requires Marked(s, k, litp, lit, ip0, mode, out) && lit > 3 && 1 <= mdist <= |out| && 1 <= t && lit + 3 + t < 16
    requires ip0 + t + 6 <= |s| && s[ip0 + 2] == t
    requires Agree(s, s', litp) && litp < ip0 && s'[litp] == lit + 3 + t && s'[litp + 1..ip0] == s[litp + 1..ip0]
    requires s'[ip0..ip0 + 3] == Copied(out, mdist, 3) && AgreeFrom(s, s', ip0 + 3)
    ensures Marked(s', k, litp, lit + 3 + t + 3, ip0 + t + 6, AfterRun,
      Inflate.Copy(out, mdist, 3) + s[ip0 + 3..ip0 + t + 6])
  {
    hide Reaches, Agree, AgreeFrom, Inflate.Copy, Step;
    AgreeLength(s, s', litp);
    DirectRun(s, k, litp, lit, ip0, out);
    AgreeSlice(s, s', litp, k.pos, litp);
    ReachesStill(s, s', k);
    assert s'[litp + 1..ip0 + 3] == s'[litp + 1..ip0] + s'[ip0..ip0 + 3];
    AbsorbBetween(s, s', k, lit, mdist, t);
    OwnsRun(s', k, lit + 3 + t, Inflate.Copy(out, mdist, 3) + s[ip0 + 3..ip0 + t + 6]);
  }

  lemma DirectRun(s: seq<byte>, k: Conf, litp: nat, lit: nat, ip: nat, out: seq<byte>)
    requires Owns(s, k, litp, lit, ip, out) && 3 < lit < 19
    ensures k.mode == AfterMatch && k.pos == litp && s[litp] == lit - 3 && ip == litp + 1 + lit &&
      out == k.out + s[litp + 1..ip]
  {
  }
}
