/** Changes to an LZO1X stream that keep its meaning: the five rewrites of lzo1x_optimize
    reduce to three shapes. */
module LzoRewrite {
  import opened Bits
  import opened Lzo1x
  import Inflate

  /** s and r have the same length and agree before n. */
  ghost predicate Agree(s: seq<byte>, r: seq<byte>, n: nat)
  {
    |s| == |r| && n <= |s| && s[..n] == r[..n]
  }

  lemma AgreeAt(s: seq<byte>, r: seq<byte>, n: nat, i: nat)
    requires Agree(s, r, n) && i < n
    ensures s[i] == r[i]
  {
    assert s[..n][i] == r[..n][i];
  }

  lemma AgreeSlice(s: seq<byte>, r: seq<byte>, n: nat, a: nat, b: nat)
    requires Agree(s, r, n) && a <= b <= n
    ensures s[a..b] == r[a..b] && Agree(s, r, a)
  {
    assert s[a..b] == s[..n][a..b] && r[a..b] == r[..n][a..b];
    assert s[..a] == s[..n][..a] && r[..a] == r[..n][..a];
  }

  // ---- an instruction depends on its own bytes only ----

  lemma {:induction false} ExtendedLocal(s: seq<byte>, r: seq<byte>, pos: nat, t: nat)
    requires Extended(s, pos, t).Some? && Agree(s, r, Extended(s, pos, t).value.1)
    ensures Extended(r, pos, t) == Extended(s, pos, t)
    decreases |s| - pos
  {
    AgreeAt(s, r, Extended(s, pos, t).value.1, pos);
    if s[pos] == 0 { ExtendedLocal(s, r, pos + 1, t + 255); }
  }

  lemma LengthLocal(s: seq<byte>, r: seq<byte>, pos: nat, t: nat, base: nat)
    requires Length(s, pos, t, base).Some? && Agree(s, r, Length(s, pos, t, base).value.1)
    ensures Length(r, pos, t, base) == Length(s, pos, t, base)
  {
    if t == 0 { ExtendedLocal(s, r, pos, base); }
  }

  lemma FarLocal(s: seq<byte>, r: seq<byte>, pos: nat, t: nat)
    requires pos < |s| && 16 <= t < 64 && FarMatch(s, pos, t).Some? && Agree(s, r, FarMatch(s, pos, t).value.p)
    ensures FarMatch(r, pos, t) == FarMatch(s, pos, t)
  {
    hide Length, Agree;
    var p := FarMatch(s, pos, t).value.p;
    var q := (if t >= 32 then Length(s, pos + 1, t % 32, 31) else Length(s, pos + 1, t % 8, 7)).value.1;
    AgreeSlice(s, r, p, q, q);
    if t >= 32 { LengthLocal(s, r, pos + 1, t % 32, 31); } else { LengthLocal(s, r, pos + 1, t % 8, 7); }
    AgreeAt(s, r, p, q);
    AgreeAt(s, r, p, q + 1);
    AgreeLength(s, r, p);
  }

  lemma AgreeLength(s: seq<byte>, r: seq<byte>, n: nat)
    requires Agree(s, r, n)
    ensures |s| == |r| && n <= |s|
  {
  }

  lemma ParseLocal(s: seq<byte>, r: seq<byte>, pos: nat, mode: Mode)
    requires Parse(s, pos, mode).Some? && Agree(s, r, Parse(s, pos, mode).value.p)
    ensures Parse(r, pos, mode) == Parse(s, pos, mode)
  {
    hide Length, FarMatch, Agree;
    var p, t: nat := Parse(s, pos, mode).value.p, s[pos];
    AgreeLength(s, r, p);
    AgreeAt(s, r, p, pos);
    if t < 16 && mode == AfterMatch {
      LengthLocal(s, r, pos + 1, t, 15);
    } else if 16 <= t < 64 {
      FarLocal(s, r, pos, t);
    } else {
      AgreeAt(s, r, p, pos + 1);
    }
  }

  lemma StepLocal(s: seq<byte>, r: seq<byte>, c: Conf)
    requires Step(s, c).Some? && Step(s, c).value.Next? && Agree(s, r, Step(s, c).value.conf.pos)
    ensures Step(r, c) == Step(s, c)
  {
    hide Parse, Agree;
    var i, e := Parse(s, c.pos, c.mode).value, Step(s, c).value.conf.pos;
    AgreeLength(s, r, e);
    AgreeSlice(s, r, e, i.p, e);
    ParseLocal(s, r, c.pos, c.mode);
  }

  // ---- ... and not on what precedes it ----

  /** s and r have the same length and agree from n on. */
  ghost predicate AgreeFrom(s: seq<byte>, r: seq<byte>, n: nat)
  {
    |s| == |r| && n <= |s| && s[n..] == r[n..]
  }

  lemma FromAt(s: seq<byte>, r: seq<byte>, n: nat, i: nat)
    requires AgreeFrom(s, r, n) && n <= i < |s|
    ensures s[i] == r[i]
  {
    assert s[n..][i - n] == r[n..][i - n];
  }

  lemma FromSlice(s: seq<byte>, r: seq<byte>, n: nat, a: nat, b: nat)
    requires AgreeFrom(s, r, n) && n <= a <= b <= |s|
    ensures s[a..b] == r[a..b] && AgreeFrom(s, r, a)
  {
    forall i | n <= i < |s| ensures s[i] == r[i] { FromAt(s, r, n, i); }
  }

  lemma {:induction false} ExtendedFrom(s: seq<byte>, r: seq<byte>, n: nat, pos: nat, t: nat)
    requires AgreeFrom(s, r, n) && n <= pos
    ensures Extended(r, pos, t) == Extended(s, pos, t)
    decreases |s| - pos
  {
    if pos < |s| {
      FromAt(s, r, n, pos);
      ExtendedFrom(s, r, n, pos + 1, t + 255);
    }
  }

  lemma FarFrom(s: seq<byte>, r: seq<byte>, pos: nat, t: nat)
    requires AgreeFrom(s, r, pos) && pos < |s| && 16 <= t < 64
    ensures FarMatch(r, pos, t) == FarMatch(s, pos, t)
  {
    hide Extended, AgreeFrom;
    var base, low := if t >= 32 then 31 else 7, if t >= 32 then t % 32 else t % 8;
    ExtendedFrom(s, r, pos, pos + 1, base);
    FromLength(s, r, pos);
    var l := Length(s, pos + 1, low, base);
    if l.Some? && l.value.1 + 2 <= |s| {
      FromAt(s, r, pos, l.value.1);
      FromAt(s, r, pos, l.value.1 + 1);
    }
  }

  lemma FromLength(s: seq<byte>, r: seq<byte>, n: nat)
    requires AgreeFrom(s, r, n)
    ensures |s| == |r| && n <= |s|
  {
  }

  lemma ParseFrom(s: seq<byte>, r: seq<byte>, pos: nat, mode: Mode)
    requires AgreeFrom(s, r, pos)
    ensures Parse(r, pos, mode) == Parse(s, pos, mode)
  {
    hide Extended, FarMatch, AgreeFrom;
    FromLength(s, r, pos);
    if pos < |s| {
      FromAt(s, r, pos, pos);
      if s[pos] < 16 { ExtendedFrom(s, r, pos, pos + 1, 15); }
      if 16 <= s[pos] < 64 { FarFrom(s, r, pos, s[pos]); }
      if pos + 1 < |s| { FromAt(s, r, pos, pos + 1); }
    }
  }

  lemma {:induction false} StepsFrom(s: seq<byte>, r: seq<byte>, c: Conf)
    requires AgreeFrom(s, r, c.pos)
    ensures Step(r, c) == Step(s, c) && Steps(r, c) == Steps(s, c)
    decreases |s| - c.pos
  {
    hide Parse, AgreeFrom;
    FromLength(s, r, c.pos);
    ParseFrom(s, r, c.pos, c.mode);
    var i := Parse(s, c.pos, c.mode);
    if i.Some? {
      if i.value.Run? { FromSlice(s, r, c.pos, i.value.p, i.value.p + i.value.n); }
      if i.value.Match? { FromSlice(s, r, c.pos, i.value.p, i.value.p + i.value.k); }
      var o := Step(s, c);
      if o.Some? && o.value.Next? {
        FromSlice(s, r, c.pos, o.value.conf.pos, o.value.conf.pos);
        StepsFrom(s, r, o.value.conf);
      }
    }
  }

  /** A match or stop is read the same way in every mode. */
  lemma AnyMode(s: seq<byte>, pos: nat, mode: Mode, mode': Mode, out: seq<byte>)
    requires mode == mode' || (pos < |s| && s[pos] >= 16)
    ensures Steps(s, Conf(pos, mode, out)) == Steps(s, Conf(pos, mode', out))
  {
  }

  // ---- getting somewhere ----

  /** Decoding gets to c, whatever stands from c.pos on. */
  ghost predicate Reaches(s: seq<byte>, c: Conf)
  {
    c.pos <= |s| && (c.pos == 0 ==> s != [] && s[0] <= 17 && c.mode == AfterMatch) &&
    forall r :: Agree(s, r, c.pos) && (c.pos == 0 ==> r[0] <= 17) ==> Decode(r) == Steps(r, c)
  }

  lemma ReachesNext(s: seq<byte>, c: Conf)
    requires Reaches(s, c) && Step(s, c).Some? && Step(s, c).value.Next?
    ensures Reaches(s, Step(s, c).value.conf)
  {
    hide Step, Decode, Agree;
    var c' := Step(s, c).value.conf;
    forall r | Agree(s, r, c'.pos) ensures Decode(r) == Steps(r, c') {
      AgreeLength(s, r, c'.pos);
      AgreeSlice(s, r, c'.pos, c.pos, c'.pos);
      AgreeAt(s, r, c'.pos, 0);
      StepLocal(s, r, c);
    }
  }

  /** Bytes from c.pos on may be changed. */
  lemma ReachesStill(s: seq<byte>, s': seq<byte>, c: Conf)
    requires Reaches(s, c) && Agree(s, s', c.pos) && (c.pos == 0 ==> s'[0] <= 17)
    ensures Reaches(s', c)
  {
    hide Decode;
  }

  lemma ReachesStart(s: seq<byte>)
    requires Start(s).Some?
    ensures Reaches(s, Start(s).value)
  {
    var c := Start(s).value;
    forall r | Agree(s, r, c.pos) && (c.pos == 0 ==> r[0] <= 17) ensures Decode(r) == Steps(r, c) {
      if c.pos > 0 {
        AgreeAt(s, r, c.pos, 0);
        AgreeSlice(s, r, c.pos, 1, c.pos);
      }
    }
  }

  // ---- the three rewrites ----

  lemma {:induction false} CopyExtends(out: seq<byte>, dist: nat, len: nat)
    requires 1 <= dist <= |out|
    ensures |Inflate.Copy(out, dist, len)| == |out| + len && Inflate.Copy(out, dist, len)[..|out|] == out
    decreases len
  {
    if len > 0 {
      var out' := out + [out[|out| - dist]];
      CopyExtends(out', dist, len - 1);
      assert Inflate.Copy(out, dist, len)[..|out|] == Inflate.Copy(out, dist, len)[..|out'|][..|out|];
    }
  }

  /** What a match appends. */
  ghost function Copied(out: seq<byte>, dist: nat, len: nat): (x: seq<byte>)
    requires 1 <= dist <= |out|
    ensures |x| == len && Inflate.Copy(out, dist, len) == out + x
  {
    CopyExtends(out, dist, len);
    Inflate.Copy(out, dist, len)[|out|..]
  }

  /** The low bits of the last but one byte of a match only count the literals after it. */
  lemma TrailingChange(s: seq<byte>, s': seq<byte>, pos: nat, mode: Mode, k: nat)
    requires Parse(s, pos, mode).Some? && Parse(s, pos, mode).value.Match?
    requires var p := Parse(s, pos, mode).value.p;
             Agree(s, s', p - 2) && k < 4 && p + k <= |s| && s'[p - 2] == s[p - 2] / 4 * 4 + k && s'[p - 1] == s[p - 1]
    ensures Parse(s', pos, mode) == Some(Parse(s, pos, mode).value.(k := k))
  {
    hide FarMatch, Agree;
    var p, t: nat := Parse(s, pos, mode).value.p, s[pos];
    AgreeLength(s, s', p - 2);
    if 16 <= t < 64 {
      FarChange(s, s', pos, t, k);
    } else {
      assert p == pos + 2;
      SameClass(t, k);
    }
  }

  lemma FarChange(s: seq<byte>, s': seq<byte>, pos: nat, t: nat, k: nat)
    requires pos < |s| && s[pos] == t && 16 <= t < 64 && FarMatch(s, pos, t).Some? && FarMatch(s, pos, t).value.Match?
    requires var p := FarMatch(s, pos, t).value.p;
             2 <= p <= |s| && Agree(s, s', p - 2) && |s'| == |s| && k < 4 && p + k <= |s| &&
             s'[p - 2] == s[p - 2] / 4 * 4 + k && s'[p - 1] == s[p - 1]
    ensures s'[pos] == t && FarMatch(s', pos, t) == Some(FarMatch(s, pos, t).value.(k := k))
  {
    hide Length, Agree;
    var p := FarMatch(s, pos, t).value.p;
    var q := (if t >= 32 then Length(s, pos + 1, t % 32, 31) else Length(s, pos + 1, t % 8, 7)).value.1;
    assert q == p - 2;
    AgreeAt(s, s', p - 2, pos);
    if t >= 32 { LengthLocal(s, s', pos + 1, t % 32, 31); } else { LengthLocal(s, s', pos + 1, t % 8, 7); }
    SameClass(s[q], k);
  }

  lemma SameClass(t: nat, k: nat)
    requires k < 4
    ensures var t' := t / 4 * 4 + k;
            t' / 4 == t / 4 && t' % 4 == k && t' / 32 == t / 32 && (t' < 16 <==> t < 16) && (t' >= 64 <==> t >= 64)
  {
  }

  /** A match of three literals' worth becomes the literals after the match before it. */
  lemma AbsorbShort(s: seq<byte>, s': seq<byte>, c: Conf, len: nat, dist: nat, lit: nat, p: nat, mlen: nat, mdist: nat)
    requires Parse(s, c.pos, c.mode) == Some(Match(p, len, dist, lit)) && 1 <= dist <= |c.out| && lit + mlen == 3 &&
      p + 3 <= |s|
    requires |s'| == |s| && var o := Inflate.Copy(c.out, dist, len) + s[p..p + lit];
             1 <= mdist <= |o| && s'[p..p + 3] == s[p..p + lit] + Copied(o, mdist, mlen)
    requires Agree(s, s', p - 2) && s'[p - 2] == s[p - 2] / 4 * 4 + 3 && s'[p - 1] == s[p - 1]
    ensures Step(s', c) ==
            Some(Next(Conf(p + 3, AfterShort,
              Inflate.Copy(Inflate.Copy(c.out, dist, len) + s[p..p + lit], mdist, mlen))))
  {
    hide Parse, Agree, Inflate.Copy;
    TrailingChange(s, s', c.pos, c.mode, 3);
    var o0, x := Inflate.Copy(c.out, dist, len), Copied(Inflate.Copy(c.out, dist, len) + s[p..p + lit], mdist, mlen);
    assert o0 + (s[p..p + lit] + x) == (o0 + s[p..p + lit]) + x;
  }

  /** A match between one to three literals and a run becomes part of one longer run. */
  lemma AbsorbRun(s: seq<byte>, s': seq<byte>, c: Conf, len: nat, dist: nat, lit: nat, p: nat, mlen: nat, mdist: nat,
                  t: nat)
    requires Parse(s, c.pos, c.mode) == Some(Match(p, len, dist, lit)) && 1 <= dist <= |c.out| && 1 <= t &&
      lit + mlen + t < 16
    requires Agree(s, s', p - 2)
    requires var ip := p + lit + mlen;
             ip + 1 + t + 3 <= |s| && s[ip] == t && AgreeFrom(s, s', ip + 1) &&
             var o := Inflate.Copy(c.out, dist, len) + s[p..p + lit];
             1 <= mdist <= |o| && s'[p + 1..ip + 1] == s[p..p + lit] + Copied(o, mdist, mlen)
    requires s'[p - 2] == s[p - 2] / 4 * 4 && s'[p - 1] == s[p - 1] && s'[p] == lit + mlen + t
    ensures var ip := p + lit + mlen; var o0 := Inflate.Copy(c.out, dist, len);
            Step(s', c) == Some(Next(Conf(p, AfterMatch, o0))) &&
            Step(s', Conf(p, AfterMatch, o0)) ==
            Some(Next(Conf(ip + t + 4, AfterRun,
              Inflate.Copy(o0 + s[p..p + lit], mdist, mlen) + s[ip + 1..ip + t + 4])))
  {
    hide Agree, Inflate.Copy, AgreeFrom, Step, Parse;
    var ip, o0, y := p + lit + mlen, Inflate.Copy(c.out, dist, len), s[p..p + lit];
    var x := Copied(o0 + y, mdist, mlen);
    DropTrailing(s, s', c, len, dist, lit, p);
    FromSlice(s, s', ip + 1, ip + 1, ip + t + 4);
    FromLength(s, s', ip + 1);
    assert s'[p + 1..ip + t + 4] == s'[p + 1..ip + 1] + s'[ip + 1..ip + t + 4];
    assert o0 + ((y + x) + s[ip + 1..ip + t + 4]) == ((o0 + y) + x) + s[ip + 1..ip + t + 4];
    ShortRun(s', p, lit + mlen + t, o0);
  }

  lemma DropTrailing(s: seq<byte>, s': seq<byte>, c: Conf, len: nat, dist: nat, lit: nat, p: nat)
    requires Parse(s, c.pos, c.mode) == Some(Match(p, len, dist, lit)) && 1 <= dist <= |c.out| && p <= |s|
    requires Agree(s, s', p - 2) && s'[p - 2] == s[p - 2] / 4 * 4 && s'[p - 1] == s[p - 1]
    ensures Step(s', c) == Some(Next(Conf(p, AfterMatch, Inflate.Copy(c.out, dist, len))))
  {
    hide Agree, Inflate.Copy, Parse;
    TrailingChange(s, s', c.pos, c.mode, 0);
    assert Inflate.Copy(c.out, dist, len) + s'[p..p] == Inflate.Copy(c.out, dist, len);
  }

  lemma ShortRun(s: seq<byte>, pos: nat, t: nat, out: seq<byte>)
    requires 1 <= t < 16 && pos + 1 + t + 3 <= |s| && s[pos] == t
    ensures Step(s, Conf(pos, AfterMatch, out)) ==
      Some(Next(Conf(pos + t + 4, AfterRun, out + s[pos + 1..pos + t + 4])))
  {
  }

  /** A match between two runs becomes part of one run. */
  lemma AbsorbBetween(s: seq<byte>, s': seq<byte>, c: Conf, lit: nat, mdist: nat, t: nat)
    requires c.mode == AfterMatch && 4 <= lit && 1 <= t && lit + 3 + t < 16
    requires var p := c.pos + 1 + lit;
             p + t + 6 <= |s| && s[c.pos] == lit - 3 && s[p + 2] == t && AgreeFrom(s, s', p + 3) &&
             1 <= mdist <= |c.out + s[c.pos + 1..p]| && s'[c.pos] == lit + 3 + t &&
             s'[c.pos + 1..p + 3] == s[c.pos + 1..p] + Copied(c.out + s[c.pos + 1..p], mdist, 3)
    ensures var p := c.pos + 1 + lit;
            Step(s', c) ==
            Some(Next(Conf(p + t + 6, AfterRun, Inflate.Copy(c.out + s[c.pos + 1..p], mdist, 3) + s[p + 3..p + t + 6])))
  {
    hide Inflate.Copy, AgreeFrom, Step;
    var p := c.pos + 1 + lit;
    var y := s[c.pos + 1..p];
    var x := Copied(c.out + y, mdist, 3);
    FromSlice(s, s', p + 3, p + 3, p + t + 6);
    FromLength(s, s', p + 3);
    assert s'[c.pos + 1..p + t + 6] == s'[c.pos + 1..p + 3] + s'[p + 3..p + t + 6];
    assert c.out + ((y + x) + s[p + 3..p + t + 6]) == ((c.out + y) + x) + s[p + 3..p + t + 6];
    ShortRun(s', c.pos, lit + 3 + t, c.out);
  }
}
